# Portfolio page behaviour, modelled in Dafny

This project models the client-side behaviour script of a personal portfolio
page (`script.js`). The script attaches small event handlers to a static page.
The parts with statable logic are modelled as pure functions over immutable
state:

- **Contact form** (`ContactForm`, `Email`, `Text`). On submit, the handler
  trims the name, e-mail and message fields. It then collects the failed rules
  in field order: name, then e-mail, then message. If any rule failed, it
  alerts the whole list. Otherwise it logs the trimmed entry, shows the success
  banner and resets the form. The e-mail rule is the regular expression
  `^[^\s@]+@[^\s@]+\.[^\s@]+$`. It is modelled twice: as a decomposition into
  the pattern's parts (`Email.MatchesPattern`), and as a direct check
  (`Email.IsValidEmail`). The two are proved equal on every string.
- **Theme preference** (`Theme`). At load time, the page restores dark mode
  when the stored value under "theme" is exactly "dark". The toggle button
  flips the mode, sets its glyph and writes the new value back.
- **Header shadow** (`Header`). The `scrolled` class is present exactly when
  the vertical offset is strictly greater than 50.
- **Certificate modal** (`Modal`). The inline `display` style of the modal
  element is driven by `openModal`, `closeModal`, the close button, a click on
  the backdrop and the Escape key.
- **Staggered entrance** (`Stagger`). Timeline items and skill cards get timers
  of `index * 300` and `index * 200` ms. Here `index` is the entry's position
  in the observer callback's batch.
- **Scroll reveal** (`Reveal`). Sections get the `active` class when they
  intersect, and never lose it.

Whitespace (`Text.IsSpace`) is the ECMAScript WhiteSpace plus LineTerminator
set. `String.prototype.trim` and the `\s` escape both use that set. A Dafny
`char` is a Unicode scalar value, while JavaScript strings are UTF-16 code
units. No whitespace character lies outside the Basic Multilingual Plane, so
trimming and matching give the same verdicts in both models.

Behaviour worth knowing, modelled as the code does it:

- The stagger index counts every entry of the callback's batch, including
  entries that are not intersecting. It restarts at zero in each batch, so
  it is not the element's index among all observed elements.
- The header comparison is strict, so an offset of exactly 50 removes the
  shadow.
- `getItem('theme') || 'light'` treats an absent key and an empty string
  alike. Only the exact string "dark" restores dark mode.
- Escape acts only when `display` is "block". A modal whose inline display was
  never set stays as it is.
- `openModal` and `closeModal` check that the modal element exists. The
  close-button and Escape listeners do not: with the element missing they
  throw a `TypeError` (`Modal.Dispatch`).

## Model

| member | source | states |
|---|---|---|
| Text.Trim | script.js:120-122 | the trimmed value is empty exactly when the field is all whitespace |
| Text.TrimCharacterization | script.js:120-122 | the trimmed value neither starts nor ends with whitespace, and it is the infix of the field with only whitespace before and after it |
| Text.TrimBounds | script.js:120-122 | a left-to-right then right-to-left scan finds bounds with only whitespace outside and non-whitespace at both ends, and the text between them is `Trim` |
| Text.TrimUnique | script.js:120-122 | any trimmed infix surrounded only by whitespace is the trim, so trim is uniquely determined |
| Text.TrimIdempotent | script.js:120-122 | trimming an already trimmed value changes nothing |
| Text.JoinOccurrences | script.js:147 | joining n line-free parts with a line break gives exactly n-1 line breaks |
| Text.Split | script.js:147 | splitting at a character gives one more piece than the character's occurrences |
| Text.SplitJoin | script.js:147 | splitting at the separator undoes joining, when no part holds the separator |
| Email.IsValidEmail | script.js:172-175 | the direct check accepts a string exactly when the string splits as local part, `@`, label, `.`, final label, each one or more non-whitespace non-`@` characters |
| Email.MatchesPattern | script.js:173 | the regular expression as a decomposition: local part, `@`, label, `.`, final label, each one or more characters other than whitespace and `@`; a match has at least five characters, no whitespace, and neither starts nor ends with `@` |
| Email.DirectCheckAgrees | script.js:172-175 | both directions: the direct check and the regular-expression decomposition accept the same strings |
| Email.ValidEmailCharacterization | script.js:172-175 | a valid address has no whitespace, exactly one `@`, a non-empty part before it, and a `.` inside the part after it that is neither first nor last; and conversely |
| Email.Examples | script.js:172-175 | `a@b.co` is accepted; the empty string, `abc`, `a@b` and `a b@c.com` are rejected |
| ContactForm.MessageOf | script.js:128-144 | each rule's alert line is non-empty and has no line break |
| ContactForm.MessagesDistinct | script.js:128-144 | two rules with the same alert line are the same rule |
| ContactForm.Trimmed | script.js:120-122 | each trimmed field is empty exactly when the raw field is all whitespace |
| ContactForm.NameErrors | script.js:128-131 | "Name is required" exactly when the raw name is all whitespace |
| ContactForm.EmailErrors | script.js:133-139 | at most one e-mail error; "required" exactly when the raw e-mail is all whitespace; "invalid" exactly when it is not blank and its trim does not match the pattern |
| ContactForm.MessageErrors | script.js:141-144 | "Message is required" exactly when the raw message is all whitespace |
| ContactForm.Validate | script.js:124-144 | each of the four errors is in the list exactly when its condition holds |
| ContactForm.ValidateInFieldOrder | script.js:124-144 | the list is in field order (name, e-mail, message) with at most one error per field, so it holds at most three errors |
| ContactForm.FieldOrderUnique | script.js:124-144 | two field-ordered error lists with the same members are equal, so the contract of `Validate` determines its result |
| ContactForm.ValidIffNoErrors | script.js:125-149 | the error list is empty exactly when the name and message are not blank and the trimmed e-mail matches the pattern |
| ContactForm.Rule | script.js:128-131 | one rule of the handler: the list gains the rule's error exactly when it fires, and a flag that agreed with the list's emptiness still agrees |
| ContactForm.Check | script.js:124-144 | running the rules in order from a valid flag and an empty list leaves the `isValid` flag true exactly when the `errors` list is empty |
| ContactForm.CheckIsValidate | script.js:124-144 | the list the rules accumulate one by one is the field-by-field list `Validate` |
| ContactForm.Respond | script.js:146-167 | the entry is submitted exactly when the `isValid` flag is set; otherwise the alert shows the heading and the error list and the form keeps its values; on success the trimmed values are logged and the form is reset |
| ContactForm.Submit | script.js:116-167 | the entry is submitted exactly when validation finds no error, that is exactly when the flag the rules leave is set |
| ContactForm.LoggedEntryIsValid | script.js:146-152 | whenever the handler logs an entry, it has a non-empty name and message and an e-mail matching the pattern |
| ContactForm.AlertText | script.js:147 | the alert text starts with the heading "Please fix the following errors:" followed by a line break |
| ContactForm.AlertLines | script.js:147 | the alert text has exactly one line break per error |
| ContactForm.AlertSplits | script.js:147 | split at its line breaks, the alert is the heading followed by the error lines |
| ContactForm.AlertReadsErrors | script.js:147 | the alert's first line is the heading and line k+1 is the message of the k-th error, in list order |
| ContactForm.TwoMissingFields | script.js:128-139 | an empty name, an empty e-mail and a valid message give exactly `[NameRequired, EmailRequired]` |
| ContactForm.TwoMissingFieldsSubmit | script.js:146-148 | that form is not submitted: the alert lists those two errors and the fields are left unchanged |
| Theme.Preference | script.js:6 | the preference is "dark" exactly when the stored value is "dark"; an absent or empty value reads as "light"; any other non-empty value is taken as stored |
| Theme.Load | script.js:5-10 | dark mode is on exactly when the markup already has it or the stored value is "dark"; the glyph becomes the sun exactly when the stored value is "dark", otherwise the markup glyph stays; storage is not written |
| Theme.Toggle | script.js:12-23 | the mode flips from any state; afterwards glyph and stored value spell out the new mode (dark, sun and stored "dark" go together) |
| Theme.SavedIsConsistent | script.js:16-22 | a state whose glyph and stored value spell out its mode is consistent |
| Theme.LoadConsistent | script.js:5-10 | with a light body and a moon in the markup, a freshly loaded page is consistent |
| Theme.LoadConsistentIff | script.js:5-10 | a freshly loaded page is consistent exactly when "dark" was stored, or when the markup has a light body and a moon |
| Theme.ToggleTwice | script.js:12-23 | two clicks restore the mode; from a saved state they restore the whole state |
| Theme.ReloadRestores | script.js:5-23 | reloading a page with a light body and a moon in its markup from the value a toggle stored restores the same mode and glyph |
| Theme.ToggleTimesConsistent | script.js:12-23 | after any non-empty run of clicks the state is saved and consistent, and the mode has flipped once per click |
| Header.OnScroll | script.js:103-109 | the class `scrolled` is present exactly when the offset is strictly above 50; no other class changes |
| Header.ReplayDependsOnLastOffset | script.js:103-109 | after any trajectory of scroll events the shadow depends only on the last offset, and other classes are untouched |
| Header.OnScrollIdempotent | script.js:103-109 | handling the same offset twice equals handling it once |
| Header.ThresholdIsStrict | script.js:104 | exactly 50 gives no shadow, 50.5 gives one, and a deeper offset never loses it |
| Modal.Step | script.js:195-235 | open gives "block"; close, the close button and a backdrop click give "none"; Escape turns "block" into "none" and leaves any other display, including unset; other keys and other clicks change nothing |
| Modal.StepIdempotent | script.js:195-235 | delivering any event twice is the same as delivering it once |
| Modal.RunShown | script.js:195-235 | after any run of events the modal is shown exactly when it was opened and not hidden since, or was shown at the start and nothing hid it |
| Modal.Dispatch | script.js:195-235 | with the element present each event acts as `Step`; without it the close button and Escape throw, and every other event does nothing |
| Modal.EscapeScenarios | script.js:213-218 | open then Escape hides; Escape on an unset or hidden modal is a no-op |
| Stagger.StepOf | script.js:40-77 | the timeline step is 300 ms and the skill-card step is 200 ms |
| Stagger.Schedule | script.js:43-77 | one timer per intersecting entry and none for the rest; each delay is the entry's position in its batch times the group's step; timers run in batch order with strictly increasing delays |
| Stagger.CountIsMultiplicity | script.js:44-45 | the count that fixes the number of timers is the number of intersecting entries, the multiplicity of `true` among the batch's flags |
| Stagger.ScheduleBatch | script.js:44-51 | the single-pass callback loop schedules exactly `Schedule` |
| Stagger.FirstEntryImmediate | script.js:44-49 | an intersecting first entry of any batch gets delay 0, wherever it sits among all observed elements |
| Reveal.RevealBatch | script.js:28-33 | after a callback, an element is active exactly when it was active before or the batch has an intersecting entry for it |
| Reveal.RevealIsPermanent | script.js:28-38 | across any sequence of callbacks no element loses the `active` class |
| Reveal.RevealBatchIdempotent | script.js:28-33 | delivering the same batch twice activates nothing more |

## Left out

- DOM lookups, `classList` and `style` mutation, and the registration and
  visibility thresholds of the intersection observers are left out. These are
  browser plumbing. Intersection is an input: a `bool` per entry.
- The success banner's timers (5000 ms, then 500 ms), the slide animations and
  the scheduling of the stagger timers are left out. This is event-loop timing;
  only the delay values are modelled.
- `localStorage` reads and writes are left out as I/O. The stored value is a
  field of `Theme.ThemeState`, and `Theme.Load` takes it as a parameter.
- `alert`, `console.log` and `form.reset()` are left out as foreign side
  effects. They appear as the `ContactForm.Effect` returned, with the alert
  text as a string. The reset takes the markup's default field values to be
  empty.
- Smooth anchor scrolling (script.js:86-98) is left out. It is a selector
  lookup followed by `scrollIntoView`, with no statable logic.
- Progress-bar widths (script.js:177-192) are left out. They copy an attribute
  string into a style.
- The timeline and skill-card initial inline styles (script.js:56-61, 79-84)
  are left out. They are constant style writes.
- `initModal` is assumed to have run (DOMContentLoaded). Before that, only
  `openModal` and `closeModal` would react.
- The body's `dark-mode` class and the toggle button's glyph in the markup
  are inputs to `Theme.Load`. With a light body and a moon in the markup, the
  loaded page is consistent for every stored value (`Theme.LoadConsistent`);
  with any other markup, only when the stored value is "dark"
  (`Theme.LoadConsistentIff`).
- Header.OnScroll: `scrollY` is a floating-point number in browsers. It is
  modelled as an exact real, which is the same for the `> 50` comparison.
- The UTF-16 surrogate-pair view of strings is left out: see the note on
  `Text.IsSpace` above.
