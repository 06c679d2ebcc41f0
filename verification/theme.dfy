/** Dark-mode preference (script.js lines 1-23): the page restores the stored
    choice at load time, and the toggle button flips it, updates its own
    glyph and writes the new choice back to storage under the key "theme". */
module Theme {

  import opened Wrappers

  /** The toggle button's glyph: a sun offers light mode, a moon dark mode. */
  datatype Icon = Sun | Moon

  /** Whether the body carries the `dark-mode` class, the button's glyph, and
      the value stored under "theme" (None when the key is absent). */
  datatype ThemeState = ThemeState(dark: bool, icon: Icon, stored: Option<string>)

  const DarkValue: string := "dark"
  const LightValue: string := "light"

  /** The three parts tell the same story: dark mode, the sun glyph and a
      stored "dark" go together. */
  predicate Consistent(t: ThemeState) {
    && (t.dark <==> t.icon == Sun)
    && (t.dark <==> t.stored == Some(DarkValue))
  }

  /** The state a toggle leaves behind: glyph and stored value both spell out
      the current mode. */
  predicate Saved(t: ThemeState) {
    && t.icon == (if t.dark then Sun else Moon)
    && t.stored == Some(if t.dark then DarkValue else LightValue)
  }

  /** `localStorage.getItem('theme') || 'light'`: an absent key and the empty
      string (falsy) both read as "light". */
  function Preference(stored: Option<string>): (p: string)
    ensures p == DarkValue <==> stored == Some(DarkValue)
    ensures stored.None? || stored == Some([]) ==> p == LightValue
    ensures stored.Some? && stored.value != [] ==> p == stored.value
  {
    match stored
    case None => LightValue
    case Some(v) => if v == [] then LightValue else v
  }

  /** Page load. The stored string "dark" adds the `dark-mode` class and the
      sun glyph; anything else leaves the markup's class and glyph as they are,
      since the script only ever adds the class here. Nothing is written to
      storage. */
  function Load(stored: Option<string>, markupDark: bool, markupIcon: Icon): (t: ThemeState)
    ensures t.dark <==> markupDark || stored == Some(DarkValue)
    ensures t.icon == (if stored == Some(DarkValue) then Sun else markupIcon)
    ensures t.stored == stored
  {
    if Preference(stored) == DarkValue then ThemeState(true, Sun, stored)
    else ThemeState(markupDark, markupIcon, stored)
  }

  /** A click on the toggle button: the mode flips, whatever it was, and the
      glyph and the stored value are brought in line with it. */
  function Toggle(t: ThemeState): (t': ThemeState)
    ensures t'.dark == !t.dark
    ensures Saved(t') && Consistent(t')
  {
    var dark := !t.dark;
    if dark then ThemeState(true, Sun, Some(DarkValue))
    else ThemeState(false, Moon, Some(LightValue))
  }

  /** A saved state is consistent. */
  lemma SavedIsConsistent(t: ThemeState)
    requires Saved(t)
    ensures Consistent(t)
  {
  }

  /** With a light body and a moon in the markup, a freshly loaded page is
      consistent. */
  lemma LoadConsistent(stored: Option<string>)
    ensures Consistent(Load(stored, false, Moon))
  {
  }

  /** A loaded page is consistent exactly when "dark" was stored, or when the
      markup has a light body and a moon. */
  lemma LoadConsistentIff(stored: Option<string>, markupDark: bool, markupIcon: Icon)
    ensures Consistent(Load(stored, markupDark, markupIcon)) <==>
      stored == Some(DarkValue) || (!markupDark && markupIcon == Moon)
  {
  }

  /** Two clicks restore the mode; from a saved state they restore everything. */
  lemma ToggleTwice(t: ThemeState)
    ensures Toggle(Toggle(t)).dark == t.dark
    ensures Saved(t) ==> Toggle(Toggle(t)) == t
  {
  }

  /** Persisting then reloading: the page, with a light body and a moon in
      its markup, loaded from what a toggle stored shows the same mode and
      glyph as the page that stored it. */
  lemma ReloadRestores(t: ThemeState)
    ensures var saved := Toggle(t);
      var reloaded := Load(saved.stored, false, Moon);
      reloaded.dark == saved.dark && reloaded.icon == saved.icon
  {
  }

  /** `n` clicks in a row. */
  function ToggleTimes(t: ThemeState, n: nat): ThemeState
    decreases n
  {
    if n == 0 then t else Toggle(ToggleTimes(t, n - 1))
  }

  /** After any non-empty run of clicks the stored value, the glyph and the
      mode agree, and the mode has flipped once per click. */
  lemma {:induction false} ToggleTimesConsistent(t: ThemeState, n: nat)
    requires n > 0
    ensures Saved(ToggleTimes(t, n)) && Consistent(ToggleTimes(t, n))
    ensures ToggleTimes(t, n).dark == (if n % 2 == 0 then t.dark else !t.dark)
  {
    if n > 1 {
      ToggleTimesConsistent(t, n - 1);
    }
  }
}
