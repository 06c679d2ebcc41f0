/** The contact form's submit handler (script.js lines 115-168): trim the three
    fields, collect every failed rule in a fixed order, and either alert the
    list or log the entry, show the success banner and reset the form. */
module ContactForm {

  import opened Text
  import opened Email

  /** The raw field values at submit time. */
  datatype Form = Form(name: string, email: string, message: string)

  /** One failed validation rule. */
  datatype FieldError = NameRequired | EmailRequired | EmailInvalid | MessageRequired

  /** The line the alert shows for each failed rule. */
  function MessageOf(e: FieldError): (m: string)
    ensures m != [] && Lacks(m, '\n')
  {
    match e
    case NameRequired =>
      var m := "Name is required"; assert Lacks(m, '\n'); m
    case EmailRequired =>
      var m := "Email is required"; assert Lacks(m, '\n'); m
    case EmailInvalid =>
      var m := "Please enter a valid email address"; assert Lacks(m, '\n'); m
    case MessageRequired =>
      var m := "Message is required"; assert Lacks(m, '\n'); m
  }

  /** Each rule has its own line, so the alert tells the rules apart. */
  lemma MessagesDistinct(a: FieldError, b: FieldError)
    ensures MessageOf(a) == MessageOf(b) ==> a == b
  {
    if a != b {
      assert |MessageOf(a)| != |MessageOf(b)|;
    }
  }

  const AlertHeading: string := "Please fix the following errors:"

  /** Position of the field a rule belongs to: name, then email, then message. */
  function Rank(e: FieldError): nat {
    match e
    case NameRequired => 0
    case EmailRequired => 1
    case EmailInvalid => 1
    case MessageRequired => 2
  }

  /** Errors listed field by field, at most one per field. */
  predicate InFieldOrder(errs: seq<FieldError>) {
    forall i, j :: 0 <= i < j < |errs| ==> Rank(errs[i]) < Rank(errs[j])
  }

  /** The values the handler works with: every field trimmed. */
  function Trimmed(f: Form): (r: Form)
    ensures r.name == [] <==> AllSpace(f.name)
    ensures r.email == [] <==> AllSpace(f.email)
    ensures r.message == [] <==> AllSpace(f.message)
  {
    Form(Trim(f.name), Trim(f.email), Trim(f.message))
  }

  /** The error list the handler builds. Each rule fires exactly when its
      condition holds, the email rules exclude each other, and the list runs
      in field order, so it holds at most three entries. */
  function Validate(f: Form): (errs: seq<FieldError>)
    ensures NameRequired in errs <==> AllSpace(f.name)
    ensures EmailRequired in errs <==> AllSpace(f.email)
    ensures EmailInvalid in errs <==> !AllSpace(f.email) && !MatchesPattern(Trim(f.email))
    ensures MessageRequired in errs <==> AllSpace(f.message)
  {
    var n, e, m := NameErrors(f.name), EmailErrors(f.email), MessageErrors(f.message);
    FieldOrderConcat(n, e, m);
    n + e + m
  }

  /** The error list runs in field order, at most one error per field, so it
      holds at most three errors. */
  lemma ValidateInFieldOrder(f: Form)
    ensures InFieldOrder(Validate(f)) && |Validate(f)| <= 3
  {
    FieldOrderConcat(NameErrors(f.name), EmailErrors(f.email), MessageErrors(f.message));
  }

  /** The three per-field lists, one after another, are in field order. */
  lemma FieldOrderConcat(n: seq<FieldError>, e: seq<FieldError>, m: seq<FieldError>)
    requires n == [] || n == [NameRequired]
    requires e == [] || e == [EmailRequired] || e == [EmailInvalid]
    requires m == [] || m == [MessageRequired]
    ensures InFieldOrder(n + e + m) && |n + e + m| <= 3
    ensures NameRequired in n + e + m <==> n == [NameRequired]
    ensures EmailRequired in n + e + m <==> e == [EmailRequired]
    ensures EmailInvalid in n + e + m <==> e == [EmailInvalid]
    ensures MessageRequired in n + e + m <==> m == [MessageRequired]
  {
  }

  /** The name rule: "required" when nothing but whitespace was entered. */
  function NameErrors(name: string): (errs: seq<FieldError>)
    ensures errs == [] || errs == [NameRequired]
    ensures errs == [NameRequired] <==> AllSpace(name)
  {
    if Trim(name) == [] then [NameRequired] else []
  }

  /** The e-mail rules: "required" when blank, otherwise "invalid" when the
      trimmed value does not match the pattern. */
  function EmailErrors(email: string): (errs: seq<FieldError>)
    ensures errs == [] || errs == [EmailRequired] || errs == [EmailInvalid]
    ensures errs == [EmailRequired] <==> AllSpace(email)
    ensures errs == [EmailInvalid] <==> !AllSpace(email) && !MatchesPattern(Trim(email))
  {
    var t := Trim(email);
    if t == [] then [EmailRequired]
    else if !IsValidEmail(t) then [EmailInvalid]
    else []
  }

  /** The message rule: "required" when nothing but whitespace was entered. */
  function MessageErrors(message: string): (errs: seq<FieldError>)
    ensures errs == [] || errs == [MessageRequired]
    ensures errs == [MessageRequired] <==> AllSpace(message)
  {
    if Trim(message) == [] then [MessageRequired] else []
  }

  /** The submission is valid exactly when no rule fires. */
  lemma ValidIffNoErrors(f: Form)
    ensures Validate(f) == [] <==>
      && !AllSpace(f.name)
      && MatchesPattern(Trim(f.email))
      && !AllSpace(f.message)
  {
    if MatchesPattern(Trim(f.email)) {
      var at, dot :| SplitsAt(Trim(f.email), at, dot);
    }
  }

  /** Field order and membership determine a list completely: the contract of
      `Validate` pins down its result. */
  lemma {:induction false} FieldOrderUnique(a: seq<FieldError>, b: seq<FieldError>)
    requires InFieldOrder(a) && InFieldOrder(b)
    requires forall e :: e in a <==> e in b
    ensures a == b
    decreases |a|
  {
    if a != [] || b != [] {
      assert a != [] ==> a[0] in b;
      assert b != [] ==> b[0] in a;
      var i :| 0 <= i < |a| && a[i] == b[0];
      var j :| 0 <= j < |b| && b[j] == a[0];
      assert i == 0 && j == 0;
      forall e ensures e in a[1..] <==> e in b[1..] {
        TailByRank(a, e);
        TailByRank(b, e);
      }
      FieldOrderUnique(a[1..], b[1..]);
    }
  }

  /** In a field-ordered list, the entries after the head are exactly the
      members of higher rank. */
  lemma TailByRank(a: seq<FieldError>, e: FieldError)
    requires InFieldOrder(a) && a != []
    ensures e in a[1..] <==> e in a && Rank(e) > Rank(a[0])
  {
    if e in a[1..] {
      var k :| 0 <= k < |a| - 1 && a[1..][k] == e;
      assert a[k + 1] == e;
    }
    if e in a && Rank(e) > Rank(a[0]) {
      var k :| 0 <= k < |a| && a[k] == e;
      assert a[1..][k - 1] == e;
    }
  }

  /** What the user sees or what happens instead of an alert. */
  datatype Effect =
    | Alert(text: string)     // blocking alert; the form keeps its contents
    | Submitted(logged: Form) // entry logged, success banner shown, form reset

  /** The handler's effect and the field values it leaves behind. */
  datatype Response = Response(effect: Effect, after: Form)

  /** Field values after `reset()`, taking the markup defaults to be empty. */
  const Blank: Form := Form("", "", "")

  /** The alert's lines, one per error in list order. */
  function Lines(errs: seq<FieldError>): seq<string> {
    if errs == [] then [] else [MessageOf(errs[0])] + Lines(errs[1..])
  }

  /** Alert text: the heading, then one line per error. */
  function AlertText(errs: seq<FieldError>): (t: string)
    ensures |t| > |AlertHeading| && t[|AlertHeading|] == '\n'
    ensures forall k :: 0 <= k < |AlertHeading| ==> t[k] == AlertHeading[k]
  {
    AlertHeading + "\n" + Join(Lines(errs), "\n")
  }

  /** The handler's two accumulators: the `isValid` flag and the `errors` list. */
  datatype Verdict = Verdict(isValid: bool, errors: seq<FieldError>)

  /** The flag says exactly whether the list is empty. */
  predicate FlagAgrees(v: Verdict) {
    v.isValid <==> v.errors == []
  }

  /** One rule of the handler: when it fires, push its error and clear the flag. */
  function Rule(v: Verdict, fires: bool, e: FieldError): (r: Verdict)
    ensures FlagAgrees(v) ==> FlagAgrees(r)
    ensures forall x :: x in r.errors <==> x in v.errors || (fires && x == e)
  {
    if fires then Verdict(false, v.errors + [e]) else v
  }

  /** The rules as the handler runs them, one after another on the trimmed
      values, starting from a valid flag and an empty list. */
  function Check(f: Form): (v: Verdict)
    ensures FlagAgrees(v)
  {
    var t := Trimmed(f);
    var start := Verdict(true, []);
    var afterName := Rule(start, t.name == [], NameRequired);
    var afterEmail :=
      if t.email == [] then Rule(afterName, true, EmailRequired)
      else Rule(afterName, !IsValidEmail(t.email), EmailInvalid);
    Rule(afterEmail, t.message == [], MessageRequired)
  }

  /** Running the rules one by one builds the field-by-field list `Validate`. */
  lemma CheckIsValidate(f: Form)
    ensures Check(f).errors == Validate(f)
  {
    var t := Trimmed(f);
    var start := Verdict(true, []);
    var afterName := Rule(start, t.name == [], NameRequired);
    assert afterName.errors == NameErrors(f.name);
    var afterEmail :=
      if t.email == [] then Rule(afterName, true, EmailRequired)
      else Rule(afterName, !IsValidEmail(t.email), EmailInvalid);
    assert afterEmail.errors == NameErrors(f.name) + EmailErrors(f.email);
    assert Check(f) == Rule(afterEmail, t.message == [], MessageRequired);
  }

  /** What the handler does with its verdict on `f`: alert the list and keep
      the form, or log the trimmed entry and reset. */
  function Respond(f: Form, isValid: bool, errs: seq<FieldError>): (r: Response)
    ensures r.effect.Submitted? <==> isValid
    ensures r.effect.Alert? ==> r.after == f && r.effect.text == AlertText(errs)
    ensures r.effect.Submitted? ==> r.after == Blank && r.effect.logged == Trimmed(f)
  {
    if !isValid then Response(Alert(AlertText(errs)), f)
    else Response(Submitted(Trimmed(f)), Blank)
  }

  /** The submit handler: run the rules, then respond. */
  function Submit(f: Form): (r: Response)
    ensures r.effect.Submitted? <==> Validate(f) == []
  {
    var v := Check(f);
    CheckIsValidate(f);
    Respond(f, v.isValid, v.errors)
  }

  /** Whatever is logged has a name, a message and a well-formed address. */
  lemma LoggedEntryIsValid(f: Form)
    ensures var r := Submit(f);
      r.effect.Submitted? ==>
        && r.effect.logged.name != [] && r.effect.logged.message != []
        && MatchesPattern(r.effect.logged.email)
  {
    ValidIffNoErrors(f);
  }

  /** The alert shows one line per error below its heading. */
  lemma AlertLines(errs: seq<FieldError>)
    requires errs != []
    ensures Occurrences(AlertText(errs), '\n') == |errs|
  {
    var lines := Lines(errs);
    LinesWithoutBreaks(errs);
    JoinOccurrences(lines, '\n');
    HeadingLine();
    OccurrencesAppend(AlertHeading + "\n", Join(lines, "\n"), '\n');
  }

  /** Split at its line breaks, the alert reads: the heading, then the
      message of each error in list order. */
  lemma AlertSplits(errs: seq<FieldError>)
    requires errs != []
    ensures Split(AlertText(errs), '\n') == [AlertHeading] + Lines(errs)
  {
    var parts := [AlertHeading] + Lines(errs);
    AlertIsJoin(errs);
    PartsWithoutBreaks(errs);
    SplitJoin(parts, '\n');
  }

  /** The alert is the heading and the lines joined with line breaks. */
  lemma AlertIsJoin(errs: seq<FieldError>)
    requires errs != []
    ensures AlertText(errs) == Join([AlertHeading] + Lines(errs), "\n")
  {
    var parts := [AlertHeading] + Lines(errs);
    assert |parts| > 1 && parts[0] == AlertHeading && parts[1..] == Lines(errs);
  }

  /** Neither the heading nor any error line holds a line break. */
  lemma PartsWithoutBreaks(errs: seq<FieldError>)
    ensures var parts := [AlertHeading] + Lines(errs);
      forall i :: 0 <= i < |parts| ==> Lacks(parts[i], '\n')
  {
    var lines := Lines(errs);
    var parts := [AlertHeading] + lines;
    LinesWithoutBreaks(errs);
    assert Lacks(AlertHeading, '\n');
    forall i | 0 <= i < |parts| ensures Lacks(parts[i], '\n') {
      if i > 0 {
        assert parts[i] == lines[i - 1];
      }
    }
  }

  /** Line `k + 1` of the alert is the message of the `k`-th error. */
  lemma AlertReadsErrors(errs: seq<FieldError>)
    requires errs != []
    ensures var pieces := Split(AlertText(errs), '\n');
      && |pieces| == |errs| + 1
      && pieces[0] == AlertHeading
      && forall k :: 0 <= k < |errs| ==> pieces[k + 1] == MessageOf(errs[k])
  {
    AlertSplits(errs);
    LinesWithoutBreaks(errs);
  }

  /** The heading takes up exactly one line. */
  lemma HeadingLine()
    ensures Occurrences(AlertHeading + "\n", '\n') == 1
  {
    var head := AlertHeading + "\n";
    assert Lacks(AlertHeading, '\n');
    assert head[..|head| - 1] == AlertHeading;
  }

  /** One line per error, the error's message in list order, none of them
      containing a line break. */
  lemma {:induction false} LinesWithoutBreaks(errs: seq<FieldError>)
    ensures |Lines(errs)| == |errs|
    ensures forall i :: 0 <= i < |errs| ==> Lines(errs)[i] == MessageOf(errs[i])
    ensures forall i :: 0 <= i < |errs| ==> Lacks(Lines(errs)[i], '\n')
  {
    if errs != [] {
      LinesWithoutBreaks(errs[1..]);
    }
  }

  /** Empty name, empty email, valid message: exactly the two "required" errors. */
  lemma TwoMissingFields()
    ensures Validate(Form("", "", "Hello")) == [NameRequired, EmailRequired]
  {
    assert NameErrors("") == [NameRequired] by {}
    assert EmailErrors("") == [EmailRequired] by {}
    assert MessageErrors("Hello") == [] by { assert !IsSpace("Hello"[0]); }
    assert Validate(Form("", "", "Hello"))
        == NameErrors("") + EmailErrors("") + MessageErrors("Hello") by {}
  }

  /** ... so submission is blocked with the alert for those two, the form untouched. */
  lemma TwoMissingFieldsSubmit()
    ensures Submit(Form("", "", "Hello"))
         == Response(Alert(AlertText([NameRequired, EmailRequired])), Form("", "", "Hello"))
  {
    TwoMissingFields();
    CheckIsValidate(Form("", "", "Hello"));
  }
}
