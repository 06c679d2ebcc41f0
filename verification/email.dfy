/** The e-mail check of the contact form (`isValidEmail`, script.js lines
    172-175): the trimmed address must match `^[^\s@]+@[^\s@]+\.[^\s@]+$`. */
module Email {

  import opened Wrappers
  import opened Text

  /** The regular-expression class `[^\s@]`. */
  predicate IsAtom(c: char) {
    !IsSpace(c) && c != '@'
  }

  /** `[^\s@]+`: a non-empty run of atoms. */
  predicate IsAtomRun(t: string) {
    |t| > 0 && forall k :: 0 <= k < |t| ==> IsAtom(t[k])
  }

  /** `s` splits as local part `s[..at]`, `@`, domain label `s[at+1..dot]`, `.`,
      and the final label `s[dot+1..]`, each part one or more atoms. */
  predicate SplitsAt(s: string, at: int, dot: int) {
    && 0 <= at < dot < |s|
    && s[at] == '@'
    && s[dot] == '.'
    && IsAtomRun(s[..at])
    && IsAtomRun(s[at + 1..dot])
    && IsAtomRun(s[dot + 1..])
  }

  /** The whole of `s` matches the pattern: some choice of the `@` and of the
      `.` that the backtracking matcher may settle on makes every part fit. */
  ghost predicate MatchesPattern(s: string)
    ensures MatchesPattern(s) ==> |s| >= 5 && NoSpace(s)
    ensures MatchesPattern(s) ==> s[0] != '@' && s[|s| - 1] != '@'
  {
    if exists at, dot :: SplitsAt(s, at, dot) then
      var at, dot :| SplitsAt(s, at, dot);
      SplitFacts(s, at, dot);
      true
    else false
  }

  /** The domain (everything after the `@`) has a `.` that is neither its
      first nor its last character. */
  predicate HasInnerDot(domain: string) {
    exists k :: 0 < k < |domain| - 1 && domain[k] == '.'
  }

  /** `isValidEmail`, decided by a direct check: no whitespace, a first `@`
      that is not the first character, no second `@`, and an inner `.` in the
      domain. It agrees with the regular expression on every string. */
  function IsValidEmail(s: string): (r: bool)
    ensures r <==> MatchesPattern(s)
  {
    DirectCheckAgrees(s);
    DirectCheck(s)
  }

  /** The check `IsValidEmail` performs, spelled out on `IndexOf`. */
  predicate DirectCheck(s: string) {
    && NoSpace(s)
    && match IndexOf(s, '@')
       case None => false
       case Some(at) => 0 < at && '@' !in s[at + 1..] && HasInnerDot(s[at + 1..])
  }

  /** The direct check and the pattern accept the same strings. */
  lemma DirectCheckAgrees(s: string)
    ensures DirectCheck(s) <==> MatchesPattern(s)
  {
    if DirectCheck(s) {
      CheckAccepts(s);
    } else if at, dot :| SplitsAt(s, at, dot) {
      SplitFacts(s, at, dot);
    }
  }

  /** Every string the direct check accepts matches the pattern. */
  lemma CheckAccepts(s: string)
    requires NoSpace(s)
    requires IndexOf(s, '@').Some?
    requires var at := IndexOf(s, '@').value;
      0 < at && '@' !in s[at + 1..] && HasInnerDot(s[at + 1..])
    ensures MatchesPattern(s)
  {
    var at := IndexOf(s, '@').value;
    var domain := s[at + 1..];
    var k :| 0 < k < |domain| - 1 && domain[k] == '.';
    var dot := at + 1 + k;
    assert s[dot] == '.';
    assert forall j :: at < j < |s| ==> s[j] != '@' by {
      forall j | at < j < |s| ensures s[j] != '@' {
        assert domain[j - at - 1] == s[j];
      }
    }
    AtomRunBetween(s, 0, at);
    AtomRunBetween(s, at + 1, dot);
    AtomRunBetween(s, dot + 1, |s|);
    assert SplitsAt(s, at, dot);
  }

  /** A non-empty stretch of a whitespace-free string with no `@` in it is a
      run of atoms. */
  lemma AtomRunBetween(s: string, lo: int, hi: int)
    requires NoSpace(s) && 0 <= lo < hi <= |s|
    requires forall j :: lo <= j < hi ==> s[j] != '@'
    ensures IsAtomRun(s[lo..hi])
  {
    forall j | 0 <= j < hi - lo ensures IsAtom(s[lo..hi][j]) {
      assert s[lo..hi][j] == s[lo + j];
    }
  }

  /** What a successful split tells about the whole string. */
  lemma SplitFacts(s: string, at: int, dot: int)
    requires SplitsAt(s, at, dot)
    ensures NoSpace(s)
    ensures IndexOf(s, '@') == Some(at)
    ensures '@' !in s[at + 1..]
    ensures HasInnerDot(s[at + 1..])
  {
    var local, middle, top := s[..at], s[at + 1..dot], s[dot + 1..];
    assert forall j :: 0 <= j < at ==> s[j] == local[j];
    assert forall j :: at < j < dot ==> s[j] == middle[j - at - 1];
    assert forall j :: dot < j < |s| ==> s[j] == top[j - dot - 1];
    var domain := s[at + 1..];
    assert domain[dot - at - 1] == '.';
    assert '@' !in domain by {
      forall j | 0 <= j < |domain| ensures domain[j] != '@' {
        assert domain[j] == s[at + 1 + j];
      }
    }
  }

  /** The explicit reading of the pattern: no whitespace, exactly one `@`,
      something before it, and a `.` inside the part after it. */
  lemma {:induction false} ValidEmailCharacterization(s: string)
    ensures IsValidEmail(s) <==>
      && NoSpace(s)
      && Occurrences(s, '@') == 1
      && (var at := IndexOf(s, '@').value;
          && 0 < at
          && HasInnerDot(s[at + 1..]))
  {
    match IndexOf(s, '@')
    case None =>
    case Some(at) =>
      assert s == s[..at] + [s[at]] + s[at + 1..];
      OccurrencesAppend(s[..at] + [s[at]], s[at + 1..], '@');
      OccurrencesAppend(s[..at], [s[at]], '@');
      assert Occurrences([s[at]], '@') == 1 by { assert [s[at]][..0] == []; }
  }

  /** Sample addresses accepted and rejected by `isValidEmail`. */
  lemma Examples()
    ensures IsValidEmail("a@b.co")
    ensures !IsValidEmail("")
    ensures !IsValidEmail("abc")
    ensures !IsValidEmail("a@b")
    ensures !IsValidEmail("a b@c.com")
  {
    assert SplitsAt("a@b.co", 1, 3) by {
      assert "a@b.co"[..1] == "a";
      assert "a@b.co"[2..3] == "b";
      assert "a@b.co"[4..] == "co";
    }
    assert "a b@c.com"[1] == ' ';
  }
}
