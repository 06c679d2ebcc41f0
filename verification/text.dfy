/** Strings as the script sees them: the whitespace class shared by
    `String.prototype.trim` and the regular-expression escape `\s`, trimming,
    and a few sequence helpers used by the form validator. */
module Text {

  import opened Wrappers

  /** ECMAScript WhiteSpace and LineTerminator code points: TAB, LF, VT, FF, CR,
      SPACE, NO-BREAK SPACE, OGHAM SPACE MARK, U+2000..U+200A, LINE SEPARATOR,
      PARAGRAPH SEPARATOR, NARROW NO-BREAK SPACE, MEDIUM MATHEMATICAL SPACE,
      IDEOGRAPHIC SPACE and the byte-order mark. `trim()` strips exactly these
      and `\s` matches exactly these. */
  predicate IsSpace(c: char) {
    var n := c as int;
    || (0x09 <= n <= 0x0D)
    || n == 0x20
    || n == 0xA0
    || n == 0x1680
    || (0x2000 <= n <= 0x200A)
    || n == 0x2028
    || n == 0x2029
    || n == 0x202F
    || n == 0x205F
    || n == 0x3000
    || n == 0xFEFF
  }

  /** Every character of `s` is whitespace (vacuously true of ""). */
  predicate AllSpace(s: string) {
    forall k :: 0 <= k < |s| ==> IsSpace(s[k])
  }

  /** No character of `s` is whitespace. */
  predicate NoSpace(s: string) {
    forall k :: 0 <= k < |s| ==> !IsSpace(s[k])
  }

  /** The first `n` characters of `s` are whitespace. */
  predicate SpaceBefore(s: string, n: int) {
    forall k :: 0 <= k < n && k < |s| ==> IsSpace(s[k])
  }

  /** The characters of `s` from position `n` on are whitespace. */
  predicate SpaceFrom(s: string, n: int) {
    forall k :: 0 <= n <= k < |s| ==> IsSpace(s[k])
  }

  /** `s` neither starts nor ends with whitespace. */
  predicate IsTrimmed(s: string) {
    |s| > 0 ==> !IsSpace(s[0]) && !IsSpace(s[|s| - 1])
  }

  /** `r` is the infix of `s` starting at `lo`, with only whitespace before and after it. */
  predicate TrimmedAt(s: string, r: string, lo: nat) {
    && lo + |r| <= |s|
    && (forall k :: 0 <= k < |r| ==> r[k] == s[lo + k])
    && SpaceBefore(s, lo)
    && SpaceFrom(s, lo + |r|)
  }

  /** The first position at or after `i` that does not hold whitespace, or `|s|`. */
  function SkipForward(s: string, i: nat): (j: nat)
    requires i <= |s|
    ensures i <= j <= |s|
    ensures forall k :: i <= k < j ==> IsSpace(s[k])
    ensures j < |s| ==> !IsSpace(s[j])
    decreases |s| - i
  {
    if i < |s| && IsSpace(s[i]) then SkipForward(s, i + 1) else i
  }

  /** The last position at or before `j`, but not before `lo`, that follows a
      character other than whitespace, or `lo`. */
  function SkipBackward(s: string, lo: nat, j: nat): (h: nat)
    requires lo <= j <= |s|
    ensures lo <= h <= j
    ensures forall k :: h <= k < j ==> IsSpace(s[k])
    ensures h > lo ==> !IsSpace(s[h - 1])
    decreases j
  {
    if j > lo && IsSpace(s[j - 1]) then SkipBackward(s, lo, j - 1) else j
  }

  /** Where the trimmed text starts. */
  function TrimStart(s: string): nat {
    SkipForward(s, 0)
  }

  /** `String.prototype.trim`: the infix of `s` that neither starts nor ends
      with whitespace and is surrounded only by whitespace. */
  function Trim(s: string): (r: string)
    ensures r == [] <==> AllSpace(s)
  {
    var lo := TrimStart(s);
    var hi := SkipBackward(s, lo, |s|);
    s[lo..hi]
  }

  /** The trim neither starts nor ends with whitespace, and it is the infix
      of `s` at `TrimStart(s)` with only whitespace before and after it. */
  lemma TrimCharacterization(s: string)
    ensures IsTrimmed(Trim(s))
    ensures TrimmedAt(s, Trim(s), TrimStart(s))
  {
  }

  /** Trimming twice trims nothing more. */
  lemma {:induction false} TrimIdempotent(s: string)
    ensures Trim(Trim(s)) == Trim(s)
  {
    TrimTrimmed(Trim(s));
  }

  /** A string that neither starts nor ends with whitespace is its own trim. */
  lemma {:induction false} TrimTrimmed(s: string)
    requires IsTrimmed(s)
    ensures Trim(s) == s
  {
    if |s| > 0 {
      assert SkipForward(s, 0) == 0;
      assert SkipBackward(s, 0, |s|) == |s|;
    }
  }

  /** The scanning implementation of `trim`: advance past leading whitespace,
      retreat past trailing whitespace, and keep what is in between. */
  method TrimBounds(s: string) returns (lo: nat, hi: nat)
    ensures lo <= hi <= |s|
    ensures SpaceBefore(s, lo) && SpaceFrom(s, hi)
    ensures lo < hi ==> !IsSpace(s[lo]) && !IsSpace(s[hi - 1])
    ensures s[lo..hi] == Trim(s)
  {
    lo := 0;
    while lo < |s| && IsSpace(s[lo])
      invariant lo <= |s|
      invariant SpaceBefore(s, lo)
    {
      lo := lo + 1;
    }
    hi := |s|;
    while hi > lo && IsSpace(s[hi - 1])
      invariant lo <= hi <= |s|
      invariant SpaceFrom(s, hi)
    {
      hi := hi - 1;
    }
    TrimUnique(s, s[lo..hi], lo);
  }

  /** The trim of `s` is the only trimmed infix of `s` surrounded by whitespace. */
  lemma TrimUnique(s: string, r: string, lo: nat)
    requires IsTrimmed(r) && TrimmedAt(s, r, lo)
    ensures r == Trim(s)
  {
    var t := Trim(s);
    var lo' := TrimStart(s);
    if r != [] {
      assert !IsSpace(s[lo]) && !IsSpace(s[lo + |r| - 1]);
      assert lo == lo';
      assert !IsSpace(s[lo' + |t| - 1]);
      assert |r| == |t|;
    }
  }

  /** No character of `s` is `c`. */
  predicate Lacks(s: string, c: char) {
    forall k :: 0 <= k < |s| ==> s[k] != c
  }

  /** Number of occurrences of `c` in `s`. */
  function Occurrences(s: string, c: char): (n: nat)
    ensures n <= |s|
    ensures n == 0 <==> Lacks(s, c)
  {
    if s == [] then 0
    else Occurrences(s[..|s| - 1], c) + (if s[|s| - 1] == c then 1 else 0)
  }

  /** Counting distributes over concatenation. */
  lemma {:induction false} OccurrencesAppend(a: string, b: string, c: char)
    ensures Occurrences(a + b, c) == Occurrences(a, c) + Occurrences(b, c)
    decreases |b|
  {
    if b == [] {
      assert a + b == a;
    } else {
      assert (a + b)[..|a + b| - 1] == a + b[..|b| - 1];
      OccurrencesAppend(a, b[..|b| - 1], c);
    }
  }

  /** Position of the first `c` in `s`, like `indexOf` returning -1 as None. */
  function IndexOf(s: string, c: char): (r: Option<nat>)
    ensures r.None? <==> Lacks(s, c)
    ensures r.Some? ==> r.value < |s| && s[r.value] == c
    ensures r.Some? ==> forall k :: 0 <= k < r.value ==> s[k] != c
  {
    if s == [] then None
    else if s[0] == c then Some(0)
    else
      var rest := IndexOf(s[1..], c);
      if rest.None? then None else Some(rest.value + 1)
  }

  /** `sep`-joined concatenation of `parts`, like `Array.prototype.join`. */
  function Join(parts: seq<string>, sep: string): string {
    if |parts| == 0 then []
    else if |parts| == 1 then parts[0]
    else parts[0] + sep + Join(parts[1..], sep)
  }

  /** The separator count of a join: a line-per-part rendering shows exactly
      as many line breaks as there are gaps between parts, provided no part
      has a line break of its own. */
  /** `s.split(c)`: the pieces between the occurrences of `c`, found with
      `IndexOf`; a string without `c` is one piece. */
  function Split(s: string, c: char): (pieces: seq<string>)
    ensures |pieces| == Occurrences(s, c) + 1
    decreases |s|
  {
    match IndexOf(s, c)
    case None => [s]
    case Some(i) =>
      assert s == s[..i] + [c] + s[i + 1..];
      OccurrencesAppend(s[..i] + [c], s[i + 1..], c);
      OccurrencesAppend(s[..i], [c], c);
      assert Occurrences([c], c) == 1 by { assert [c][..0] == []; }
      [s[..i]] + Split(s[i + 1..], c)
  }

  /** The first `c` of `p + [c] + t` is the one right after `p` when `p` lacks `c`. */
  lemma IndexOfAfter(p: string, c: char, t: string)
    requires Lacks(p, c)
    ensures IndexOf(p + [c] + t, c) == Some(|p|)
  {
    var s := p + [c] + t;
    assert s[|p|] == c;
    assert forall k :: 0 <= k < |p| ==> s[k] == p[k];
  }

  /** A piece without `c` followed by `c` splits off as the first piece. */
  lemma SplitCons(p: string, c: char, t: string)
    requires Lacks(p, c)
    ensures Split(p + [c] + t, c) == [p] + Split(t, c)
  {
    var s := p + [c] + t;
    IndexOfAfter(p, c, t);
    assert s[..|p|] == p;
    assert s[|p| + 1..] == t;
  }

  /** Splitting undoes joining, as long as no part holds the separator. */
  lemma {:induction false} SplitJoin(parts: seq<string>, c: char)
    requires |parts| > 0
    requires forall i :: 0 <= i < |parts| ==> Lacks(parts[i], c)
    ensures Split(Join(parts, [c]), c) == parts
    decreases |parts|
  {
    if |parts| == 1 {
      assert Join(parts, [c]) == parts[0];
    } else {
      var rest := Join(parts[1..], [c]);
      assert Join(parts, [c]) == parts[0] + [c] + rest;
      SplitCons(parts[0], c, rest);
      SplitJoin(parts[1..], c);
      assert parts == [parts[0]] + parts[1..];
    }
  }

  lemma {:induction false} JoinOccurrences(parts: seq<string>, c: char)
    requires |parts| > 0
    requires forall i :: 0 <= i < |parts| ==> Lacks(parts[i], c)
    ensures Occurrences(Join(parts, [c]), c) == |parts| - 1
  {
    if |parts| > 1 {
      JoinOccurrences(parts[1..], c);
      var rest := Join(parts[1..], [c]);
      OccurrencesAppend(parts[0] + [c], rest, c);
      OccurrencesAppend(parts[0], [c], c);
      assert Occurrences([c], c) == 1 by { assert [c][..0] == []; }
      assert parts[0] + [c] + rest == parts[0] + [c] + Join(parts[1..], [c]);
    }
  }
}
