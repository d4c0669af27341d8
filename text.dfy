/**
 * String helpers shared by the Python models and the browser scripts:
 * ASCII digits and lower-casing, JavaScript `trim`, `startsWith`, `includes`,
 * and `split`/`join` on a separator string.
 */
module Text {
  import opened Wrappers

  // ---------------------------------------------------------------- digits

  predicate IsDigit(c: char) {
    '0' <= c <= '9'
  }

  predicate AllDigits(s: string) {
    forall i :: 0 <= i < |s| ==> IsDigit(s[i])
  }

  function DigitValue(c: char): (d: nat)
    requires IsDigit(c)
    ensures d < 10
  {
    c as int - '0' as int
  }

  function DigitChar(d: nat): (c: char)
    requires d < 10
    ensures IsDigit(c) && DigitValue(c) == d
  {
    ('0' as int + d) as char
  }

  /** The number a string of decimal digits denotes (leading zeros allowed). */
  function Value(s: string): nat
    requires AllDigits(s)
  {
    if s == [] then 0 else Value(s[..|s| - 1]) * 10 + DigitValue(s[|s| - 1])
  }

  function Pow10(w: nat): (p: nat)
    ensures p >= 1
  {
    if w == 0 then 1 else 10 * Pow10(w - 1)
  }

  /** True when four consecutive ASCII digits occur in `s` (the regular expression `\d{4}`). */
  predicate HasFourDigits(s: string) {
    exists i :: 0 <= i <= |s| - 4 && FourDigitsAt(s, i)
  }

  predicate FourDigitsAt(s: string, i: int) {
    0 <= i <= |s| - 4 && AllDigits(s[i..i + 4])
  }

  // ---------------------------------------------------------------- case and blanks

  function LowerChar(c: char): char {
    if 'A' <= c <= 'Z' then (c as int + 32) as char else c
  }

  /** `toLowerCase`, restricted to ASCII letters. */
  function Lower(s: string): (r: string)
    ensures |r| == |s|
    ensures forall i :: 0 <= i < |s| ==> r[i] == LowerChar(s[i])
  {
    if s == [] then [] else [LowerChar(s[0])] + Lower(s[1..])
  }

  /** Lower-casing twice is lower-casing once. */
  lemma {:induction false} LowerIdempotent(s: string)
    ensures Lower(Lower(s)) == Lower(s)
  {
    if s != [] {
      LowerIdempotent(s[1..]);
      assert Lower(s)[1..] == Lower(s[1..]);
    }
  }

  /** The characters JavaScript's `trim` removes (white space and line terminators). */
  predicate IsSpace(c: char) {
    c == ' ' || c == '\t' || c == '\n' || c == '\r' || c == '\U{000B}' || c == '\U{000C}'
    || c == '\U{00A0}' || c == '\U{1680}' || ('\U{2000}' <= c <= '\U{200A}')
    || c == '\U{2028}' || c == '\U{2029}' || c == '\U{202F}' || c == '\U{205F}'
    || c == '\U{3000}' || c == '\U{FEFF}'
  }

  function TrimStart(s: string): (r: string)
    ensures |r| <= |s| && r == s[|s| - |r|..]
    ensures r == [] || !IsSpace(r[0])
  {
    if s != [] && IsSpace(s[0]) then TrimStart(s[1..]) else s
  }

  function TrimEnd(s: string): (r: string)
    ensures |r| <= |s| && r == s[..|r|]
    ensures r == [] || !IsSpace(r[|r| - 1])
  {
    if s != [] && IsSpace(s[|s| - 1]) then TrimEnd(s[..|s| - 1]) else s
  }

  /** JavaScript `trim`: no blank at either end of the result. */
  function Trim(s: string): (r: string)
    ensures r == [] || (!IsSpace(r[0]) && !IsSpace(r[|r| - 1]))
  {
    TrimEnd(TrimStart(s))
  }

  /** Every character of `s` is one that `trim` removes. */
  predicate AllSpace(s: string) {
    forall k :: 0 <= k < |s| ==> IsSpace(s[k])
  }

  /** `TrimStart` removes only blanks: every character before the kept suffix is one. */
  lemma {:induction false} TrimStartRemovesSpace(s: string)
    ensures AllSpace(s[..|s| - |TrimStart(s)|])
  {
    if s != [] && IsSpace(s[0]) {
      TrimStartRemovesSpace(s[1..]);
      var n := |s| - |TrimStart(s)|;
      forall k | 0 <= k < n ensures IsSpace(s[..n][k]) {
        if k > 0 {
          assert s[..n][k] == s[1..][..n - 1][k - 1];
        }
      }
    }
  }

  /** `TrimEnd` removes only blanks: every character after the kept prefix is one. */
  lemma {:induction false} TrimEndRemovesSpace(s: string)
    ensures AllSpace(s[|TrimEnd(s)|..])
  {
    if s != [] && IsSpace(s[|s| - 1]) {
      var t := s[..|s| - 1];
      TrimEndRemovesSpace(t);
      var m := |TrimEnd(s)|;
      forall k | 0 <= k < |s| - m ensures IsSpace(s[m..][k]) {
        if m + k < |s| - 1 {
          assert s[m..][k] == t[m..][k];
        }
      }
    }
  }

  /**
   * `trim` keeps a slice `s[i..j]` of its input and removes only blanks: all of
   * `s[..i]` and all of `s[j..]` are blanks.
   */
  lemma TrimRemovesSpace(s: string)
    ensures var i := |s| - |TrimStart(s)|; var j := i + |Trim(s)|;
      i <= j <= |s| && Trim(s) == s[i..j] && AllSpace(s[..i]) && AllSpace(s[j..])
  {
    var u := TrimStart(s);
    var t := Trim(s);
    TrimSlice(s);
    TrimStartRemovesSpace(s);
    TrimEndRemovesSpace(u);
    assert u[|t|..] == s[|s| - |u| + |t|..];
  }

  /** The trimmed text is the slice of the input between the blanks removed at each end. */
  lemma TrimSlice(s: string)
    ensures var i := |s| - |TrimStart(s)|; var j := i + |Trim(s)|;
      i <= j <= |s| && Trim(s) == s[i..j]
  {
    var u := TrimStart(s);
    var t := Trim(s);
    var i := |s| - |u|;
    assert t == TrimEnd(u) && t == u[..|t|];
    assert u[..|t|] == s[i..i + |t|];
  }

  /** The trimmed text is empty iff the text is made of blanks only. */
  lemma TrimEmpty(s: string)
    ensures Trim(s) == [] <==> AllSpace(s)
  {
    var u := TrimStart(s);
    TrimStartRemovesSpace(s);
    if Trim(s) == [] {
      TrimEndRemovesSpace(u);
      assert s[..|s|] == s;
    }
  }

  // ---------------------------------------------------------------- searching

  predicate StartsWith(s: string, p: string) {
    |p| <= |s| && s[..|p|] == p
  }

  predicate EndsWith(s: string, p: string) {
    |p| <= |s| && s[|s| - |p|..] == p
  }

  /** `sep` occurs in `s` at index `i`. */
  predicate OccursAt(s: string, sep: string, i: int) {
    0 <= i && i + |sep| <= |s| && s[i..i + |sep|] == sep
  }

  /** JavaScript `s.includes(t)`. */
  predicate Contains(s: string, t: string) {
    exists i :: 0 <= i <= |s| - |t| && OccursAt(s, t, i)
  }

  lemma ContainsEmpty(s: string)
    ensures Contains(s, "")
  {
    assert OccursAt(s, "", 0);
  }

  lemma NothingInEmpty(t: string)
    requires t != ""
    ensures !Contains("", t)
  {
  }

  /** A string found in a part is found in any string the part is glued into. */
  lemma ContainsInMiddle(a: string, s: string, b: string, t: string)
    requires Contains(s, t)
    ensures Contains(a + s + b, t)
  {
    var i :| 0 <= i <= |s| - |t| && OccursAt(s, t, i);
    var w := a + s + b;
    assert w[|a| + i..|a| + i + |t|] == s[i..i + |t|];
    assert OccursAt(w, t, |a| + i);
  }

  // ---------------------------------------------------------------- split and join

  /**
   * JavaScript `s.split(sep)` for a non-empty separator string: the pieces between
   * the non-overlapping occurrences of `sep`, found from left to right.
   */
  function Split(s: string, sep: string): (parts: seq<string>)
    requires sep != []
    ensures |parts| >= 1
    decreases |s|
  {
    if |s| < |sep| then [s]
    else if s[..|sep|] == sep then [""] + Split(s[|sep|..], sep)
    else
      var rest := Split(s[1..], sep);
      [[s[0]] + rest[0]] + rest[1..]
  }

  /** JavaScript `parts.join(sep)`. */
  function Join(parts: seq<string>, sep: string): string {
    if parts == [] then ""
    else if |parts| == 1 then parts[0]
    else parts[0] + sep + Join(parts[1..], sep)
  }

  /** Splitting and joining again with the same separator gives back the string. */
  lemma {:induction false} JoinSplit(s: string, sep: string)
    requires sep != []
    ensures Join(Split(s, sep), sep) == s
    decreases |s|
  {
    if |s| < |sep| {
    } else if s[..|sep|] == sep {
      var tail := Split(s[|sep|..], sep);
      JoinSplit(s[|sep|..], sep);
      assert Split(s, sep) == [""] + tail;
      assert s == "" + sep + s[|sep|..];
    } else {
      var rest := Split(s[1..], sep);
      JoinSplit(s[1..], sep);
      var parts := [[s[0]] + rest[0]] + rest[1..];
      assert Split(s, sep) == parts;
      if |rest| == 1 {
        assert s == [s[0]] + s[1..];
      } else {
        assert parts[1..] == rest[1..];
        assert Join(rest, sep) == rest[0] + sep + Join(rest[1..], sep);
        assert s == [s[0]] + s[1..];
      }
    }
  }

  /** Without any occurrence of the separator the string is one piece. */
  lemma {:induction false} SplitNone(s: string, sep: string)
    requires sep != []
    requires forall i :: !OccursAt(s, sep, i)
    ensures Split(s, sep) == [s]
    decreases |s|
  {
    if |s| >= |sep| {
      assert !OccursAt(s, sep, 0);
      forall i | OccursAt(s[1..], sep, i) ensures OccursAt(s, sep, i + 1) {
        assert s[i + 1..i + 1 + |sep|] == s[1..][i..i + |sep|];
      }
      SplitNone(s[1..], sep);
      assert [s[0]] + s[1..] == s;
    }
  }

  /** When the first occurrence is at `i`, the first piece is everything before it. */
  lemma {:induction false} SplitFirst(s: string, sep: string, i: nat)
    requires sep != []
    requires OccursAt(s, sep, i)
    requires forall j :: 0 <= j < i ==> !OccursAt(s, sep, j)
    ensures Split(s, sep) == [s[..i]] + Split(s[i + |sep|..], sep)
    decreases i
  {
    if i == 0 {
      assert s[..|sep|] == sep;
    } else {
      assert !OccursAt(s, sep, 0);
      assert s[1..][i - 1..i - 1 + |sep|] == s[i..i + |sep|];
      forall j | OccursAt(s[1..], sep, j) ensures OccursAt(s, sep, j + 1) {
        assert s[j + 1..j + 1 + |sep|] == s[1..][j..j + |sep|];
      }
      SplitFirst(s[1..], sep, i - 1);
      assert s[1..][i - 1 + |sep|..] == s[i + |sep|..];
      assert [s[0]] + s[1..][..i - 1] == s[..i];
    }
  }

  /** An occurrence anywhere makes at least two pieces. */
  lemma {:induction false} SplitSome(s: string, sep: string, j: nat)
    requires sep != []
    requires OccursAt(s, sep, j)
    ensures |Split(s, sep)| >= 2
    decreases |s|
  {
    if s[..|sep|] != sep {
      assert j > 0;
      assert s[1..][j - 1..j - 1 + |sep|] == s[j..j + |sep|];
      SplitSome(s[1..], sep, j - 1);
    }
  }

  /** Two occurrences that do not overlap make at least three pieces. */
  lemma {:induction false} SplitTwo(s: string, sep: string, i: nat, j: nat)
    requires sep != []
    requires OccursAt(s, sep, i) && OccursAt(s, sep, j) && i + |sep| <= j
    ensures |Split(s, sep)| >= 3
    decreases |s|
  {
    if s[..|sep|] == sep {
      var t := s[|sep|..];
      assert t[j - |sep|..j - |sep| + |sep|] == s[j..j + |sep|];
      SplitSome(t, sep, j - |sep|);
    } else {
      assert i > 0;
      assert s[1..][i - 1..i - 1 + |sep|] == s[i..i + |sep|];
      assert s[1..][j - 1..j - 1 + |sep|] == s[j..j + |sep|];
      SplitTwo(s[1..], sep, i - 1, j - 1);
    }
  }

  /** With exactly one occurrence, at `i`, there are exactly the two pieces around it. */
  lemma SplitUnique(s: string, sep: string, i: nat)
    requires sep != []
    requires OccursAt(s, sep, i)
    requires forall j :: OccursAt(s, sep, j) ==> j == i
    ensures Split(s, sep) == [s[..i], s[i + |sep|..]]
  {
    SplitFirst(s, sep, i);
    var rest := s[i + |sep|..];
    forall k | OccursAt(rest, sep, k) ensures OccursAt(s, sep, i + |sep| + k) {
      assert s[i + |sep| + k..i + |sep| + k + |sep|] == rest[k..k + |sep|];
    }
    SplitNone(rest, sep);
  }

  /**
   * The first piece of a split on a one-character separator is the longest prefix
   * free of that character.
   */
  lemma {:induction false} SplitHead(s: string, c: char)
    ensures var h := Split(s, [c])[0];
      StartsWith(s, h) && (forall k :: 0 <= k < |h| ==> h[k] != c) && (|h| == |s| || s[|h|] == c)
    decreases |s|
  {
    if |s| >= 1 && s[..1] != [c] {
      SplitHead(s[1..], c);
      var h := Split(s[1..], [c])[0];
      assert Split(s, [c])[0] == [s[0]] + h;
      assert s == [s[0]] + s[1..];
    }
  }

  /** Joining all pieces after the first gives back the text after the first separator. */
  lemma AfterFirstSeparator(s: string, sep: string)
    requires sep != []
    ensures var parts := Split(s, sep);
      |parts| == 1 ==> Join(parts[1..], sep) == ""
    ensures var parts := Split(s, sep);
      |parts| >= 2 ==> s == parts[0] + sep + Join(parts[1..], sep)
  {
    JoinSplit(s, sep);
  }

  /** A string found in one of the parts is found in their join. */
  lemma {:induction false} ContainsInJoin(parts: seq<string>, sep: string, j: nat, t: string)
    requires j < |parts| && Contains(parts[j], t)
    ensures Contains(Join(parts, sep), t)
  {
    if |parts| == 1 {
    } else if j == 0 {
      assert Join(parts, sep) == [] + parts[0] + (sep + Join(parts[1..], sep));
      ContainsInMiddle([], parts[0], sep + Join(parts[1..], sep), t);
    } else {
      ContainsInJoin(parts[1..], sep, j - 1, t);
      assert Join(parts, sep) == (parts[0] + sep) + Join(parts[1..], sep) + [];
      ContainsInMiddle(parts[0] + sep, Join(parts[1..], sep), [], t);
    }
  }

  // ---------------------------------------------------------------- first and last match

  /** The index of the first element satisfying `p`. */
  function FirstWhere<T>(xs: seq<T>, p: T -> bool): (r: Option<nat>)
    ensures r.Some? ==> r.value < |xs| && p(xs[r.value]) && forall k :: 0 <= k < r.value ==> !p(xs[k])
    ensures r.None? <==> forall k :: 0 <= k < |xs| ==> !p(xs[k])
  {
    if xs == [] then None
    else if p(xs[0]) then Some(0)
    else
      match FirstWhere(xs[1..], p)
      case None => None
      case Some(i) => Some(i + 1)
  }

  /** The index of the last element satisfying `p`. */
  function LastWhere<T>(xs: seq<T>, p: T -> bool): (r: Option<nat>)
    ensures r.Some? ==> r.value < |xs| && p(xs[r.value]) && forall k :: r.value < k < |xs| ==> !p(xs[k])
    ensures r.None? <==> forall k :: 0 <= k < |xs| ==> !p(xs[k])
  {
    if xs == [] then None
    else if p(xs[|xs| - 1]) then Some(|xs| - 1)
    else LastWhere(xs[..|xs| - 1], p)
  }

  /** One more element: it is the last match iff it satisfies `p`. */
  lemma LastWhereSnoc<T>(xs: seq<T>, i: nat, p: T -> bool)
    requires i < |xs|
    ensures LastWhere(xs[..i + 1], p) == if p(xs[i]) then Some(i) else LastWhere(xs[..i], p)
  {
    assert xs[..i + 1][..i] == xs[..i];
  }

  /** An element satisfying `p` with none after it is the last match. */
  lemma LastWhereAt<T>(xs: seq<T>, p: T -> bool, i: nat)
    requires i < |xs| && p(xs[i])
    requires forall k :: i < k < |xs| ==> !p(xs[k])
    ensures LastWhere(xs, p) == Some(i)
  {
  }

  /** `f` of the last element satisfying `p`, or `none` when there is none. */
  function LastValue<T, U>(xs: seq<T>, p: T -> bool, f: T -> U, none: U): (v: U)
    ensures (forall k :: 0 <= k < |xs| ==> !p(xs[k])) ==> v == none
  {
    match LastWhere(xs, p)
    case None => none
    case Some(i) => f(xs[i])
  }

  /** One more element: it gives the value iff it satisfies `p`, otherwise the value so far stays. */
  lemma LastValueSnoc<T, U>(xs: seq<T>, i: nat, p: T -> bool, f: T -> U, none: U)
    requires i < |xs|
    ensures LastValue(xs[..i + 1], p, f, none) == if p(xs[i]) then f(xs[i]) else LastValue(xs[..i], p, f, none)
  {
    LastWhereSnoc(xs, i, p);
    var pre := xs[..i + 1];
    assert pre[i] == xs[i];
    match LastWhere(xs[..i], p)
    case None =>
    case Some(j) => assert pre[j] == xs[..i][j];
  }
}
