/**
 * Sequential human-readable identifiers, as every `save()` of
 * backend/database/models.py computes them when the record's key is empty:
 * take the greatest existing key in string order (some kinds only among keys
 * that start with the kind's prefix), match `PREFIX(\d+)$` against it, add one
 * (or start again at 1), and print the number zero-padded to the kind's width.
 */
module Identifiers {
  import opened Wrappers
  import opened Text

  /** The entity kinds whose `save()` generates a key, with their prefix, width and quirks. */
  datatype Kind =
    | Client | Vehicule | Chauffeur | Expedition | Reclamation | Incident
    | Agent | Package | Tour | Invoice | Shipment
  {
    function Prefix(): (p: string)
      ensures ValidPrefix(p)
    {
      match this
      case Client => "CL"
      case Vehicule => "VH"
      case Chauffeur => "CH"
      case Expedition => "SH"
      case Reclamation => "REC"
      case Incident => "INC"
      case Agent => "AG"
      case Package => "PCG"
      case Tour => "TOU"
      case Invoice => "INV"
      case Shipment => "SHP"
    }

    /** The minimum number of digits of the format string (`:06d`, `:04d`, `:03d`). */
    function Width(): nat {
      match this
      case Agent => 4
      case Package | Tour | Invoice | Shipment => 3
      case _ => 6
    }

    /** The query adds `id__startswith=PREFIX` before ordering. */
    predicate FiltersByPrefix() {
      Client? || Reclamation? || Incident? || Agent?
    }

    /** `re.search(...).group(1)` is called without checking for a match. */
    predicate RaisesOnMalformed() {
      Chauffeur? || Expedition?
    }
  }

  /** A prefix the regular expression can be anchored on: non-empty, ending in a non-digit. */
  predicate ValidPrefix(p: string) {
    p != [] && !IsDigit(p[|p| - 1])
  }

  // ---------------------------------------------------------------- number formatting

  /**
   * `f"{n:0{w}d}"` for n >= 0 (and `String(n).padStart(w, '0')`): the decimal digits
   * of n, zero-filled on the left up to at least w characters.
   */
  function Pad(n: nat, w: nat): (s: string)
    ensures AllDigits(s) && |s| >= 1 && |s| >= w
    decreases n + w
  {
    if n < 10 && w <= 1 then [DigitChar(n)]
    else Pad(n / 10, if w == 0 then 0 else w - 1) + [DigitChar(n % 10)]
  }

  function Format(kind: Kind, n: nat): string {
    kind.Prefix() + Pad(n, kind.Width())
  }

  lemma AllDigitsSnoc(s: string, c: char)
    requires AllDigits(s) && IsDigit(c)
    ensures AllDigits(s + [c]) && (s + [c])[..|s|] == s
  {
  }

  /** Reading back the padded digits gives the number. */
  lemma {:induction false} PadValue(n: nat, w: nat)
    ensures Value(Pad(n, w)) == n
    decreases n + w
  {
    var s := Pad(n, w);
    if n < 10 && w <= 1 {
      assert s[..0] == [];
    } else {
      var w' := if w == 0 then 0 else w - 1;
      PadValue(n / 10, w');
      assert s[..|s| - 1] == Pad(n / 10, w');
    }
  }

  /** A string of k digits denotes a number below 10^k. */
  lemma {:induction false} ValueBound(s: string)
    requires AllDigits(s)
    ensures Value(s) < Pow10(|s|)
  {
    if s != [] {
      ValueBound(s[..|s| - 1]);
    }
  }

  /** A number below 10^w is printed in exactly w digits. */
  lemma {:induction false} PadExactWidth(n: nat, w: nat)
    requires 1 <= w && n < Pow10(w)
    ensures |Pad(n, w)| == w
    decreases w
  {
    if w > 1 {
      PadExactWidth(n / 10, w - 1);
    }
  }

  /** The printed width exceeds w exactly when the number no longer fits in w digits. */
  lemma PadWidth(n: nat, w: nat)
    requires 1 <= w
    ensures |Pad(n, w)| == w <==> n < Pow10(w)
  {
    if n < Pow10(w) {
      PadExactWidth(n, w);
    } else if |Pad(n, w)| == w {
      PadValue(n, w);
      ValueBound(Pad(n, w));
    }
  }

  // ---------------------------------------------------------------- the regular expression

  /** The longest run of digits at the end of `s`. */
  function TrailingDigits(s: string): (d: string)
    ensures EndsWith(s, d) && AllDigits(d)
    ensures |d| < |s| ==> !IsDigit(s[|s| - |d| - 1])
  {
    if s != [] && IsDigit(s[|s| - 1]) then TrailingDigits(s[..|s| - 1]) + [s[|s| - 1]] else []
  }

  /** `$` matches at the very end or just before one final newline. */
  function StripNewline(key: string): string {
    if key != [] && key[|key| - 1] == '\n' then key[..|key| - 1] else key
  }

  /**
   * `re.search(prefix + r"(\d+)$", key)` followed by `int(m.group(1))`. Since the
   * prefix ends in a non-digit, the group is the whole trailing digit run.
   */
  function MatchNumber(prefix: string, key: string): Option<nat>
    requires ValidPrefix(prefix)
  {
    var t := StripNewline(key);
    var d := TrailingDigits(t);
    if d != [] && EndsWith(t[..|t| - |d|], prefix) then Some(Value(d)) else None
  }

  /** The pattern matches `key` as `x`, then `prefix`, then the group `d`, then the end (or a final newline). */
  predicate Found(prefix: string, key: string, x: string, d: string) {
    d != [] && AllDigits(d) && (key == x + prefix + d || key == x + prefix + d + "\n")
  }

  lemma {:induction false} TrailingOfAppend(h: string, d: string)
    requires AllDigits(d) && (h == [] || !IsDigit(h[|h| - 1]))
    ensures TrailingDigits(h + d) == d
    decreases |d|
  {
    if d == [] {
      assert h + d == h;
    } else {
      var t := h + d;
      var d' := d[..|d| - 1];
      var c := d[|d| - 1];
      assert t[|t| - 1] == c && IsDigit(c);
      assert t[..|t| - 1] == h + d';
      TrailingOfAppend(h, d');
      assert TrailingDigits(t) == TrailingDigits(h + d') + [c];
      assert d == d' + [c];
    }
  }

  lemma MatchTrimmed(prefix: string, key: string, x: string, d: string)
    requires ValidPrefix(prefix) && d != [] && AllDigits(d)
    requires StripNewline(key) == x + prefix + d
    ensures MatchNumber(prefix, key) == Some(Value(d))
  {
    var h := x + prefix;
    var t := h + d;
    assert t == x + prefix + d;
    assert h[|h| - 1] == prefix[|prefix| - 1];
    TrailingOfAppend(h, d);
    assert t[..|t| - |d|] == h;
    assert h[|h| - |prefix|..] == prefix;
  }

  /** Every match the search can find yields MatchNumber's number. */
  lemma MatchFound(prefix: string, key: string, x: string, d: string)
    requires ValidPrefix(prefix) && Found(prefix, key, x, d)
    ensures MatchNumber(prefix, key) == Some(Value(d))
  {
    if key == x + prefix + d {
      assert key[|key| - 1] == d[|d| - 1];
    } else {
      assert key[..|key| - 1] == x + prefix + d;
    }
    MatchTrimmed(prefix, key, x, d);
  }

  /** MatchNumber succeeds only where the search finds a match. */
  lemma MatchSound(prefix: string, key: string)
    requires ValidPrefix(prefix) && MatchNumber(prefix, key).Some?
    ensures exists x, d :: Found(prefix, key, x, d) && MatchNumber(prefix, key) == Some(Value(d))
  {
    var t := StripNewline(key);
    var d := TrailingDigits(t);
    var h := t[..|t| - |d|];
    var x := h[..|h| - |prefix|];
    assert h == x + prefix;
    assert t == h + d;
    assert key == t || key == t + "\n";
    assert Found(prefix, key, x, d);
  }

  /** MatchNumber agrees with the search: it succeeds iff some match exists, and then yields its group. */
  lemma MatchNumberSpec(prefix: string, key: string)
    requires ValidPrefix(prefix)
    ensures MatchNumber(prefix, key).Some? <==> exists x, d :: Found(prefix, key, x, d)
    ensures forall x, d :: Found(prefix, key, x, d) ==> MatchNumber(prefix, key) == Some(Value(d))
  {
    forall x, d | Found(prefix, key, x, d) ensures MatchNumber(prefix, key) == Some(Value(d)) {
      MatchFound(prefix, key, x, d);
    }
    if MatchNumber(prefix, key).Some? {
      MatchSound(prefix, key);
    }
  }

  /** Round trip: printing n with the prefix and matching the pattern recovers n. */
  lemma FormatRoundTrip(kind: Kind, n: nat)
    ensures MatchNumber(kind.Prefix(), Format(kind, n)) == Some(n)
  {
    var p, d := kind.Prefix(), Pad(n, kind.Width());
    assert Format(kind, n) == [] + p + d;
    MatchFound(p, Format(kind, n), [], d);
    PadValue(n, kind.Width());
  }

  // ---------------------------------------------------------------- string order

  /** Code-point lexicographic order, the order of `order_by('-id')` under binary collation. */
  predicate LexLess(a: string, b: string) {
    |b| > 0 && (|a| == 0 || a[0] < b[0] || (a[0] == b[0] && LexLess(a[1..], b[1..])))
  }

  predicate LexLe(a: string, b: string) {
    a == b || LexLess(a, b)
  }

  lemma {:induction false} LexIrreflexive(a: string)
    ensures !LexLess(a, a)
  {
    if a != [] {
      LexIrreflexive(a[1..]);
    }
  }

  lemma {:induction false} LexTransitive(a: string, b: string, c: string)
    requires LexLess(a, b) && LexLess(b, c)
    ensures LexLess(a, c)
  {
    if a != [] && a[0] == b[0] && b[0] == c[0] {
      LexTransitive(a[1..], b[1..], c[1..]);
    }
  }

  lemma {:induction false} LexTotal(a: string, b: string)
    requires a != b
    ensures LexLess(a, b) || LexLess(b, a)
  {
    if a != [] && b != [] && a[0] == b[0] {
      assert a == [a[0]] + a[1..] && b == [b[0]] + b[1..];
      LexTotal(a[1..], b[1..]);
    }
  }

  lemma LexBelowAll(keys: seq<string>, m: string, top: string)
    requires forall k :: k in keys ==> LexLe(k, m)
    requires LexLess(m, top)
    ensures forall k :: k in keys ==> LexLe(k, top)
  {
    forall k | k in keys ensures LexLe(k, top) {
      if k != m {
        LexTransitive(k, m, top);
      }
    }
  }

  /** A shared prefix does not change the order. */
  lemma {:induction false} LexCommonPrefix(p: string, x: string, y: string)
    ensures LexLess(p + x, p + y) <==> LexLess(x, y)
  {
    if p == [] {
      assert p + x == x && p + y == y;
    } else {
      assert (p + x)[0] == p[0] == (p + y)[0];
      assert (p + x)[1..] == p[1..] + x && (p + y)[1..] == p[1..] + y;
      LexCommonPrefix(p[1..], x, y);
    }
  }

  /** Equal-length strings compare like their beginnings, then their last characters. */
  lemma {:induction false} LexSnoc(x: string, y: string, c: char, e: char)
    requires |x| == |y|
    ensures LexLess(x + [c], y + [e]) <==> LexLess(x, y) || (x == y && c < e)
  {
    if x != [] {
      assert (x + [c])[1..] == x[1..] + [c] && (y + [e])[1..] == y[1..] + [e];
      LexSnoc(x[1..], y[1..], c, e);
      assert x == [x[0]] + x[1..] && y == [y[0]] + y[1..];
    }
  }

  /** For digit strings of one length, string order is numeric order. */
  lemma {:induction false} DigitsOrder(x: string, y: string)
    requires |x| == |y| && AllDigits(x) && AllDigits(y)
    ensures LexLess(x, y) <==> Value(x) < Value(y)
    ensures x == y <==> Value(x) == Value(y)
  {
    if x != [] {
      var x', y' := x[..|x| - 1], y[..|y| - 1];
      var c, e := x[|x| - 1], y[|y| - 1];
      assert x == x' + [c] && y == y' + [e];
      DigitsOrder(x', y');
      LexSnoc(x', y', c, e);
      if x' != y' {
        LexTotal(x', y');
      }
    }
  }

  // ---------------------------------------------------------------- the query

  /** The greatest key in string order (`order_by('-id').first()`). */
  function Greatest(keys: seq<string>): (g: Option<string>)
    ensures g.None? <==> keys == []
    ensures g.Some? ==> g.value in keys && forall k :: k in keys ==> LexLe(k, g.value)
  {
    if keys == [] then None
    else
      match Greatest(keys[1..])
      case None => Some(keys[0])
      case Some(m) =>
        if LexLess(m, keys[0]) then
          LexBelowAll(keys[1..], m, keys[0]);
          Some(keys[0])
        else
          assert m != keys[0] ==> LexLess(keys[0], m) by {
            if m != keys[0] { LexTotal(m, keys[0]); }
          }
          Some(m)
  }

  /** The keys `filter(id__startswith=prefix)` keeps. */
  function WithPrefix(keys: seq<string>, p: string): (r: seq<string>)
    ensures forall k :: k in r <==> k in keys && StartsWith(k, p)
  {
    if keys == [] then []
    else (if StartsWith(keys[0], p) then [keys[0]] else []) + WithPrefix(keys[1..], p)
  }

  /** The keys the kind's query orders. */
  function Candidates(kind: Kind, keys: seq<string>): seq<string> {
    if kind.FiltersByPrefix() then WithPrefix(keys, kind.Prefix()) else keys
  }

  /** The key `select_for_update()...order_by('-id').first()` returns. */
  function LastKey(kind: Kind, keys: seq<string>): (r: Option<string>)
    ensures r.None? <==> Candidates(kind, keys) == []
    ensures r.Some? ==> r.value in keys && (kind.FiltersByPrefix() ==> StartsWith(r.value, kind.Prefix()))
    ensures r.Some? ==> forall k :: k in Candidates(kind, keys) ==> LexLe(k, r.value)
  {
    Greatest(Candidates(kind, keys))
  }

  // ---------------------------------------------------------------- next identifier

  /** `AttributeError` raised by `None.group(1)` for the kinds that do not check the match. */
  datatype AllocError = MalformedLastKey(key: string)

  /** The number after the last key's: its matched number plus one, else 1 (or an error). */
  function NextNumber(kind: Kind, last: Option<string>): (r: Result<nat, AllocError>)
    ensures r.Err? <==>
      kind.RaisesOnMalformed() && last.Some? && MatchNumber(kind.Prefix(), last.value).None?
    ensures r.Ok? ==> r.value >= 1
  {
    match last
    case None => Ok(1)
    case Some(k) =>
      match MatchNumber(kind.Prefix(), k)
      case Some(n) => Ok(n + 1)
      case None => if kind.RaisesOnMalformed() then Err(MalformedLastKey(k)) else Ok(1)
  }

  /**
   * The identifier a `save()` assigns when the greatest existing key is `last`;
   * only CH and SH fail, and only on a last key the pattern does not match.
   */
  function NextId(kind: Kind, last: Option<string>): (r: Result<string, AllocError>)
    ensures r.Err? <==>
      kind.RaisesOnMalformed() && last.Some? && MatchNumber(kind.Prefix(), last.value).None?
    ensures r.Ok? ==>
      StartsWith(r.value, kind.Prefix()) && |r.value| >= |kind.Prefix()| + kind.Width()
  {
    match NextNumber(kind, last)
    case Err(e) => Err(e)
    case Ok(n) => Ok(Format(kind, n))
  }

  /**
   * The new identifier reads back as one more than the last key's number, or as 1
   * when there is no last key or the pattern does not match it.
   */
  lemma NextIdReadsBack(kind: Kind, last: Option<string>)
    requires NextId(kind, last).Ok?
    ensures MatchNumber(kind.Prefix(), NextId(kind, last).value) == Some(
      if last.Some? && MatchNumber(kind.Prefix(), last.value).Some?
      then MatchNumber(kind.Prefix(), last.value).value + 1
      else 1)
  {
    FormatRoundTrip(kind, NextNumber(kind, last).value);
  }

  /** The whole allocation step over the keys already stored for the kind. */
  function Allocate(kind: Kind, keys: seq<string>): (r: Result<string, AllocError>)
    ensures r.Ok? ==> StartsWith(r.value, kind.Prefix()) && |r.value| >= |kind.Prefix()| + kind.Width()
    ensures r.Err? ==> kind.RaisesOnMalformed() && r.error.key in keys
  {
    NextId(kind, LastKey(kind, keys))
  }

  /** The first identifier of a kind is number 1 printed at the kind's width. */
  lemma FirstId(kind: Kind)
    ensures Allocate(kind, []) == Ok(Format(kind, 1))
  {
    assert Candidates(kind, []) == [];
  }

  /** The first identifiers as the models print them. */
  lemma FirstIds()
    ensures Allocate(Client, []) == Ok("CL000001")
    ensures Allocate(Agent, []) == Ok("AG0001")
    ensures Allocate(Shipment, []) == Ok("SHP001")
  {
    FirstId(Client);
    FirstId(Agent);
    FirstId(Shipment);
    assert Pad(0, 1) == "0";
    assert Pad(0, 2) == "00";
    assert Pad(1, 3) == "001";
    assert Pad(0, 3) == "000";
    assert Pad(1, 4) == "0001";
    assert Pad(0, 4) == "0000";
    assert Pad(0, 5) == "00000";
    assert Pad(1, 6) == "000001";
    assert "CL" + "000001" == "CL000001";
    assert "AG" + "0001" == "AG0001";
    assert "SHP" + "001" == "SHP001";
  }

  /**
   * A greatest key that does not match restarts the numbering at 1, except for
   * Chauffeur and Expedition, whose `save()` raises instead.
   */
  lemma MalformedLastKeyRestarts(kind: Kind, keys: seq<string>)
    requires LastKey(kind, keys).Some?
    requires MatchNumber(kind.Prefix(), LastKey(kind, keys).value).None?
    ensures kind.RaisesOnMalformed() ==> Allocate(kind, keys).Err?
    ensures !kind.RaisesOnMalformed() ==> Allocate(kind, keys) == Ok(Format(kind, 1))
  {
  }

  /** A key exactly as the allocator prints it while the number fits the width. */
  predicate WellFormed(kind: Kind, k: string) {
    StartsWith(k, kind.Prefix()) && |k| == |kind.Prefix()| + kind.Width()
    && AllDigits(k[|kind.Prefix()|..])
  }

  /** Every key the kind's query looks at is well formed. */
  predicate AllWellFormed(kind: Kind, keys: seq<string>) {
    forall k :: k in Candidates(kind, keys) ==> WellFormed(kind, k)
  }

  lemma WellFormedMatch(kind: Kind, k: string)
    requires WellFormed(kind, k)
    ensures MatchNumber(kind.Prefix(), k) == Some(Value(k[|kind.Prefix()|..]))
  {
    var p := kind.Prefix();
    var d := k[|p|..];
    assert k == [] + p + d;
    MatchFound(p, k, [], d);
  }

  /** Keys of one length that share a prefix followed by digits sort like the numbers the digits denote. */
  lemma KeyOrder(p: string, k: string, g: string)
    requires |k| == |g| && StartsWith(k, p) && StartsWith(g, p)
    requires AllDigits(k[|p|..]) && AllDigits(g[|p|..])
    ensures LexLess(k, g) <==> Value(k[|p|..]) < Value(g[|p|..])
    ensures k == g <==> Value(k[|p|..]) == Value(g[|p|..])
  {
    var dk, dg := k[|p|..], g[|p|..];
    assert k == p + dk && g == p + dg;
    LexCommonPrefix(p, dk, dg);
    DigitsOrder(dk, dg);
  }

  /** A well-formed key at or below the last one sorts below the next identifier. */
  lemma BelowNext(kind: Kind, k: string, g: string)
    requires WellFormed(kind, k) && WellFormed(kind, g) && LexLe(k, g)
    requires |Pad(Value(g[|kind.Prefix()|..]) + 1, kind.Width())| == kind.Width()
    ensures LexLess(k, Format(kind, Value(g[|kind.Prefix()|..]) + 1))
  {
    var p, w := kind.Prefix(), kind.Width();
    var n := Value(g[|p|..]) + 1;
    var id := Format(kind, n);
    PadValue(n, w);
    assert id[|p|..] == Pad(n, w);
    KeyOrder(p, k, g);
    KeyOrder(p, k, id);
  }

  /** The number a well-formed last key leads to. */
  function NextAfter(kind: Kind, last: Option<string>): nat
    requires last.Some? ==> WellFormed(kind, last.value)
  {
    if last.None? then 1 else Value(last.value[|kind.Prefix()|..]) + 1
  }

  /** After a well-formed last key the next identifier is the following number. */
  lemma NextIdWellFormed(kind: Kind, last: Option<string>)
    requires last.Some? ==> WellFormed(kind, last.value)
    ensures NextId(kind, last) == Ok(Format(kind, NextAfter(kind, last)))
  {
    if last.Some? {
      WellFormedMatch(kind, last.value);
    }
  }

  /** With well-formed keys the allocator never fails, and continues from the last key's digits. */
  lemma AllocateWellFormed(kind: Kind, keys: seq<string>)
    requires AllWellFormed(kind, keys)
    ensures LastKey(kind, keys).Some? ==> WellFormed(kind, LastKey(kind, keys).value)
    ensures Allocate(kind, keys) == Ok(Format(kind, NextAfter(kind, LastKey(kind, keys))))
  {
    var last := LastKey(kind, keys);
    if last.Some? {
      assert last.value in Candidates(kind, keys);
    }
    NextIdWellFormed(kind, last);
  }

  /** A key the kind's query sees: every key with the prefix is one. */
  lemma PrefixedIsCandidate(kind: Kind, keys: seq<string>, k: string)
    requires k in keys && StartsWith(k, kind.Prefix())
    ensures k in Candidates(kind, keys)
  {
  }

  /** While the new number fits the width, the new identifier sorts after every key the query sees. */
  lemma AllocateAboveAll(kind: Kind, keys: seq<string>, id: string)
    requires AllWellFormed(kind, keys) && Allocate(kind, keys) == Ok(id)
    requires |id| == |kind.Prefix()| + kind.Width()
    ensures forall k :: k in Candidates(kind, keys) ==> LexLess(k, id)
  {
    AllocateWellFormed(kind, keys);
    var last := LastKey(kind, keys);
    if last.Some? {
      AboveAll(kind, Candidates(kind, keys), last.value, id);
    }
  }

  /** Every key at or below the greatest one sorts below the identifier that follows it. */
  lemma AboveAll(kind: Kind, cands: seq<string>, g: string, id: string)
    requires forall k :: k in cands ==> WellFormed(kind, k) && LexLe(k, g)
    requires WellFormed(kind, g)
    requires id == Format(kind, NextAfter(kind, Some(g))) && |id| == |kind.Prefix()| + kind.Width()
    ensures forall k :: k in cands ==> LexLess(k, id)
  {
    forall k | k in cands ensures LexLess(k, id) {
      BelowNext(kind, k, g);
    }
  }

  /**
   * Freshness: when every key the query sees is well formed and the new number
   * still fits the width, the new identifier sorts after every such key and is
   * not an existing key of the table.
   */
  lemma AllocateFresh(kind: Kind, keys: seq<string>)
    requires AllWellFormed(kind, keys)
    ensures Allocate(kind, keys).Ok?
    ensures var id := Allocate(kind, keys).value;
      |id| == |kind.Prefix()| + kind.Width() ==>
        id !in keys && forall k :: k in Candidates(kind, keys) ==> LexLess(k, id)
  {
    AllocateWellFormed(kind, keys);
    var id := Allocate(kind, keys).value;
    if |id| == |kind.Prefix()| + kind.Width() {
      AllocateAboveAll(kind, keys, id);
      if id in keys {
        assert StartsWith(id, kind.Prefix());
        PrefixedIsCandidate(kind, keys, id);
        LexIrreflexive(id);
      }
    }
  }

  /**
   * Beyond the width the string order stops agreeing with the numbers: `SHP1000`
   * sorts below `SHP999`, so once both exist the allocator hands out `SHP1000` again.
   */
  lemma ShipmentWidthOverflow()
    ensures LexLess("SHP1000", "SHP999")
    ensures Allocate(Shipment, ["SHP999", "SHP1000"]) == Ok("SHP1000")
  {
    ThousandBelowNineNineNine();
    var keys := ["SHP999", "SHP1000"];
    assert keys[1..] == ["SHP1000"];
    assert LastKey(Shipment, keys) == Some("SHP999");
    ReadNineNineNine();
    PrintThousand();
  }

  lemma ThousandBelowNineNineNine()
    ensures LexLess("SHP1000", "SHP999")
  {
    assert LexLess("1000", "999");
    LexCommonPrefix("SHP", "1000", "999");
    assert "SHP" + "1000" == "SHP1000" && "SHP" + "999" == "SHP999";
  }

  lemma ReadNineNineNine()
    ensures MatchNumber("SHP", "SHP999") == Some(999)
  {
    assert Pad(9, 1) == "9";
    assert Pad(99, 2) == "99";
    assert Pad(999, 3) == "999";
    assert Format(Shipment, 999) == "SHP999";
    FormatRoundTrip(Shipment, 999);
  }

  lemma PrintThousand()
    ensures Format(Shipment, 1000) == "SHP1000"
  {
    assert Pad(1, 0) == "1";
    assert Pad(10, 1) == "10";
    assert Pad(100, 2) == "100";
    assert Pad(1000, 3) == "1000";
  }

  // ---------------------------------------------------------------- the store

  /** Saving a row under a key: Django updates the row when the key exists, else inserts it. */
  function Insert(keys: seq<string>, k: string): (r: seq<string>)
    ensures k in r && forall x :: x in r <==> x in keys || x == k
  {
    if k in keys then keys else keys + [k]
  }

  /** The table of one kind, seen through its primary keys. */
  class Table {
    const kind: Kind
    var keys: seq<string>

    ghost predicate Valid()
      reads this
    {
      forall i, j :: 0 <= i < j < |keys| ==> keys[i] != keys[j]
    }

    constructor (kind: Kind)
      ensures this.kind == kind && keys == [] && Valid()
    {
      this.kind := kind;
      keys := [];
    }

    /**
     * `save()` of a record whose key field holds `id`: an existing key is kept;
     * an empty one is replaced by the allocator's next identifier.
     */
    method Save(id: string) returns (r: Result<string, AllocError>)
      requires Valid()
      modifies this
      ensures Valid()
      ensures id != "" ==> r == Ok(id)
      ensures id == "" ==> r == Allocate(kind, old(keys))
      ensures keys == if r.Ok? then Insert(old(keys), r.value) else old(keys)
      ensures id == "" && r.Ok? && |r.value| == |kind.Prefix()| + kind.Width()
              && AllWellFormed(kind, old(keys))
              ==> r.value !in old(keys)
    {
      if id != "" {
        r := Ok(id);
      } else {
        r := Allocate(kind, keys);
        if AllWellFormed(kind, keys) {
          AllocateFresh(kind, keys);
        }
      }
      if r.Ok? {
        keys := Insert(keys, r.value);
      }
    }
  }
}
