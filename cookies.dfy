/**
 * The cookie readers of the staff pages that walk `document.cookie.split(';')`:
 * which cookie is "named" `name`, its value, and the first and last such cookie.
 */
module Cookies {
  import opened Wrappers
  import opened Text

  /** The trimmed cookie begins with `name=`. */
  predicate IsNamed(part: string, name: string) {
    StartsWith(Trim(part), name + "=")
  }

  /** `IsNamed` as a test on one cookie, for the searches of `Text`. */
  function Named(name: string): string -> bool {
    (part: string) => IsNamed(part, name)
  }

  /** The decoded value of the cookie at `i` (the text after `name=`). */
  function ValueAt(parts: seq<string>, i: nat, name: string, decode: string -> string): string
    requires i < |parts| && IsNamed(parts[i], name)
  {
    decode(Trim(parts[i])[|name| + 1..])
  }

  /** No cookie of `parts` has that name. */
  predicate NoneNamed(parts: seq<string>, name: string) {
    forall i :: 0 <= i < |parts| ==> !IsNamed(parts[i], name)
  }

  /** What the clients page's `getCookie(name)` returns: `null` without cookies or without a cookie of that name. */
  function FirstCookie(cookie: string, name: string, decode: string -> string): (r: Option<string>)
    ensures r.None? <==> cookie == "" || NoneNamed(Split(cookie, ";"), name)
  {
    if cookie == "" then None
    else
      FirstInNone(Split(cookie, ";"), name, decode);
      FirstIn(Split(cookie, ";"), name, decode)
  }

  /** The decoded value of the first cookie of `parts` with that name. */
  function FirstIn(parts: seq<string>, name: string, decode: string -> string): Option<string> {
    match FirstWhere(parts, Named(name))
    case None => None
    case Some(i) => (assert Named(name)(parts[i]); Some(ValueAt(parts, i, name, decode)))
  }

  /** There is no first value iff no cookie has the name. */
  lemma FirstInNone(parts: seq<string>, name: string, decode: string -> string)
    ensures FirstIn(parts, name, decode).None? <==> NoneNamed(parts, name)
  {
    assert forall part :: Named(name)(part) == IsNamed(part, name);
  }

  /** A cookie with that name and none before it gives the value. */
  lemma FirstInAt(parts: seq<string>, name: string, decode: string -> string, i: nat)
    requires i < |parts| && IsNamed(parts[i], name)
    requires forall k :: 0 <= k < i ==> !IsNamed(parts[k], name)
    ensures FirstIn(parts, name, decode) == Some(ValueAt(parts, i, name, decode))
  {
    var r := FirstWhere(parts, Named(name));
    assert forall part :: Named(name)(part) == IsNamed(part, name);
  }

  /** Otherwise it is the decoded value of the first cookie with that name; later ones are ignored. */
  lemma FirstCookieSpec(cookie: string, name: string, decode: string -> string, i: nat)
    requires cookie != ""
    requires i < |Split(cookie, ";")| && IsNamed(Split(cookie, ";")[i], name)
    requires forall k :: 0 <= k < i ==> !IsNamed(Split(cookie, ";")[k], name)
    ensures FirstCookie(cookie, name, decode) == Some(ValueAt(Split(cookie, ";"), i, name, decode))
  {
    FirstInAt(Split(cookie, ";"), name, decode, i);
  }

  /** What the invoices page's `getCookie(name)` returns: `null` without cookies or without a cookie of that name. */
  function LastCookie(cookie: string, name: string, decode: string -> string): (r: Option<string>)
    ensures r.None? <==> cookie == "" || NoneNamed(Split(cookie, ";"), name)
  {
    if cookie == "" then None
    else
      LastInNone(Split(cookie, ";"), name, decode);
      LastIn(Split(cookie, ";"), name, decode)
  }

  /** The decoded value of the last cookie of `parts` with that name. */
  function LastIn(parts: seq<string>, name: string, decode: string -> string): Option<string> {
    match LastWhere(parts, Named(name))
    case None => None
    case Some(i) => (assert Named(name)(parts[i]); Some(ValueAt(parts, i, name, decode)))
  }

  /** There is no last value iff no cookie has the name. */
  lemma LastInNone(parts: seq<string>, name: string, decode: string -> string)
    ensures LastIn(parts, name, decode).None? <==> NoneNamed(parts, name)
  {
    assert forall part :: Named(name)(part) == IsNamed(part, name);
  }

  /** One more cookie: it replaces the value found so far iff it has that name. */
  lemma {:induction false} LastInStep(parts: seq<string>, i: nat, name: string, decode: string -> string)
    requires i < |parts|
    ensures LastIn(parts[..i + 1], name, decode) ==
      if IsNamed(parts[i], name) then Some(ValueAt(parts, i, name, decode)) else LastIn(parts[..i], name, decode)
  {
    var pre := parts[..i + 1];
    assert pre[..i] == parts[..i];
    assert pre[i] == parts[i];
    assert forall part :: Named(name)(part) == IsNamed(part, name);
    if !IsNamed(parts[i], name) {
      match LastWhere(parts[..i], Named(name))
      case None =>
      case Some(j) =>
        assert ValueAt(pre, j, name, decode) == ValueAt(parts[..i], j, name, decode);
    }
  }

  /** Otherwise it is the decoded value of the last cookie with that name; earlier ones are overwritten. */
  lemma LastCookieSpec(cookie: string, name: string, decode: string -> string, i: nat)
    requires cookie != ""
    requires i < |Split(cookie, ";")| && IsNamed(Split(cookie, ";")[i], name)
    requires forall k :: i < k < |Split(cookie, ";")| ==> !IsNamed(Split(cookie, ";")[k], name)
    ensures LastCookie(cookie, name, decode) == Some(ValueAt(Split(cookie, ";"), i, name, decode))
  {
    var parts := Split(cookie, ";");
    var r := LastWhere(parts, Named(name));
    assert forall part :: Named(name)(part) == IsNamed(part, name);
  }

  /** With a single cookie of that name, the first-match and the last-match readers agree. */
  lemma SingleCookieAgrees(cookie: string, name: string, decode: string -> string, i: nat)
    requires cookie != ""
    requires i < |Split(cookie, ";")| && IsNamed(Split(cookie, ";")[i], name)
    requires forall k :: 0 <= k < |Split(cookie, ";")| && k != i ==> !IsNamed(Split(cookie, ";")[k], name)
    ensures FirstCookie(cookie, name, decode) == LastCookie(cookie, name, decode)
  {
    FirstCookieSpec(cookie, name, decode, i);
    LastCookieSpec(cookie, name, decode, i);
  }
}
