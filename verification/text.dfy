/**
 The string operations the tool uses, over `seq<char>`.
 Case mapping is ASCII only: `Lower` plays the role of Python's `str.lower`
 on the characters 'A'..'Z' and leaves every other character alone.
 */
module Text {

  predicate IsUpper(c: char) {
    'A' <= c <= 'Z'
  }

  /** True when the string has no ASCII upper-case letter. */
  predicate NoUpper(s: string) {
    forall i :: 0 <= i < |s| ==> !IsUpper(s[i])
  }

  function LowerChar(c: char): (r: char)
    ensures !IsUpper(r)
  {
    if IsUpper(c) then (c as int - 'A' as int + 'a' as int) as char else c
  }

  /** ASCII lower-casing (Python's `str.lower` restricted to ASCII letters). */
  function Lower(s: string): (r: string)
    ensures |r| == |s|
    ensures NoUpper(r)
    ensures forall i :: 0 <= i < |s| && IsUpper(s[i]) ==> r[i] as int == s[i] as int + 32
    ensures forall i :: 0 <= i < |s| && !IsUpper(s[i]) ==> r[i] == s[i]
  {
    seq(|s|, i requires 0 <= i < |s| => LowerChar(s[i]))
  }

  /** Lower-casing a string that is already lower case changes nothing. */
  lemma LowerOfNoUpper(s: string)
    requires NoUpper(s)
    ensures Lower(s) == s
  {
  }

  lemma LowerIdempotent(s: string)
    ensures Lower(Lower(s)) == Lower(s)
  {
    LowerOfNoUpper(Lower(s));
  }

  /** Every occurrence of `from` replaced by `to` (Python's `str.replace` with one-character arguments). */
  function Replace(s: string, from: char, to: char): (r: string)
    ensures |r| == |s|
    ensures from != to ==> from !in r
    ensures forall i :: 0 <= i < |s| && s[i] == from ==> r[i] == to
    ensures forall i :: 0 <= i < |s| && s[i] != from ==> r[i] == s[i]
  {
    seq(|s|, i requires 0 <= i < |s| => if s[i] == from then to else s[i])
  }

  predicate StartsWith(s: string, prefix: string) {
    |prefix| <= |s| && s[..|prefix|] == prefix
  }

  predicate EndsWith(s: string, suffix: string) {
    |suffix| <= |s| && s[|s| - |suffix|..] == suffix
  }

  lemma StartsWithAppend(s: string, t: string, prefix: string)
    requires StartsWith(s, prefix)
    ensures StartsWith(s + t, prefix)
  {
    assert (s + t)[..|prefix|] == s[..|prefix|];
  }

  lemma EndsWithAppend(s: string, t: string, suffix: string)
    requires EndsWith(t, suffix)
    ensures EndsWith(s + t, suffix)
  {
    assert (s + t)[|s + t| - |suffix|..] == t[|t| - |suffix|..];
  }

  lemma StartsWithTrans(s: string, t: string, prefix: string)
    requires StartsWith(s, t) && StartsWith(t, prefix)
    ensures StartsWith(s, prefix)
  {
    assert s[..|prefix|] == s[..|t|][..|prefix|];
  }

  lemma EndsWithTrans(s: string, t: string, suffix: string)
    requires EndsWith(s, t) && EndsWith(t, suffix)
    ensures EndsWith(s, suffix)
  {
    assert s[|s| - |suffix|..] == s[|s| - |t|..][|t| - |suffix|..];
  }

  /** `sub` occurs somewhere in `s`. */
  predicate Infix(s: string, sub: string) {
    exists i :: 0 <= i <= |s| && StartsWith(s[i..], sub)
  }

  /** Text occurring in a part occurs in anything that part is extended by on the right. */
  lemma InfixRight(s: string, b: string, sub: string)
    requires Infix(s, sub)
    ensures Infix(s + b, sub)
  {
    var i :| 0 <= i <= |s| && StartsWith(s[i..], sub);
    assert (s + b)[i..] == s[i..] + b;
    StartsWithAppend(s[i..], b, sub);
  }

  /** Text occurring in a part occurs in anything that part is extended by on the left. */
  lemma InfixLeft(a: string, s: string, sub: string)
    requires Infix(s, sub)
    ensures Infix(a + s, sub)
  {
    var i :| 0 <= i <= |s| && StartsWith(s[i..], sub);
    assert (a + s)[|a| + i..] == s[i..];
  }

  /**
   A field placed between a text ending in `before` and a text starting with
   `after` occurs together with them.
   */
  lemma InfixAround(x: string, before: string, field: string, after: string, y: string)
    requires EndsWith(x, before) && StartsWith(y, after)
    ensures Infix(x + field + y, before + field + after)
  {
    var i := |x| - |before|;
    var w := x + field + y;
    assert w[i..] == before + field + y;
    assert (before + field + y)[..|before + field + after|] == before + field + after;
  }

  /** The longest prefix of `s` in which `stop` does not occur. */
  function TakeUntil(s: string, stop: char): (r: string)
    ensures |r| <= |s| && s[..|r|] == r
    ensures stop !in r
    ensures |r| < |s| ==> s[|r|] == stop
  {
    if s == [] || s[0] == stop then [] else [s[0]] + TakeUntil(s[1..], stop)
  }

  /** TakeUntil recovers a field that is followed by its terminator. */
  lemma {:induction false} TakeUntilField(field: string, rest: string, stop: char)
    requires stop !in field
    requires |rest| > 0 && rest[0] == stop
    ensures TakeUntil(field + rest, stop) == field
  {
    if field != [] {
      assert (field + rest)[1..] == field[1..] + rest;
      TakeUntilField(field[1..], rest, stop);
    }
  }
}
