/** UTF-8 as Rust's `str::from_utf8` and `String::from_utf8_lossy` treat it. */
module Utf8 {
  import opened Octets

  predicate Continuation(b: byte)
  {
    0x80 <= b <= 0xBF
  }

  /** The second byte a three-byte scalar may have after `lead`. */
  predicate SecondOfThree(lead: byte, b: byte)
  {
    || (lead == 0xE0 && 0xA0 <= b <= 0xBF)
    || (0xE1 <= lead <= 0xEC && Continuation(b))
    || (lead == 0xED && 0x80 <= b <= 0x9F)
    || (0xEE <= lead <= 0xEF && Continuation(b))
  }

  /** The second byte a four-byte scalar may have after `lead`. */
  predicate SecondOfFour(lead: byte, b: byte)
  {
    || (lead == 0xF0 && 0x90 <= b <= 0xBF)
    || (0xF1 <= lead <= 0xF3 && Continuation(b))
    || (lead == 0xF4 && 0x80 <= b <= 0x8F)
  }

  /** The length of the well-formed scalar value `s` starts with, or 0 if there is none. */
  function ScalarLen(s: bytes): (n: nat)
    ensures n <= |s|
  {
    if s == [] then 0
    else if s[0] < 0x80 then 1
    else if |s| >= 2 && 0xC2 <= s[0] <= 0xDF && Continuation(s[1]) then 2
    else if |s| >= 3 && SecondOfThree(s[0], s[1]) && Continuation(s[2]) then 3
    else if |s| >= 4 && SecondOfFour(s[0], s[1]) && Continuation(s[2]) && Continuation(s[3]) then 4
    else 0
  }

  predicate Valid(s: bytes)
    decreases |s|
  {
    s == [] || (ScalarLen(s) > 0 && Valid(s[ScalarLen(s)..]))
  }

  /** A Rust `String`. */
  type utf8 = s: bytes | Valid(s) witness []

  /** How many bytes one replacement character stands for: the longest start of a scalar value, or one byte. */
  function BrokenLen(s: bytes): (n: nat)
    requires s != [] && ScalarLen(s) == 0
    ensures 0 < n <= |s|
  {
    if |s| >= 2 && SecondOfThree(s[0], s[1]) then 2
    else if |s| >= 3 && SecondOfFour(s[0], s[1]) && Continuation(s[2]) then 3
    else if |s| >= 2 && SecondOfFour(s[0], s[1]) then 2
    else 1
  }

  /** U+FFFD */
  const REPLACEMENT: bytes := [0xEF, 0xBF, 0xBD]

  /** `String::from_utf8_lossy` */
  function Lossy(s: bytes): (t: utf8)
    ensures Valid(s) ==> t == s
    decreases |s|
  {
    if s == [] then []
    else
      var n := ScalarLen(s);
      if n > 0 then
        PrependScalar(s[..n], Lossy(s[n..]));
        s[..n] + Lossy(s[n..])
      else
        PrependScalar(REPLACEMENT, Lossy(s[BrokenLen(s)..]));
        REPLACEMENT + Lossy(s[BrokenLen(s)..])
  }

  lemma PrependScalar(c: bytes, t: bytes)
    requires c != [] && ScalarLen(c) == |c| && Valid(t)
    ensures Valid(c + t)
  {
    assert ScalarLen(c + t) == |c|;
    assert (c + t)[|c|..] == t;
  }

  lemma {:induction false} AsciiIsValid(s: bytes)
    requires forall i :: 0 <= i < |s| ==> s[i] < 0x80
    ensures Valid(s)
    decreases |s|
  {
    if s != [] {
      AsciiIsValid(s[1..]);
    }
  }
}
