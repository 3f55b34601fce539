/** UTF-8 as section 3 of RFC 3629 defines it, by what each scalar value is encoded as: the bytes that count as valid
    are the encodings of scalar values, and what replaces other bytes is one character for each longest start of one. */
module Unicode {
  import opened Octets
  import opened Utf8

  predicate Scalar(c: int)
  {
    0 <= c < 0xD800 || 0xE000 <= c < 0x11_0000
  }

  function EncodeScalar(c: int): (e: bytes)
    requires Scalar(c)
    ensures 1 <= |e| <= 4
  {
    if c < 0x80 then [c]
    else if c < 0x800 then [0xC0 + c / 0x40, 0x80 + c % 0x40]
    else if c < 0x1_0000 then [0xE0 + c / 0x1000, 0x80 + c / 0x40 % 0x40, 0x80 + c % 0x40]
    else [0xF0 + c / 0x4_0000, 0x80 + c / 0x1000 % 0x40, 0x80 + c / 0x40 % 0x40, 0x80 + c % 0x40]
  }

  predicate Scalars(cs: seq<int>)
  {
    forall i :: 0 <= i < |cs| ==> Scalar(cs[i])
  }

  function EncodeScalars(cs: seq<int>): bytes
    requires Scalars(cs)
  {
    if cs == [] then [] else EncodeScalar(cs[0]) + EncodeScalars(cs[1..])
  }

  ghost predicate Encodes(cs: seq<int>, s: bytes)
  {
    Scalars(cs) && EncodeScalars(cs) == s
  }

  // Valid bytes

  function Decode2(a: byte, b: byte): int
  {
    0x40 * (a as int - 0xC0) + (b as int - 0x80)
  }

  function Decode3(a: byte, b: byte, c: byte): int
  {
    0x1000 * (a as int - 0xE0) + 0x40 * (b as int - 0x80) + (c as int - 0x80)
  }

  function Decode4(a: byte, b: byte, c: byte, d: byte): int
  {
    0x4_0000 * (a as int - 0xF0) + 0x1000 * (b as int - 0x80) + 0x40 * (c as int - 0x80) + (d as int - 0x80)
  }

  lemma SixBits(x: int, y: int)
    requires x >= 0 && 0 <= y < 0x40
    ensures (0x40 * x + y) / 0x40 == x && (0x40 * x + y) % 0x40 == y
  {
  }

  lemma SixAndSix(c: int)
    requires c >= 0
    ensures c / 0x1000 == c / 0x40 / 0x40 && c / 0x4_0000 == c / 0x40 / 0x40 / 0x40
  {
  }

  lemma Decoded2(a: byte, b: byte)
    requires 0xC2 <= a <= 0xDF && Continuation(b)
    ensures Scalar(Decode2(a, b)) && EncodeScalar(Decode2(a, b)) == [a, b]
  {
  }

  lemma Decoded3(a: byte, b: byte, c: byte)
    requires SecondOfThree(a, b) && Continuation(c)
    ensures Scalar(Decode3(a, b, c)) && EncodeScalar(Decode3(a, b, c)) == [a, b, c]
  {
    var x: int, y: int, z: int := a - 0xE0, b - 0x80, c - 0x80;
    Digits3(x, y, z, Decode3(a, b, c));
  }

  lemma Digits3(x: int, y: int, z: int, c: int)
    requires x >= 0 && 0 <= y < 0x40 && 0 <= z < 0x40 && c == 0x1000 * x + 0x40 * y + z
    ensures c / 0x1000 == x && c / 0x40 % 0x40 == y && c % 0x40 == z
  {
    SixBits(0x40 * x + y, z);
    SixBits(x, y);
    SixAndSix(c);
  }

  lemma Digits4(w: int, x: int, y: int, z: int, c: int)
    requires w >= 0 && 0 <= x < 0x40 && 0 <= y < 0x40 && 0 <= z < 0x40
    requires c == 0x4_0000 * w + 0x1000 * x + 0x40 * y + z
    ensures c / 0x4_0000 == w && c / 0x1000 % 0x40 == x && c / 0x40 % 0x40 == y && c % 0x40 == z
  {
    SixBits(0x1000 * w + 0x40 * x + y, z);
    SixBits(0x40 * w + x, y);
    SixBits(w, x);
    SixAndSix(c);
  }

  lemma Decoded4(a: byte, b: byte, c: byte, d: byte)
    requires SecondOfFour(a, b) && Continuation(c) && Continuation(d)
    ensures Scalar(Decode4(a, b, c, d)) && EncodeScalar(Decode4(a, b, c, d)) == [a, b, c, d]
  {
    var w: int, x: int, y: int, z: int := a - 0xF0, b - 0x80, c - 0x80, d - 0x80;
    Digits4(w, x, y, z, Decode4(a, b, c, d));
  }

  /** What a well-formed scalar value at the start of `s` is. */
  lemma FirstScalar(s: bytes) returns (c: int)
    requires ScalarLen(s) > 0
    ensures Scalar(c) && EncodeScalar(c) == s[..ScalarLen(s)]
  {
    var n := ScalarLen(s);
    if n == 1 {
      c := s[0];
    } else if n == 2 {
      c := Decode2(s[0], s[1]);
      Decoded2(s[0], s[1]);
    } else if n == 3 {
      c := Decode3(s[0], s[1], s[2]);
      Decoded3(s[0], s[1], s[2]);
    } else {
      c := Decode4(s[0], s[1], s[2], s[3]);
      Decoded4(s[0], s[1], s[2], s[3]);
    }
  }

  lemma ThreeBytes(c: int)
    requires Scalar(c) && 0x800 <= c < 0x1_0000
    ensures SecondOfThree(0xE0 + c / 0x1000, 0x80 + c / 0x40 % 0x40)
  {
  }

  lemma FourBytes(c: int)
    requires Scalar(c) && 0x1_0000 <= c
    ensures SecondOfFour(0xF0 + c / 0x4_0000, 0x80 + c / 0x1000 % 0x40)
  {
  }

  /** The bytes of an encoding, by their number. */
  lemma EncodedBytes(c: int)
    requires Scalar(c)
    ensures var e := EncodeScalar(c);
            && (|e| == 1 ==> e[0] < 0x80)
            && (|e| == 2 ==> 0xC2 <= e[0] <= 0xDF && Continuation(e[1]))
            && (|e| == 3 ==> SecondOfThree(e[0], e[1]) && Continuation(e[2]))
            && (|e| == 4 ==> SecondOfFour(e[0], e[1]) && Continuation(e[2]) && Continuation(e[3]))
  {
    if 0x800 <= c < 0x1_0000 {
      ThreeBytes(c);
    } else if 0x1_0000 <= c {
      FourBytes(c);
    }
  }

  lemma EncodedLen(c: int, rest: bytes)
    requires Scalar(c)
    ensures ScalarLen(EncodeScalar(c) + rest) == |EncodeScalar(c)|
  {
    EncodedBytes(c);
  }

  lemma {:induction false} EncodedIsValid(cs: seq<int>)
    requires Scalars(cs)
    ensures Valid(EncodeScalars(cs))
    decreases |cs|
  {
    if cs != [] {
      EncodedIsValid(cs[1..]);
      EncodedLen(cs[0], EncodeScalars(cs[1..]));
      assert EncodeScalars(cs)[|EncodeScalar(cs[0])|..] == EncodeScalars(cs[1..]);
    }
  }

  lemma EncodesCons(c: int, cs: seq<int>, s: bytes)
    requires Scalar(c) && Encodes(cs, s)
    ensures Encodes([c] + cs, EncodeScalar(c) + s)
  {
    assert ([c] + cs)[1..] == cs;
  }

  lemma {:induction false} ValidIsEncoded(s: bytes) returns (cs: seq<int>)
    requires Valid(s)
    ensures Encodes(cs, s)
    decreases |s|
  {
    if s == [] {
      cs := [];
    } else {
      var n := ScalarLen(s);
      var c := FirstScalar(s);
      var later := ValidIsEncoded(s[n..]);
      cs := [c] + later;
      EncodesCons(c, later, s[n..]);
      assert s == s[..n] + s[n..];
    }
  }

  /** Bytes are valid exactly if they are the encoding of scalar values. */
  lemma ValidIff(s: bytes)
    ensures Valid(s) <==> exists cs :: Encodes(cs, s)
  {
    if Valid(s) {
      var cs := ValidIsEncoded(s);
    }
    if cs :| Encodes(cs, s) {
      EncodedIsValid(cs);
    }
  }

  // Replacement

  /** `s` starts the encoding of a scalar value, perhaps all of it. */
  ghost predicate StartsScalar(s: bytes)
  {
    exists c :: Scalar(c) && s <= EncodeScalar(c)
  }

  lemma BrokenStart(s: bytes)
    requires s != [] && ScalarLen(s) == 0 && BrokenLen(s) > 1
    ensures StartsScalar(s[..BrokenLen(s)])
  {
    if SecondOfThree(s[0], s[1]) {
      Decoded3(s[0], s[1], 0x80);
    } else if BrokenLen(s) == 3 {
      Decoded4(s[0], s[1], s[2], 0x80);
    } else {
      Decoded4(s[0], s[1], 0x80, 0x80);
    }
  }

  lemma NoLongerStart(s: bytes, m: nat, c: int)
    requires s != [] && ScalarLen(s) == 0 && BrokenLen(s) < m <= |s| && Scalar(c)
    ensures !(s[..m] <= EncodeScalar(c))
  {
    EncodedBytes(c);
  }

  /** The bytes that one replacement character stands for: the longest start of a scalar value, or one byte if there is
      none. */
  lemma BrokenIsLongest(s: bytes)
    requires s != [] && ScalarLen(s) == 0
    ensures BrokenLen(s) == 1 || StartsScalar(s[..BrokenLen(s)])
    ensures forall m :: BrokenLen(s) < m <= |s| ==> !StartsScalar(s[..m])
  {
    if BrokenLen(s) > 1 {
      BrokenStart(s);
    }
    forall m | BrokenLen(s) < m <= |s| ensures !StartsScalar(s[..m]) {
      forall c | Scalar(c) ensures !(s[..m] <= EncodeScalar(c)) {
        NoLongerStart(s, m, c);
      }
    }
  }

  /** No bytes start with the encoding of a scalar value. */
  lemma NoScalarIff(s: bytes)
    requires s != []
    ensures ScalarLen(s) == 0 <==> forall c :: Scalar(c) ==> !(EncodeScalar(c) <= s)
  {
    if ScalarLen(s) > 0 {
      var c := FirstScalar(s);
      assert EncodeScalar(c) <= s;
    }
    forall c | Scalar(c) && EncodeScalar(c) <= s ensures ScalarLen(s) > 0 {
      EncodedLen(c, s[|EncodeScalar(c)|..]);
      assert EncodeScalar(c) + s[|EncodeScalar(c)|..] == s;
    }
  }

  /** A scalar value is kept. */
  lemma LossyKeeps(c: int, rest: bytes)
    requires Scalar(c)
    ensures Lossy(EncodeScalar(c) + rest) == EncodeScalar(c) + Lossy(rest)
  {
    var e := EncodeScalar(c);
    EncodedLen(c, rest);
    assert (e + rest)[..|e|] == e && (e + rest)[|e|..] == rest;
  }

  /** Where no scalar value is, U+FFFD, which is EF BF BD, replaces the longest start of one, or one byte. */
  lemma LossyReplaces(s: bytes, n: nat)
    requires 1 <= n <= |s| && forall c :: Scalar(c) ==> !(EncodeScalar(c) <= s)
    requires n == 1 || StartsScalar(s[..n])
    requires forall m :: n < m <= |s| ==> !StartsScalar(s[..m])
    ensures Lossy(s) == [0xEF, 0xBF, 0xBD] + Lossy(s[n..])
  {
    NoScalarIff(s);
    BrokenIsLongest(s);
    assert n == BrokenLen(s);
  }
}
