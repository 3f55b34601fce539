/** Bytes and the big-endian integers the PROXY wire format is made of. */
module Octets {

  type byte = x: int | 0 <= x < 256

  type bytes = seq<byte>

  /** The largest number a 16-bit length field can hold. */
  const U16_MAX: nat := 65535

  /** `u16::from_be_bytes([hi, lo])` */
  function U16(hi: byte, lo: byte): (n: nat)
    ensures n <= U16_MAX
  {
    256 * hi + lo
  }

  /** `n.to_be_bytes()` for a `u16` */
  function Be16(n: nat): (bs: bytes)
    requires n <= U16_MAX
    ensures |bs| == 2 && U16(bs[0], bs[1]) == n
  {
    [n / 256, n % 256]
  }

  lemma Be16OfU16(hi: byte, lo: byte)
    ensures Be16(U16(hi, lo)) == [hi, lo]
  {
  }

  /** A byte as an eight-bit vector, counted up from zero. */
  function Bits(b: byte): bv8
    decreases b
  {
    if b == 0 then 0 else Bits(b - 1) + 1
  }

  lemma {:induction false} IntOfBits(b: byte)
    ensures Bits(b) as int == b
    decreases b
  {
    if b != 0 {
      IntOfBits(b - 1);
    }
  }

  lemma BitsInjective(a: byte, b: byte)
    requires Bits(a) == Bits(b)
    ensures a == b
  {
    IntOfBits(a);
    IntOfBits(b);
  }

  lemma BitsOfInt(v: bv8)
    ensures Bits(v as int) == v
  {
    IntOfBits(v as int);
    SameInt(Bits(v as int), v);
  }

  lemma SameInt(v: bv8, w: bv8)
    requires v as int == w as int
    ensures v == w
  {
  }

  /** The four bytes of a word, most significant first. */
  function SplitWord(v: bv32): (bv8, bv8, bv8, bv8)
  {
    ((v >> 24) as bv8, ((v >> 16) & 0xFF) as bv8, ((v >> 8) & 0xFF) as bv8, (v & 0xFF) as bv8)
  }

  function JoinWord(a: bv8, b: bv8, c: bv8, d: bv8): bv32
  {
    ((a as bv32) << 24) | ((b as bv32) << 16) | ((c as bv32) << 8) | (d as bv32)
  }

  lemma JoinOfSplit(v: bv32)
    ensures var (a, b, c, d) := SplitWord(v); JoinWord(a, b, c, d) == v
  {
  }

  lemma SplitOfJoin(a: bv8, b: bv8, c: bv8, d: bv8)
    ensures SplitWord(JoinWord(a, b, c, d)) == (a, b, c, d)
  {
  }

  /** `v.to_be_bytes()` for a `u32` */
  function Be32(v: bv32): (bs: bytes)
    ensures |bs| == 4
  {
    var (a, b, c, d) := SplitWord(v);
    [a as int, b as int, c as int, d as int]
  }

  /** `u32::from_be_bytes(bs)` */
  function U32(bs: bytes): bv32
    requires |bs| == 4
  {
    JoinWord(Bits(bs[0]), Bits(bs[1]), Bits(bs[2]), Bits(bs[3]))
  }

  lemma U32OfBe32(v: bv32)
    ensures U32(Be32(v)) == v
  {
    var (a, b, c, d) := SplitWord(v);
    BitsOfInt(a);
    BitsOfInt(b);
    BitsOfInt(c);
    BitsOfInt(d);
    JoinOfSplit(v);
  }

  lemma Be32OfU32(bs: bytes)
    requires |bs| == 4
    ensures Be32(U32(bs)) == bs
  {
    SplitOfJoin(Bits(bs[0]), Bits(bs[1]), Bits(bs[2]), Bits(bs[3]));
    IntOfBits(bs[0]);
    IntOfBits(bs[1]);
    IntOfBits(bs[2]);
    IntOfBits(bs[3]);
  }

  /** A word shifted up by a byte, and the byte put below it. */
  function Shifted(w: bv32, d: bv8): bv32
  {
    (w << 8) | (d as bv32)
  }

  lemma ShiftedValue(w: bv32, d: bv8)
    requires w < 0x100_0000
    ensures Shifted(w, d) as int == 256 * (w as int) + d as int
  {
    ShiftValue(w);
    OrValue(w << 8, d);
  }

  lemma ShiftValue(w: bv32)
    requires w < 0x100_0000
    ensures (w << 8) as int == 256 * (w as int)
  {
  }

  lemma OrValue(w: bv32, d: bv8)
    requires w & 0xFF == 0
    ensures (w | (d as bv32)) as int == w as int + d as int
  {
  }

  lemma JoinShifted(a: bv8, b: bv8, c: bv8, d: bv8)
    ensures JoinWord(a, b, c, d) == Shifted(Shifted(Shifted(a as bv32, b), c), d)
    ensures a as bv32 < 0x100_0000 && Shifted(a as bv32, b) < 0x100_0000
            && Shifted(Shifted(a as bv32, b), c) < 0x100_0000
  {
  }

  lemma WidenedValue(a: bv8)
    ensures (a as bv32) as int == a as int
  {
  }

  /** The number four bytes spell, the first the most significant. */
  function BigEndian(bs: bytes): int
    requires |bs| == 4
  {
    var a: int, b: int, c: int, d: int := bs[0], bs[1], bs[2], bs[3];
    0x100_0000 * a + 0x1_0000 * b + 0x100 * c + d
  }

  lemma U32Value(bs: bytes)
    requires |bs| == 4
    ensures U32(bs) as int == BigEndian(bs)
  {
    var a, b, c, d := Bits(bs[0]), Bits(bs[1]), Bits(bs[2]), Bits(bs[3]);
    JoinShifted(a, b, c, d);
    WidenedValue(a);
    ShiftedValue(a as bv32, b);
    ShiftedValue(Shifted(a as bv32, b), c);
    ShiftedValue(Shifted(Shifted(a as bv32, b), c), d);
    IntOfBits(bs[0]);
    IntOfBits(bs[1]);
    IntOfBits(bs[2]);
    IntOfBits(bs[3]);
  }

  lemma BigEndianInjective(x: bytes, y: bytes)
    requires |x| == 4 && |y| == 4 && BigEndian(x) == BigEndian(y)
    ensures x == y
  {
    var a: int, b: int, c: int, d: int := x[0], x[1], x[2], x[3];
    var e: int, f: int, g: int, h: int := y[0], y[1], y[2], y[3];
    LastByte(0x1_0000 * a + 0x100 * b + c, d, 0x1_0000 * e + 0x100 * f + g, h);
    LastByte(0x100 * a + b, c, 0x100 * e + f, g);
    LastByte(a, b, e, f);
  }

  lemma LastByte(p: int, x: int, q: int, y: int)
    requires 0 <= x < 256 && 0 <= y < 256 && 256 * p + x == 256 * q + y
    ensures p == q && x == y
  {
  }

  lemma SameWord(v: bv32, w: bv32)
    requires v as int == w as int
    ensures v == w
  {
    U32OfBe32(v);
    U32OfBe32(w);
    U32Value(Be32(v));
    U32Value(Be32(w));
    BigEndianInjective(Be32(v), Be32(w));
  }

  // Bits

  /** The bits of a byte, the lowest first. */
  function ByteBits(b: byte): (bits: seq<bool>)
    ensures |bits| == 8
  {
    var v := Bits(b);
    [v & 1 != 0, v & 2 != 0, v & 4 != 0, v & 8 != 0, v & 16 != 0, v & 32 != 0, v & 64 != 0, v & 128 != 0]
  }

  lemma EightBits(v: bv8, w: bv8)
    requires (v & 1 != 0) == (w & 1 != 0) && (v & 2 != 0) == (w & 2 != 0) && (v & 4 != 0) == (w & 4 != 0)
    requires (v & 8 != 0) == (w & 8 != 0) && (v & 16 != 0) == (w & 16 != 0) && (v & 32 != 0) == (w & 32 != 0)
    requires (v & 64 != 0) == (w & 64 != 0) && (v & 128 != 0) == (w & 128 != 0)
    ensures v == w
  {
  }

  lemma ByteBitsInjective(a: byte, b: byte)
    requires ByteBits(a) == ByteBits(b)
    ensures a == b
  {
    var x, y := ByteBits(a), ByteBits(b);
    assert x[0] == y[0] && x[1] == y[1] && x[2] == y[2] && x[3] == y[3];
    assert x[4] == y[4] && x[5] == y[5] && x[6] == y[6] && x[7] == y[7];
    EightBits(Bits(a), Bits(b));
    BitsInjective(a, b);
  }

  /** The bits of all bytes, in the order of the bytes. */
  function BitsOf(data: bytes): (bits: seq<bool>)
    ensures |bits| == 8 * |data|
  {
    if data == [] then [] else ByteBits(data[0]) + BitsOf(data[1..])
  }

  lemma {:induction false} BitsOfAt(data: bytes, i: nat, j: nat)
    requires i < |data| && j < 8
    ensures BitsOf(data)[8 * i + j] == ByteBits(data[i])[j]
    decreases i
  {
    if i > 0 {
      BitsOfAt(data[1..], i - 1, j);
    }
  }

  lemma {:induction false} BitsOfConcat(a: bytes, b: bytes)
    ensures BitsOf(a + b) == BitsOf(a) + BitsOf(b)
    decreases |a|
  {
    if a == [] {
      assert a + b == b;
    } else {
      assert (a + b)[1..] == a[1..] + b;
      BitsOfConcat(a[1..], b);
    }
  }

  /** Bytes with the same bits are the same. */
  lemma SameByte(x: bytes, y: bytes, i: nat)
    requires i < |x| && i < |y| && forall j :: 8 * i <= j < 8 * i + 8 ==> BitsOf(x)[j] == BitsOf(y)[j]
    ensures x[i] == y[i]
  {
    forall j | 0 <= j < 8 ensures ByteBits(x[i])[j] == ByteBits(y[i])[j] {
      BitsOfAt(x, i, j);
      BitsOfAt(y, i, j);
    }
    ByteBitsInjective(x[i], y[i]);
  }

  lemma BitsOfInjective(x: bytes, y: bytes)
    requires BitsOf(x) == BitsOf(y)
    ensures x == y
  {
    forall i | 0 <= i < |x| ensures x[i] == y[i] {
      SameByte(x, y, i);
    }
  }

  lemma Regroup(a: bytes, b: bytes, c: bytes)
    ensures (a + b) + c == a + (b + c)
  {
  }
}
