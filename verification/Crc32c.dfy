/** CRC-32C (Appendix B of RFC 4960): reflected polynomial 0x82F63B78, all-ones start and final xor.

    The state is a 32-bit register; each input byte is xored into its low end before eight shifts. */
module Crc32c {
  import opened Octets
  import opened Register

  const POLY: bv32 := 0x82F63B78
  const ONES: bv32 := 0xFFFF_FFFF
  const BITS: nat := 8

  /** One shift of the register. */
  function BitStep(s: bv32): bv32
  {
    if s & 1 == 1 then (s >> 1) ^ POLY else s >> 1
  }

  /** Eight shifts. */
  function Shift8(s: bv32): bv32
  {
    Iterate(BitStep, s, BITS)
  }

  function Xor(a: bv32, b: bv32): bv32
  {
    a ^ b
  }

  /** A byte at the low end of the register. */
  function Word(b: byte): bv32
  {
    Bits(b) as bv32
  }

  function ByteStep(s: bv32, b: byte): bv32
  {
    Shift8(Xor(s, Word(b)))
  }

  /** `crc32c::crc32c(data)` */
  function Checksum(data: bytes): bv32
  {
    Xor(Fold(ByteStep, ONES, data), ONES)
  }

  /** `crc32c::crc32c_append(crc, data)` */
  function Append(crc: bv32, data: bytes): bv32
  {
    Xor(Fold(ByteStep, Xor(crc, ONES), data), ONES)
  }

  lemma XorTwice(s: bv32, m: bv32)
    ensures Xor(Xor(s, m), m) == s
  {
  }

  lemma XorCancel(s: bv32, t: bv32, m: bv32)
    requires Xor(s, m) == Xor(t, m)
    ensures s == t
  {
  }

  /** A checksum may be computed piece by piece. */
  lemma AppendLaw(a: bytes, b: bytes)
    ensures Append(Checksum(a), b) == Checksum(a + b)
  {
    FoldConcat(ByteStep, ONES, a, b);
    XorTwice(Fold(ByteStep, ONES, a), ONES);
  }

  lemma ThreePieces(a: bytes, b: bytes, c: bytes)
    ensures Append(Append(Checksum(a), b), c) == Checksum(a + b + c)
  {
    AppendLaw(a, b);
    AppendLaw(a + b, c);
  }

  // The top bit of the polynomial is set, so a shift loses nothing; input above the low bit is only shifted.

  predicate Odd(s: bv32)
  {
    s & 1 == 1
  }

  function Half(s: bv32): bv32
  {
    s >> 1
  }

  function Double(a: bv32): bv32
  {
    a << 1
  }

  predicate Below31(a: bv32)
  {
    a < 0x8000_0000
  }

  const CRC: Machine<bv32> := Machine(BitStep, Xor, 0, 1, Double, Half, Odd, Below31)

  const WIDTH: nat := 32

  lemma BitStepInjective(s: bv32, t: bv32)
    requires BitStep(s) == BitStep(t)
    ensures s == t
  {
  }

  lemma StepInjective()
    ensures Injective(CRC.step)
  {
    forall x, y | CRC.step(x) == CRC.step(y) ensures x == y {
      BitStepInjective(x, y);
    }
  }

  lemma XorAssociative(x: bv32, y: bv32, z: bv32)
    ensures Xor(Xor(x, y), z) == Xor(x, Xor(y, z))
  {
  }

  lemma XorCancelLeft(s: bv32, x: bv32, y: bv32)
    requires Xor(s, x) == Xor(s, y)
    ensures x == y
  {
  }

  lemma XorZero(x: bv32)
    ensures Xor(x, 0) == x && Xor(0, x) == x
  {
  }

  lemma XorAssociates()
    ensures Associates(CRC)
  {
    forall x, y, z ensures CRC.xor(CRC.xor(x, y), z) == CRC.xor(x, CRC.xor(y, z)) {
      XorAssociative(x, y, z);
    }
  }

  lemma XorUndoable()
    ensures Undoable(CRC)
  {
    forall x, y, z | CRC.xor(x, y) == CRC.xor(x, z) ensures y == z {
      XorCancelLeft(x, y, z);
    }
    forall x, y, z | CRC.xor(y, x) == CRC.xor(z, x) ensures y == z {
      XorCancel(y, z, x);
    }
  }

  lemma XorUnits()
    ensures Units(CRC)
  {
    forall x ensures CRC.xor(x, CRC.zero) == x && CRC.xor(CRC.zero, x) == x {
      XorZero(x);
    }
  }

  lemma XorIsXor()
    ensures XorLaws(CRC)
  {
    XorAssociates();
    XorUndoable();
    XorUnits();
  }

  lemma BitStepReduces()
    ensures Reduces(CRC, POLY)
  {
    forall x ensures CRC.step(x) == if CRC.odd(x) then CRC.xor(CRC.half(x), POLY) else CRC.half(x) {
    }
  }

  lemma DoubledOdd(s: bv32, y: bv32)
    ensures Odd(Xor(s, Double(y))) == Odd(s)
  {
  }

  lemma DoubledHalf(s: bv32, y: bv32)
    requires Below31(y)
    ensures Half(Xor(s, Double(y))) == Xor(Half(s), y)
  {
  }

  lemma DoublingHalves()
    ensures Halves(CRC)
  {
    forall x, y | CRC.small(y)
      ensures CRC.odd(CRC.xor(x, CRC.double(y))) == CRC.odd(x)
      ensures CRC.half(CRC.xor(x, CRC.double(y))) == CRC.xor(CRC.half(x), y)
    {
      DoubledOdd(x, y);
      DoubledHalf(x, y);
    }
  }

  lemma XorSwaps()
    ensures Swaps(CRC)
  {
    forall x, y, z ensures CRC.xor(CRC.xor(x, y), z) == CRC.xor(CRC.xor(x, z), y) {
      XorAssociative(x, y, z);
      XorAssociative(x, z, y);
    }
  }

  lemma DoubleXor(x: bv32, y: bv32)
    ensures Double(Xor(x, y)) == Xor(Double(x), Double(y))
    ensures Below31(x) && Below31(y) ==> Below31(Xor(x, y))
  {
  }

  lemma DoublingLinear()
    ensures Linear(CRC)
  {
    forall x, y ensures CRC.double(CRC.xor(x, y)) == CRC.xor(CRC.double(x), CRC.double(y)) {
      DoubleXor(x, y);
    }
    forall x, y | CRC.small(x) && CRC.small(y) ensures CRC.small(CRC.xor(x, y)) {
      DoubleXor(x, y);
    }
  }

  lemma RoomAbove(w: bv32, r: nat)
    requires Below31(w) && Room(CRC, Double(w), r)
    ensures Room(CRC, w, r + 1)
  {
  }

  lemma HighRoom()
    ensures Room(CRC, 0x1_0000, 15)
  {
    RoomAbove(0x4000_0000, 0);
    RoomAbove(0x2000_0000, 1);
    RoomAbove(0x1000_0000, 2);
    RoomAbove(0x0800_0000, 3);
    RoomAbove(0x0400_0000, 4);
    RoomAbove(0x0200_0000, 5);
    RoomAbove(0x0100_0000, 6);
    RoomAbove(0x0080_0000, 7);
    RoomAbove(0x0040_0000, 8);
    RoomAbove(0x0020_0000, 9);
    RoomAbove(0x0010_0000, 10);
    RoomAbove(0x0008_0000, 11);
    RoomAbove(0x0004_0000, 12);
    RoomAbove(0x0002_0000, 13);
    RoomAbove(0x0001_0000, 14);
  }

  /** The lowest bit can move up 31 times. */
  lemma WideEnough()
    ensures Wide(CRC, WIDTH)
  {
    HighRoom();
    RoomAbove(0x8000, 15);
    RoomAbove(0x4000, 16);
    RoomAbove(0x2000, 17);
    RoomAbove(0x1000, 18);
    RoomAbove(0x0800, 19);
    RoomAbove(0x0400, 20);
    RoomAbove(0x0200, 21);
    RoomAbove(0x0100, 22);
    RoomAbove(0x0080, 23);
    RoomAbove(0x0040, 24);
    RoomAbove(0x0020, 25);
    RoomAbove(0x0010, 26);
    RoomAbove(0x0008, 27);
    RoomAbove(0x0004, 28);
    RoomAbove(0x0002, 29);
    RoomAbove(0x0001, 30);
  }

  lemma CrcIsSound()
    ensures Sound(CRC, WIDTH)
  {
    XorIsXor();
    DoublingHalves();
    DoublingLinear();
    WideEnough();
    StepInjective();
    BitStepReduces();
    XorSwaps();
    ReducedShifts(CRC, POLY);
    LawfulIsSound(CRC, WIDTH);
  }

  // A byte is fed as its bits

  function Below(b: bool, w: bv32): bv32
  {
    Xor(if b then 1 else 0, Double(w))
  }

  lemma HighBits(v: bv8)
    ensures Below(v & 16 != 0, Below(v & 32 != 0, Below(v & 64 != 0, Below(v & 128 != 0, 0)))) == (v >> 4) as bv32
  {
  }

  lemma LowBits(v: bv8)
    ensures Below(v & 1 != 0, Below(v & 2 != 0, Below(v & 4 != 0, Below(v & 8 != 0, (v >> 4) as bv32)))) == v as bv32
  {
  }

  lemma BelowIsPlaced(b: bool, w: bv32)
    ensures Placed(CRC, b, w) == Below(b, w)
  {
  }

  lemma FourPlaced(a: bool, b: bool, c: bool, d: bool, w: bv32)
    ensures Placed(CRC, a, Placed(CRC, b, Placed(CRC, c, Placed(CRC, d, w))))
         == Below(a, Below(b, Below(c, Below(d, w))))
  {
    BelowIsPlaced(d, w);
    BelowIsPlaced(c, Below(d, w));
    BelowIsPlaced(b, Below(c, Below(d, w)));
    BelowIsPlaced(a, Below(b, Below(c, Below(d, w))));
  }

  lemma HighWord(e: bool, f: bool, g: bool, h: bool, v: bv8)
    requires e == (v & 16 != 0) && f == (v & 32 != 0) && g == (v & 64 != 0) && h == (v & 128 != 0)
    ensures Placed(CRC, e, Placed(CRC, f, Placed(CRC, g, Placed(CRC, h, 0)))) == (v >> 4) as bv32
  {
    HighBits(v);
    FourPlaced(e, f, g, h, 0);
  }

  lemma LowWord(a: bool, b: bool, c: bool, d: bool, v: bv8)
    requires a == (v & 1 != 0) && b == (v & 2 != 0) && c == (v & 4 != 0) && d == (v & 8 != 0)
    ensures Placed(CRC, a, Placed(CRC, b, Placed(CRC, c, Placed(CRC, d, (v >> 4) as bv32)))) == v as bv32
  {
    LowBits(v);
    FourPlaced(a, b, c, d, (v >> 4) as bv32);
  }

  lemma EightPlaced(a: bool, b: bool, c: bool, d: bool, e: bool, f: bool, g: bool, h: bool, v: bv8)
    requires a == (v & 1 != 0) && b == (v & 2 != 0) && c == (v & 4 != 0) && d == (v & 8 != 0)
    requires e == (v & 16 != 0) && f == (v & 32 != 0) && g == (v & 64 != 0) && h == (v & 128 != 0)
    ensures Spells(CRC, [a, b, c, d, e, f, g, h], v as bv32)
  {
    HighWord(e, f, g, h, v);
    LowWord(a, b, c, d, v);
  }

  lemma WordOfByte(b: byte)
    ensures WordOf(CRC, ByteBits(b)) == Word(b)
  {
    var v := Bits(b);
    EightPlaced(v & 1 != 0, v & 2 != 0, v & 4 != 0, v & 8 != 0, v & 16 != 0, v & 32 != 0, v & 64 != 0, v & 128 != 0, v);
    WordSpelled(CRC, ByteBits(b), Word(b));
  }

  lemma ByteStepSerial()
    ensures Serial(CRC, ByteStep)
  {
    CrcIsSound();
    forall s, b: byte ensures ByteStep(s, b) == Feed(CRC, s, ByteBits(b)) {
      WordOfByte(b);
      FeedIsIterate(CRC, WIDTH, s, ByteBits(b));
    }
  }

  lemma FinalXor(s: bv32, t: bv32)
    requires s != t
    ensures Xor(s, ONES) != Xor(t, ONES)
  {
  }

  /** Inputs whose bits, in the order they are fed, differ within 32 consecutive ones have different checksums. */
  lemma BitBurstDetected(x: bytes, y: bytes, pre: seq<bool>, a: seq<bool>, b: seq<bool>, post: seq<bool>)
    requires BitsOf(x) == pre + a + post && BitsOf(y) == pre + b + post && |a| == |b| <= 32 && a != b
    ensures Checksum(x) != Checksum(y)
  {
    CrcIsSound();
    ByteStepSerial();
    FoldIsFeed(CRC, ByteStep, ONES, x);
    FoldIsFeed(CRC, ByteStep, ONES, y);
    BurstChangesState(CRC, WIDTH, ONES, pre, a, b, post);
    FinalXor(Fold(ByteStep, ONES, x), Fold(ByteStep, ONES, y));
  }

  // An anchor for the constants

  lemma ShiftedEight(s: bv32)
    ensures Shift8(s) == BitStep(BitStep(BitStep(BitStep(BitStep(BitStep(BitStep(BitStep(s))))))))
  {
    IterateTwice(BitStep, s, 6);
    IterateTwice(BitStep, BitStep(BitStep(s)), 4);
    IterateTwice(BitStep, BitStep(BitStep(BitStep(BitStep(s)))), 2);
  }

  lemma IterateTwice(f: bv32 -> bv32, s: bv32, n: nat)
    ensures Iterate(f, s, n + 2) == Iterate(f, f(f(s)), n)
  {
  }

  lemma ByteStepIs(s: bv32, b: byte, v: bv8, t: bv32)
    requires v as int == b && t == BitStep(BitStep(BitStep(BitStep(BitStep(BitStep(BitStep(BitStep(s ^ v as bv32))))))))
    ensures ByteStep(s, b) == t
  {
    BitsOfInt(v);
    ShiftedEight(s ^ v as bv32);
  }

  lemma StepsTo(s: bv32, b: byte, t: bv32)
    requires ByteStep(s, b) == t
    ensures Steps(ByteStep, s, b, t)
  {
  }

  lemma OneToThree()
    ensures Steps(ByteStep, ONES, 0x31, 0x6F0A_661C)
    ensures Steps(ByteStep, 0x6F0A_661C, 0x32, 0x8CAA_3B9F)
    ensures Steps(ByteStep, 0x8CAA_3B9F, 0x33, 0xEF84_D04D)
  {
    ByteStepIs(ONES, 0x31, 0x31, 0x6F0A_661C);
    StepsTo(ONES, 0x31, 0x6F0A_661C);
    ByteStepIs(0x6F0A_661C, 0x32, 0x32, 0x8CAA_3B9F);
    StepsTo(0x6F0A_661C, 0x32, 0x8CAA_3B9F);
    ByteStepIs(0x8CAA_3B9F, 0x33, 0x33, 0xEF84_D04D);
    StepsTo(0x8CAA_3B9F, 0x33, 0xEF84_D04D);
  }

  lemma FourToSix()
    ensures Steps(ByteStep, 0xEF84_D04D, 0x34, 0x09C5_0B11)
    ensures Steps(ByteStep, 0x09C5_0B11, 0x35, 0xE72E_DCCA)
    ensures Steps(ByteStep, 0xE72E_DCCA, 0x36, 0xBECA_8E79)
  {
    ByteStepIs(0xEF84_D04D, 0x34, 0x34, 0x09C5_0B11);
    StepsTo(0xEF84_D04D, 0x34, 0x09C5_0B11);
    ByteStepIs(0x09C5_0B11, 0x35, 0x35, 0xE72E_DCCA);
    StepsTo(0x09C5_0B11, 0x35, 0xE72E_DCCA);
    ByteStepIs(0xE72E_DCCA, 0x36, 0x36, 0xBECA_8E79);
    StepsTo(0xE72E_DCCA, 0x36, 0xBECA_8E79);
  }

  lemma SevenToNine()
    ensures Steps(ByteStep, 0xBECA_8E79, 0x37, 0xEDBD_6815)
    ensures Steps(ByteStep, 0xEDBD_6815, 0x38, 0x9F78_7F65)
    ensures Steps(ByteStep, 0x9F78_7F65, 0x39, 0x1CF9_6D7C)
  {
    ByteStepIs(0xBECA_8E79, 0x37, 0x37, 0xEDBD_6815);
    StepsTo(0xBECA_8E79, 0x37, 0xEDBD_6815);
    ByteStepIs(0xEDBD_6815, 0x38, 0x38, 0x9F78_7F65);
    StepsTo(0xEDBD_6815, 0x38, 0x9F78_7F65);
    ByteStepIs(0x9F78_7F65, 0x39, 0x39, 0x1CF9_6D7C);
    StepsTo(0x9F78_7F65, 0x39, 0x1CF9_6D7C);
  }

  lemma FirstThree()
    ensures Fold(ByteStep, ONES, [0x31] + [0x32] + [0x33]) == 0xEF84_D04D
  {
    OneToThree();
    FoldThree(ByteStep, ONES, 0x31, 0x6F0A_661C, 0x32, 0x8CAA_3B9F, 0x33, 0xEF84_D04D);
  }

  lemma NextThree()
    ensures Fold(ByteStep, 0xEF84_D04D, [0x34] + [0x35] + [0x36]) == 0xBECA_8E79
  {
    FourToSix();
    FoldThree(ByteStep, 0xEF84_D04D, 0x34, 0x09C5_0B11, 0x35, 0xE72E_DCCA, 0x36, 0xBECA_8E79);
  }

  lemma LastThree()
    ensures Fold(ByteStep, 0xBECA_8E79, [0x37] + [0x38] + [0x39]) == 0x1CF9_6D7C
  {
    SevenToNine();
    FoldThree(ByteStep, 0xBECA_8E79, 0x37, 0xEDBD_6815, 0x38, 0x9F78_7F65, 0x39, 0x1CF9_6D7C);
  }

  lemma NineDigits()
    ensures ([0x31] + [0x32] + [0x33]) + ([0x34] + [0x35] + [0x36]) + ([0x37] + [0x38] + [0x39])
         == [0x31, 0x32, 0x33, 0x34, 0x35, 0x36, 0x37, 0x38, 0x39]
  {
  }

  /** The check value of CRC-32C: the checksum of the digits 1 to 9. */
  lemma CheckValue()
    ensures Checksum([0x31, 0x32, 0x33, 0x34, 0x35, 0x36, 0x37, 0x38, 0x39]) == 0xE306_9283
  {
    NineDigits();
    FirstThree();
    NextThree();
    LastThree();
    FoldPieces(ByteStep, ONES, [0x31] + [0x32] + [0x33], 0xEF84_D04D, [0x34] + [0x35] + [0x36], 0xBECA_8E79,
               [0x37] + [0x38] + [0x39], 0x1CF9_6D7C);
  }
}
