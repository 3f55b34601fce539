/** Shift registers fed bit by bit, over any state type: what is true of a checksum register because its step loses no
    information and only shifts what is not yet due, whatever the step is. */
module Register {
  import opened Octets

  /** A register and what its proofs speak of: its step, and doubling and halving. Doubling loses nothing that is
      small. */
  datatype Machine<!T> = Machine(
    step: T -> T,
    xor: (T, T) -> T,
    zero: T,
    one: T,
    double: T -> T,
    half: T -> T,
    odd: T -> bool,
    small: T -> bool)

  function Iterate<T>(f: T -> T, s: T, n: nat): T
    decreases n
  {
    if n == 0 then s else Iterate(f, f(s), n - 1)
  }

  ghost predicate Injective<T(!new)>(f: T -> T)
  {
    forall x, y :: f(x) == f(y) ==> x == y
  }

  lemma {:induction false} IterateInjective<T(!new)>(f: T -> T, s: T, t: T, n: nat)
    requires Injective(f) && Iterate(f, s, n) == Iterate(f, t, n)
    ensures s == t
    decreases n
  {
    if n > 0 {
      IterateInjective(f, f(s), f(t), n - 1);
    }
  }

  // The laws

  ghost predicate Associates<T(!new)>(m: Machine<T>)
  {
    forall x, y, z :: m.xor(m.xor(x, y), z) == m.xor(x, m.xor(y, z))
  }

  /** What is xored in can be taken out again, on either side. */
  ghost predicate Undoable<T(!new)>(m: Machine<T>)
  {
    && (forall x, y, z :: m.xor(x, y) == m.xor(x, z) ==> y == z)
    && (forall x, y, z :: m.xor(y, x) == m.xor(z, x) ==> y == z)
  }

  ghost predicate Units<T(!new)>(m: Machine<T>)
  {
    (forall x :: m.xor(x, m.zero) == x) && (forall x :: m.xor(m.zero, x) == x)
  }

  ghost predicate XorLaws<T(!new)>(m: Machine<T>)
  {
    Associates(m) && Undoable(m) && Units(m)
  }

  /** Input that is not yet due passes through a step, which shifts it and does nothing else to it. */
  ghost predicate Shifts<T(!new)>(m: Machine<T>)
  {
    forall x, y :: m.small(y) ==> m.step(m.xor(x, m.double(y))) == m.xor(m.step(x), y)
  }

  /** Doubled input is even, and halving gives it back. */
  ghost predicate Halves<T(!new)>(m: Machine<T>)
  {
    && m.odd(m.one) && !m.odd(m.zero) && m.half(m.one) == m.zero && m.half(m.zero) == m.zero
    && forall x, y :: m.small(y) ==>
         m.odd(m.xor(x, m.double(y))) == m.odd(x) && m.half(m.xor(x, m.double(y))) == m.xor(m.half(x), y)
  }

  ghost predicate Linear<T(!new)>(m: Machine<T>)
  {
    && m.small(m.zero) && m.double(m.zero) == m.zero
    && (forall x, y :: m.small(x) && m.small(y) ==> m.small(m.xor(x, y)))
    && (forall x, y :: m.double(m.xor(x, y)) == m.xor(m.double(x), m.double(y)))
  }

  /** A step halves, and xors `poly` in if the register was odd. */
  ghost predicate Reduces<T(!new)>(m: Machine<T>, poly: T)
  {
    forall x :: m.step(x) == if m.odd(x) then m.xor(m.half(x), poly) else m.half(x)
  }

  ghost predicate Swaps<T(!new)>(m: Machine<T>)
  {
    forall x, y, z :: m.xor(m.xor(x, y), z) == m.xor(m.xor(x, z), y)
  }

  lemma ReducedShifts<T(!new)>(m: Machine<T>, poly: T)
    requires Reduces(m, poly) && Halves(m) && Swaps(m)
    ensures Shifts(m)
  {
    forall x, y | m.small(y) ensures m.step(m.xor(x, m.double(y))) == m.xor(m.step(x), y) {
      assert m.xor(m.xor(m.half(x), y), poly) == m.xor(m.xor(m.half(x), poly), y);
    }
  }

  // Feeding bits

  function BitOf<T>(m: Machine<T>, b: bool): T
  {
    if b then m.one else m.zero
  }

  /** The register after one bit, and after many. */
  function FeedOne<T>(m: Machine<T>, s: T, b: bool): T
  {
    m.step(m.xor(s, BitOf(m, b)))
  }

  function Feed<T>(m: Machine<T>, s: T, bits: seq<bool>): T
    decreases |bits|
  {
    if bits == [] then s else Feed(m, FeedOne(m, s, bits[0]), bits[1..])
  }

  lemma {:induction false} FeedConcat<T>(m: Machine<T>, s: T, a: seq<bool>, b: seq<bool>)
    ensures Feed(m, s, a + b) == Feed(m, Feed(m, s, a), b)
    decreases |a|
  {
    if a == [] {
      assert a + b == b;
    } else {
      assert (a + b)[1..] == a[1..] + b;
      FeedConcat(m, FeedOne(m, s, a[0]), a[1..], b);
    }
  }

  lemma {:induction false} FeedInjective<T(!new)>(m: Machine<T>, s: T, t: T, bits: seq<bool>)
    requires Undoable(m) && Injective(m.step) && Feed(m, s, bits) == Feed(m, t, bits)
    ensures s == t
    decreases |bits|
  {
    if bits != [] {
      var b := BitOf(m, bits[0]);
      FeedInjective(m, FeedOne(m, s, bits[0]), FeedOne(m, t, bits[0]), bits[1..]);
      assert m.xor(s, b) == m.xor(t, b);
    }
  }

  /** A bit below a word. */
  function Placed<T>(m: Machine<T>, b: bool, w: T): T
  {
    m.xor(BitOf(m, b), m.double(w))
  }

  /** Bits as a word, the first the lowest. */
  function WordOf<T>(m: Machine<T>, bits: seq<bool>): T
    decreases |bits|
  {
    if bits == [] then m.zero else Placed(m, bits[0], WordOf(m, bits[1..]))
  }

  /** The word can be doubled `r` times without loss. */
  predicate Room<T>(m: Machine<T>, w: T, r: nat)
    decreases r
  {
    r == 0 || (m.small(w) && Room(m, m.double(w), r - 1))
  }

  lemma {:induction false} RoomLess<T(!new)>(m: Machine<T>, w: T, r: nat, q: nat)
    requires Room(m, w, r) && q <= r
    ensures Room(m, w, q)
    decreases q
  {
    if q > 0 {
      RoomLess(m, m.double(w), r - 1, q - 1);
    }
  }

  lemma {:induction false} RoomZero<T(!new)>(m: Machine<T>, r: nat)
    requires Linear(m)
    ensures Room(m, m.zero, r)
  {
    if r > 0 {
      RoomZero(m, r - 1);
    }
  }

  lemma {:induction false} RoomXor<T(!new)>(m: Machine<T>, x: T, y: T, r: nat)
    requires Linear(m) && Room(m, x, r) && Room(m, y, r)
    ensures Room(m, m.xor(x, y), r)
    decreases r
  {
    if r > 0 {
      RoomXor(m, m.double(x), m.double(y), r - 1);
      assert m.double(m.xor(x, y)) == m.xor(m.double(x), m.double(y));
    }
  }

  /** A register `width` bits wide has room for that many bits. */
  ghost predicate Wide<T(!new)>(m: Machine<T>, width: nat)
  {
    width > 0 && Room(m, m.one, width - 1)
  }

  lemma {:induction false} WordRoom<T(!new)>(m: Machine<T>, width: nat, bits: seq<bool>, r: nat)
    requires Linear(m) && Wide(m, width) && |bits| + r <= width
    ensures Room(m, WordOf(m, bits), r)
    decreases |bits|
  {
    if bits == [] {
      RoomZero(m, r);
    } else {
      WordRoom(m, width, bits[1..], r + 1);
      if bits[0] {
        RoomLess(m, m.one, width - 1, r);
      } else {
        RoomZero(m, r);
      }
      RoomXor(m, BitOf(m, bits[0]), m.double(WordOf(m, bits[1..])), r);
    }
  }

  lemma WordSmall<T(!new)>(m: Machine<T>, width: nat, bits: seq<bool>)
    requires Linear(m) && Wide(m, width) && |bits| < width
    ensures m.small(WordOf(m, bits))
  {
    WordRoom(m, width, bits, 1);
  }

  /** One bit of input, with the word of the rest waiting above it. */
  lemma FeedStep<T(!new)>(m: Machine<T>, s: T, b: bool, w: T)
    requires XorLaws(m) && Shifts(m) && m.small(w)
    ensures m.step(m.xor(s, Placed(m, b, w))) == m.xor(FeedOne(m, s, b), w)
  {
    var c := BitOf(m, b);
    assert m.xor(s, m.xor(c, m.double(w))) == m.xor(m.xor(s, c), m.double(w));
    assert m.step(m.xor(m.xor(s, c), m.double(w))) == m.xor(m.step(m.xor(s, c)), w);
  }

  /** Words of fewer bits than the register is wide wait above the bit that is fed. */
  ghost predicate Waits<T(!new)>(m: Machine<T>, width: nat)
  {
    && (forall s :: m.xor(s, m.zero) == s)
    && forall s, b, rest: seq<bool> | |rest| < width ::
         m.step(m.xor(s, Placed(m, b, WordOf(m, rest)))) == m.xor(FeedOne(m, s, b), WordOf(m, rest))
  }

  lemma WordsWait<T(!new)>(m: Machine<T>, width: nat)
    requires XorLaws(m) && Shifts(m) && Linear(m) && Wide(m, width)
    ensures Waits(m, width)
  {
    forall s, b, rest: seq<bool> | |rest| < width
      ensures m.step(m.xor(s, Placed(m, b, WordOf(m, rest)))) == m.xor(FeedOne(m, s, b), WordOf(m, rest))
    {
      WordSmall(m, width, rest);
      FeedStep(m, s, b, WordOf(m, rest));
    }
  }

  /** Up to a register's width, feeding bits one at a time is like xoring them in as a word before all the steps. */
  lemma {:induction false} FeedIsIterate<T(!new)>(m: Machine<T>, width: nat, s: T, bits: seq<bool>)
    requires Waits(m, width) && |bits| <= width
    ensures Feed(m, s, bits) == Iterate(m.step, m.xor(s, WordOf(m, bits)), |bits|)
    decreases |bits|
  {
    if bits != [] {
      var b, rest := bits[0], bits[1..];
      FeedIsIterate(m, width, FeedOne(m, s, b), rest);
      assert m.step(m.xor(s, Placed(m, b, WordOf(m, rest)))) == m.xor(FeedOne(m, s, b), WordOf(m, rest));
    }
  }

  lemma PlacedParts<T(!new)>(m: Machine<T>, b: bool, w: T)
    requires XorLaws(m) && Halves(m) && m.small(w)
    ensures m.odd(Placed(m, b, w)) == b && m.half(Placed(m, b, w)) == w
  {
    assert m.half(m.xor(BitOf(m, b), m.double(w))) == m.xor(m.half(BitOf(m, b)), w);
  }

  lemma PlacedInjective<T(!new)>(m: Machine<T>, a: bool, v: T, b: bool, w: T)
    requires XorLaws(m) && Halves(m) && m.small(v) && m.small(w) && Placed(m, a, v) == Placed(m, b, w)
    ensures a == b && v == w
  {
    PlacedParts(m, a, v);
    PlacedParts(m, b, w);
  }

  /** The lowest bit and the word above it can be told apart. */
  ghost predicate TellsApart<T(!new)>(m: Machine<T>, width: nat)
  {
    forall a, v: seq<bool>, b, w: seq<bool> | |v| < width && |w| < width ::
      Placed(m, a, WordOf(m, v)) == Placed(m, b, WordOf(m, w)) ==> a == b && WordOf(m, v) == WordOf(m, w)
  }

  lemma WordsTellApart<T(!new)>(m: Machine<T>, width: nat)
    requires XorLaws(m) && Halves(m) && Linear(m) && Wide(m, width)
    ensures TellsApart(m, width)
  {
    forall a, v: seq<bool>, b, w: seq<bool> | |v| < width && |w| < width
      && Placed(m, a, WordOf(m, v)) == Placed(m, b, WordOf(m, w))
      ensures a == b && WordOf(m, v) == WordOf(m, w)
    {
      WordSmall(m, width, v);
      WordSmall(m, width, w);
      PlacedInjective(m, a, WordOf(m, v), b, WordOf(m, w));
    }
  }

  lemma {:induction false} WordInjective<T(!new)>(m: Machine<T>, width: nat, a: seq<bool>, b: seq<bool>)
    requires TellsApart(m, width) && |a| == |b| <= width && WordOf(m, a) == WordOf(m, b)
    ensures a == b
    decreases |a|
  {
    if a != [] {
      assert Placed(m, a[0], WordOf(m, a[1..])) == Placed(m, b[0], WordOf(m, b[1..]));
      WordInjective(m, width, a[1..], b[1..]);
      assert a == [a[0]] + a[1..] && b == [b[0]] + b[1..];
    }
  }

  lemma WordDrop<T>(m: Machine<T>, bits: seq<bool>, i: nat)
    requires i < |bits|
    ensures WordOf(m, bits[i..]) == Placed(m, bits[i], WordOf(m, bits[i + 1..]))
  {
    assert bits[i..][1..] == bits[i + 1..];
  }

  /** Eight bits and the word they are. */
  predicate Spells<T(==)>(m: Machine<T>, bits: seq<bool>, w: T)
  {
    && |bits| == 8
    && Placed(m, bits[0], Placed(m, bits[1], Placed(m, bits[2], Placed(m, bits[3],
         Placed(m, bits[4], Placed(m, bits[5], Placed(m, bits[6], Placed(m, bits[7], m.zero)))))))) == w
  }

  lemma WordSpelled<T>(m: Machine<T>, bits: seq<bool>, w: T)
    requires Spells(m, bits, w)
    ensures WordOf(m, bits) == w
  {
    assert bits[0..] == bits && bits[8..] == [];
    WordDrop(m, bits, 0);
    WordDrop(m, bits, 1);
    WordDrop(m, bits, 2);
    WordDrop(m, bits, 3);
    WordDrop(m, bits, 4);
    WordDrop(m, bits, 5);
    WordDrop(m, bits, 6);
    WordDrop(m, bits, 7);
  }

  /** What a register needs to detect bursts. */
  ghost predicate Sound<T(!new)>(m: Machine<T>, width: nat)
  {
    Waits(m, width) && TellsApart(m, width) && Undoable(m) && Injective(m.step)
  }

  lemma LawfulIsSound<T(!new)>(m: Machine<T>, width: nat)
    requires XorLaws(m) && Shifts(m) && Halves(m) && Linear(m) && Wide(m, width) && Injective(m.step)
    ensures Sound(m, width)
  {
    WordsWait(m, width);
    WordsTellApart(m, width);
  }

  lemma WindowInjective<T(!new)>(m: Machine<T>, width: nat, s: T, a: seq<bool>, b: seq<bool>)
    requires Sound(m, width) && |a| == |b| <= width && Feed(m, s, a) == Feed(m, s, b)
    ensures a == b
  {
    FeedIsIterate(m, width, s, a);
    FeedIsIterate(m, width, s, b);
    IterateInjective(m.step, m.xor(s, WordOf(m, a)), m.xor(s, WordOf(m, b)), |a|);
    WordInjective(m, width, a, b);
  }

  /** Replacing consecutive bits, no more than the register is wide, by others leads to another final state. */
  lemma BurstChangesState<T(!new)>(m: Machine<T>, width: nat, s: T, pre: seq<bool>, a: seq<bool>, b: seq<bool>,
                                   post: seq<bool>)
    requires Sound(m, width) && |a| == |b| <= width && a != b
    ensures Feed(m, s, pre + a + post) != Feed(m, s, pre + b + post)
  {
    var t := Feed(m, s, pre);
    FeedConcat(m, s, pre + a, post);
    FeedConcat(m, s, pre, a);
    FeedConcat(m, s, pre + b, post);
    FeedConcat(m, s, pre, b);
    if Feed(m, s, pre + a + post) == Feed(m, s, pre + b + post) {
      FeedInjective(m, Feed(m, t, a), Feed(m, t, b), post);
      WindowInjective(m, width, t, a, b);
    }
  }

  // Feeding bytes

  /** The register after `data`, started from `s`. */
  function Fold<T>(step: (T, byte) -> T, s: T, data: bytes): T
    decreases |data|
  {
    if data == [] then s else Fold(step, step(s, data[0]), data[1..])
  }

  lemma {:induction false} FoldConcat<T>(step: (T, byte) -> T, s: T, a: bytes, b: bytes)
    ensures Fold(step, s, a + b) == Fold(step, Fold(step, s, a), b)
    decreases |a|
  {
    if a == [] {
      assert a + b == b;
    } else {
      assert (a + b)[1..] == a[1..] + b;
      FoldConcat(step, step(s, a[0]), a[1..], b);
    }
  }

  predicate Steps<T(==)>(step: (T, byte) -> T, s: T, b: byte, t: T)
  {
    step(s, b) == t
  }

  lemma FoldSingle<T>(step: (T, byte) -> T, s: T, b: byte)
    ensures Fold(step, s, [b]) == step(s, b)
  {
    assert [b][1..] == [];
  }

  lemma FoldThree<T>(step: (T, byte) -> T, s: T, a: byte, t: T, b: byte, u: T, c: byte, v: T)
    requires Steps(step, s, a, t) && Steps(step, t, b, u) && Steps(step, u, c, v)
    ensures Fold(step, s, [a] + [b] + [c]) == v
  {
    FoldConcat(step, s, [a] + [b], [c]);
    FoldConcat(step, s, [a], [b]);
    FoldSingle(step, s, a);
    FoldSingle(step, t, b);
    FoldSingle(step, u, c);
  }

  lemma FoldPieces<T>(step: (T, byte) -> T, s: T, a: bytes, t: T, b: bytes, u: T, c: bytes, v: T)
    requires Fold(step, s, a) == t && Fold(step, t, b) == u && Fold(step, u, c) == v
    ensures Fold(step, s, a + b + c) == v
  {
    FoldConcat(step, s, a + b, c);
    FoldConcat(step, s, a, b);
  }

  /** A step that feeds the bits of its byte, lowest first. */
  ghost predicate Serial<T(!new)>(m: Machine<T>, step: (T, byte) -> T)
  {
    forall s, b :: step(s, b) == Feed(m, s, ByteBits(b))
  }

  lemma {:induction false} FoldIsFeed<T(!new)>(m: Machine<T>, step: (T, byte) -> T, s: T, data: bytes)
    requires Serial(m, step)
    ensures Fold(step, s, data) == Feed(m, s, BitsOf(data))
    decreases |data|
  {
    if data != [] {
      FoldIsFeed(m, step, step(s, data[0]), data[1..]);
      FeedConcat(m, s, ByteBits(data[0]), BitsOf(data[1..]));
    }
  }
}
