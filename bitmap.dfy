/** Allocation bitmaps as they sit in disk blocks.
    A bitmap block of BlockSize bytes holds NBITBLOCK = 8 * BlockSize units
    (blocks or inodes); unit k lives in byte k / 8 at bit k % 8, least
    significant bit first, and a set bit means "allocated". */
module Bitmap {

  /** Size of one disk block in bytes. */
  const BlockSize: nat := 4096

  /** Number of allocation units one bitmap block describes. */
  const NBITBLOCK: nat := 8 * BlockSize

  type Byte = bv8

  /** The contents of one disk block. */
  type Block = s: seq<Byte> | |s| == BlockSize witness ZeroBlock()

  /** A freshly zeroed block, as `make(disk.Block, disk.BlockSize)` yields. */
  function ZeroBlock(): (z: seq<Byte>)
    ensures |z| == BlockSize
    ensures forall i :: 0 <= i < |z| ==> z[i] == 0
  {
    seq(BlockSize, _ => 0)
  }

  /** Bit t (0 = least significant) of a byte. */
  predicate TestBit(x: Byte, t: nat)
    requires t < 8
  {
    (x >> t) & 1 == 1
  }

  /** The byte with only bit t set: Go's `1<<bit` at byte width. */
  function BitMask(t: nat): Byte
    requires t < 8
  {
    (1 as Byte) << t
  }

  /** Whether allocation unit k is marked in block b. */
  predicate Bit(b: Block, k: nat)
    requires k < NBITBLOCK
  {
    TestBit(b[k / 8], k % 8)
  }

  /** Marking unit k: OR its mask into byte k / 8, as the source's loops do. */
  function SetBitBlock(b: Block, k: nat): Block
    requires k < NBITBLOCK
  {
    b[k / 8 := b[k / 8] | BitMask(k % 8)]
  }

  /** The block in which exactly the units of [lo, hi) are marked. */
  function RangeMask(lo: nat, hi: nat): Block
    requires hi <= NBITBLOCK
  {
    seq(BlockSize, i requires 0 <= i < BlockSize => RangeByte(lo, hi, i))
  }

  /** Byte i of RangeMask(lo, hi). */
  function RangeByte(lo: nat, hi: nat, i: nat): Byte
  {
    var a := Clamp8(lo - 8 * i);
    var b := Clamp8(hi - 8 * i);
    if a < b then ByteMask(a, b) else 0
  }

  function Clamp8(x: int): (r: nat)
    ensures r <= 8
  {
    if x < 0 then 0 else if x > 8 then 8 else x
  }

  /** The byte whose bits [a, b) are set and no others. */
  function ByteMask(a: nat, b: nat): Byte
    requires a <= b <= 8
    decreases b - a
  {
    if a == b then 0 else BitMask(a) | ByteMask(a + 1, b)
  }

  /** Bytewise OR of two blocks: the bits marked in either. */
  function Union(x: Block, y: Block): Block
  {
    seq(BlockSize, i requires 0 <= i < BlockSize => x[i] | y[i])
  }

  // ---------------------------------------------------------------------------
  // Byte-level facts

  lemma TestBitOr(x: Byte, y: Byte, t: nat)
    requires t < 8
    ensures TestBit(x | y, t) == (TestBit(x, t) || TestBit(y, t))
  {
  }

  lemma TestBitMask(j: nat, t: nat)
    requires j < 8 && t < 8
    ensures TestBit(BitMask(j), t) == (t == j)
  {
  }

  lemma TestBitZero(t: nat)
    requires t < 8
    ensures !TestBit(0, t)
  {
  }

  /** Setting bit j of a byte marks bit j and leaves every other bit as it was. */
  lemma TestBitSet(x: Byte, j: nat, t: nat)
    requires j < 8 && t < 8
    ensures TestBit(x | BitMask(j), t) == (t == j || TestBit(x, t))
  {
    TestBitOr(x, BitMask(j), t);
    TestBitMask(j, t);
  }

  lemma {:induction false} TestByteMask(a: nat, b: nat, t: nat)
    requires a <= b <= 8 && t < 8
    ensures TestBit(ByteMask(a, b), t) == (a <= t < b)
    decreases b - a
  {
    if a == b {
      TestBitZero(t);
    } else {
      TestByteMask(a + 1, b, t);
      TestBitOr(BitMask(a), ByteMask(a + 1, b), t);
      TestBitMask(a, t);
    }
  }

  /** A byte is determined by its eight bits. */
  lemma BitsDetermineByte(x: Byte, y: Byte)
    requires forall t :: 0 <= t < 8 ==> TestBit(x, t) == TestBit(y, t)
    ensures x == y
  {
    assert TestBit(x, 0) == TestBit(y, 0);
    assert TestBit(x, 1) == TestBit(y, 1);
    assert TestBit(x, 2) == TestBit(y, 2);
    assert TestBit(x, 3) == TestBit(y, 3);
    assert TestBit(x, 4) == TestBit(y, 4);
    assert TestBit(x, 5) == TestBit(y, 5);
    assert TestBit(x, 6) == TestBit(y, 6);
    assert TestBit(x, 7) == TestBit(y, 7);
  }

  // ---------------------------------------------------------------------------
  // Block-level facts

  /** Unit k is marked in RangeMask(lo, hi) exactly when lo <= k < hi. */
  lemma BitOfRangeMask(lo: nat, hi: nat, k: nat)
    requires hi <= NBITBLOCK && k < NBITBLOCK
    ensures Bit(RangeMask(lo, hi), k) == (lo <= k < hi)
  {
    var i, t := k / 8, k % 8;
    assert k == 8 * i + t;
    var a := Clamp8(lo - 8 * i);
    var b := Clamp8(hi - 8 * i);
    assert (a <= t < b) == (lo <= k < hi);
    if a < b {
      TestByteMask(a, b, t);
    } else {
      TestBitZero(t);
    }
  }

  lemma BitOfUnion(x: Block, y: Block, k: nat)
    requires k < NBITBLOCK
    ensures Bit(Union(x, y), k) == (Bit(x, k) || Bit(y, k))
  {
    TestBitOr(x[k / 8], y[k / 8], k % 8);
  }

  /** Marking unit k sets it and leaves every other unit, and every byte
      other than k / 8, as it was. */
  lemma BitOfSetBitBlock(b: Block, k: nat, j: nat)
    requires k < NBITBLOCK && j < NBITBLOCK
    ensures Bit(SetBitBlock(b, k), j) == (j == k || Bit(b, j))
    ensures forall i :: 0 <= i < BlockSize && i != k / 8 ==> SetBitBlock(b, k)[i] == b[i]
  {
    if j / 8 == k / 8 {
      TestBitSet(b[k / 8], k % 8, j % 8);
    }
  }

  /** Two blocks that mark the same units are the same block. */
  lemma BitsDetermineBlock(x: Block, y: Block)
    requires forall k :: 0 <= k < NBITBLOCK ==> Bit(x, k) == Bit(y, k)
    ensures x == y
  {
    forall i | 0 <= i < BlockSize
      ensures x[i] == y[i]
    {
      forall t | 0 <= t < 8
        ensures TestBit(x[i], t) == TestBit(y[i], t)
      {
        var k := 8 * i + t;
        assert k / 8 == i && k % 8 == t;
        assert Bit(x, k) == Bit(y, k);
      }
      BitsDetermineByte(x[i], y[i]);
    }
  }

  /** Nothing is marked in a zeroed block. */
  lemma ZeroIsEmptyRange(lo: nat)
    requires lo <= NBITBLOCK
    ensures RangeMask(lo, lo) == ZeroBlock()
  {
    forall k | 0 <= k < NBITBLOCK
      ensures Bit(RangeMask(lo, lo), k) == Bit(ZeroBlock(), k)
    {
      BitOfRangeMask(lo, lo, k);
      TestBitZero(k % 8);
    }
    BitsDetermineBlock(RangeMask(lo, lo), ZeroBlock());
  }

  /** One iteration of a marking loop: setting unit hi in a block that already
      has [lo, hi) marked on top of `base` extends the range by one. */
  lemma MarkStep(base: Block, lo: nat, hi: nat)
    requires lo <= hi < NBITBLOCK
    ensures SetBitBlock(Union(base, RangeMask(lo, hi)), hi) == Union(base, RangeMask(lo, hi + 1))
  {
    var before := Union(base, RangeMask(lo, hi));
    var x := SetBitBlock(before, hi);
    var y := Union(base, RangeMask(lo, hi + 1));
    forall k | 0 <= k < NBITBLOCK
      ensures Bit(x, k) == Bit(y, k)
    {
      BitOfSetBitBlock(before, hi, k);
      BitOfUnion(base, RangeMask(lo, hi), k);
      BitOfUnion(base, RangeMask(lo, hi + 1), k);
      BitOfRangeMask(lo, hi, k);
      BitOfRangeMask(lo, hi + 1, k);
    }
    BitsDetermineBlock(x, y);
  }

  /** OR-ing a zeroed block onto another changes nothing. */
  lemma UnionZero(y: Block)
    ensures Union(ZeroBlock(), y) == y
  {
    forall k | 0 <= k < NBITBLOCK
      ensures Bit(Union(ZeroBlock(), y), k) == Bit(y, k)
    {
      BitOfUnion(ZeroBlock(), y, k);
      TestBitZero(k % 8);
    }
    BitsDetermineBlock(Union(ZeroBlock(), y), y);
  }

  /** OR-ing a zeroed block onto a block changes nothing. */
  lemma UnionRight(x: Block)
    ensures Union(x, ZeroBlock()) == x
  {
    forall k | 0 <= k < NBITBLOCK
      ensures Bit(Union(x, ZeroBlock()), k) == Bit(x, k)
    {
      BitOfUnion(x, ZeroBlock(), k);
      TestBitZero(k % 8);
    }
    BitsDetermineBlock(Union(x, ZeroBlock()), x);
  }
}
