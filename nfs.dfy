/** Formatting a fresh file system (nfs/nfs.go): when the root inode read at
    mount time has kind 0, `makeFs` lays down the initial allocation bitmaps
    with `markAlloc`: the metadata blocks [0, DataStart) and every bit from
    MaxBnum to the end of its bitmap block are marked used, and inodes 0 and 1
    are marked allocated. */
module Nfs {
  import opened Bitmap
  import opened Disk

  /** Go's uint32, the type of an inode's kind field. */
  type u32 = x: int | 0 <= x < 0x1_0000_0000

  /** The parts of the superblock geometry that formatting reads. */
  datatype FsSuper = FsSuper(
    bitmapBlockStart: u64,  // first block of the block bitmap
    nBlockBitmap: u64,      // number of block-bitmap blocks
    bitmapInodeStart: u64,  // first block of the inode bitmap
    dataStart: u64,         // first block of the data region
    maxBnum: u64)           // one past the last usable block number

  /** The outcome of a step that can panic. */
  datatype Outcome = Done | Panic(msg: string)

  /** The outcome of mounting: whether the disk was formatted and the root
      directory created, or the panic that stopped it. */
  datatype MountResult = Mounted(formatted: bool, rootDirCreated: bool) | Panicked(msg: string)

  const MarkAllocPanic: string := "markAlloc: configuration makes no sense"

  /** uint64 multiplication, wrapping modulo 2^64. */
  function Mul64(a: u64, b: u64): u64
  {
    (a * b) % U64
  }

  /** uint64 addition, wrapping modulo 2^64. */
  function Add64(a: u64, b: u64): u64
  {
    (a + b) % U64
  }

  /** markAlloc's sanity check on its arguments, computed in uint64 as the
      source does; markAlloc panics exactly when this is false. */
  predicate ConfigOk(sb: FsSuper, n: u64, m: u64)
  {
    !(n >= NBITBLOCK || m >= Mul64(NBITBLOCK, sb.nBlockBitmap) || m < n)
  }

  /** `blkno`: the bitmap block that holds bit m. */
  function TailBlockNo(sb: FsSuper, m: u64): u64
  {
    Add64(m / NBITBLOCK, sb.bitmapBlockStart)
  }

  /** Whether `blk1` stays the same array as `blk`, i.e. the block holding
      bit m is not after the first bitmap block. */
  predicate Aliased(sb: FsSuper, m: u64)
  {
    !(TailBlockNo(sb, m) > sb.bitmapBlockStart)
  }

  /** The block written to the first block-bitmap block. */
  function FirstBitmapBlock(n: nat): Block
    requires n <= NBITBLOCK
  {
    RangeMask(0, n)
  }

  /** The block written to `blkno`: bits from m mod NBITBLOCK to the end of
      the block, on top of the first block's bits when the arrays alias. */
  function TailBitmapBlock(sb: FsSuper, n: nat, m: u64): Block
    requires n <= NBITBLOCK
  {
    if Aliased(sb, m) then Union(RangeMask(0, n), RangeMask(m % NBITBLOCK, NBITBLOCK))
    else RangeMask(m % NBITBLOCK, NBITBLOCK)
  }

  /** The block written to the inode bitmap: inodes 0 and 1 allocated. */
  function InodeBitmapBlock(): Block
  {
    RangeMask(0, 2)
  }

  /** The disk after a markAlloc that passes its check: the three writes,
      applied in program order, so that a later write to an address wins. */
  function MarkAllocDisk(sb: FsSuper, d: map<u64, Block>, n: u64, m: u64): map<u64, Block>
    requires ConfigOk(sb, n, m)
  {
    d[sb.bitmapBlockStart := FirstBitmapBlock(n)]
     [TailBlockNo(sb, m) := TailBitmapBlock(sb, n, m)]
     [sb.bitmapInodeStart := InodeBitmapBlock()]
  }

  /** The addresses markAlloc writes, in order. */
  function MarkAllocWrites(sb: FsSuper, m: u64): seq<u64>
  {
    [sb.bitmapBlockStart, TailBlockNo(sb, m), sb.bitmapInodeStart]
  }

  /** Geometry that the superblock layout provides: the block-bitmap region
      fits below 2^64 and the inode bitmap starts outside it. */
  predicate BitmapRegions(sb: FsSuper)
  {
    sb.bitmapBlockStart + sb.nBlockBitmap <= U64 &&
    (sb.bitmapInodeStart < sb.bitmapBlockStart ||
     sb.bitmapBlockStart + sb.nBlockBitmap <= sb.bitmapInodeStart)
  }

  // ---------------------------------------------------------------------------
  // The imperative routines

  /** markAlloc(super, n, m). */
  method MarkAlloc(sb: FsSuper, disk: BlockDisk, n: u64, m: u64) returns (r: Outcome)
    modifies disk
    ensures r == (if ConfigOk(sb, n, m) then Done else Panic(MarkAllocPanic))
    ensures ConfigOk(sb, n, m) ==>
      disk.blocks == MarkAllocDisk(sb, old(disk.blocks), n, m) &&
      disk.writes == old(disk.writes) + MarkAllocWrites(sb, m)
    ensures !ConfigOk(sb, n, m) ==> disk.blocks == old(disk.blocks) && disk.writes == old(disk.writes)
  {
    if n >= NBITBLOCK || m >= Mul64(NBITBLOCK, sb.nBlockBitmap) || m < n {
      return Panic(MarkAllocPanic);
    }

    // bits [0, n): the metadata region
    var blk := new Byte[BlockSize](_ => 0);
    assert blk[..] == ZeroBlock();
    UnionZero(RangeMask(0, n));
    MarkUnits(blk, 0, n);
    assert blk[..] == FirstBitmapBlock(n);
    ghost var d0, w0 := disk.blocks, disk.writes;
    disk.Write(sb.bitmapBlockStart, blk);

    // bits [m mod NBITBLOCK, NBITBLOCK) of the block holding bit m; when that
    // block is the first one, blk1 is blk and the first range stays marked
    var blk1 := blk;
    var blkno := Add64(m / NBITBLOCK, sb.bitmapBlockStart);
    if blkno > sb.bitmapBlockStart {
      blk1 := new Byte[BlockSize](_ => 0);
      assert blk1[..] == ZeroBlock();
      UnionZero(RangeMask(m % NBITBLOCK, NBITBLOCK));
    }
    MarkUnits(blk1, m % NBITBLOCK, NBITBLOCK);
    assert blk1[..] == TailBitmapBlock(sb, n, m);
    disk.Write(blkno, blk1);

    // inodes 0 and 1
    var blk2 := new Byte[BlockSize](_ => 0);
    blk2[0] := blk2[0] | BitMask(0);
    assert blk2[..] == SetBitBlock(ZeroBlock(), 0);
    blk2[0] := blk2[0] | BitMask(1);
    assert blk2[..] == SetBitBlock(SetBitBlock(ZeroBlock(), 0), 1);
    InodeBitmapSteps();
    disk.Write(sb.bitmapInodeStart, blk2);
    return Done;
  }

  /** One of markAlloc's marking loops: OR units [lo, hi) into blk, one bit
      at a time, leaving the bits already set in place. */
  method MarkUnits(blk: array<Byte>, lo: nat, hi: nat)
    requires blk.Length == BlockSize && lo <= hi <= NBITBLOCK
    modifies blk
    ensures blk[..] == Union(old(blk[..]), RangeMask(lo, hi))
  {
    ghost var base: Block := blk[..];
    ZeroIsEmptyRange(lo);
    UnionRight(base);
    var bn := lo;
    while bn < hi
      invariant lo <= bn <= hi
      invariant forall i :: 0 <= i < BlockSize ==> blk[i] == Union(base, RangeMask(lo, bn))[i]
    {
      MarkStep(base, lo, bn);
      var byte, bit := bn / 8, bn % 8;
      blk[byte] := blk[byte] | BitMask(bit);
      bn := bn + 1;
    }
    assert blk[..] == Union(base, RangeMask(lo, hi));
  }

  /** makeFs(super): the bitmap part of formatting. */
  method MakeFs(sb: FsSuper, disk: BlockDisk) returns (r: Outcome)
    modifies disk
    ensures r == (if ConfigOk(sb, sb.dataStart, sb.maxBnum) then Done else Panic(MarkAllocPanic))
    ensures r.Done? ==>
      disk.blocks == MarkAllocDisk(sb, old(disk.blocks), sb.dataStart, sb.maxBnum) &&
      disk.writes == old(disk.writes) + MarkAllocWrites(sb, sb.maxBnum)
    ensures r.Panic? ==> disk.blocks == old(disk.blocks) && disk.writes == old(disk.writes)
  {
    r := MarkAlloc(sb, disk, sb.dataStart, sb.maxBnum);
  }

  /** MakeNfs(d), given the kind of the root inode read after recovery:
      format and create the root directory exactly when that kind is 0. */
  method MakeNfs(sb: FsSuper, disk: BlockDisk, rootKind: u32) returns (r: MountResult)
    modifies disk
    ensures rootKind != 0 ==>
      r == Mounted(false, false) &&
      disk.blocks == old(disk.blocks) && disk.writes == old(disk.writes)
    ensures rootKind == 0 && ConfigOk(sb, sb.dataStart, sb.maxBnum) ==>
      r == Mounted(true, true) &&
      disk.blocks == MarkAllocDisk(sb, old(disk.blocks), sb.dataStart, sb.maxBnum) &&
      disk.writes == old(disk.writes) + MarkAllocWrites(sb, sb.maxBnum)
    ensures rootKind == 0 && !ConfigOk(sb, sb.dataStart, sb.maxBnum) ==>
      r == Panicked(MarkAllocPanic) &&
      disk.blocks == old(disk.blocks) && disk.writes == old(disk.writes)
  {
    if rootKind == 0 {
      var o := MakeFs(sb, disk);
      if o.Panic? {
        return Panicked(o.msg);
      }
    }
    return Mounted(rootKind == 0, rootKind == 0);
  }

  // ---------------------------------------------------------------------------
  // Properties of the formatted bitmaps

  /** The two OR steps on a zeroed block produce the inode-bitmap block. */
  lemma InodeBitmapSteps()
    ensures SetBitBlock(SetBitBlock(ZeroBlock(), 0), 1) == InodeBitmapBlock()
  {
    ZeroIsEmptyRange(0);
    UnionZero(RangeMask(0, 0));
    UnionZero(RangeMask(0, 1));
    UnionZero(RangeMask(0, 2));
    MarkStep(ZeroBlock(), 0, 0);
    MarkStep(ZeroBlock(), 0, 1);
  }

  /** If the check passes, then n < NBITBLOCK, n <= m and m lies inside the
      block bitmap; the wrapped product in the source's guard can only make
      the check stricter. */
  lemma ConfigOkBounds(sb: FsSuper, n: u64, m: u64)
    requires ConfigOk(sb, n, m)
    ensures n < NBITBLOCK && n <= m && m < NBITBLOCK * sb.nBlockBitmap
  {
    assert Mul64(NBITBLOCK, sb.nBlockBitmap) <= NBITBLOCK * sb.nBlockBitmap;
  }

  /** Conversely, when the product NBITBLOCK * NBlockBitmap does not wrap,
      those bounds are enough for the check to pass. */
  lemma ConfigOkWhenNoWrap(sb: FsSuper, n: u64, m: u64)
    requires NBITBLOCK * sb.nBlockBitmap < U64
    requires n < NBITBLOCK && n <= m && m < NBITBLOCK * sb.nBlockBitmap
    ensures ConfigOk(sb, n, m)
  {
    assert Mul64(NBITBLOCK, sb.nBlockBitmap) == NBITBLOCK * sb.nBlockBitmap;
  }

  /** The second target block is the bitmap block m / NBITBLOCK past the first,
      and lies inside the block-bitmap region. */
  lemma TailBlockInRegion(sb: FsSuper, n: u64, m: u64)
    requires ConfigOk(sb, n, m)
    requires sb.bitmapBlockStart + sb.nBlockBitmap <= U64
    ensures TailBlockNo(sb, m) == sb.bitmapBlockStart + m / NBITBLOCK
    ensures sb.bitmapBlockStart <= TailBlockNo(sb, m) < sb.bitmapBlockStart + sb.nBlockBitmap
  {
    ConfigOkBounds(sb, n, m);
    DivBelow(m, NBITBLOCK, sb.nBlockBitmap);
  }

  lemma DivBelow(x: nat, d: nat, q: nat)
    requires 0 < d && x < d * q
    ensures x / d < q
  {
    var y := x / d;
    assert d * y <= x;
    if y >= q {
      MulMono(d, q, y);
      assert false;
    }
  }

  lemma MulMono(d: nat, a: nat, b: nat)
    requires a <= b
    ensures d * a <= d * b
  {
  }

  /** Within the region, `blk1` aliases `blk` exactly when bit m lies in the
      first bitmap block. */
  lemma AliasedIffFirstBlock(sb: FsSuper, n: u64, m: u64)
    requires ConfigOk(sb, n, m)
    requires sb.bitmapBlockStart + sb.nBlockBitmap <= U64
    ensures Aliased(sb, m) <==> m < NBITBLOCK
  {
    TailBlockInRegion(sb, n, m);
  }

  /** When bit m lies past the first bitmap block, that block ends with
      exactly the metadata units [0, n) marked. */
  lemma FirstBlockMarksMetadata(sb: FsSuper, d: map<u64, Block>, n: u64, m: u64, k: nat)
    requires ConfigOk(sb, n, m) && BitmapRegions(sb)
    requires NBITBLOCK <= m && k < NBITBLOCK
    ensures sb.bitmapBlockStart in MarkAllocDisk(sb, d, n, m)
    ensures Bit(MarkAllocDisk(sb, d, n, m)[sb.bitmapBlockStart], k) <==> k < n
  {
    SeparateFinalBlocks(sb, d, n, m);
    BitOfRangeMask(0, n, k);
  }

  /** When bit m lies past the first bitmap block, the block holding it is
      written fresh, with exactly [m mod NBITBLOCK, NBITBLOCK) marked. */
  lemma TailBlockMarksEnd(sb: FsSuper, d: map<u64, Block>, n: u64, m: u64, k: nat)
    requires ConfigOk(sb, n, m) && BitmapRegions(sb)
    requires NBITBLOCK <= m && k < NBITBLOCK
    ensures TailBlockNo(sb, m) in MarkAllocDisk(sb, d, n, m)
    ensures Bit(MarkAllocDisk(sb, d, n, m)[TailBlockNo(sb, m)], k) <==> m % NBITBLOCK <= k
  {
    SeparateFinalBlocks(sb, d, n, m);
    BitOfRangeMask(m % NBITBLOCK, NBITBLOCK, k);
  }

  /** When bit m lies past the first bitmap block, the two block-bitmap writes
      go to different addresses inside the region, neither is overwritten by
      the inode-bitmap write, and `blk1` is a fresh zeroed buffer. */
  lemma SeparateFinalBlocks(sb: FsSuper, d: map<u64, Block>, n: u64, m: u64)
    requires ConfigOk(sb, n, m) && BitmapRegions(sb) && NBITBLOCK <= m
    ensures sb.bitmapBlockStart < TailBlockNo(sb, m) < sb.bitmapBlockStart + sb.nBlockBitmap
    ensures MarkAllocDisk(sb, d, n, m)[sb.bitmapBlockStart] == RangeMask(0, n)
    ensures MarkAllocDisk(sb, d, n, m)[TailBlockNo(sb, m)] == RangeMask(m % NBITBLOCK, NBITBLOCK)
  {
    TailBlockInRegion(sb, n, m);
  }

  /** When bit m lies in the first bitmap block, `blk1` is `blk` and the same
      address is written twice: the final block has [0, n) and [m, NBITBLOCK)
      marked and [n, m) clear. */
  lemma AliasedBlockMarksBoth(sb: FsSuper, d: map<u64, Block>, n: u64, m: u64, k: nat)
    requires ConfigOk(sb, n, m) && BitmapRegions(sb)
    requires m < NBITBLOCK && k < NBITBLOCK
    ensures TailBlockNo(sb, m) == sb.bitmapBlockStart
    ensures sb.bitmapBlockStart in MarkAllocDisk(sb, d, n, m)
    ensures Bit(MarkAllocDisk(sb, d, n, m)[sb.bitmapBlockStart], k) <==> (k < n || m <= k)
    ensures n <= k < m ==> !Bit(MarkAllocDisk(sb, d, n, m)[sb.bitmapBlockStart], k)
  {
    AliasedFinalBlock(sb, d, n, m);
    BitOfUnion(RangeMask(0, n), RangeMask(m, NBITBLOCK), k);
    BitOfRangeMask(0, n, k);
    BitOfRangeMask(m, NBITBLOCK, k);
  }

  lemma AliasedFinalBlock(sb: FsSuper, d: map<u64, Block>, n: u64, m: u64)
    requires ConfigOk(sb, n, m) && BitmapRegions(sb) && m < NBITBLOCK
    ensures TailBlockNo(sb, m) == sb.bitmapBlockStart
    ensures MarkAllocDisk(sb, d, n, m)[sb.bitmapBlockStart] == Union(RangeMask(0, n), RangeMask(m, NBITBLOCK))
  {
    AliasedIffFirstBlock(sb, n, m);
    assert m % NBITBLOCK == m;
  }

  /** The inode bitmap is written with only inodes 0 and 1 allocated: its
      first byte is 0b11 and every other byte is zero. */
  lemma InodeBitmapBytes(sb: FsSuper, d: map<u64, Block>, n: u64, m: u64, i: nat)
    requires ConfigOk(sb, n, m)
    requires 0 < i < BlockSize
    ensures MarkAllocDisk(sb, d, n, m)[sb.bitmapInodeStart][0] == 3
    ensures MarkAllocDisk(sb, d, n, m)[sb.bitmapInodeStart][i] == 0
  {
    assert ByteMask(2, 2) == 0;
    assert ByteMask(1, 2) == 2;
    assert ByteMask(0, 2) == 3;
    assert RangeMask(0, 2)[0] == RangeByte(0, 2, 0);
    assert RangeMask(0, 2)[i] == RangeByte(0, 2, i);
  }

  /** markAlloc touches only its three addresses; every other block of the
      disk keeps its contents, and the three are all present afterwards. */
  lemma OnlyBitmapBlocksWritten(sb: FsSuper, d: map<u64, Block>, n: u64, m: u64, a: u64)
    requires ConfigOk(sb, n, m)
    ensures MarkAllocDisk(sb, d, n, m).Keys == d.Keys + {sb.bitmapBlockStart, TailBlockNo(sb, m), sb.bitmapInodeStart}
    ensures a !in MarkAllocWrites(sb, m) && a in d ==> MarkAllocDisk(sb, d, n, m)[a] == d[a]
  {
  }
}
