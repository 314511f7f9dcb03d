# Formatting the allocation bitmaps of a fresh NFS file system

This project models how the NFS server formats an empty disk. The code is
`nfs/nfs.go`, from `MakeNfs` down to `markAlloc`. When a server starts,
`MakeNfs` reads the root inode. If its kind is 0, the disk holds no file
system yet. Then `makeFs` calls `markAlloc(super, DataStart, MaxBnum)`, and
`markAlloc` writes the first allocation bitmaps:

- Bits `[0, n)` of the first block-bitmap block are set, which marks the
  metadata region as used.
- In the bitmap block that holds bit `m`, every bit from `m mod NBITBLOCK` to
  the end of that block is set.
- The inode-bitmap block marks inodes 0 and 1 as allocated.

`markAlloc` panics first if its arguments make no sense.

The model has three modules:

- `Bitmap` (`bitmap.dfy`) covers the on-disk bitmap format. A block is
  `BlockSize = 4096` bytes of `bv8` and holds `NBITBLOCK = 8 * BlockSize` units.
  Unit `k` is bit `k % 8` (least significant first) of byte `k / 8`.
  `RangeMask(lo, hi)` is the block in which exactly the units `[lo, hi)` are set.
  `Union` is the bytewise OR of two blocks. `SetBitBlock` is the source's step that ORs
  `1 << (bn%8)` into byte `bn/8`.
- `Disk` (`disk.dfy`) is the block device. It is a class whose map from uint64
  block numbers to blocks is updated in place. `Write` stores a copy of the
  array's contents at the moment of the call. A ghost `writes` sequence
  records the addresses written, in order.
- `Nfs` (`nfs.dfy`) holds `MarkAlloc`, its marking loop `MarkUnits`, `MakeFs`,
  `MakeNfs` and the lemmas about the formatted disk.

`MarkAlloc` is an imperative method over `array<bv8>` buffers. It keeps the
aliasing of the source: when the block holding bit `m` is the first bitmap
block, `blk1` is the same array as `blk`. The method is proved against
`MarkAllocDisk`, which applies the three writes in program order. The lemmas
state the resulting bit patterns.

The source does its arithmetic in uint64, and the model writes that out.
`Mul64` is the wrapped product `NBITBLOCK * NBlockBitmap` that the source's
check uses. `Add64` is the wrapped sum that computes `blkno`. `ConfigOkBounds`
shows that the wrap can only make the check stricter. The superblock geometry
(`BitmapBlockStart`, `NBlockBitmap`, `BitmapInodeStart`, `DataStart`,
`MaxBnum`) is a parameter, the `FsSuper` value. Some lemmas assume
`BitmapRegions`: the block-bitmap region lies below 2^64, and the inode bitmap
starts outside it. The superblock layout provides this.

The debug message at nfs/nfs.go:99-100 says the range marked is
`[m, NBlockBitmap*NBITBLOCK)`. The code marks bits only up to the end of the
bitmap block that holds `m`, and never writes later bitmap blocks. The model
follows the code.

## Model

| member | source | states |
|---|---|---|
| Nfs.MarkAlloc | nfs/nfs.go:98-131 | Returns `Panic` exactly when `n >= NBITBLOCK`, or `m >= NBITBLOCK*NBlockBitmap` (uint64 product), or `m < n`; then the disk is untouched. Otherwise the disk becomes `MarkAllocDisk` of the old disk, and the writes go to `BitmapBlockStart`, `blkno`, `BitmapInodeStart`, in that order. |
| Disk.BlockDisk.Write | nfs/nfs.go:112-130 | Models the three `Disk.Write` calls at lines 112, 124 and 130. Block `a` holds a copy of `v`'s contents taken at the moment of the call, the write trace gains `a`, and no other block changes. |
| Nfs.MarkUnits | nfs/nfs.go:107-111 | The marking loop ORs units `[lo, hi)` into the buffer in place. The result is the old contents united with `RangeMask(lo, hi)`, so bits already set stay set. |
| Nfs.MakeFs | nfs/nfs.go:85-96 | Formatting runs `markAlloc(DataStart, MaxBnum)`. It has the same outcome, the same disk effect and the same write trace. |
| Nfs.MakeNfs | nfs/nfs.go:29-54 | If the root inode's kind is 0, the disk is formatted and the root directory is created. Otherwise the disk and the write trace are untouched. An argument check that fails during formatting becomes a panic and writes nothing. When formatting succeeds, the disk and the trace are those of `markAlloc`. |
| Nfs.ConfigOkBounds | nfs/nfs.go:101-105 | If the check passes, then `n < NBITBLOCK`, `n <= m` and `m < NBITBLOCK*NBlockBitmap`. The last holds even when the uint64 product in the guard wraps. |
| Nfs.ConfigOkWhenNoWrap | nfs/nfs.go:101-105 | When `NBITBLOCK*NBlockBitmap` does not wrap in uint64, the check passes whenever `n < NBITBLOCK`, `n <= m` and `m < NBITBLOCK*NBlockBitmap`. |
| Nfs.TailBlockInRegion | nfs/nfs.go:115 | If the check passes and the region fits below 2^64, `blkno` equals `BitmapBlockStart + m/NBITBLOCK` and lies in `[BitmapBlockStart, BitmapBlockStart + NBlockBitmap)`. |
| Nfs.AliasedIffFirstBlock | nfs/nfs.go:114-118 | `blk1` stays the same array as `blk` exactly when `m < NBITBLOCK`. |
| Nfs.FirstBlockMarksMetadata | nfs/nfs.go:106-112 | When `m` lies past the first bitmap block, that block ends with unit `k` set exactly when `k < n`. |
| Nfs.TailBlockMarksEnd | nfs/nfs.go:116-124 | When `m` lies past the first bitmap block, the block at `blkno` starts from zero. In the end, unit `k` is set there exactly when `k >= m mod NBITBLOCK`. |
| Nfs.SeparateFinalBlocks | nfs/nfs.go:112-124 | When `m` lies past the first bitmap block, `blkno` lies strictly after `BitmapBlockStart` and inside the region. The first block ends as exactly `[0, n)` and the block at `blkno` as exactly `[m mod NBITBLOCK, NBITBLOCK)`. The inode-bitmap write overwrites neither. |
| Nfs.AliasedFinalBlock | nfs/nfs.go:114-124 | When `m < NBITBLOCK`, `blkno` is the first bitmap block. Its final contents are the union of `[0, n)` and `[m, NBITBLOCK)`, because the second write of the same address wins. |
| Nfs.AliasedBlockMarksBoth | nfs/nfs.go:114-124 | When `m < NBITBLOCK`, the final first bitmap block has unit `k` set exactly when `k < n` or `k >= m`, so `[n, m)` stays clear. |
| Nfs.InodeBitmapSteps | nfs/nfs.go:127-129 | Setting bits 0 and 1 of a zeroed block gives the block in which exactly inodes 0 and 1 are allocated. |
| Nfs.InodeBitmapBytes | nfs/nfs.go:126-130 | In the inode-bitmap block written, byte 0 is `0b11` and every other byte is zero. |
| Nfs.OnlyBitmapBlocksWritten | nfs/nfs.go:112-130 | Afterwards the disk holds exactly the old addresses plus the three written ones. Every block not written keeps its contents. |
| Bitmap.BitOfRangeMask | nfs/nfs.go:107-111 | In the block the loop builds, unit `k` is set exactly when `lo <= k < hi`. Unit `k` is read from byte `k/8`, bit `k%8`. |
| Bitmap.BitOfSetBitBlock | nfs/nfs.go:108-110 | ORing `1<<(bn%8)` into byte `bn/8` sets unit `bn`. It leaves every other unit and every other byte unchanged. |
| Bitmap.MarkStep | nfs/nfs.go:119-123 | One loop iteration turns "`[lo, bn)` marked over a base block" into "`[lo, bn+1)` marked over the same base". This is the loop invariant's step, aliased base included. |
| Bitmap.BitOfUnion | nfs/nfs.go:114-122 | A unit is set in the OR of two blocks exactly when it is set in either block. This is how the aliased `blk1` combines both ranges. |
| Bitmap.UnionZero | nfs/nfs.go:117 | A freshly zeroed `blk1` contributes nothing, so the non-aliased block holds only the second range. |
| Bitmap.ZeroIsEmptyRange | nfs/nfs.go:106 | A `make`d block has no unit set. |
| Bitmap.BitsDetermineBlock | nfs/nfs.go:106-111 | Two blocks that agree on every unit are equal, so a block is fully described by its bits. |

## Left out

- The root-inode write in `makeFs` (nfs/nfs.go:88-93) and `readRootInode` (nfs/nfs.go:133-139) are not modelled. They depend on the inode encoding, the `buf` package and `Inum2Addr`, which are not part of this model. The root inode's kind is an input to `MakeNfs`.
- Nfs.MakeNfs: `rootDirCreated` only records that `makeRootDir` runs. Its transaction (`fstxn.Begin`, `GetInodeInumFree`, `dir.MkRootDir`, `Commit`) and its two panics (nfs/nfs.go:71-82) are not modelled, because the transaction and directory packages are not part of this model.
- Log recovery (`obj.MkLog`, nfs/nfs.go:37), `fstxn.MkFsState` and the shrinker (nfs/nfs.go:44-49) are not modelled. They belong to the journal, transaction and shrinker packages.
- `ShutdownNfs` and `Crash` (nfs/nfs.go:57-69) are not modelled. They stop background threads, and this model has no concurrency.
- `super.MkFsSuper` is not modelled. The geometry is a parameter, and `BitmapRegions` states what the lemmas need from it.
- The disk's size is not modelled. A write past the end of the device, which the disk package rejects, is not represented.
- `DPrintf` logging, the `stats` array and the `Unstable` flag (nfs/nfs.go:23-25, 32-35, 48, 99-100) are not modelled. They are diagnostics and configuration with no logic here.
- Nfs.TailBlockInRegion, Nfs.AliasedIffFirstBlock, Nfs.SeparateFinalBlocks, Nfs.FirstBlockMarksMetadata, Nfs.TailBlockMarksEnd, Nfs.AliasedFinalBlock and Nfs.AliasedBlockMarksBoth assume the bitmap region does not wrap past 2^64. For such a geometry, `blkno` could wrap below `BitmapBlockStart`. `MarkAlloc` itself models that case with wrapping arithmetic, but the lemmas do not describe it.
