/** The block device the file system is formatted on: a map from 64-bit
    block numbers to BlockSize-byte blocks. Writes are synchronous and copy
    the buffer's contents at the moment of the call, so a later change to the
    same in-memory buffer does not reach the disk until it is written again. */
module Disk {
  import opened Bitmap

  const U64: int := 0x1_0000_0000_0000_0000

  /** Go's uint64, used for block numbers (`common.Bnum`) and disk addresses. */
  type u64 = x: int | 0 <= x < U64

  class BlockDisk {
    /** Contents of every block the model knows about. */
    var blocks: map<u64, Block>
    /** The addresses written so far, in program order. */
    ghost var writes: seq<u64>

    constructor (init: map<u64, Block>)
      ensures blocks == init && writes == []
    {
      blocks := init;
      writes := [];
    }

    /** `Disk.Write(a, v)`: block a now holds a copy of v. */
    method Write(a: u64, v: array<Byte>)
      requires v.Length == BlockSize
      modifies this
      ensures blocks == old(blocks)[a := v[..]]
      ensures writes == old(writes) + [a]
    {
      blocks := blocks[a := v[..]];
      writes := writes + [a];
    }
  }
}
