/** Block-mapped files: read_data over an inode's block table, and fread over a descriptor (filesystem.c). */
module FileSystem {
  import opened Basics

  const BLK_SZ: nat := 4096
  const TABLE_SIZE: nat := 1023
  const WORD: nat := 0x1_0000_0000
  const HALF_WORD: nat := 0x8000_0000

  datatype Inode = Inode(length: nat, blocks: seq<nat>)

  /** The mounted image. The guards of read_data let the index one past each count through, and fread looks at an
      inode's length before they are asked, so inodes and data go on behind their counts: with what memory
      happens to hold there. */
  datatype Image = Image(inodeCount: nat, blockCount: nat, inodes: seq<Inode>, data: seq<seq<byte>>)

  ghost predicate Mounted(img: Image) {
    && |img.inodes| > img.inodeCount && |img.data| == img.blockCount + 1
    && (forall b :: 0 <= b < |img.data| ==> |img.data[b]| == BLK_SZ)
  }

  /** An inode whose length its block table can hold. */
  predicate Sized(file: Inode) {
    |file.blocks| == TABLE_SIZE && file.length / BLK_SZ < TABLE_SIZE
  }

  /** fread keeps the low eight bits of an inode number. */
  const INODES: nat := 256

  /** A file of the image that fread can tell from the others: its blocks are blocks of the image. */
  ghost predicate IsFile(img: Image, inode: nat)
    requires Mounted(img)
  {
    inode <= img.inodeCount && inode < INODES && Sized(img.inodes[inode]) &&
    forall i :: 0 <= i < BlockCount(img.inodes[inode].length) ==> img.inodes[inode].blocks[i] <= img.blockCount
  }

  /** The number of blocks read_data takes a file to have. */
  function BlockCount(length: nat): nat {
    length / BLK_SZ + 1
  }

  function Block(img: Image, b: nat): (r: seq<byte>)
    requires Mounted(img)
    ensures |r| == BLK_SZ
  {
    if b <= img.blockCount then img.data[b] else seq(BLK_SZ, _ => NUL)
  }

  /** The first k blocks of a file, end to end. */
  function Flat(img: Image, inode: Inode, k: nat): (r: seq<byte>)
    requires Mounted(img) && Sized(inode) && k <= TABLE_SIZE
    ensures |r| == BLK_SZ * k
  {
    if k == 0 then [] else Flat(img, inode, k - 1) + Block(img, inode.blocks[k - 1])
  }

  /** All the bytes behind a file: its blocks end to end, the part behind its length included. */
  function Contents(img: Image, inode: Inode): (r: seq<byte>)
    requires Mounted(img) && Sized(inode)
    ensures |r| == BLK_SZ * BlockCount(inode.length)
    ensures inode.length < |r|
  {
    Flat(img, inode, BlockCount(inode.length))
  }

  lemma {:induction false} FlatSlice(img: Image, inode: Inode, k: nat, i: nat, from: nat, to: nat)
    requires Mounted(img) && Sized(inode) && i < k <= TABLE_SIZE && from <= to <= BLK_SZ
    ensures BLK_SZ * i + to <= |Flat(img, inode, k)|
    ensures Flat(img, inode, k)[BLK_SZ * i + from..BLK_SZ * i + to] == Block(img, inode.blocks[i])[from..to]
    decreases k
  {
    if i < k - 1 {
      FlatSlice(img, inode, k - 1, i, from, to);
    }
  }

  /** A 32-bit sum stored in a signed integer. */
  function Signed(x: nat): int {
    var w := x % WORD;
    if w < HALF_WORD then w else w - WORD
  }

  /** How many bytes read_data sets out to copy. */
  function Wanted(length: nat, offset: nat, size: nat): int {
    if Signed(offset + size) > BLK_SZ * BlockCount(length) then length - offset else Min(size, length)
  }

  /** How many it copies. */
  function Copied(length: nat, offset: nat, size: nat): (n: int)
    ensures offset <= length ==> 0 <= n <= Wanted(length, offset, size)
    ensures offset <= length ==> offset + n <= BLK_SZ * BlockCount(length)
  {
    Min(Wanted(length, offset, size), BLK_SZ * BlockCount(length) - offset)
  }

  /** The requests read_data turns down before it copies anything. */
  predicate Rejected(img: Image, inode: nat, offset: nat, size: nat)
    requires |img.inodes| > img.inodeCount
  {
    inode > img.inodeCount || offset > img.inodes[inode].length || size == 0 || img.inodes[inode].length == 0
  }

  /** The blocks a request goes through. */
  predicate Touches(offset: nat, n: int, i: nat) {
    i == offset / BLK_SZ || (i > offset / BLK_SZ && BLK_SZ * i < offset + n)
  }

  /** A request goes through a block the image does not have. */
  ghost predicate MeetsBadBlock(img: Image, file: Inode, offset: nat, n: int)
    requires |file.blocks| == TABLE_SIZE
  {
    exists i :: 0 <= i < TABLE_SIZE && Touches(offset, n, i) && file.blocks[i] > img.blockCount
  }

  /** That is: the byte at offset, or another one of the n, lies in a block whose number is beyond the count. */
  lemma BadBlockIff(img: Image, file: Inode, offset: nat, n: nat)
    requires Sized(file) && offset + n <= BLK_SZ * TABLE_SIZE && offset < BLK_SZ * TABLE_SIZE
    ensures MeetsBadBlock(img, file, offset, n) <==>
      exists p :: offset <= p < offset + n + (if n == 0 then 1 else 0) && file.blocks[p / 4096] > img.blockCount
  {
    if MeetsBadBlock(img, file, offset, n) {
      var i :| 0 <= i < TABLE_SIZE && Touches(offset, n, i) && file.blocks[i] > img.blockCount;
      var p := if i == offset / BLK_SZ then offset else BLK_SZ * i;
      assert p / 4096 == i;
    }
    forall p | offset <= p < offset + n && file.blocks[p / 4096] > img.blockCount
      ensures MeetsBadBlock(img, file, offset, n)
    {
      assert Touches(offset, n, p / BLK_SZ);
    }
    assert Touches(offset, n, offset / BLK_SZ);
  }

  /** The n bytes from offset are in the buffer, and the rest of it is as it was. */
  ghost predicate Delivered(all: seq<byte>, offset: nat, n: nat, before: seq<byte>, after: seq<byte>) {
    && |before| == |after| && n <= |after| && offset + n <= |all|
    && (forall j :: 0 <= j < n ==> after[j] == all[offset + j])
    && (forall j :: n <= j < |after| ==> after[j] == before[j])
  }

  /** memcpy of one piece of a block. */
  method CopyPiece(buf: array<byte>, at: nat, src: seq<byte>, from: nat, size: nat,
                   ghost all: seq<byte>, ghost offset: nat, ghost before: seq<byte>)
    requires at + size <= buf.Length && from + size <= |src| && offset + at + size <= |all|
    requires all[offset + at..offset + at + size] == src[from..from + size]
    requires Delivered(all, offset, at, before, buf[..])
    modifies buf
    ensures Delivered(all, offset, at + size, before, buf[..])
  {
    var i := 0;
    while i < size
      invariant 0 <= i <= size
      invariant Delivered(all, offset, at + i, before, buf[..])
    {
      assert src[from + i] == src[from..from + size][i] == all[offset + at + i];
      buf[at + i] := src[from + i];
      i := i + 1;
    }
  }

  lemma NothingDelivered(img: Image, file: Inode, offset: nat, buf: seq<byte>)
    requires Mounted(img) && Sized(file) && offset <= file.length
    ensures Delivered(Contents(img, file), offset, 0, buf, buf)
  {
    hide Contents;
  }

  /** The loop of read_data over the blocks of a file. */
  method CopyBlocks(img: Image, file: Inode, offset: nat, buf: array<byte>, wanted: nat, ghost count: nat)
    returns (n: int)
    requires Mounted(img) && Sized(file) && offset <= file.length
    requires count == Min(wanted, BLK_SZ * BlockCount(file.length) - offset) <= buf.Length
    modifies buf
    ensures if MeetsBadBlock(img, file, offset, count) then n == -1
            else n == count && Delivered(Contents(img, file), offset, count, old(buf[..]), buf[..])
  {
    hide Contents, Flat, Block, Delivered;
    NothingDelivered(img, file, offset, buf[..]);
    var blocksUsed := file.length / BLK_SZ + 1;
    var start := offset / BLK_SZ;
    var i, toCopy := start, wanted;
    n := 0;
    while i < blocksUsed
      invariant start <= i <= blocksUsed
      invariant 0 <= n <= count && toCopy == wanted - n
      invariant i == start ==> n == 0
      invariant i > start ==> offset + n == BLK_SZ * i && toCopy > 0
      invariant forall j :: start <= j < i ==> file.blocks[j] <= img.blockCount
      invariant Delivered(Contents(img, file), offset, n, old(buf[..]), buf[..])
    {
      var initial := if i == start then offset % BLK_SZ else 0;
      var chunk := if toCopy >= BLK_SZ then BLK_SZ else toCopy;
      chunk := if BLK_SZ - initial < chunk then BLK_SZ - initial else chunk;
      assert Touches(offset, count, i);
      if file.blocks[i] > img.blockCount {
        return -1;
      }
      assert offset + n == BLK_SZ * i + initial;
      BlockSlice(img, file, i, initial, initial + chunk);
      CopyPiece(buf, n, img.data[file.blocks[i]], initial, chunk, Contents(img, file), offset, old(buf[..]));
      n := n + chunk;
      toCopy := toCopy - chunk;
      i := i + 1;
      if toCopy <= 0 {
        break;
      }
    }
    assert n == count;
    assert forall j :: 0 <= j < TABLE_SIZE && Touches(offset, count, j) ==> start <= j < i;
  }

  lemma BlockSlice(img: Image, file: Inode, i: nat, from: nat, to: nat)
    requires Mounted(img) && Sized(file) && i < BlockCount(file.length) && from <= to <= BLK_SZ
    requires file.blocks[i] <= img.blockCount
    ensures BLK_SZ * i + to <= |Contents(img, file)|
    ensures Contents(img, file)[BLK_SZ * i + from..BLK_SZ * i + to] == img.data[file.blocks[i]][from..to]
  {
    FlatSlice(img, file, BlockCount(file.length), i, from, to);
  }

  /** read_data: the slice of the file's contents at offset; -1 when the request is turned down or meets a
      block number the image does not have. */
  method ReadData(img: Image, inode: nat, offset: nat, buf: array<byte>, size: nat) returns (n: int)
    requires Mounted(img)
    requires !Rejected(img, inode, offset, size) ==>
      Sized(img.inodes[inode]) && Copied(img.inodes[inode].length, offset, size) <= buf.Length
    modifies buf
    ensures inode > img.inodeCount || size == 0 ==> n == -1 && buf[..] == old(buf[..])
    ensures inode <= img.inodeCount && (img.inodes[inode].length == 0 || offset > img.inodes[inode].length) ==>
      n == -1 && buf[..] == old(buf[..])
    ensures inode <= img.inodeCount && size > 0 && 0 < img.inodes[inode].length && offset <= img.inodes[inode].length
      ==>
      var file := img.inodes[inode];
      var count := Copied(file.length, offset, size);
      if MeetsBadBlock(img, file, offset, count) then n == -1
      else n == count && buf[..] == Contents(img, file)[offset..offset + count] + old(buf[..])[count..]
  {
    if inode > img.inodeCount {
      return -1;
    }
    var file := img.inodes[inode];
    var length := file.length;
    if offset > length || size == 0 || length == 0 {
      return -1;
    }
    var toCopy := if size < length then size else length;
    if Signed(offset + size) > (length / BLK_SZ + 1) * BLK_SZ {
      toCopy := length - offset;
    }
    n := CopyBlocks(img, file, offset, buf, toCopy, Copied(length, offset, size));
    if n != -1 {
      DeliveredIsSlice(Contents(img, file), offset, n, old(buf[..]), buf[..]);
    }
  }

  lemma DeliveredIsSlice(all: seq<byte>, offset: nat, n: nat, before: seq<byte>, after: seq<byte>)
    requires Delivered(all, offset, n, before, after)
    ensures after == all[offset..offset + n] + before[n..]
  {
  }
}
