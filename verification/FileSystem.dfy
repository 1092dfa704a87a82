/** The read-only block filesystem: a boot block, 4096-byte inodes, data blocks, all in one flat memory image. */
module FileSystem {
  import opened Bytes

  const BLOCK := 4096
  const WORDS := 1024                  // 4-byte words in a block
  const MAX_BLOCKS := 1023             // data blocks an inode can list
  const MAX_FILE_SIZE := MAX_BLOCKS * BLOCK
  const NUM_INODES := 64

  /** uint32_t arithmetic. */
  function U32(x: int): (r: int)
    ensures 0 <= r < TWO_32
    ensures 0 <= x < TWO_32 ==> r == x
  {
    x % TWO_32
  }

  /** Little-endian 32-bit word number w of the image. */
  function Word(img: seq<Byte>, w: int): (r: int)
    requires 0 <= w && 4 * w + 4 <= |img|
    ensures 0 <= r < TWO_32
  {
    var b0: int, b1: int, b2: int, b3: int := img[4 * w], img[4 * w + 1], img[4 * w + 2], img[4 * w + 3];
    b0 + 0x100 * b1 + 0x1_0000 * b2 + 0x100_0000 * b3
  }

  /** v stored in four bytes from index `at` on, the least one first. */
  predicate Written(img: seq<Byte>, at: int, v: int) {
    && 0 <= at && at + 4 <= |img| && 0 <= v < 0x1_0000_0000
    && img[at] == v % 256 && img[at + 1] == v / 256 % 256
    && img[at + 2] == v / 65536 % 256 && img[at + 3] == v / 16777216
  }

  /** Reading a word gives the number that was stored there, and no other. */
  lemma WordIsWritten(img: seq<Byte>, w: int, v: int)
    requires 0 <= w && 4 * w + 4 <= |img|
    ensures Word(img, w) == v <==> Written(img, 4 * w, v)
  {
    var b0: int, b1: int, b2: int, b3: int := img[4 * w], img[4 * w + 1], img[4 * w + 2], img[4 * w + 3];
    if Word(img, w) == v {
      assert v == b0 + 0x100 * b1 + 0x1_0000 * b2 + 0x100_0000 * b3;
      hide Word;
      BytesOfSum(b0, b1, b2, b3, v);
    } else if Written(img, 4 * w, v) {
      SumOfBytes(v);
      assert false;
    }
  }

  lemma SumOfBytes(v: nat)
    ensures v % 256 + 0x100 * (v / 256 % 256) + 0x1_0000 * (v / 65536 % 256) + 0x100_0000 * (v / 16777216) == v
  {
    var v1 := v / 256;
    var v2 := v1 / 256;
    assert v == 65536 * v2 + (256 * (v1 % 256) + v % 256);
    assert v / 65536 == v2;
    var v3 := v2 / 256;
    assert v == 16777216 * v3 + (65536 * (v2 % 256) + 256 * (v1 % 256) + v % 256);
    assert v / 16777216 == v3;
  }

  lemma BytesOfSum(b0: Byte, b1: Byte, b2: Byte, b3: Byte, v: int)
    requires v == b0 + 0x100 * b1 + 0x1_0000 * b2 + 0x100_0000 * b3
    ensures v % 256 == b0 && v / 256 % 256 == b1 && v / 65536 % 256 == b2 && v / 16777216 == b3
    ensures 0 <= v < 0x1_0000_0000
  {
    var v1, v2 := b1 + 0x100 * b2 + 0x1_0000 * b3, b2 + 0x100 * b3;
    assert v == b0 + 256 * v1 && v / 256 == v1;
    assert v1 == b1 + 256 * v2 && v1 / 256 == v2;
    assert v / 65536 == v2 by {
      assert v == 65536 * v2 + (b0 + 256 * b1);
    }
    assert v / 16777216 == b3 by {
      assert v == 16777216 * b3 + (b0 + 256 * b1 + 65536 * b2);
    }
  }

  function Entries(img: seq<Byte>): (r: int)
    requires |img| >= BLOCK
    ensures 0 <= r < TWO_32
  {
    Word(img, 0)
  }

  function Inodes(img: seq<Byte>): (r: int)
    requires |img| >= BLOCK
    ensures 0 <= r < TWO_32
  {
    Word(img, 1)
  }

  function Blocks(img: seq<Byte>): (r: int)
    requires |img| >= BLOCK
    ensures 0 <= r < TWO_32
  {
    Word(img, 2)
  }

  predicate WellFormed(img: seq<Byte>) {
    |img| >= BLOCK && |img| == BLOCK * (1 + Inodes(img) + Blocks(img)) && |img| < TWO_32
  }

  function FileSize(img: seq<Byte>, inode: int): (r: int)
    requires WellFormed(img) && 0 <= inode < Inodes(img)
    ensures 0 <= r < TWO_32
  {
    Word(img, WORDS * (1 + inode))
  }

  /** The b-th entry of an inode's block list. */
  function BlockNumber(img: seq<Byte>, inode: int, b: int): (r: int)
    requires WellFormed(img) && 0 <= inode < Inodes(img) && 0 <= b < MAX_BLOCKS
    ensures 0 <= r < TWO_32
  {
    Word(img, WORDS * (1 + inode) + 1 + b)
  }

  predicate ValidInode(img: seq<Byte>, inode: int)
    requires WellFormed(img)
  {
    && 0 <= inode < Inodes(img)
    && FileSize(img, inode) <= MAX_FILE_SIZE
    && forall b :: 0 <= b < MAX_BLOCKS && BLOCK * b < FileSize(img, inode) ==> BlockNumber(img, inode, b) < Blocks(img)
  }

  /** Byte k of the file: its block, then its place in the block. */
  function FileByte(img: seq<Byte>, inode: int, k: int): Byte
    requires WellFormed(img) && ValidInode(img, inode) && 0 <= k < FileSize(img, inode)
  {
    img[BLOCK * (1 + Inodes(img) + BlockNumber(img, inode, k / BLOCK)) + k % BLOCK]
  }

  /** The file as one flat sequence. */
  function Contents(img: seq<Byte>, inode: int): (f: seq<Byte>)
    requires WellFormed(img) && ValidInode(img, inode)
    ensures |f| == FileSize(img, inode)
  {
    seq(FileSize(img, inode), k requires 0 <= k < FileSize(img, inode) => FileByte(img, inode, k))
  }

  // ---------------------------------------------------------------- the disk, byte by byte

  /** How many inodes and data blocks a disk has, and the blocks one file is in. */
  datatype Layout = Layout(inodes: int, blocks: int, list: seq<int>)

  /** The disk holds this file under that inode: each number at its place, and each byte in its block. */
  ghost predicate Laid(img: seq<Byte>, l: Layout, inode: int, file: seq<Byte>) {
    && 0 <= inode < l.inodes && 0 <= l.blocks && |img| == 4096 * (1 + l.inodes + l.blocks) < 0x1_0000_0000
    && Written(img, 4, l.inodes) && Written(img, 8, l.blocks)
    && |file| <= 1023 * 4096 && Written(img, 4096 * (1 + inode), |file|) && |l.list| == (|file| + 4095) / 4096
    && (forall b :: 0 <= b < |l.list| ==>
          0 <= l.list[b] < l.blocks && Written(img, 4096 * (1 + inode) + 4 * (1 + b), l.list[b]))
    && (forall k :: 0 <= k < |file| ==> img[4096 * (1 + l.inodes + l.list[k / 4096]) + k % 4096] == file[k])
  }

  /** The file read back is the file that was laid out. */
  lemma LaidIsRead(img: seq<Byte>, l: Layout, inode: int, file: seq<Byte>)
    requires Laid(img, l, inode, file)
    ensures WellFormed(img) && ValidInode(img, inode) && Contents(img, inode) == file
  {
    hide Word, Written;
    WordIsWritten(img, 1, l.inodes);
    WordIsWritten(img, 2, l.blocks);
    WordIsWritten(img, WORDS * (1 + inode), |file|);
    forall b | 0 <= b < MAX_BLOCKS && BLOCK * b < |file|
      ensures BlockNumber(img, inode, b) == l.list[b] < l.blocks
    {
      WordIsWritten(img, WORDS * (1 + inode) + 1 + b, l.list[b]);
    }
  }

  /** And every file that can be read at all is laid out so. */
  lemma ReadIsLaid(img: seq<Byte>, inode: int)
    requires WellFormed(img) && ValidInode(img, inode)
    ensures exists l :: Laid(img, l, inode, Contents(img, inode))
  {
    hide Word, Written;
    var size := FileSize(img, inode);
    var n := (size + 4095) / 4096;
    var l := Layout(Inodes(img), Blocks(img), seq(n, b requires 0 <= b < n => BlockNumber(img, inode, b)));
    WordIsWritten(img, 1, l.inodes);
    WordIsWritten(img, 2, l.blocks);
    WordIsWritten(img, WORDS * (1 + inode), size);
    forall b | 0 <= b < n
      ensures 0 <= l.list[b] < l.blocks && Written(img, 4096 * (1 + inode) + 4 * (1 + b), l.list[b])
    {
      WordIsWritten(img, WORDS * (1 + inode) + 1 + b, l.list[b]);
    }
    assert Laid(img, l, inode, Contents(img, inode));
  }

  /** The bytes n further on from `at` are the file's from `offset`, the rest is as it was. */
  ghost predicate Filled(file: seq<Byte>, offset: int, was: seq<Byte>, now: seq<Byte>, at: int, n: int)
    requires 0 <= offset && 0 <= n && offset + n <= |file|
    requires 0 <= at && at + n <= |was| == |now|
  {
    now == was[..at] + file[offset..offset + n] + was[at + n..]
  }

  lemma FilledStep(file: seq<Byte>, offset: int, was: seq<Byte>, mid: seq<Byte>, now: seq<Byte>, at: int, n: int,
      m: int)
    requires 0 <= offset && 0 <= n && 0 <= m && offset + n + m <= |file|
    requires 0 <= at && at + n + m <= |was| == |mid| == |now|
    requires Filled(file, offset, was, mid, at, n) && Filled(file, offset + n, mid, now, at + n, m)
    ensures Filled(file, offset, was, now, at, n + m)
  {
  }

  method Memcpy(buf: array<Byte>, at: int, src: seq<Byte>, from: int, n: int)
    requires 0 <= n && 0 <= at && at + n <= buf.Length && (n > 0 ==> 0 <= from && from + n <= |src|)
    modifies buf
    ensures buf[..] == old(buf[..at]) + (if n > 0 then src[from..from + n] else []) + old(buf[at + n..])
  {
    forall k | 0 <= k < n {
      buf[at + k] := src[from + k];
    }
  }

  /** memcpy of part of data block j of the file, through the inode's list. */
  method CopyFromBlock(img: seq<Byte>, inode: int, j: int, skip: int, buf: array<Byte>, at: int, n: int)
    requires WellFormed(img) && ValidInode(img, inode)
    requires 0 <= j <= MAX_BLOCKS && 0 <= skip && 0 <= n && skip + n <= BLOCK
    requires BLOCK * j + skip + n <= FileSize(img, inode)
    requires 0 <= at && at + n <= buf.Length
    modifies buf
    ensures Filled(Contents(img, inode), BLOCK * j + skip, old(buf[..]), buf[..], at, n)
  {
    hide Word, Contents;
    var inodeStart := WORDS;
    var inodeAddress := inodeStart + inode * WORDS;
    var firstBlock := inodeStart + Inodes(img) * WORDS;
    ListEntryInImage(img, inode, j);
    var index := Word(img, inodeAddress + 1 + j);
    var address := firstBlock + index * WORDS;
    if n > 0 {
      BlockIsSlice(img, inode, j, skip, n);
    }
    Memcpy(buf, at, img, 4 * address + skip, n);
  }

  /** Within one listed block the image and the flat file agree. */
  lemma BlockIsSlice(img: seq<Byte>, inode: int, j: int, skip: int, n: int)
    requires WellFormed(img) && ValidInode(img, inode)
    requires 0 <= j < MAX_BLOCKS && 0 <= skip && 0 < n && skip + n <= BLOCK
    requires BLOCK * j + skip + n <= FileSize(img, inode)
    ensures var a := BLOCK * (1 + Inodes(img) + BlockNumber(img, inode, j)) + skip;
            0 <= a && a + n <= |img| && img[a..a + n] == Contents(img, inode)[BLOCK * j + skip..BLOCK * j + skip + n]
  {
    var a := BLOCK * (1 + Inodes(img) + BlockNumber(img, inode, j)) + skip;
    var from := BLOCK * j + skip;
    forall p | from <= p < from + n
      ensures 0 <= a + p - from < |img| && Contents(img, inode)[p] == img[a + p - from]
    {
      assert p / BLOCK == j && p % BLOCK == p - BLOCK * j;
    }
  }

  lemma ListEntryInImage(img: seq<Byte>, inode: int, j: int)
    requires WellFormed(img) && ValidInode(img, inode)
    requires 0 <= j <= MAX_BLOCKS && BLOCK * j <= FileSize(img, inode)
    ensures 4 * (WORDS + inode * WORDS + 1 + j) + 4 <= |img|
  {
    assert BlockNumber(img, inode, 0) >= 0;
  }

  /** What a read of `length` bytes at `offset` may return. */
  function ReadCount(img: seq<Byte>, inode: int, offset: int, length: int): int
    requires WellFormed(img) && (inode <= NUM_INODES ==> ValidInode(img, inode))
  {
    if length == 0 || offset > MAX_FILE_SIZE || inode > NUM_INODES || offset > FileSize(img, inode) then -1
    else Min(length, FileSize(img, inode) - offset)
  }

  /** read_data, into buf from index `at`. The caller owes the buffer only as many bytes as will be read. */
  method ReadData(img: seq<Byte>, inode: int, offset: int, buf: array<Byte>, at: int, length: int) returns (r: int)
    requires WellFormed(img) && 0 <= inode && (inode <= NUM_INODES ==> ValidInode(img, inode))
    requires 0 <= offset < TWO_32 && 0 <= length < TWO_32
    requires 0 <= at && at + ReadCount(img, inode, offset, length) <= buf.Length
    modifies buf
    ensures r == ReadCount(img, inode, offset, length)
    ensures r >= 0 ==> Filled(Contents(img, inode), offset, old(buf[..]), buf[..], at, r)
    ensures r < 0 ==> buf[..] == old(buf[..])
    ensures forall l, file :: Laid(img, l, inode, file) ==>
              && r == (if length == 0 || offset > 1023 * 4096 || inode > 64 || offset > |file| then -1
                       else Min(length, |file| - offset))
              && (r >= 0 ==> Filled(file, offset, old(buf[..]), buf[..], at, r))
  {
    forall l, file | Laid(img, l, inode, file)
      ensures WellFormed(img) && ValidInode(img, inode) && Contents(img, inode) == file
    {
      LaidIsRead(img, l, inode, file);
    }
    hide Laid;
    var len := length;
    if length == 0 {
      return -1;
    }
    if length > MAX_FILE_SIZE {
      len := U32(MAX_FILE_SIZE - offset);
    }
    if offset > MAX_FILE_SIZE {
      return -1;
    }
    if U32(offset + len) > MAX_FILE_SIZE {
      len := U32(MAX_FILE_SIZE - offset);
    }
    if inode > NUM_INODES {
      return -1;
    }
    var fileSize := FileSize(img, inode);
    if fileSize < offset {
      return -1;
    }
    if fileSize < len {
      len := U32(fileSize - offset);
    }
    if fileSize < U32(offset + len) {
      len := U32(fileSize - offset);
    }
    assert len == ReadCount(img, inode, offset, length);
    r := CopyBlocks(img, inode, offset, buf, at, len);
  }

  /** The second half of read_data: one block, or a first part, whole blocks and a last part. */
  method CopyBlocks(img: seq<Byte>, inode: int, offset: int, buf: array<Byte>, at: int, len: int) returns (r: int)
    requires WellFormed(img) && ValidInode(img, inode)
    requires 0 <= offset && 0 <= len && offset + len <= FileSize(img, inode)
    requires 0 <= at && at + len <= buf.Length
    modifies buf
    ensures r == len
    ensures Filled(Contents(img, inode), offset, old(buf[..]), buf[..], at, len)
  {
    hide Filled, Contents, Word;
    var start := offset / BLOCK;
    var end := (offset + len) / BLOCK;
    if start == end {
      CopyFromBlock(img, inode, start, offset % BLOCK, buf, at, len);
      return len;
    }
    var bufOffset := BLOCK - offset % BLOCK;
    var remaining := len - bufOffset;
    CopyFromBlock(img, inode, start, offset % BLOCK, buf, at, bufOffset);
    var j := start + 1;
    while j != end
      invariant start < j <= end
      invariant offset + bufOffset == BLOCK * j && remaining == len - bufOffset
      invariant Filled(Contents(img, inode), offset, old(buf[..]), buf[..], at, bufOffset)
      decreases end - j
    {
      ghost var mid := buf[..];
      CopyFromBlock(img, inode, j, 0, buf, at + bufOffset, BLOCK);
      FilledStep(Contents(img, inode), offset, old(buf[..]), mid, buf[..], at, bufOffset, BLOCK);
      bufOffset := bufOffset + BLOCK;
      remaining := remaining - BLOCK;
      j := j + 1;
    }
    ghost var mid := buf[..];
    var last := remaining;
    CopyFromBlock(img, inode, j, 0, buf, at + bufOffset, last);
    FilledStep(Contents(img, inode), offset, old(buf[..]), mid, buf[..], at, bufOffset, last);
    bufOffset := bufOffset + last;
    remaining := remaining - last;
    if remaining != 0 {
      assert false;  // the source's "not all bytes have been copied" error: never reached
    }
    return len;
  }
}
