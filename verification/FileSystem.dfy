/**
 The read-only file system image: a boot block with directory entries, one 4KB block per inode
 listing data block numbers, and the data blocks.  read_data is proved against slicing the flat
 contents of a file, and the directory lookups against each other.
 */
module FileSystem {
  import opened Bytes

  const BLOCK := 4096
  const DENTRY_SIZE := 64
  const NAME_SIZE := 32
  /** An inode block holds the length and 1023 block numbers. */
  const MAX_FILE := 1023 * 4096

  // ---------------------------------------------------------------- the image

  function Word(img: seq<byte>, at: int): (w: int)
    requires 0 <= at && at + 4 <= |img|
    ensures 0 <= w < TWO32
  {
    var b0: int, b1: int, b2: int, b3: int := img[at], img[at + 1], img[at + 2], img[at + 3];
    b0 + 0x100 * b1 + 0x1_0000 * b2 + 0x100_0000 * b3
  }

  function NumEntries(img: seq<byte>): int
    requires |img| >= BLOCK
  {
    Word(img, 0)
  }

  function NumInodes(img: seq<byte>): int
    requires |img| >= BLOCK
  {
    Word(img, 4)
  }

  function NumBlocks(img: seq<byte>): int
    requires |img| >= BLOCK
  {
    Word(img, 8)
  }

  /** The directory fits in the boot block. */
  ghost predicate DirectoryOk(img: seq<byte>) {
    |img| >= BLOCK && DENTRY_SIZE * (NumEntries(img) + 1) <= BLOCK
  }

  /** The blocks the boot block announces are there, and so is its directory. */
  ghost predicate ImageOk(img: seq<byte>) {
    && |img| >= BLOCK && |img| == BLOCK * (1 + NumInodes(img) + NumBlocks(img)) < TWO32
    && DirectoryOk(img)
  }

  function FileSize(img: seq<byte>, inode: int): int
    requires |img| >= BLOCK && 0 <= inode && BLOCK * (inode + 2) <= |img|
  {
    Word(img, BLOCK * (inode + 1))
  }

  /** The k-th word behind the length field of the inode is inside the image. */
  ghost predicate Indexed(img: seq<byte>, inode: int, k: int)
    requires ImageOk(img)
  {
    0 <= inode < NumInodes(img) && 0 <= k && BLOCK * (inode + 1) + 4 * (k + 2) <= |img|
  }

  function BlockNumber(img: seq<byte>, inode: int, k: int): int
    requires ImageOk(img) && Indexed(img, inode, k)
  {
    Word(img, BLOCK * (inode + 1) + 4 * (k + 1))
  }

  /** Where block k of the file starts in the image. */
  function BlockAt(img: seq<byte>, inode: int, k: int): int
    requires ImageOk(img) && Indexed(img, inode, k)
  {
    BLOCK * (NumInodes(img) + 1 + BlockNumber(img, inode, k))
  }

  /** Block k of the file has a number the image contains. */
  ghost predicate HasBlock(img: seq<byte>, inode: int, k: int)
    requires ImageOk(img)
  {
    Indexed(img, inode, k) && BlockNumber(img, inode, k) < NumBlocks(img)
  }

  ghost predicate BlocksOk(img: seq<byte>, inode: int, from: int, to: int)
    requires ImageOk(img)
  {
    forall k :: from <= k < to ==> HasBlock(img, inode, k)
  }

  /** As many blocks as the size needs and no more. */
  function BlocksOf(size: int): (b: int)
    ensures BLOCK * (b - 1) < size <= BLOCK * b
  {
    (size + BLOCK - 1) / BLOCK
  }

  ghost predicate FileOk(img: seq<byte>, inode: int)
    requires ImageOk(img)
  {
    0 <= inode < NumInodes(img) && FileSize(img, inode) <= MAX_FILE
    && BlocksOk(img, inode, 0, BlocksOf(FileSize(img, inode)))
  }

  /** Byte j of a file, wherever its block lies in the image. */
  ghost function FileByte(img: seq<byte>, inode: int, j: int): byte
    requires ImageOk(img) && 0 <= j && HasBlock(img, inode, j / BLOCK)
  {
    img[BlockAt(img, inode, j / BLOCK) + j % BLOCK]
  }

  /** The flat contents of a file. */
  ghost function Contents(img: seq<byte>, inode: int): (c: seq<byte>)
    requires ImageOk(img) && FileOk(img, inode)
    ensures |c| == FileSize(img, inode)
    ensures forall j :: 0 <= j < |c| ==> c[j] == FileByte(img, inode, j)
  {
    seq(FileSize(img, inode), j requires 0 <= j < FileSize(img, inode) => FileByte(img, inode, j))
  }

  // ---------------------------------------------------------------- read_data

  /** The clamp as the 32-bit code computes it. */
  function ClampedLength(offset: int, length: int, size: int): int {
    if U32(length + offset) > size then size - offset else length
  }

  /** The 32-bit clamp is the true one exactly when the sum does not wrap to inside the file. */
  lemma ClampExact(offset: int, length: int, size: int)
    requires 0 <= offset < size < TWO32 && 0 <= length < TWO32
    ensures ClampedLength(offset, length, size) == Min(length, size - offset)
            <==> (offset + length < TWO32 || offset + length - TWO32 > size)
  {
    if offset + length >= TWO32 {
      assert U32(length + offset) == offset + length - TWO32;
    }
  }

  /** The 32-bit test whether n bytes from offset on lie in one block. */
  predicate InOneBlock(offset: int, n: int) {
    U32(offset % BLOCK + n) <= BLOCK
  }

  /** The last block read_data consults. */
  function LastBlock(offset: int, n: int): int {
    if InOneBlock(offset, n) then offset / BLOCK else (offset + n - 1) / BLOCK
  }

  method CopyFromImage(buf: array<byte>, at: int, img: seq<byte>, from: int, n: int)
    requires 0 <= n && 0 <= at && at + n <= buf.Length && 0 <= from && from + n <= |img|
    modifies buf
    ensures forall i :: at <= i < at + n ==> buf[i] == img[from + (i - at)]
    ensures forall i :: 0 <= i < buf.Length && !(at <= i < at + n) ==> buf[i] == old(buf[i])
  {
    for k := 0 to n
      invariant forall i :: at <= i < at + k ==> buf[i] == img[from + (i - at)]
      invariant forall i :: 0 <= i < buf.Length && !(at <= i < at + k) ==> buf[i] == old(buf[i])
    {
      buf[at + k] := img[from + k];
    }
  }

  /** buf starts with the n bytes of the file from offset on, and is as it was behind them. */
  ghost predicate Copied(img: seq<byte>, inode: int, offset: int, n: int, buf: seq<byte>, was: seq<byte>)
    requires ImageOk(img) && 0 <= offset
  {
    && 0 <= n <= |buf| == |was|
    && (forall i :: 0 <= i < n ==> IsFileByte(img, inode, offset + i, buf[i]))
    && (forall i :: n <= i < |buf| ==> buf[i] == was[i])
  }

  ghost predicate IsFileByte(img: seq<byte>, inode: int, j: int, b: byte)
    requires ImageOk(img) && 0 <= j
  {
    HasBlock(img, inode, j / BLOCK) && b == FileByte(img, inode, j)
  }

  /** One copy of n bytes inside block k adds them to what has been copied. */
  method CopyBlock(img: seq<byte>, inode: int, offset: int, done: int, k: int, n: int, buf: array<byte>,
                   ghost was: seq<byte>)
    requires ImageOk(img) && 0 <= offset && 0 <= n && HasBlock(img, inode, k)
    requires BLOCK * k <= offset + done && offset + done + n <= BLOCK * (k + 1)
    requires done + n <= buf.Length && Copied(img, inode, offset, done, buf[..], was)
    modifies buf
    ensures Copied(img, inode, offset, done + n, buf[..], was)
  {
    ghost var before := buf[..];
    var from := BlockAt(img, inode, k) + (offset + done - BLOCK * k);
    CopyFromImage(buf, done, img, from, n);
    forall i | 0 <= i < done + n ensures IsFileByte(img, inode, offset + i, buf[i]) {
      if i < done {
        assert IsFileByte(img, inode, offset + i, before[i]);
      } else {
        InBlock(k, offset + i);
      }
    }
  }

  lemma InBlock(k: int, j: int)
    requires BLOCK * k <= j < BLOCK * (k + 1)
    ensures j / BLOCK == k && j % BLOCK == j - BLOCK * k
  {
  }

  /**
   The memory read_data touches is there: up to the first block number that is bad, the words it
   looks up are in the image and what it copies fits in cap bytes; and a request taken to lie in
   one block is copied from inside the image.
   */
  ghost predicate Fits(img: seq<byte>, inode: int, offset: int, n: int, cap: int)
    requires ImageOk(img)
  {
    && (InOneBlock(offset, n) && HasBlock(img, inode, offset / BLOCK) ==>
          BlockAt(img, inode, offset / BLOCK) + offset % BLOCK + n <= |img| && n <= cap)
    && forall k :: offset / BLOCK <= k <= LastBlock(offset, n) && BlocksOk(img, inode, offset / BLOCK, k) ==>
      Indexed(img, inode, k) && (HasBlock(img, inode, k) ==> Min(n, BLOCK * (k + 1) - offset) <= cap)
  }

  /** cap bytes are room enough for read_data. */
  ghost predicate Room(img: seq<byte>, inode: int, offset: int, length: int, cap: int)
    requires ImageOk(img) && 0 <= inode && 0 <= offset
  {
    inode < NumInodes(img) && offset < FileSize(img, inode) ==>
      Fits(img, inode, offset, ClampedLength(offset, length, FileSize(img, inode)), cap)
  }

  /** Block k is the first bad one, and just what lies before it has been copied. */
  ghost predicate StoppedAt(img: seq<byte>, inode: int, offset: int, k: int, buf: seq<byte>, was: seq<byte>)
    requires ImageOk(img) && 0 <= offset
  {
    && BlocksOk(img, inode, offset / BLOCK, k) && !HasBlock(img, inode, k)
    && Copied(img, inode, offset, Max(0, BLOCK * k - offset), buf, was)
  }

  /** What read_data returns, as a signed number. */
  ghost function ReadResult(img: seq<byte>, inode: int, offset: int, length: int): (r: int)
    requires ImageOk(img) && 0 <= inode && 0 <= offset && 0 <= length < TWO32
    ensures -0x8000_0000 <= r < 0x8000_0000
  {
    if inode >= NumInodes(img) then -1
    else if offset >= FileSize(img, inode) then 0
    else
      var n := ClampedLength(offset, length, FileSize(img, inode));
      if BlocksOk(img, inode, offset / BLOCK, LastBlock(offset, n) + 1) then S32(n) else -1
  }

  /** What read_data leaves in the buffer. */
  ghost predicate Delivered(img: seq<byte>, inode: int, offset: int, length: int, buf: seq<byte>, was: seq<byte>)
    requires ImageOk(img) && 0 <= inode && 0 <= offset
  {
    if inode >= NumInodes(img) || offset >= FileSize(img, inode) then buf == was
    else
      var n := ClampedLength(offset, length, FileSize(img, inode));
      if BlocksOk(img, inode, offset / BLOCK, LastBlock(offset, n) + 1) then Copied(img, inode, offset, n, buf, was)
      else exists k :: StoppedAt(img, inode, offset, k, buf, was)
  }

  /** read_data of a well-formed file is right if and only if the 32-bit sum does not wrap to inside the file. */
  lemma ReadResultExact(img: seq<byte>, inode: int, offset: int, length: int)
    requires ImageOk(img) && FileOk(img, inode) && 0 <= offset < FileSize(img, inode) && 0 <= length < TWO32
    ensures ReadResult(img, inode, offset, length) == Min(length, FileSize(img, inode) - offset)
            <==> (offset + length < TWO32 || offset + length - TWO32 > FileSize(img, inode))
  {
    ClampExact(offset, length, FileSize(img, inode));
  }

  /** A file of 4098 bytes, whose third block number is bad. */
  function WrapImage(): (img: seq<byte>)
    ensures |img| == 3 * BLOCK
  {
    seq(3 * BLOCK, i =>
      if i == BLOCK then 2 else if i == BLOCK + 1 then 16 else if i == 4 || i == 8 || i == BLOCK + 12 then 1 else 0)
  }

  /** A request from the last byte whose sum wraps to 0 fails, although that byte is there and a page is room enough. */
  lemma WrappedReadFails()
    ensures var img := WrapImage();
            && ImageOk(img) && FileOk(img, 0) && FileSize(img, 0) == 4098
            && Room(img, 0, 4097, TWO32 - 4097, BLOCK)
            && ReadResult(img, 0, 4097, TWO32 - 4097) == -1
  {
    var img := WrapImage();
    assert Word(img, 0) == 0 && Word(img, 4) == 1 && Word(img, 8) == 1;
    assert Word(img, BLOCK) == 4098 && Word(img, BLOCK + 4) == 0;
    assert Word(img, BLOCK + 8) == 0 && Word(img, BLOCK + 12) == 1;
    assert HasBlock(img, 0, 0) && HasBlock(img, 0, 1) && !HasBlock(img, 0, 2);
  }

  /**
   When the sum wraps, the request passes for one in a single block exactly if the sum is in the
   block of offset or behind it; what is copied then runs over the end of the image, whatever the buffer.
   */
  lemma WrapIntoBlock(img: seq<byte>, inode: int, offset: int, length: int, cap: int)
    requires ImageOk(img) && FileOk(img, inode) && 0 <= offset < FileSize(img, inode)
    requires 0 <= length < TWO32 <= offset + length <= TWO32 + FileSize(img, inode)
    ensures InOneBlock(offset, length) <==> BLOCK * (offset / BLOCK) <= offset + length - TWO32
    ensures InOneBlock(offset, length) ==> !Room(img, inode, offset, length, cap)
  {
    assert U32(length + offset) == offset + length - TWO32;
    assert HasBlock(img, inode, offset / BLOCK) && FileSize(img, inode) <= MAX_FILE;
    hide FileOk, BlocksOk, HasBlock;
    if offset % BLOCK + length >= TWO32 {
      assert U32(offset % BLOCK + length) == offset % BLOCK + length - TWO32;
    }
  }

  /** read_data, for any image and length: the length is cut at the end of the file, a bad block number is -1. */
  method ReadData(img: seq<byte>, inode: int, offset: int, buf: array<byte>, length: int) returns (r: int)
    requires ImageOk(img) && 0 <= inode && 0 <= offset < TWO32 && 0 <= length < TWO32
    requires Room(img, inode, offset, length, buf.Length)
    modifies buf
    ensures r == ReadResult(img, inode, offset, length)
    ensures Delivered(img, inode, offset, length, buf[..], old(buf[..]))
  {
    if inode >= NumInodes(img) {
      return -1;
    }
    var size := FileSize(img, inode);
    if offset >= size {
      return 0;
    }
    var left := length;
    if U32(left + offset) > size {
      left := size - offset;
    }
    hide Fits, BlocksOk, Copied, StoppedAt;
    r := ReadBlocks(img, inode, offset, left, buf);
  }

  /** The rest of read_data, from the first block on, with the clamped length. */
  method ReadBlocks(img: seq<byte>, inode: int, offset: int, left: int, buf: array<byte>) returns (r: int)
    requires ImageOk(img) && 0 <= inode && 0 <= offset && 0 <= left < TWO32
    requires Fits(img, inode, offset, left, buf.Length)
    modifies buf
    ensures if BlocksOk(img, inode, offset / BLOCK, LastBlock(offset, left) + 1)
            then r == S32(left) && Copied(img, inode, offset, left, buf[..], old(buf[..]))
            else r == -1 && exists k :: StoppedAt(img, inode, offset, k, buf[..], old(buf[..]))
  {
    var k := offset / BLOCK;
    assert k <= LastBlock(offset, left);
    if BlockNumber(img, inode, k) >= NumBlocks(img) {
      assert StoppedAt(img, inode, offset, k, buf[..], old(buf[..]));
      return -1;
    }
    if U32(offset % BLOCK + left) <= BLOCK {
      CopyBlock(img, inode, offset, 0, k, left, buf, old(buf[..]));
      return S32(left);
    }
    var done := BLOCK - offset % BLOCK;
    CopyBlock(img, inode, offset, 0, k, done, buf, old(buf[..]));
    assert BlocksOk(img, inode, k, k + 1);
    r := ReadRest(img, inode, offset, k, done, left - done, buf, old(buf[..]));
  }

  /** The loop of read_data over the blocks after the first. */
  method ReadRest(img: seq<byte>, inode: int, offset: int, first: int, copied: int, length: int, buf: array<byte>,
                  ghost was: seq<byte>)
    returns (r: int)
    requires ImageOk(img) && 0 <= inode && 0 <= offset && first == offset / BLOCK
    requires 0 < length && 0 <= copied && offset + copied == BLOCK * (first + 1) && copied + length < TWO32
    requires Fits(img, inode, offset, copied + length, buf.Length)
    requires BlocksOk(img, inode, first, first + 1) && Copied(img, inode, offset, copied, buf[..], was)
    modifies buf
    ensures var n := copied + length;
            if BlocksOk(img, inode, first, LastBlock(offset, n) + 1)
            then r == S32(n) && Copied(img, inode, offset, n, buf[..], was)
            else r == -1 && exists k :: StoppedAt(img, inode, offset, k, buf[..], was)
  {
    var k, done, left := first, copied, length;
    while left > 0
      invariant 0 < left && done + left == copied + length && offset + done == BLOCK * (k + 1)
      invariant BlocksOk(img, inode, first, k + 1)
      invariant Copied(img, inode, offset, done, buf[..], was)
      decreases left
    {
      k := k + 1;
      assert k <= LastBlock(offset, copied + length);
      if BlockNumber(img, inode, k) >= NumBlocks(img) {
        assert StoppedAt(img, inode, offset, k, buf[..], was);
        return -1;
      }
      if left <= BLOCK {
        CopyBlock(img, inode, offset, done, k, left, buf, was);
        InBlock(k, offset + copied + length - 1);
        return S32(done + left);
      }
      CopyBlock(img, inode, offset, done, k, BLOCK, buf, was);
      left := left - BLOCK;
      done := done + BLOCK;
    }
    assert false;
  }

  /** On a well-formed file, what read_data copies is a slice of the flat contents. */
  lemma CopiedIsSlice(img: seq<byte>, inode: int, offset: int, n: int, buf: seq<byte>, was: seq<byte>)
    requires ImageOk(img) && FileOk(img, inode) && 0 <= offset < FileSize(img, inode)
    requires 0 <= n <= FileSize(img, inode) - offset
    ensures BlocksOk(img, inode, offset / BLOCK, LastBlock(offset, n) + 1)
    ensures Copied(img, inode, offset, n, buf, was) <==>
            n <= |buf| == |was| && buf == Contents(img, inode)[offset..offset + n] + was[n..]
  {
    var c := Contents(img, inode);
    if n <= |buf| == |was| {
      var want := c[offset..offset + n] + was[n..];
      assert forall i :: 0 <= i < n ==> want[i] == c[offset + i] == FileByte(img, inode, offset + i);
      assert forall i :: n <= i < |was| ==> want[i] == was[i];
      if Copied(img, inode, offset, n, buf, was) {
        forall i | 0 <= i < |buf| ensures buf[i] == want[i] {
          if i < n {
            assert IsFileByte(img, inode, offset + i, buf[i]);
          }
        }
      }
    }
  }

  lemma FitsWhenOk(img: seq<byte>, inode: int, offset: int, n: int, cap: int)
    requires ImageOk(img) && BlocksOk(img, inode, offset / BLOCK, LastBlock(offset, n) + 1)
    requires 0 <= offset && 0 <= n <= cap && offset + n < TWO32
    ensures Fits(img, inode, offset, n, cap)
  {
    assert U32(offset % BLOCK + n) == offset % BLOCK + n;
    forall k | offset / BLOCK <= k <= LastBlock(offset, n) ensures Indexed(img, inode, k) {
      assert HasBlock(img, inode, k);
    }
  }

  /** For a well-formed file, room for the part of it that is asked for is room enough. */
  lemma RoomEnough(img: seq<byte>, inode: int, offset: int, length: int, cap: int)
    requires ImageOk(img) && FileOk(img, inode) && 0 <= offset < FileSize(img, inode) && 0 <= length < TWO32
    requires offset + length < TWO32 || offset + length - TWO32 > FileSize(img, inode)
    requires Min(length, FileSize(img, inode) - offset) <= cap
    ensures Room(img, inode, offset, length, cap)
  {
    ClampExact(offset, length, FileSize(img, inode));
    var n := Min(length, FileSize(img, inode) - offset);
    CopiedIsSlice(img, inode, offset, n, [], []);
    hide FileOk, BlocksOk, Fits;
    FitsWhenOk(img, inode, offset, n, cap);
  }

  lemma NoRoomNeeded(img: seq<byte>, inode: int, offset: int, length: int, cap: int)
    requires ImageOk(img) && 0 <= inode && 0 <= offset && (inode < NumInodes(img) ==> FileSize(img, inode) <= offset)
    ensures Room(img, inode, offset, length, cap)
  {
  }
}
