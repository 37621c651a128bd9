/**
 File system images built from given files and directory entries, and what the code's own look-ups
 find in them: the files and the entries they were built from.
 */
module Images {
  import opened Bytes
  import opened FileSystem
  import opened Directory

  // ---------------------------------------------------------------- words and parts

  /** Byte k of a word, the lowest first. */
  function LeByte(w: int, k: int): byte
    requires 0 <= w < TWO32
  {
    if k == 0 then w % 0x100 else if k == 1 then w / 0x100 % 0x100
    else if k == 2 then w / 0x1_0000 % 0x100 else w / 0x100_0000 % 0x100
  }

  predicate AreWords(ws: seq<int>) {
    forall i :: 0 <= i < |ws| ==> 0 <= ws[i] < TWO32
  }

  function BytesOf(ws: seq<int>): (r: seq<byte>)
    requires AreWords(ws)
    ensures |r| == 4 * |ws|
  {
    if ws == [] then []
    else [LeByte(ws[0], 0), LeByte(ws[0], 1), LeByte(ws[0], 2), LeByte(ws[0], 3)] + BytesOf(ws[1..])
  }

  function Zeros(n: nat): (r: seq<byte>)
    ensures |r| == n
  {
    seq(n, _ => 0)
  }

  /** part stands in img from index at on. */
  ghost predicate Part(img: seq<byte>, at: int, part: seq<byte>) {
    0 <= at && at + |part| <= |img| && img[at..at + |part|] == part
  }

  lemma PartByte(img: seq<byte>, at: int, part: seq<byte>, i: int)
    requires Part(img, at, part) && 0 <= i < |part|
    ensures img[at + i] == part[i]
  {
    assert img[at..at + |part|][i] == part[i];
  }

  lemma PartOfPart(img: seq<byte>, at: int, part: seq<byte>, from: int, inner: seq<byte>)
    requires Part(img, at, part) && Part(part, from, inner)
    ensures Part(img, at + from, inner)
  {
    forall i | 0 <= i < |inner| ensures img[at + from + i] == inner[i] {
      PartByte(part, from, inner, i);
      PartByte(img, at, part, from + i);
    }
  }

  lemma Joined(a: seq<byte>, b: seq<byte>, c: seq<byte>)
    ensures Part(a + b + c, |a|, b)
  {
  }

  lemma ThreeParts(a: seq<byte>, b: seq<byte>, c: seq<byte>)
    ensures Part(a + b + c, 0, a) && Part(a + b + c, |a|, b) && Part(a + b + c, |a| + |b|, c)
  {
  }

  lemma LeSum(w: int)
    requires 0 <= w < TWO32
    ensures LeByte(w, 0) + 0x100 * LeByte(w, 1) + 0x1_0000 * LeByte(w, 2) + 0x100_0000 * LeByte(w, 3) == w
  {
    var a := w / 0x100;
    var b := a / 0x100;
    assert w / 0x1_0000 == b && w / 0x100_0000 == b / 0x100;
  }

  /** A word written is the word read. */
  lemma {:induction false} WordInBytes(ws: seq<int>, k: int)
    requires AreWords(ws) && 0 <= k < |ws|
    ensures Word(BytesOf(ws), 4 * k) == ws[k]
  {
    var bytes := BytesOf(ws);
    if k == 0 {
      LeSum(ws[0]);
    } else {
      WordInBytes(ws[1..], k - 1);
      var rest := BytesOf(ws[1..]);
      assert forall i :: 0 <= i < |rest| ==> bytes[4 + i] == rest[i];
      assert Word(bytes, 4 + 4 * (k - 1)) == Word(rest, 4 * (k - 1));
    }
  }

  lemma WordOfPart(img: seq<byte>, at: int, ws: seq<int>, k: int)
    requires AreWords(ws) && Part(img, at, BytesOf(ws)) && 0 <= k < |ws|
    ensures at + 4 * k + 4 <= |img| && Word(img, at + 4 * k) == ws[k]
  {
    WordInBytes(ws, k);
    PartByte(img, at, BytesOf(ws), 4 * k);
    PartByte(img, at, BytesOf(ws), 4 * k + 1);
    PartByte(img, at, BytesOf(ws), 4 * k + 2);
    PartByte(img, at, BytesOf(ws), 4 * k + 3);
  }

  // ---------------------------------------------------------------- the image

  predicate EntryFits(d: Dentry) {
    |d.name| <= NAME_SIZE && 0 !in d.name && AreWords([d.kind, d.inode])
  }

  predicate EntriesFit(ds: seq<Dentry>) {
    forall i :: 0 <= i < |ds| ==> EntryFits(ds[i])
  }

  function EntryBytes(d: Dentry): (r: seq<byte>)
    requires EntryFits(d)
    ensures |r| == DENTRY_SIZE
  {
    d.name + Zeros(NAME_SIZE - |d.name|) + BytesOf([d.kind, d.inode]) + Zeros(24)
  }

  function EntryTable(ds: seq<Dentry>): (r: seq<byte>)
    requires EntriesFit(ds)
    ensures |r| == DENTRY_SIZE * |ds|
  {
    if ds == [] then [] else EntryBytes(ds[0]) + EntryTable(ds[1..])
  }

  /** Three counts, reserved bytes, the entries. */
  function BootBlock(ds: seq<Dentry>, inodes: nat, blocks: nat): (r: seq<byte>)
    requires EntriesFit(ds) && |ds| <= 63 && AreWords([|ds|, inodes, blocks])
    ensures |r| == BLOCK
  {
    BytesOf([|ds|, inodes, blocks]) + Zeros(52) + EntryTable(ds) + Zeros(BLOCK - DENTRY_SIZE * (|ds| + 1))
  }

  function Consecutive(start: nat, n: nat): (r: seq<int>)
    ensures |r| == n && forall k :: 0 <= k < n ==> r[k] == start + k
  {
    seq(n, k => start + k)
  }

  function InodeWords(size: nat, start: nat): (ws: seq<int>)
    ensures |ws| == BlocksOf(size) + 1
  {
    [size] + Consecutive(start, BlocksOf(size))
  }

  /** The length and the numbers of consecutive data blocks. */
  function InodeBlock(size: nat, start: nat): (r: seq<byte>)
    requires size <= MAX_FILE && start + BlocksOf(size) < TWO32
    ensures |r| == BLOCK
  {
    BytesOf(InodeWords(size, start)) + Zeros(BLOCK - 4 - 4 * BlocksOf(size))
  }

  predicate FilesFit(files: seq<seq<byte>>) {
    forall i :: 0 <= i < |files| ==> |files[i]| <= MAX_FILE
  }

  /** The number of data blocks of all files, and of those before file i. */
  function Total(files: seq<seq<byte>>): nat {
    if files == [] then 0 else BlocksOf(|files[0]|) + Total(files[1..])
  }

  function Before(files: seq<seq<byte>>, i: nat): nat
    requires i <= |files|
  {
    if i == 0 then 0 else BlocksOf(|files[0]|) + Before(files[1..], i - 1)
  }

  function InodeTable(files: seq<seq<byte>>, start: nat): (r: seq<byte>)
    requires FilesFit(files) && start + Total(files) < TWO32
    ensures |r| == BLOCK * |files|
  {
    if files == [] then []
    else InodeBlock(|files[0]|, start) + InodeTable(files[1..], start + BlocksOf(|files[0]|))
  }

  function Padded(file: seq<byte>): (r: seq<byte>)
    ensures |r| == BLOCK * BlocksOf(|file|)
  {
    file + Zeros(BLOCK * BlocksOf(|file|) - |file|)
  }

  function DataBlocks(files: seq<seq<byte>>): (r: seq<byte>)
    ensures |r| == BLOCK * Total(files)
  {
    if files == [] then [] else Padded(files[0]) + DataBlocks(files[1..])
  }

  /** What a 32-bit image can hold. */
  ghost predicate Fit(files: seq<seq<byte>>, ds: seq<Dentry>) {
    FilesFit(files) && EntriesFit(ds) && |ds| <= 63 && BLOCK * (1 + |files| + Total(files)) < TWO32
  }

  function Image(files: seq<seq<byte>>, ds: seq<Dentry>): (img: seq<byte>)
    requires Fit(files, ds)
    ensures |img| == BLOCK * (1 + |files| + Total(files))
  {
    BootBlock(ds, |files|, Total(files)) + InodeTable(files, 0) + DataBlocks(files)
  }

  // ---------------------------------------------------------------- where things are

  lemma {:induction false} InodeTableAt(files: seq<seq<byte>>, start: nat, i: nat)
    requires FilesFit(files) && start + Total(files) < TWO32 && i < |files|
    ensures Before(files, i) + BlocksOf(|files[i]|) <= Total(files)
    ensures Part(InodeTable(files, start), BLOCK * i, InodeBlock(|files[i]|, start + Before(files, i)))
  {
    hide InodeBlock, BlocksOf;
    if i > 0 {
      var first, rest := InodeBlock(|files[0]|, start), InodeTable(files[1..], start + BlocksOf(|files[0]|));
      InodeTableAt(files[1..], start + BlocksOf(|files[0]|), i - 1);
      assert first + rest + [] == InodeTable(files, start);
      assert start + Before(files, i) == start + BlocksOf(|files[0]|) + Before(files[1..], i - 1);
      hide InodeTable, Part, Total, Before, FilesFit;
      Joined(first, rest, []);
      PartOfPart(InodeTable(files, start), BLOCK, rest, BLOCK * (i - 1),
                 InodeBlock(|files[i]|, start + Before(files, i)));
    }
  }

  lemma {:induction false} DataAt(files: seq<seq<byte>>, i: nat)
    requires i < |files|
    ensures Before(files, i) + BlocksOf(|files[i]|) <= Total(files)
    ensures Part(DataBlocks(files), BLOCK * Before(files, i), Padded(files[i]))
  {
    hide Padded, BlocksOf;
    if i > 0 {
      var first, rest := Padded(files[0]), DataBlocks(files[1..]);
      DataAt(files[1..], i - 1);
      assert first + rest + [] == DataBlocks(files);
      assert Before(files, i) == BlocksOf(|files[0]|) + Before(files[1..], i - 1);
      hide DataBlocks, Part, Total, Before;
      Joined(first, rest, []);
      PartOfPart(DataBlocks(files), |first|, rest, BLOCK * Before(files[1..], i - 1), Padded(files[i]));
    }
  }

  lemma {:induction false} EntryTableAt(ds: seq<Dentry>, i: nat)
    requires EntriesFit(ds) && i < |ds|
    ensures Part(EntryTable(ds), DENTRY_SIZE * i, EntryBytes(ds[i]))
  {
    if i > 0 {
      var first, rest := EntryBytes(ds[0]), EntryTable(ds[1..]);
      EntryTableAt(ds[1..], i - 1);
      hide EntryBytes;
      Joined(first, rest, []);
      assert first + rest + [] == EntryTable(ds);
      PartOfPart(EntryTable(ds), DENTRY_SIZE, rest, DENTRY_SIZE * (i - 1), EntryBytes(ds[i]));
    }
  }

  lemma TablesAt(files: seq<seq<byte>>, ds: seq<Dentry>)
    requires Fit(files, ds)
    ensures var img := Image(files, ds);
            && Part(img, 0, BootBlock(ds, |files|, Total(files)))
            && Part(img, BLOCK, InodeTable(files, 0)) && Part(img, BLOCK * (|files| + 1), DataBlocks(files))
  {
    hide BootBlock, InodeTable, DataBlocks, EntriesFit, FilesFit, Total, Part;
    ThreeParts(BootBlock(ds, |files|, Total(files)), InodeTable(files, 0), DataBlocks(files));
  }

  lemma BootCounts(ds: seq<Dentry>, inodes: nat, blocks: nat)
    requires EntriesFit(ds) && |ds| <= 63 && AreWords([|ds|, inodes, blocks])
    ensures Part(BootBlock(ds, inodes, blocks), 0, BytesOf([|ds|, inodes, blocks]))
  {
    hide BytesOf, EntryTable;
  }

  /** The boot block announces what is there. */
  lemma CountsAre(files: seq<seq<byte>>, ds: seq<Dentry>)
    requires Fit(files, ds)
    ensures var img := Image(files, ds);
            ImageOk(img) && NumEntries(img) == |ds| && NumInodes(img) == |files| && NumBlocks(img) == Total(files)
  {
    hide Image, BootBlock, BytesOf, Part, Word, EntriesFit, FilesFit, Total;
    var img, ws, boot := Image(files, ds), [|ds|, |files|, Total(files)], BootBlock(ds, |files|, Total(files));
    TablesAt(files, ds);
    BootCounts(ds, |files|, Total(files));
    PartOfPart(img, 0, boot, 0, BytesOf(ws));
    WordOfPart(img, 0, ws, 0);
    WordOfPart(img, 0, ws, 1);
    WordOfPart(img, 0, ws, 2);
  }

  lemma InodeStarts(size: nat, start: nat)
    requires size <= MAX_FILE && start + BlocksOf(size) < TWO32
    ensures AreWords(InodeWords(size, start)) && Part(InodeBlock(size, start), 0, BytesOf(InodeWords(size, start)))
  {
    hide BytesOf;
  }

  lemma InodePart(files: seq<seq<byte>>, ds: seq<Dentry>, i: nat)
    requires Fit(files, ds) && i < |files|
    ensures Before(files, i) + BlocksOf(|files[i]|) <= Total(files)
    ensures AreWords(InodeWords(|files[i]|, Before(files, i)))
    ensures Part(Image(files, ds), BLOCK * (i + 1), BytesOf(InodeWords(|files[i]|, Before(files, i))))
  {
    hide Image, InodeTable, InodeBlock, BytesOf, Part, InodeWords, EntriesFit, Total, Before, BlocksOf;
    var img, size, start := Image(files, ds), |files[i]|, Before(files, i);
    TablesAt(files, ds);
    InodeTableAt(files, 0, i);
    var block, ws := InodeBlock(size, start), InodeWords(size, start);
    InodeStarts(size, start);
    PartOfPart(img, BLOCK, InodeTable(files, 0), BLOCK * i, block);
    PartOfPart(img, BLOCK * (i + 1), block, 0, BytesOf(ws));
  }

  /** The inode block of file i holds its length and its block numbers. */
  lemma InodeIs(files: seq<seq<byte>>, ds: seq<Dentry>, i: nat)
    requires Fit(files, ds) && i < |files|
    ensures var img := Image(files, ds);
            && ImageOk(img) && NumInodes(img) == |files| && NumBlocks(img) == Total(files)
            && FileSize(img, i) == |files[i]|
            && forall k :: 0 <= k < BlocksOf(|files[i]|) ==>
                 Indexed(img, i, k) && BlockNumber(img, i, k) == Before(files, i) + k < Total(files)
  {
    hide Image, BytesOf, ImageOk, Part, Word, EntriesFit, FilesFit, Total, Before, BlocksOf;
    CountsAre(files, ds);
    InodePart(files, ds, i);
    var img, ws := Image(files, ds), InodeWords(|files[i]|, Before(files, i));
    WordOfPart(img, BLOCK * (i + 1), ws, 0);
    assert ImageOk(img) ==> |img| >= BLOCK;
    forall k | 0 <= k < BlocksOf(|files[i]|)
      ensures Indexed(img, i, k) && BlockNumber(img, i, k) == Before(files, i) + k
    {
      WordOfPart(img, BLOCK * (i + 1), ws, k + 1);
    }
  }

  lemma PaddedByte(file: seq<byte>, j: int)
    requires 0 <= j < |file|
    ensures j < BLOCK * BlocksOf(|file|) && Padded(file)[j] == file[j] && j / BLOCK < BlocksOf(|file|)
  {
  }

  /** Byte j of file i. */
  lemma ByteIs(files: seq<seq<byte>>, ds: seq<Dentry>, i: nat, j: nat)
    requires Fit(files, ds) && i < |files| && j < |files[i]|
    ensures var img := Image(files, ds);
            ImageOk(img) && HasBlock(img, i, j / BLOCK) && FileByte(img, i, j) == files[i][j]
  {
    hide Image, DataBlocks, Padded, ImageOk, BlocksOf, Total, Before, Part, EntriesFit, FilesFit;
    var img, b := Image(files, ds), Before(files, i);
    InodeIs(files, ds, i);
    TablesAt(files, ds);
    DataAt(files, i);
    PaddedByte(files[i], j);
    PartOfPart(img, BLOCK * (|files| + 1), DataBlocks(files), BLOCK * b, Padded(files[i]));
    PartByte(img, BLOCK * (|files| + 1) + BLOCK * b, Padded(files[i]), j);
    assert BlockAt(img, i, j / BLOCK) + j % BLOCK == BLOCK * (|files| + 1) + BLOCK * b + j;
  }

  /** The image holds the files it was built from. */
  lemma ImageHoldsFiles(files: seq<seq<byte>>, ds: seq<Dentry>, i: nat)
    requires Fit(files, ds) && i < |files|
    ensures var img := Image(files, ds); ImageOk(img) && FileOk(img, i) && Contents(img, i) == files[i]
  {
    var img := Image(files, ds);
    InodeIs(files, ds, i);
    hide Image, ImageOk;
    assert BlocksOk(img, i, 0, BlocksOf(|files[i]|));
    forall j | 0 <= j < |files[i]| ensures Contents(img, i)[j] == files[i][j] {
      ByteIs(files, ds, i, j);
    }
  }

  /** And its directory holds the entries. */
  lemma ImageHoldsEntries(files: seq<seq<byte>>, ds: seq<Dentry>, i: nat)
    requires Fit(files, ds) && i < |ds|
    ensures var img := Image(files, ds); DirectoryOk(img) && NumEntries(img) == |ds| && Entry(img, i) == ds[i]
  {
    var img, d, boot := Image(files, ds), ds[i], BootBlock(ds, |files|, Total(files));
    CountsAre(files, ds);
    TablesAt(files, ds);
    EntryTableAt(ds, i);
    BootEntry(ds, |files|, Total(files), i);
    var entry := EntryBytes(d);
    hide Image, BootBlock, EntryTable, ImageOk;
    PartOfPart(img, 0, boot, DENTRY_SIZE * (i + 1), entry);
    EntryRead(img, DENTRY_SIZE * (i + 1), d);
  }

  lemma BootEntry(ds: seq<Dentry>, inodes: nat, blocks: nat, i: nat)
    requires EntriesFit(ds) && i < |ds| <= 63 && AreWords([|ds|, inodes, blocks])
    ensures Part(BootBlock(ds, inodes, blocks), DENTRY_SIZE * (i + 1), EntryBytes(ds[i]))
  {
    var head, table := BytesOf([|ds|, inodes, blocks]) + Zeros(52), EntryTable(ds);
    Joined(head, table, Zeros(BLOCK - DENTRY_SIZE * (|ds| + 1)));
    EntryTableAt(ds, i);
    hide EntryTable, EntryBytes;
    PartOfPart(BootBlock(ds, inodes, blocks), DENTRY_SIZE, table, DENTRY_SIZE * i, EntryBytes(ds[i]));
  }

  /** An entry written is the entry read. */
  lemma EntryRead(img: seq<byte>, at: nat, d: Dentry)
    requires EntryFits(d) && Part(img, at, EntryBytes(d))
    ensures at + DENTRY_SIZE <= |img| && CStr(img[at..at + NAME_SIZE]) == d.name
    ensures Word(img, at + NAME_SIZE) == d.kind && Word(img, at + NAME_SIZE + 4) == d.inode
  {
    hide BytesOf, Word;
    var name, ws := d.name + Zeros(NAME_SIZE - |d.name|), [d.kind, d.inode];
    Joined([], name, BytesOf(ws) + Zeros(24));
    assert [] + name + (BytesOf(ws) + Zeros(24)) == EntryBytes(d);
    Joined(name, BytesOf(ws), Zeros(24));
    PartOfPart(img, at, EntryBytes(d), 0, name);
    PartOfPart(img, at, EntryBytes(d), NAME_SIZE, BytesOf(ws));
    hide EntryBytes;
    WordOfPart(img, at + NAME_SIZE, ws, 0);
    WordOfPart(img, at + NAME_SIZE, ws, 1);
    assert name[..|d.name|] == d.name && img[at..at + NAME_SIZE] == name;
    CStrUnique(name, |d.name|);
  }
}
