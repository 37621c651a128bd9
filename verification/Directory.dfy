/**
 The directory of the file system image: lookup by name and by index, and the C string routines
 they use.
 */
module Directory {
  import opened Bytes
  import opened FileSystem

  datatype Dentry = Dentry(name: seq<byte>, kind: int, inode: int)

  function EntryAt(i: int): int {
    DENTRY_SIZE * (i + 1)
  }

  /** Directory entry i; a name may fill its 32 bytes without a terminator. */
  function Entry(img: seq<byte>, i: int): (d: Dentry)
    requires DirectoryOk(img) && 0 <= i < NumEntries(img)
    ensures |d.name| <= NAME_SIZE
  {
    Dentry(CStr(img[EntryAt(i)..EntryAt(i) + NAME_SIZE]), Word(img, EntryAt(i) + NAME_SIZE),
           Word(img, EntryAt(i) + NAME_SIZE + 4))
  }

  /** strncpy: at most n bytes, padded with NULs. */
  method Strncpy(dest: array<byte>, src: seq<byte>, from: int, n: int)
    requires 0 <= n <= dest.Length && 0 <= from && from + n < |src|
    modifies dest
    ensures var name := CStr(src[from..from + n]);
            forall i :: 0 <= i < dest.Length ==>
              dest[i] == if i < |name| then name[i] else if i < n then 0 else old(dest[i])
  {
    ghost var name := CStr(src[from..from + n]);
    var i := 0;
    while src[from + i] != 0 && i < n
      invariant 0 <= i <= |name|
      invariant forall j :: 0 <= j < dest.Length ==> dest[j] == if j < i then name[j] else old(dest[j])
      decreases n - i
    {
      dest[i] := src[from + i];
      i := i + 1;
    }
    while i < n
      invariant |name| <= i <= n
      invariant forall j :: 0 <= j < dest.Length ==>
                  dest[j] == if j < |name| then name[j] else if j < i then 0 else old(dest[j])
    {
      dest[i] := 0;
      i := i + 1;
    }
  }

  /** The two strings first differ at k, by r as signed characters. */
  predicate DifferAt(s1: seq<byte>, s2: seq<byte>, k: int, r: int) {
    0 <= k < |s1| && k < |s2| && SignedChar(s1[k]) - SignedChar(s2[k]) == r != 0
    && k <= |CStr(s1)| && k <= |CStr(s2)| && SameStart(CStr(s1), CStr(s2), k)
  }

  /** strncmp: zero exactly if the strings agree in n bytes, else the difference at the first mismatch. */
  method Strncmp(s1: seq<byte>, s2: seq<byte>, n: int) returns (r: int)
    requires 0 in s1 && 0 in s2 && n >= 0
    ensures r == 0 <==> SameStart(CStr(s1), CStr(s2), n)
    ensures r != 0 ==> exists k :: k < n && DifferAt(s1, s2, k, r)
  {
    var i := 0;
    while i < n
      invariant 0 <= i <= n && i <= |CStr(s1)| && i <= |CStr(s2)|
      invariant forall k :: 0 <= k < i ==> CStr(s1)[k] == CStr(s2)[k]
    {
      if s1[i] != s2[i] || s1[i] == 0 {
        assert i < |CStr(s1)| ==> CStr(s1)[i] == s1[i] != 0;
        assert i < |CStr(s2)| ==> CStr(s2)[i] == s2[i] != 0;
        r := SignedChar(s1[i]) - SignedChar(s2[i]);
        assert r != 0 ==> DifferAt(s1, s2, i, r);
        return;
      }
      i := i + 1;
    }
    return 0;
  }

  datatype Found = NoEntry | At(index: int, dentry: Dentry)

  /** The first entry from i on with this name. */
  function LookupFrom(img: seq<byte>, name: seq<byte>, i: int): (r: Found)
    requires DirectoryOk(img) && 0 <= i <= NumEntries(img)
    decreases NumEntries(img) - i
  {
    if i == NumEntries(img) then NoEntry
    else if Entry(img, i).name == name then At(i, Entry(img, i))
    else LookupFrom(img, name, i + 1)
  }

  /** A name padded with NULs to 33 bytes reads back as that name. */
  lemma NameCopied(copy: seq<byte>, name: seq<byte>)
    requires |copy| == NAME_SIZE + 1 && |name| <= NAME_SIZE && 0 !in name
    requires forall i :: 0 <= i < |copy| ==> copy[i] == if i < |name| then name[i] else 0
    ensures 0 in copy && CStr(copy) == name
  {
    assert copy[NAME_SIZE] == 0;
    assert copy[..|name|] == name;
    CStrUnique(copy, |name|);
  }

  /** Copies the entry as both lookups do. */
  method ReadEntry(img: seq<byte>, i: int) returns (curName: seq<byte>, dentry: Dentry)
    requires DirectoryOk(img) && 0 <= i < NumEntries(img)
    ensures dentry == Entry(img, i) && 0 in curName && CStr(curName) == dentry.name
  {
    var name := new byte[NAME_SIZE + 1];
    Strncpy(name, img, EntryAt(i), NAME_SIZE);
    name[NAME_SIZE] := 0;
    curName := name[..];
    NameCopied(curName, Entry(img, i).name);
    dentry := Dentry(CStr(curName), Word(img, EntryAt(i) + NAME_SIZE), Word(img, EntryAt(i) + NAME_SIZE + 4));
  }

  /** The first entry with exactly the given name; longer names than 32 bytes are never found. */
  method ReadDentryByName(img: seq<byte>, fname: seq<byte>) returns (r: Found)
    requires DirectoryOk(img) && 0 in fname
    ensures r == LookupFrom(img, CStr(fname), 0)
  {
    hide Entry;
    var length := Strlen(fname);
    if length > NAME_SIZE {
      LookupIsExact(img, CStr(fname));
      return NoEntry;
    }
    var i := 0;
    while i < NumEntries(img)
      invariant 0 <= i <= NumEntries(img)
      invariant LookupFrom(img, CStr(fname), 0) == LookupFrom(img, CStr(fname), i)
    {
      var curName, dentry := ReadEntry(img, i);
      var curLen := Strlen(curName);
      if length == curLen {
        var cmp := Strncmp(fname, curName, length);
        if cmp == 0 {
          return At(i, dentry);
        }
      }
      i := i + 1;
    }
    return NoEntry;
  }

  method ReadDentryByIndex(img: seq<byte>, index: int) returns (r: Found)
    requires DirectoryOk(img) && 0 <= index
    ensures r == if index < NumEntries(img) then At(index, Entry(img, index)) else NoEntry
  {
    if index >= NumEntries(img) {
      return NoEntry;
    }
    var _, dentry := ReadEntry(img, index);
    return At(index, dentry);
  }

  lemma {:induction false} LookupFromIsFirst(img: seq<byte>, name: seq<byte>, i: int)
    requires DirectoryOk(img) && 0 <= i <= NumEntries(img)
    ensures var r := LookupFrom(img, name, i);
            && (r.NoEntry? ==> forall k :: i <= k < NumEntries(img) ==> Entry(img, k).name != name)
            && (r.At? ==> i <= r.index < NumEntries(img) && r.dentry == Entry(img, r.index) && r.dentry.name == name
                          && forall k :: i <= k < r.index ==> Entry(img, k).name != name)
    decreases NumEntries(img) - i
  {
    hide Entry;
    if i < NumEntries(img) && Entry(img, i).name != name {
      LookupFromIsFirst(img, name, i + 1);
    }
  }

  /** A name is found exactly when some entry has it, and then at the least such index. */
  lemma LookupIsExact(img: seq<byte>, name: seq<byte>)
    requires DirectoryOk(img)
    ensures var r := LookupFrom(img, name, 0);
            && (r.At? <==> exists i :: 0 <= i < NumEntries(img) && Entry(img, i).name == name)
            && (r.At? ==> 0 <= r.index < NumEntries(img) && r.dentry == Entry(img, r.index) && r.dentry.name == name
                          && forall i :: 0 <= i < r.index ==> Entry(img, i).name != name)
  {
    hide Entry;
    LookupFromIsFirst(img, name, 0);
  }

  /** The two lookups are inverse exactly for entries whose name does not occur earlier. */
  lemma LookupInvertsIndex(img: seq<byte>, i: int)
    requires DirectoryOk(img) && 0 <= i < NumEntries(img)
    ensures LookupFrom(img, Entry(img, i).name, 0) == At(i, Entry(img, i))
            <==> forall k :: 0 <= k < i ==> Entry(img, k).name != Entry(img, i).name
  {
    LookupIsExact(img, Entry(img, i).name);
  }
}
