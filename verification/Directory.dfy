/** Directory entries in the boot block: lookup by name, lookup by index, and the reads that list them. */
module Directory {
  import opened Bytes
  import opened FileSystem

  const NAME_SIZE := 32
  const ENTRY_SIZE := 64
  const LAST_INDEX := 62               // entries 0 to 62 fill the boot block after its header
  const FILES_SEARCHED := 62           // and lookup by name scans the 62 after entry 0

  datatype Dentry = Dentry(fileType: int, inode: int)
  datatype Lookup = NotFound | Found(entry: Dentry)

  function EntryAt(k: int): int {
    ENTRY_SIZE * (1 + k)
  }

  function EntryType(img: seq<Byte>, k: int): (r: int)
    requires WellFormed(img) && 0 <= k <= LAST_INDEX
    ensures 0 <= r < TWO_32
  {
    Word(img, EntryAt(k) / 4 + 8)
  }

  function EntryInode(img: seq<Byte>, k: int): (r: int)
    requires WellFormed(img) && 0 <= k <= LAST_INDEX
    ensures 0 <= r < TWO_32
  {
    Word(img, EntryAt(k) / 4 + 9)
  }

  /** Every entry is of one of the three file types (an unused one is all zeros). */
  predicate WellTyped(img: seq<Byte>)
    requires WellFormed(img)
  {
    forall k :: 0 <= k <= LAST_INDEX ==> EntryType(img, k) <= 2
  }

  /** An entry's name: at most 32 bytes, shorter if a NUL ends it. */
  function Name(img: seq<Byte>, k: int): (r: seq<Byte>)
    requires WellFormed(img) && 0 <= k <= LAST_INDEX
    ensures NulFree(r) && |r| <= NAME_SIZE
  {
    UpToNul(img[EntryAt(k)..EntryAt(k) + NAME_SIZE])
  }

  /** Entry k of the boot block, byte by byte: 32 for the name, then the type and the inode. */
  ghost predicate EntryLaid(img: seq<Byte>, k: int, name: seq<Byte>, fileType: int, inode: int) {
    var at := 64 * (1 + k);
    && 0 <= k <= 62 && at + 64 <= |img| && |name| <= 32 && NulFree(name)
    && (forall i :: 0 <= i < |name| ==> img[at + i] == name[i]) && (|name| < 32 ==> img[at + |name|] == 0)
    && Written(img, at + 32, fileType) && Written(img, at + 36, inode)
  }

  /** An entry reads as what was laid there, and as nothing else. */
  lemma EntryIsLaid(img: seq<Byte>, k: int, name: seq<Byte>, fileType: int, inode: int)
    requires WellFormed(img) && 0 <= k <= LAST_INDEX
    ensures EntryLaid(img, k, name, fileType, inode) <==>
              Name(img, k) == name && EntryType(img, k) == fileType && EntryInode(img, k) == inode
  {
    hide Word, Written, UpToNul;
    WordIsWritten(img, EntryAt(k) / 4 + 8, fileType);
    WordIsWritten(img, EntryAt(k) / 4 + 9, inode);
    EntryInImage(img, k);
    NameIsLaid(img[EntryAt(k)..EntryAt(k) + NAME_SIZE], name);
    var field := img[EntryAt(k)..EntryAt(k) + NAME_SIZE];
    assert forall i :: 0 <= i < NAME_SIZE ==> field[i] == img[EntryAt(k) + i];
  }

  lemma NameIsLaid(field: seq<Byte>, name: seq<Byte>)
    ensures UpToNul(field) == name <==>
              && |name| <= |field| && NulFree(name) && (forall i :: 0 <= i < |name| ==> field[i] == name[i])
              && (|name| < |field| ==> field[|name|] == 0)
  {
    hide UpToNul;
    if |name| <= |field| && NulFree(name) && (forall i :: 0 <= i < |name| ==> field[i] == name[i])
       && (|name| < |field| ==> field[|name|] == 0) {
      assert field[..|name|] == name;
      UpToNulUnique(field, |name|);
    }
  }

  // ---------------------------------------------------------------- C strings in the image

  ghost predicate EndsBefore(img: seq<Byte>, at: int, bound: int) {
    0 <= at && bound <= |img| && exists p :: at <= p < bound && img[p] == NUL
  }

  method Strlen(img: seq<Byte>, at: int) returns (len: int)
    requires EndsBefore(img, at, |img|)
    ensures 0 <= len && at + len < |img| && img[at + len] == NUL
    ensures forall k :: at <= k < at + len ==> img[k] != NUL
  {
    len := 0;
    while img[at + len] != NUL
      invariant 0 <= len && at + len < |img|
      invariant forall k :: at <= k < at + len ==> img[k] != NUL
      invariant exists p :: at + len <= p < |img| && img[p] == NUL
      decreases |img| - at - len
    {
      len := len + 1;
    }
  }

  method Strncmp(img: seq<Byte>, at: int, s: seq<Byte>) returns (r: int)
    requires EndsBefore(img, at, |img|) && NulFree(s)
    ensures r == 0 <==> at + |s| <= |img| && img[at..at + |s|] == s
  {
    ghost var p :| at <= p < |img| && img[p] == NUL;
    var i := 0;
    while i < |s|
      invariant 0 <= i <= |s| && at + i <= p
      invariant img[at..at + i] == s[..i]
    {
      assert img[at..at + i + 1] == img[at..at + i] + [img[at + i]];
      if img[at + i] != s[i] || img[at + i] == NUL {
        assert at + |s| <= |img| ==> img[at..at + |s|][i] != s[i];
        var a: int, b: int := img[at + i], s[i];
        return a - b;
      }
      i := i + 1;
    }
    return 0;
  }

  lemma EntryEnds(img: seq<Byte>, k: int)
    requires WellFormed(img) && WellTyped(img) && 0 <= k <= LAST_INDEX
    ensures EndsBefore(img, EntryAt(k), EntryAt(k) + NAME_SIZE + 4)
  {
    assert EntryType(img, k) <= 2;
    assert img[EntryAt(k) + 35] == NUL;
  }

  // ---------------------------------------------------------------- lookup by name

  /** The first entry from k on with that name, or one past the last. */
  function FirstNamed(img: seq<Byte>, name: seq<Byte>, k: int): (r: int)
    requires WellFormed(img) && 1 <= k <= LAST_INDEX + 1
    ensures k <= r <= LAST_INDEX + 1
    ensures r <= LAST_INDEX ==> Name(img, r) == name
    ensures forall i :: k <= i < r ==> Name(img, i) != name
    decreases LAST_INDEX + 1 - k
  {
    if k == LAST_INDEX + 1 || Name(img, k) == name then k else FirstNamed(img, name, k + 1)
  }

  /** The source's test for the directory itself: the bytes of entry 0 start with the name. */
  predicate NamesDirectory(img: seq<Byte>, name: seq<Byte>)
    requires WellFormed(img)
  {
    EntryAt(0) + |name| <= |img| && img[EntryAt(0)..EntryAt(0) + |name|] == name
  }

  /** A byte read through a signed char pointer and widened to 32 bits. */
  function SignExtend(b: Byte): int {
    if b < 128 then b else TWO_32 - 256 + b
  }

  function ByName(img: seq<Byte>, name: seq<Byte>): Lookup
    requires WellFormed(img)
  {
    if NamesDirectory(img, name) then Found(Dentry(1, 0)) else
    var k := FirstNamed(img, name, 1);
    if k > LAST_INDEX then NotFound
    else Found(Dentry(SignExtend(img[EntryAt(k) + NAME_SIZE]), SignExtend(img[EntryAt(k) + NAME_SIZE + 4])))
  }

  /** The first entry laid under a name is the one found, type and inode read through one signed byte each; "." is the
    * directory. */
  lemma FoundAsLaid(img: seq<Byte>, k: int, name: seq<Byte>, fileType: int, inode: int)
    requires WellFormed(img) && Name(img, 0) == ['.' as int] && EntryLaid(img, k, name, fileType, inode)
    requires k > 0 && name != [] && name != ['.' as int] && forall j :: 1 <= j < k ==> Name(img, j) != name
    ensures ByName(img, name) == Found(Dentry(SignExtend(fileType % 256), SignExtend(inode % 256)))
    ensures fileType < 128 && inode < 128 ==> ByName(img, name) == Found(Dentry(fileType, inode))
  {
    hide Word, Name, NamesDirectory, WellFormed, FirstNamed, EntryLaid, NulFree;
    LaidFields(img, k, name, fileType, inode);
    EntryIsLaid(img, k, name, fileType, inode);
    NotTheDirectory(img, name);
    assert FirstNamed(img, name, 1) == k;
  }

  lemma LaidFields(img: seq<Byte>, k: int, name: seq<Byte>, fileType: int, inode: int)
    requires EntryLaid(img, k, name, fileType, inode)
    ensures 0 <= k <= LAST_INDEX && NulFree(name) && EntryAt(k) + ENTRY_SIZE <= |img| && fileType >= 0 && inode >= 0
    ensures img[EntryAt(k) + NAME_SIZE] == fileType % 256 && img[EntryAt(k) + NAME_SIZE + 4] == inode % 256
  {
  }

  lemma FoundItself(img: seq<Byte>)
    requires WellFormed(img) && Name(img, 0) == ['.' as int]
    ensures ByName(img, ['.' as int]) == Found(Dentry(1, 0))
  {
    NotTheDirectory(img, ['.' as int]);
  }

  /** The disk holds a regular file of that name: its entry and its bytes are laid there. */
  ghost predicate OnDisk(img: seq<Byte>, name: seq<Byte>, file: seq<Byte>) {
    && WellFormed(img) && Name(img, 0) == ['.' as int] && name != [] && name != ['.' as int]
    && exists k, inode, l :: k > 0 && inode <= 64 && EntryLaid(img, k, name, 2, inode) && Laid(img, l, inode, file)
         && forall j :: 1 <= j < k ==> Name(img, j) != name
  }

  lemma OnDiskIsFound(img: seq<Byte>, name: seq<Byte>, file: seq<Byte>)
    requires OnDisk(img, name, file)
    ensures ByName(img, name).Found? && NulFree(name) && name != []
    ensures var e := ByName(img, name).entry;
            && e.fileType == 2 && 0 <= e.inode <= 64 && ValidInode(img, e.inode) && Contents(img, e.inode) == file
  {
    var k, inode, l :| k > 0 && inode <= 64 && EntryLaid(img, k, name, 2, inode) && Laid(img, l, inode, file)
                       && forall j :: 1 <= j < k ==> Name(img, j) != name;
    FoundAsLaid(img, k, name, 2, inode);
    LaidIsRead(img, l, inode, file);
  }

  method ReadDentryByName(img: seq<Byte>, fname: seq<Byte>) returns (d: Lookup)
    requires WellFormed(img) && WellTyped(img) && NulFree(fname)
    ensures d == ByName(img, fname)
  {
    hide Word, Name, UpToNul, WellTyped, FirstNamed;
    EntryEnds(img, 0);
    var firstDirectory := ENTRY_SIZE;
    var c := Strncmp(img, firstDirectory, fname);
    if c == 0 {
      return Found(Dentry(1, 0));
    }
    var firstFile := firstDirectory + ENTRY_SIZE;
    var j := FindFile(img, fname);
    if j == FILES_SEARCHED {
      return NotFound;
    }
    var at := firstFile + j * ENTRY_SIZE;
    return Found(Dentry(SignExtend(img[at + NAME_SIZE]), SignExtend(img[at + NAME_SIZE + 4])));
  }

  /** The search loop. */
  method FindFile(img: seq<Byte>, fname: seq<Byte>) returns (j: int)
    requires WellFormed(img) && WellTyped(img) && NulFree(fname)
    ensures 0 <= j <= FILES_SEARCHED && FirstNamed(img, fname, 1) == j + 1
  {
    hide WellFormed, WellTyped, Name, Word;
    j := 0;
    while j < FILES_SEARCHED
      invariant 0 <= j <= FILES_SEARCHED
      invariant FirstNamed(img, fname, 1) == FirstNamed(img, fname, j + 1)
    {
      var same := SameName(img, j + 1, fname);
      if same {
        break;
      }
      j := j + 1;
    }
  }

  lemma EntryInImage(img: seq<Byte>, k: int)
    requires WellFormed(img) && 0 <= k <= LAST_INDEX
    ensures EntryAt(k) + ENTRY_SIZE <= |img|
  {
  }

  lemma NameIs(img: seq<Byte>, k: int, length: int)
    requires WellFormed(img) && 0 <= k <= LAST_INDEX && 0 <= length && EntryAt(k) + length < |img|
    requires img[EntryAt(k) + length] == NUL && forall p :: EntryAt(k) <= p < EntryAt(k) + length ==> img[p] != NUL
    ensures Name(img, k) == img[EntryAt(k)..EntryAt(k) + Min(length, NAME_SIZE)]
  {
    var at, n := EntryAt(k), Min(length, NAME_SIZE);
    assert img[at..at + NAME_SIZE][..n] == img[at..at + n];
    UpToNulUnique(img[at..at + NAME_SIZE], n);
  }

  /** The body of the search loop: lengths first, then bytes. */
  method SameName(img: seq<Byte>, k: int, fname: seq<Byte>) returns (same: bool)
    requires WellFormed(img) && WellTyped(img) && NulFree(fname) && 1 <= k <= LAST_INDEX
    ensures same <==> Name(img, k) == fname
  {
    hide UpToNul, Name, Word, WellFormed, WellTyped;
    EntryEnds(img, k);
    var at := EntryAt(k);
    EntryInImage(img, k);
    var length := Strlen(img, at);
    NameIs(img, k, length);
    if length > NAME_SIZE {
      length := NAME_SIZE;
    }
    same := false;
    if length == |fname| {
      var c := Strncmp(img, at, fname);
      same := c == 0;
    }
  }

  /** Names in a directory tell its entries apart, and entry 0 is the directory itself. */
  ghost predicate DistinctNames(img: seq<Byte>)
    requires WellFormed(img)
  {
    var n := Min(Entries(img), LAST_INDEX + 1);
    && n >= 1 && Name(img, 0) == ['.' as int]
    && (forall i :: 0 <= i < n ==> Name(img, i) != [])
    && (forall i, j :: 0 <= i < j < n ==> Name(img, i) != Name(img, j))
  }

  /** Looking up the name an index gives finds that very entry, whatever the length of the name, and its inode if and
    * only if one signed byte can hold it. */
  lemma LookupAgreesWithIndex(img: seq<Byte>, k: int)
    requires WellFormed(img) && DistinctNames(img) && 1 <= k < Min(Entries(img), LAST_INDEX + 1)
    ensures ByName(img, Name(img, k)).Found?
    ensures ByName(img, Name(img, k)).entry.inode == EntryInode(img, k) <==>
              EntryInode(img, k) < 128 || EntryInode(img, k) >= TWO_32 - 128
  {
    hide Word, UpToNul, Name, FirstNamed, NamesDirectory, EntryInode;
    var name := Name(img, k);
    InodeByte(img, k);
    NotTheDirectory(img, name);
    var r := FirstNamed(img, name, 1);
    assert r <= k;
  }

  lemma InodeByte(img: seq<Byte>, k: int)
    requires WellFormed(img) && 0 <= k <= LAST_INDEX
    ensures SignExtend(img[EntryAt(k) + NAME_SIZE + 4]) == EntryInode(img, k) <==>
              EntryInode(img, k) < 128 || EntryInode(img, k) >= TWO_32 - 128
  {
  }

  lemma NotTheDirectory(img: seq<Byte>, name: seq<Byte>)
    requires WellFormed(img) && Name(img, 0) == ['.' as int] && NulFree(name)
    ensures NamesDirectory(img, name) <==> name == [] || name == ['.' as int]
  {
    var at := EntryAt(0);
    var head := img[at..at + NAME_SIZE];
    assert head[0] == '.' as int && head[1] == NUL;
    hide Name, UpToNul;
    var rest := img[at..];
    assert rest[0] == head[0] && rest[1] == head[1];
    if |name| <= |rest| {
      assert img[at..at + |name|] == rest[..|name|];
      DotPrefix(rest, name);
    }
  }

  lemma DotPrefix(s: seq<Byte>, name: seq<Byte>)
    requires |s| >= 2 && s[0] == '.' as int && s[1] == NUL && NulFree(name) && |name| <= |s|
    ensures s[..|name|] == name <==> name == [] || name == ['.' as int]
  {
    if |name| >= 2 {
      assert s[..|name|][1] == NUL;
    } else if |name| == 1 {
      assert s[..1] == ['.' as int];
    }
  }

  /** A name that is no entry's name is not found: not a proper prefix, not an extension, nor anything else. */
  lemma OnlyExactNames(img: seq<Byte>, name: seq<Byte>)
    requires WellFormed(img) && Name(img, 0) == ['.' as int] && NulFree(name) && name != []
    ensures ByName(img, name) == NotFound <==> forall k :: 0 <= k <= LAST_INDEX ==> Name(img, k) != name
  {
    hide Word, NamesDirectory, Name, WellFormed;
    NotTheDirectory(img, name);
  }

  // ---------------------------------------------------------------- listing

  /** read_dentry_by_index: the name padded with NULs to 33 bytes, of which the last overlies the type's low byte. */
  method ReadDentryByIndex(img: seq<Byte>, index: int) returns (ok: bool, fname: seq<Byte>, d: Dentry)
    requires WellFormed(img) && 0 <= index
    ensures ok <==> index < Min(Entries(img), 63)
    ensures ok ==> |fname| == NAME_SIZE + 1 && Name(img, index) <= fname
    ensures ok ==> forall i :: |Name(img, index)| <= i <= NAME_SIZE ==> fname[i] == NUL
    ensures ok ==> d.inode == EntryInode(img, index)
    ensures ok ==> d.fileType == EntryType(img, index) - EntryType(img, index) % 256
  {
    d := Dentry(0, 0);
    if index > LAST_INDEX || index >= Entries(img) {
      return false, [], d;
    }
    var at := EntryAt(index);
    fname := CopyEntryName(img, index);
    d := Dentry(Word(img, at / 4 + 8), Word(img, at / 4 + 9));
    fname := fname + [NUL];
    d := d.(fileType := d.fileType / 256 * 256);
    return true, fname, d;
  }

  /** strncpy of an entry's name. */
  method CopyEntryName(img: seq<Byte>, index: int) returns (fname: seq<Byte>)
    requires WellFormed(img) && 0 <= index <= LAST_INDEX
    ensures |fname| == NAME_SIZE && Name(img, index) <= fname
    ensures forall i :: |Name(img, index)| <= i < NAME_SIZE ==> fname[i] == NUL
  {
    var at := EntryAt(index);
    ghost var name := Name(img, index);
    assert forall q :: at <= q < at + NAME_SIZE ==> img[at..at + NAME_SIZE][q - at] == img[q];
    assert forall q :: 0 <= q < |name| ==> name[q] == img[at + q];
    fname := [];
    var i := 0;
    while i < NAME_SIZE && img[at + i] != NUL
      invariant 0 <= i <= |name| && |fname| == i && fname == name[..i]
    {
      fname := fname + [img[at + i]];
      i := i + 1;
    }
    while i < NAME_SIZE
      invariant |name| <= i <= NAME_SIZE && |fname| == i && name <= fname
      invariant forall k :: |name| <= k < i ==> fname[k] == NUL
    {
      fname := fname + [NUL];
      i := i + 1;
    }
  }

  function ListCount(img: seq<Byte>, index: int, nbytes: int): int
    requires WellFormed(img) && 0 <= index
  {
    if index >= Min(Entries(img), LAST_INDEX + 1) then 0
    else if nbytes <= 0 then nbytes
    else Min(|Name(img, index)|, nbytes)
  }

  /** dir_read: one name a call. An entry with an empty name is a count of 0, like the end of the directory. */
  method DirRead(img: seq<Byte>, pos: int, buf: array<Byte>, at: int, nbytes: int) returns (r: int, pos': int)
    requires WellFormed(img) && 0 <= pos && 0 <= at && at + nbytes <= buf.Length
    modifies buf
    ensures r == ListCount(img, pos, nbytes)
    ensures r == if pos >= Min(Entries(img), 63) then 0
                 else if nbytes <= 0 then nbytes else Min(|Name(img, pos)|, nbytes)
    ensures pos' == if pos < Min(Entries(img), LAST_INDEX + 1) then pos + 1 else pos
    ensures r > 0 ==> buf[at..at + r] == Name(img, pos)[..r]
    ensures forall k :: 0 <= k < buf.Length && !(at <= k < at + nbytes) ==> buf[k] == old(buf[k])
  {
    var ok, fname, d := ReadDentryByIndex(img, pos);
    if !ok {
      return 0, pos;
    }
    hide Name, Word;
    ghost var name := Name(img, pos);
    var size := NameLength(fname, name);
    assert fname[..size] == name;
    r := CopyName(fname, size, buf, at, nbytes);
    assert r > 0 ==> fname[..r] == name[..r];
    return r, pos + 1;
  }

  /** dir_read, the copying loop. */
  method CopyName(fname: seq<Byte>, size: int, buf: array<Byte>, at: int, nbytes: int) returns (bytesRead: int)
    requires 0 <= size < |fname| && 0 <= at && at + nbytes <= buf.Length
    modifies buf
    ensures bytesRead == if nbytes <= 0 then nbytes else Min(size, nbytes)
    ensures bytesRead > 0 ==> buf[at..at + bytesRead] == fname[..bytesRead]
    ensures forall k :: 0 <= k < buf.Length && !(at <= k < at + nbytes) ==> buf[k] == old(buf[k])
  {
    var j := 0;
    bytesRead := nbytes;
    while j < bytesRead
      invariant 0 <= j && bytesRead == nbytes && j <= Max(0, nbytes) && (j > 0 ==> j < size)
      invariant forall k :: at <= k < at + j ==> buf[k] == fname[k - at]
      invariant forall k :: 0 <= k < buf.Length && !(at <= k < at + nbytes) ==> buf[k] == old(buf[k])
      decreases nbytes - j
    {
      buf[at + j] := fname[j];
      j := j + 1;
      if j >= size {
        bytesRead := size;
        break;
      }
    }
  }

  method NameLength(fname: seq<Byte>, ghost name: seq<Byte>) returns (len: int)
    requires NulFree(name) && name <= fname && |name| < |fname|
    requires forall i :: |name| <= i < |fname| ==> fname[i] == NUL
    ensures len == |name|
  {
    len := 0;
    while fname[len] != NUL
      invariant 0 <= len <= |name|
      decreases |name| - len
    {
      len := len + 1;
    }
  }
}
