/** A process's file descriptors: open, read and close on the read-only filesystem. */
module Descriptors {
  import opened Bytes
  import opened FileSystem
  import opened Directory

  const FD_START := 2
  const FD_END := 7
  const FD_COUNT := 8
  const REGULAR := 2

  /** Which operations table a descriptor points at. */
  datatype Table = NoTable | RtcTable | DirectoryTable | FileTable | StdinTable | StdoutTable

  datatype FileDesc = FileDesc(table: Table, inode: int, pos: int, inUse: bool, fileType: int)

  const CLOSED := FileDesc(NoTable, 0, 0, false, 0)

  /** The entries lookup can return all have a type the kernel knows, and regular ones a sound inode. */
  ghost predicate SoundDirectory(img: seq<Byte>) {
    && WellFormed(img) && WellTyped(img)
    && forall k :: 1 <= k <= LAST_INDEX ==> SoundEntry(img, k)
  }

  ghost predicate SoundEntry(img: seq<Byte>, k: int)
    requires WellFormed(img) && 1 <= k <= LAST_INDEX
  {
    EntryType(img, k) == REGULAR && Name(img, k) != [] ==>
      EntryInode(img, k) < NUM_INODES && ValidInode(img, EntryInode(img, k))
  }

  /** A descriptor the kernel could have made. */
  ghost predicate SoundDesc(img: seq<Byte>, d: FileDesc)
    requires WellFormed(img)
  {
    && d.pos >= 0
    && (d.inUse ==> d.table != NoTable)
    && (d.table == FileTable ==>
          d.fileType == REGULAR && 0 <= d.inode <= NUM_INODES && ValidInode(img, d.inode)
          && d.pos <= FileSize(img, d.inode))
  }

  ghost predicate SoundTable(img: seq<Byte>, fds: seq<FileDesc>)
    requires WellFormed(img)
  {
    |fds| == FD_COUNT && forall i :: 0 <= i < FD_COUNT ==> SoundDesc(img, fds[i])
  }

  // ---------------------------------------------------------------- what the calls mean

  /** The lowest free slot from i up, or one past the last. */
  function FirstFree(fds: seq<FileDesc>, i: int): (r: int)
    requires |fds| == FD_COUNT && FD_START <= i <= FD_COUNT
    ensures i <= r <= FD_COUNT
    ensures r < FD_COUNT ==> !fds[r].inUse
    ensures forall k :: i <= k < r ==> fds[k].inUse
    decreases FD_COUNT - i
  {
    if i == FD_COUNT || !fds[i].inUse then i else FirstFree(fds, i + 1)
  }

  function TableFor(fileType: int): Table {
    if fileType == 0 then RtcTable else if fileType == 1 then DirectoryTable else FileTable
  }

  datatype OpenResult = OpenResult(fd: int, fds: seq<FileDesc>)

  function AfterOpen(img: seq<Byte>, fds: seq<FileDesc>, name: seq<Byte>): (r: OpenResult)
    requires WellFormed(img) && |fds| == FD_COUNT
    ensures |r.fds| == FD_COUNT
  {
    var slot := FirstFree(fds, FD_START);
    if name == [] || ByName(img, name) == NotFound || slot == FD_COUNT then OpenResult(-1, fds) else
    var e := ByName(img, name).entry;
    if e.fileType !in {0, 1, 2} then OpenResult(-1, fds)
    else OpenResult(slot, fds[slot := FileDesc(TableFor(e.fileType), e.inode, 0, true, e.fileType)])
  }

  datatype ReadResult = ReadResult(count: int, fds: seq<FileDesc>)

  /** How many bytes a read gives, and the position it leaves. Device and standard-input reads are left out. */
  function AfterRead(img: seq<Byte>, fds: seq<FileDesc>, fd: int, nbytes: int): (r: ReadResult)
    requires WellFormed(img) && |fds| == FD_COUNT
    requires 0 <= fd < FD_COUNT && fds[fd].table == FileTable ==> 0 <= fds[fd].pos && ValidInode(img, fds[fd].inode)
    requires 0 <= fd < FD_COUNT && fds[fd].table == DirectoryTable ==> 0 <= fds[fd].pos
    ensures |r.fds| == FD_COUNT
  {
    if fd < 0 || fd > FD_END || fd == 1 || !fds[fd].inUse then ReadResult(-1, fds)
    else if fds[fd].table == FileTable then
      var left := FileSize(img, fds[fd].inode) - fds[fd].pos;
      var count := if nbytes == 0 || left <= 0 then 0 else Min(U32(nbytes), left);
      ReadResult(count, fds[fd := fds[fd].(pos := fds[fd].pos + count)])
    else if fds[fd].table == DirectoryTable then
      ReadResult(ListCount(img, fds[fd].pos, nbytes),
                 fds[fd := fds[fd].(pos := if fds[fd].pos < Min(Entries(img), LAST_INDEX + 1) then fds[fd].pos + 1
                                           else fds[fd].pos)])
    else ReadResult(0, fds)
  }

  datatype CloseResult = CloseResult(status: int, fds: seq<FileDesc>)

  function AfterClose(fds: seq<FileDesc>, fd: int): (r: CloseResult)
    requires |fds| == FD_COUNT
    ensures |r.fds| == FD_COUNT
  {
    if fd < FD_START || fd > FD_END || !fds[fd].inUse || fds[fd].table == NoTable then CloseResult(-1, fds)
    else CloseResult(0, fds[fd := CLOSED])
  }

  // ---------------------------------------------------------------- the calls

  class Process {
    const img: seq<Byte>
    const fds: array<FileDesc>

    ghost predicate Valid()
      reads fds
    {
      SoundDirectory(img) && fds.Length == FD_COUNT && SoundTable(img, fds[..])
    }

    /** set_up_stdin, set_up_stdout and the closing of the rest, on a fresh descriptor array. */
    constructor (img: seq<Byte>)
      requires SoundDirectory(img)
      ensures Valid() && fresh(fds) && this.img == img
      ensures fds[0].table == StdinTable && fds[1].table == StdoutTable
      ensures forall i :: FD_START <= i < FD_COUNT ==> !fds[i].inUse
    {
      this.img := img;
      fds := new FileDesc[FD_COUNT](i => CLOSED);
      new;
      fds[0] := FileDesc(StdinTable, -1, 0, true, 0);
      fds[1] := FileDesc(StdoutTable, -1, 0, true, 0);
    }

    method Open(name: seq<Byte>) returns (fd: int)
      requires Valid() && NulFree(name)
      modifies fds
      ensures Valid()
      ensures OpenResult(fd, fds[..]) == AfterOpen(img, old(fds[..]), name)
    {
      OpenIsSound(img, fds[..], name);
      if name == [] {
        return -1;
      }
      var d := ReadDentryByName(img, name);
      if d == NotFound {
        return -1;
      }
      fd := HandleOpen(d.entry.fileType, d.entry.inode);
    }

    /** fd_array_handle_open. */
    method HandleOpen(fileType: int, inode: int) returns (fd: int)
      requires fds.Length == FD_COUNT
      modifies fds
      ensures var slot := FirstFree(old(fds[..]), FD_START);
              if fileType !in {0, 1, 2} || slot == FD_COUNT then fd == -1 && fds[..] == old(fds[..])
              else fd == slot && fds[..] == old(fds[..])[slot := FileDesc(TableFor(fileType), inode, 0, true, fileType)]
      ensures fd >= 0 ==> 2 <= fd <= 7 && match fds[fd].table
                                          case RtcTable => fileType == 0
                                          case DirectoryTable => fileType == 1
                                          case FileTable => fileType == 2
                                          case _ => false
    {
      if fileType != 0 && fileType != 1 && fileType != 2 {
        return -1;
      }
      var i := FD_START;
      while i < FD_COUNT
        invariant FD_START <= i <= FD_COUNT
        invariant FirstFree(fds[..], FD_START) == FirstFree(fds[..], i)
      {
        if !fds[i].inUse {
          break;
        }
        i := i + 1;
      }
      if i >= FD_COUNT {
        return -1;
      }
      var table := NoTable;
      if fileType == 0 {
        table := RtcTable;
      } else if fileType == 1 {
        table := DirectoryTable;
      } else if fileType == 2 {
        table := FileTable;
      }
      fds[i] := FileDesc(table, inode, 0, true, fileType);
      return i;
    }

    /** What the caller's buffer owes a read: the bytes it will get, and for a directory all it asked for. */
    ghost predicate Room(fd: int, buf: array<Byte>, at: int, nbytes: int)
      requires Valid()
      reads fds
    {
      && 0 <= at && at + AfterRead(img, fds[..], fd, nbytes).count <= buf.Length
      && (0 <= fd < FD_COUNT && fds[fd].table == DirectoryTable ==> at + nbytes <= buf.Length)
    }

    /** read, on every descriptor but standard input. */
    method Read(fd: int, buf: array<Byte>, at: int, nbytes: int) returns (r: int)
      requires Valid() && fd != 0 && Room(fd, buf, at, nbytes) && -TWO_31 <= nbytes < TWO_31
      modifies fds, buf
      ensures Valid()
      ensures ReadResult(r, fds[..]) == AfterRead(img, old(fds[..]), fd, nbytes)
      ensures r > 0 && old(fds[fd].table) == FileTable ==>
                Filled(Contents(img, old(fds[fd].inode)), old(fds[fd].pos), old(buf[..]), buf[..], at, r)
      ensures r > 0 && old(fds[fd].table) == DirectoryTable ==>
                buf[at..at + r] == Name(img, old(fds[fd].pos))[..r]
      ensures r <= 0 && (0 <= fd < FD_COUNT ==> old(fds[fd].table) != DirectoryTable) ==> buf[..] == old(buf[..])
    {
      hide Filled, Contents, Name, Entries;
      if fd < 0 || fd > FD_END {
        return -1;
      }
      if fd == 1 {
        return -1;
      }
      if !fds[fd].inUse {
        return -1;
      }
      ReadIsSound(img, fds[..], fd, nbytes);
      match fds[fd].table {
        case FileTable =>
          r := FsRead(fd, buf, at, nbytes);
        case DirectoryTable =>
          var pos;
          r, pos := DirRead(img, fds[fd].pos, buf, at, nbytes);
          fds[fd] := fds[fd].(pos := pos);
        case _ =>
          r := 0;
      }
    }

    /** fs_read. */
    method FsRead(fd: int, buf: array<Byte>, at: int, nbytes: int) returns (r: int)
      requires Valid() && FD_START <= fd < FD_COUNT && fds[fd].inUse && fds[fd].table == FileTable
      requires Room(fd, buf, at, nbytes) && -TWO_31 <= nbytes < TWO_31
      modifies fds, buf
      ensures ReadResult(r, fds[..]) == AfterRead(img, old(fds[..]), fd, nbytes)
      ensures r > 0 ==> Filled(Contents(img, old(fds[fd].inode)), old(fds[fd].pos), old(buf[..]), buf[..], at, r)
      ensures r <= 0 ==> buf[..] == old(buf[..])
    {
      hide Filled, Contents, Name, Entries;
      if nbytes == 0 {
        return 0;
      }
      if fds[fd].fileType != REGULAR {
        return -1;
      }
      var fileSize := FileSize(img, fds[fd].inode);
      if fds[fd].pos >= fileSize {
        return 0;
      }
      r := ReadData(img, fds[fd].inode, fds[fd].pos, buf, at, U32(nbytes));
      fds[fd] := fds[fd].(pos := fds[fd].pos + r);
    }

    method Close(fd: int) returns (r: int)
      requires Valid()
      modifies fds
      ensures Valid()
      ensures CloseResult(r, fds[..]) == AfterClose(old(fds[..]), fd)
    {
      if fd < FD_START || fd > FD_END {
        return -1;
      }
      if !fds[fd].inUse {
        return -1;
      }
      if fds[fd].table == NoTable {
        return -1;
      }
      fds[fd] := CLOSED;
      return 0;
    }
  }

  // ---------------------------------------------------------------- which descriptor, and onto what

  ghost predicate HasFree(fds: seq<FileDesc>)
    requires |fds| == FD_COUNT
  {
    exists i :: 2 <= i <= 7 && !fds[i].inUse
  }

  lemma FreeIsFound(fds: seq<FileDesc>)
    requires |fds| == FD_COUNT
    ensures HasFree(fds) <==> FirstFree(fds, FD_START) <= 7
  {
    var r := FirstFree(fds, FD_START);
    assert r <= 7 ==> !fds[r].inUse;
  }

  /** An open fails if and only if the name is empty or nobody's, or descriptors 2 to 7 are all in use. */
  lemma OpenFails(img: seq<Byte>, fds: seq<FileDesc>, name: seq<Byte>)
    requires SoundDirectory(img) && |fds| == FD_COUNT && NulFree(name) && Name(img, 0) == ['.' as int]
    ensures AfterOpen(img, fds, name).fd == -1 <==>
              name == [] || (forall k :: 0 <= k <= 62 ==> Name(img, k) != name) || !HasFree(fds)
  {
    hide Word, Name, UpToNul, WellTyped, WellFormed, HasFree;
    FreeIsFound(fds);
    if name != [] {
      OnlyExactNames(img, name);
      TypeKnown(img, name);
    }
  }

  lemma TypeKnown(img: seq<Byte>, name: seq<Byte>)
    requires SoundDirectory(img)
    ensures ByName(img, name).Found? ==> 0 <= ByName(img, name).entry.fileType <= 2
  {
    hide Word, Name, NamesDirectory, WellTyped;
    if ByName(img, name).Found? && !NamesDirectory(img, name) {
      TypeByte(img, FirstNamed(img, name, 1));
    }
  }

  lemma TypeByte(img: seq<Byte>, k: int)
    requires WellFormed(img) && WellTyped(img) && 1 <= k <= LAST_INDEX
    ensures 0 <= SignExtend(img[EntryAt(k) + NAME_SIZE]) <= 2
  {
    EntryBytes(img, k);
    assert EntryType(img, k) <= 2;
  }

  /** A regular file on the disk is opened as one, at its start. */
  lemma FileIsOpened(img: seq<Byte>, fds: seq<FileDesc>, name: seq<Byte>, file: seq<Byte>)
    requires OnDisk(img, name, file) && |fds| == FD_COUNT && HasFree(fds)
    ensures var o := AfterOpen(img, fds, name);
            2 <= o.fd <= 7 && o.fds[o.fd].inUse && o.fds[o.fd].table == FileTable && o.fds[o.fd].pos == 0
            && ValidInode(img, o.fds[o.fd].inode) && Contents(img, o.fds[o.fd].inode) == file
  {
    hide ByName, Contents, OnDisk, HasFree;
    OnDiskIsFound(img, name, file);
    FreeIsFound(fds);
  }

  /** A table after the same name has been opened n times. */
  function Opened(img: seq<Byte>, fds: seq<FileDesc>, name: seq<Byte>, n: nat): (r: seq<FileDesc>)
    requires WellFormed(img) && |fds| == FD_COUNT
    ensures |r| == FD_COUNT
  {
    if n == 0 then fds else AfterOpen(img, Opened(img, fds, name, n - 1), name).fds
  }

  /** A process with nothing open gets descriptors 2, 3 and so on up to 7, and then no more. */
  lemma {:induction false} SixOpens(img: seq<Byte>, fds: seq<FileDesc>, name: seq<Byte>, n: nat)
    requires WellFormed(img) && |fds| == FD_COUNT && forall i :: 2 <= i <= 7 ==> !fds[i].inUse
    requires name != [] && ByName(img, name).Found? && 0 <= ByName(img, name).entry.fileType <= 2
    ensures forall i :: 2 <= i <= 7 ==> (Opened(img, fds, name, n)[i].inUse <==> i < 2 + n)
    ensures AfterOpen(img, Opened(img, fds, name, n), name).fd == if n < 6 then 2 + n else -1
  {
    hide ByName, WellFormed, FirstFree;
    if n > 0 {
      SixOpens(img, fds, name, n - 1);
    }
    FirstFreeIs(Opened(img, fds, name, n), Min(2 + n, 8));
  }

  lemma FirstFreeIs(fds: seq<FileDesc>, r: int)
    requires |fds| == FD_COUNT && 2 <= r <= 8 && forall i :: 2 <= i < r ==> fds[i].inUse
    requires r < 8 ==> !fds[r].inUse
    ensures FirstFree(fds, FD_START) == r
  {
    var p := FirstFree(fds, FD_START);
    assert !(p < r) && !(r < p);
  }

  /** A close succeeds exactly on an open descriptor of 2 to 7, and the next open can have it. */
  lemma ClosedIsFree(img: seq<Byte>, fds: seq<FileDesc>, fd: int)
    requires WellFormed(img) && SoundTable(img, fds)
    ensures AfterClose(fds, fd).status == 0 <==> 2 <= fd <= 7 && fds[fd].inUse
    ensures AfterClose(fds, fd).status != 0 ==> AfterClose(fds, fd) == CloseResult(-1, fds)
    ensures AfterClose(fds, fd).status == 0 ==>
              FirstFree(AfterClose(fds, fd).fds, FD_START) == Min(fd, FirstFree(fds, FD_START))
  {
    hide WellFormed;
    if 2 <= fd <= 7 {
      assert SoundDesc(img, fds[fd]);
      if fds[fd].inUse {
        FirstFreeIs(AfterClose(fds, fd).fds, Min(fd, FirstFree(fds, FD_START)));
      }
    }
  }

  /** A read fails on what is no open descriptor and on standard output, and on nothing else. */
  lemma ReadFails(img: seq<Byte>, fds: seq<FileDesc>, fd: int, nbytes: int)
    requires WellFormed(img) && SoundTable(img, fds)
    ensures fd < 0 || fd > 7 || fd == 1 || !fds[fd].inUse ==> AfterRead(img, fds, fd, nbytes) == ReadResult(-1, fds)
    ensures 0 <= fd <= 7 && fd != 1 && fds[fd].inUse && nbytes >= 0 ==> AfterRead(img, fds, fd, nbytes).count >= 0
  {
  }

  /** Open keeps every descriptor sound. */
  lemma OpenIsSound(img: seq<Byte>, fds: seq<FileDesc>, name: seq<Byte>)
    requires SoundDirectory(img) && SoundTable(img, fds) && NulFree(name)
    ensures SoundTable(img, AfterOpen(img, fds, name).fds)
  {
    hide Word, Name, UpToNul, WellTyped;
    if name != [] && ByName(img, name).Found? && !NamesDirectory(img, name) {
      var k := FirstNamed(img, name, 1);
      assert SoundEntry(img, k);
      EntryBytes(img, k);
    }
  }

  /** Where type and inode are small, reading one signed byte of each gives the whole word. */
  lemma EntryBytes(img: seq<Byte>, k: int)
    requires WellFormed(img) && WellTyped(img) && 1 <= k <= LAST_INDEX
    ensures SignExtend(img[EntryAt(k) + NAME_SIZE]) == EntryType(img, k)
    ensures EntryInode(img, k) < 128 ==> SignExtend(img[EntryAt(k) + NAME_SIZE + 4]) == EntryInode(img, k)
  {
    assert EntryType(img, k) <= 2;
    InodeByte(img, k);
  }

  const TWO_31 := 0x8000_0000

  lemma ReadIsSound(img: seq<Byte>, fds: seq<FileDesc>, fd: int, nbytes: int)
    requires WellFormed(img) && SoundTable(img, fds)
    ensures SoundTable(img, AfterRead(img, fds, fd, nbytes).fds)
  {
  }
}
