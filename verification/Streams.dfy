/** What programs see of their descriptors over whole runs: reads compose, and cat copies a file exactly. */
module Streams {
  import opened Bytes
  import opened FileSystem
  import opened Directory
  import opened Descriptors

  datatype Call = OpenCall(name: seq<Byte>) | ReadCall(fd: int, nbytes: int) | CloseCall(fd: int)

  /** A descriptor array and, for each descriptor, the bytes its reads have returned since it was opened. */
  datatype Log = Log(fds: seq<FileDesc>, got: seq<seq<Byte>>)

  ghost predicate ValidLog(img: seq<Byte>, l: Log) {
    SoundDirectory(img) && SoundTable(img, l.fds) && |l.got| == FD_COUNT
  }

  /** The bytes a read puts in the buffer: the file's next ones, or the next name. */
  function Delivered(img: seq<Byte>, fds: seq<FileDesc>, fd: int, nbytes: int): seq<Byte>
    requires WellFormed(img) && |fds| == FD_COUNT
    requires 0 <= fd < FD_COUNT && fds[fd].table == FileTable ==> 0 <= fds[fd].pos && ValidInode(img, fds[fd].inode)
    requires 0 <= fd < FD_COUNT && fds[fd].table == DirectoryTable ==> 0 <= fds[fd].pos
  {
    var count := AfterRead(img, fds, fd, nbytes).count;
    if count <= 0 then []
    else if fds[fd].table == FileTable then Contents(img, fds[fd].inode)[fds[fd].pos..fds[fd].pos + count]
    else Name(img, fds[fd].pos)[..count]
  }

  ghost function After(img: seq<Byte>, l: Log, c: Call): (r: Log)
    requires ValidLog(img, l)
    ensures |r.fds| == |r.got| == FD_COUNT
  {
    match c
    case OpenCall(name) =>
      var o := AfterOpen(img, l.fds, name);
      Log(o.fds, if o.fd < 0 then l.got else l.got[o.fd := []])
    case ReadCall(fd, nbytes) =>
      var text := Delivered(img, l.fds, fd, nbytes);
      Log(AfterRead(img, l.fds, fd, nbytes).fds, if text == [] then l.got else l.got[fd := l.got[fd] + text])
    case CloseCall(fd) => Log(AfterClose(l.fds, fd).fds, l.got)
  }

  ghost predicate AllValid(calls: seq<Call>) {
    forall c :: c in calls && c.OpenCall? ==> NulFree(c.name)
  }

  ghost function AfterAll(img: seq<Byte>, l: Log, calls: seq<Call>): (r: Log)
    requires ValidLog(img, l) && AllValid(calls)
    ensures ValidLog(img, r)
  {
    if calls == [] then l else
    var before := AfterAll(img, l, calls[..|calls| - 1]);
    StepIsValid(img, before, calls[|calls| - 1]);
    After(img, before, calls[|calls| - 1])
  }

  lemma StepIsValid(img: seq<Byte>, l: Log, c: Call)
    requires ValidLog(img, l) && (c.OpenCall? ==> NulFree(c.name))
    ensures ValidLog(img, After(img, l, c))
  {
    match c
    case OpenCall(name) => OpenIsSound(img, l.fds, name);
    case ReadCall(fd, nbytes) => ReadIsSound(img, l.fds, fd, nbytes);
    case CloseCall(fd) =>
  }

  /** On every open regular file the bytes returned so far are the file up to its position. */
  ghost predicate Prefixes(img: seq<Byte>, l: Log)
    requires ValidLog(img, l)
  {
    forall i :: 0 <= i < FD_COUNT && l.fds[i].table == FileTable ==>
      l.got[i] == Contents(img, l.fds[i].inode)[..l.fds[i].pos]
  }

  /** Over any interleaving of opens, reads and closes, reads on a file concatenate to a prefix of it. */
  lemma {:induction false} ReadsCompose(img: seq<Byte>, l: Log, calls: seq<Call>)
    requires ValidLog(img, l) && AllValid(calls) && Prefixes(img, l)
    ensures Prefixes(img, AfterAll(img, l, calls))
  {
    if calls != [] {
      var before := AfterAll(img, l, calls[..|calls| - 1]);
      ReadsCompose(img, l, calls[..|calls| - 1]);
      StepKeepsPrefixes(img, before, calls[|calls| - 1]);
    }
  }

  lemma StepKeepsPrefixes(img: seq<Byte>, l: Log, c: Call)
    requires ValidLog(img, l) && Prefixes(img, l) && (c.OpenCall? ==> NulFree(c.name))
    ensures ValidLog(img, After(img, l, c)) && Prefixes(img, After(img, l, c))
  {
    hide Contents, ByName, Name;
    StepIsValid(img, l, c);
    var r := After(img, l, c);
    forall i | 0 <= i < FD_COUNT && r.fds[i].table == FileTable
      ensures r.got[i] == Contents(img, r.fds[i].inode)[..r.fds[i].pos]
    {
      if c.ReadCall? && i == c.fd {
        var o := AfterRead(img, l.fds, c.fd, c.nbytes);
        var file := Contents(img, l.fds[i].inode);
        if o.count > 0 {
          assert file[..l.fds[i].pos] + file[l.fds[i].pos..l.fds[i].pos + o.count] == file[..l.fds[i].pos + o.count];
        }
      }
    }
  }

  /** A read that asks for something and gets nothing has reached the end: the whole file has been returned. */
  lemma EndMeansWholeFile(img: seq<Byte>, l: Log, fd: int, nbytes: int)
    requires ValidLog(img, l) && Prefixes(img, l)
    requires FD_START <= fd < FD_COUNT && l.fds[fd].inUse && l.fds[fd].table == FileTable
    requires nbytes != 0 && -TWO_31 <= nbytes < TWO_31
    ensures AfterRead(img, l.fds, fd, nbytes).count == 0 <==> l.got[fd] == Contents(img, l.fds[fd].inode)
  {
    assert |l.got[fd]| == l.fds[fd].pos;
    assert U32(nbytes) > 0;
  }

  /** A call touches at most one descriptor; an open takes the lowest free one of 2 to 7. */
  lemma OthersUntouched(img: seq<Byte>, l: Log, c: Call, i: int)
    requires ValidLog(img, l) && 0 <= i < FD_COUNT
    requires match c
             case OpenCall(name) => i != AfterOpen(img, l.fds, name).fd
             case ReadCall(fd, _) => i != fd
             case CloseCall(fd) => i != fd
    ensures After(img, l, c).fds[i] == l.fds[i] && After(img, l, c).got[i] == l.got[i]
    ensures c.OpenCall? && AfterOpen(img, l.fds, c.name).fd >= 0 && FD_START <= i < AfterOpen(img, l.fds, c.name).fd
            ==> l.fds[i].inUse
  {
    hide ByName, Contents;
  }

  // ---------------------------------------------------------------- listing a directory

  /** n reads of 32 bytes, the size of a whole name. */
  function Reads(fd: int, n: nat): (calls: seq<Call>)
    ensures |calls| == n
  {
    seq(n, _ => ReadCall(fd, 32))
  }

  /** The first n names run together. */
  function FirstNames(img: seq<Byte>, n: nat): seq<Byte>
    requires WellFormed(img) && n <= LAST_INDEX + 1
  {
    if n == 0 then [] else FirstNames(img, n - 1) + Name(img, n - 1)
  }

  /** The n-th read of a freshly opened directory returns the whole n-th name, and from its end on nothing. */
  lemma {:induction false} ListedInOrder(img: seq<Byte>, l: Log, fd: int, n: nat)
    requires ValidLog(img, l) && FD_START <= fd < FD_COUNT && l.fds[fd].inUse && l.fds[fd].table == DirectoryTable
    requires l.fds[fd].pos == 0 && l.got[fd] == []
    ensures var r, size := AfterAll(img, l, Reads(fd, n)), Min(Entries(img), 63);
            && r.fds[fd] == l.fds[fd].(pos := Min(n, size)) && r.got[fd] == FirstNames(img, Min(n, size))
            && AfterRead(img, r.fds, fd, NAME_SIZE).count == if n < size then |Name(img, n)| else 0
  {
    hide Name, Word, SoundTable, SoundEntry, WellTyped, After, FirstNames, AfterRead;
    if n > 0 {
      var before := AfterAll(img, l, Reads(fd, n - 1));
      ListedInOrder(img, l, fd, n - 1);
      assert Reads(fd, n)[..n - 1] == Reads(fd, n - 1);
      ListedStep(img, before, fd);
    } else {
      NoNames(img);
    }
    ListedNext(img, AfterAll(img, l, Reads(fd, n)), fd);
  }

  lemma NoNames(img: seq<Byte>)
    requires WellFormed(img)
    ensures FirstNames(img, 0) == []
  {
  }

  lemma ListedNext(img: seq<Byte>, l: Log, fd: int)
    requires ValidLog(img, l) && FD_START <= fd < FD_COUNT && l.fds[fd].inUse && l.fds[fd].table == DirectoryTable
    ensures l.fds[fd].pos >= 0
    ensures var k, size := l.fds[fd].pos, Min(Entries(img), LAST_INDEX + 1);
            AfterRead(img, l.fds, fd, NAME_SIZE).count == if k < size then |Name(img, k)| else 0
  {
    hide Word, UpToNul;
  }

  lemma ListedStep(img: seq<Byte>, l: Log, fd: int)
    requires ValidLog(img, l) && FD_START <= fd < FD_COUNT && l.fds[fd].inUse && l.fds[fd].table == DirectoryTable
    requires 0 <= l.fds[fd].pos <= Min(Entries(img), LAST_INDEX + 1)
    requires l.got[fd] == FirstNames(img, l.fds[fd].pos)
    ensures var r, k := After(img, l, ReadCall(fd, NAME_SIZE)), l.fds[fd].pos;
            var next := if k < Min(Entries(img), LAST_INDEX + 1) then k + 1 else k;
            r.fds[fd] == l.fds[fd].(pos := next) && r.got[fd] == FirstNames(img, next)
  {
    hide Name, Word;
  }

  // ---------------------------------------------------------------- from names to bytes

  lemma {:induction false} AllAfterFirst(img: seq<Byte>, l: Log, c: Call, calls: seq<Call>)
    requires ValidLog(img, l) && AllValid([c] + calls) && ValidLog(img, After(img, l, c))
    ensures AfterAll(img, l, [c] + calls) == AfterAll(img, After(img, l, c), calls)
  {
    hide After;
    var all := [c] + calls;
    if calls == [] {
      assert all[..|all| - 1] == [] && all[|all| - 1] == c;
    } else {
      assert all[..|all| - 1] == [c] + calls[..|calls| - 1];
      AllAfterFirst(img, l, c, calls[..|calls| - 1]);
    }
  }

  /** Opening "." and reading it n times gives the first n names of the directory. */
  lemma DirectoryIsListed(img: seq<Byte>, l: Log, n: nat)
    requires ValidLog(img, l) && HasFree(l.fds) && Name(img, 0) == ['.' as int]
    ensures var fd := AfterOpen(img, l.fds, ['.' as int]).fd;
            && 2 <= fd <= 7 && AllValid([OpenCall(['.' as int])] + Reads(fd, n))
            && AfterAll(img, l, [OpenCall(['.' as int])] + Reads(fd, n)).got[fd]
               == FirstNames(img, Min(n, Min(Entries(img), 63)))
  {
    hide Word, Name, WellTyped, SoundDesc, SoundEntry, FirstNames;
    FoundItself(img);
    FreeIsFound(l.fds);
    var c := OpenCall(['.' as int]);
    var fd := AfterOpen(img, l.fds, ['.' as int]).fd;
    StepIsValid(img, l, c);
    AllAfterFirst(img, l, c, Reads(fd, n));
    ListedInOrder(img, After(img, l, c), fd, n);
  }

  /** Reads of any sizes, one after another. */
  function SizedReads(fd: int, sizes: seq<nat>): (calls: seq<Call>)
    ensures |calls| == |sizes|
  {
    seq(|sizes|, i requires 0 <= i < |sizes| => ReadCall(fd, sizes[i]))
  }

  function Sum(sizes: seq<nat>): nat {
    if sizes == [] then 0 else Sum(sizes[..|sizes| - 1]) + sizes[|sizes| - 1]
  }

  /** Opening a regular file and reading it in any portions gives as many of its bytes as were asked for. */
  lemma FileIsRead(img: seq<Byte>, l: Log, name: seq<Byte>, file: seq<Byte>, sizes: seq<nat>)
    requires ValidLog(img, l) && HasFree(l.fds) && OnDisk(img, name, file)
    requires forall i :: 0 <= i < |sizes| ==> sizes[i] < 0x8000_0000
    ensures var fd := AfterOpen(img, l.fds, name).fd;
            && 2 <= fd <= 7 && AllValid([OpenCall(name)] + SizedReads(fd, sizes))
            && AfterAll(img, l, [OpenCall(name)] + SizedReads(fd, sizes)).got[fd] == file[..Min(Sum(sizes), |file|)]
  {
    hide Word, Name, WellTyped, SoundDesc, SoundEntry, Contents, OnDisk, HasFree;
    OnDiskIsFound(img, name, file);
    FreeIsFound(l.fds);
    var c := OpenCall(name);
    var fd := AfterOpen(img, l.fds, name).fd;
    StepIsValid(img, l, c);
    AllAfterFirst(img, l, c, SizedReads(fd, sizes));
    PortionsRead(img, After(img, l, c), fd, file, sizes);
  }

  lemma {:induction false} PortionsRead(img: seq<Byte>, l: Log, fd: int, file: seq<Byte>, sizes: seq<nat>)
    requires ValidLog(img, l) && 2 <= fd <= 7 && ReadsFile(img, l.fds[fd], file)
    requires l.fds[fd].pos == 0 && l.got[fd] == [] && forall i :: 0 <= i < |sizes| ==> sizes[i] < 0x8000_0000
    ensures var r := AfterAll(img, l, SizedReads(fd, sizes));
            && ReadsFile(img, r.fds[fd], file) && r.fds[fd].pos == Min(Sum(sizes), |file|)
            && r.got[fd] == file[..r.fds[fd].pos]
  {
    hide After, ReadsFile, SoundTable;
    if sizes != [] {
      var n := |sizes| - 1;
      PortionsRead(img, l, fd, file, sizes[..n]);
      assert SizedReads(fd, sizes)[..n] == SizedReads(fd, sizes[..n]);
      PortionRead(img, AfterAll(img, l, SizedReads(fd, sizes[..n])), fd, file, sizes[n]);
    }
  }

  ghost predicate ReadsFile(img: seq<Byte>, d: FileDesc, file: seq<Byte>)
    requires WellFormed(img)
  {
    d.inUse && d.table == FileTable && ValidInode(img, d.inode) && Contents(img, d.inode) == file
  }

  lemma PortionRead(img: seq<Byte>, l: Log, fd: int, file: seq<Byte>, size: nat)
    requires ValidLog(img, l) && 2 <= fd <= 7 && ReadsFile(img, l.fds[fd], file) && size < 0x8000_0000
    requires 0 <= l.fds[fd].pos <= |file| && l.got[fd] == file[..l.fds[fd].pos]
    ensures var r := After(img, l, ReadCall(fd, size));
            && ReadsFile(img, r.fds[fd], file) && r.fds[fd].pos == Min(l.fds[fd].pos + size, |file|)
            && r.got[fd] == file[..r.fds[fd].pos]
  {
    hide Contents, Word;
    var pos := l.fds[fd].pos;
    var next := Min(pos + size, |file|);
    assert file[..pos] + file[pos..next] == file[..next];
  }

  /** A device's name gives a descriptor that reads nothing. */
  lemma DeviceGivesNothing(img: seq<Byte>, fds: seq<FileDesc>, k: int, name: seq<Byte>, inode: int, nbytes: int)
    requires SoundDirectory(img) && SoundTable(img, fds) && HasFree(fds) && Name(img, 0) == ['.' as int]
    requires EntryLaid(img, k, name, 0, inode) && k > 0 && name != [] && name != ['.' as int]
    requires forall j :: 1 <= j < k ==> Name(img, j) != name
    ensures var o := AfterOpen(img, fds, name);
            2 <= o.fd <= 7 && SoundTable(img, o.fds) && AfterRead(img, o.fds, o.fd, nbytes) == ReadResult(0, o.fds)
  {
    hide Word, Name, WellTyped, SoundEntry, WellFormed, EntryLaid;
    LaidFields(img, k, name, 0, inode);
    FoundAsLaid(img, k, name, 0, inode);
    FreeIsFound(fds);
    OpenIsSound(img, fds, name);
  }

  // ---------------------------------------------------------------- running calls

  const NOTHING: seq<seq<Byte>> := [[], [], [], [], [], [], [], []]

  /** Calls a program can make: names are C strings, counts 32-bit; standard input is the terminal's. */
  predicate Callable(c: Call) {
    match c
    case OpenCall(name) => NulFree(name)
    case ReadCall(fd, nbytes) => fd != 0 && -TWO_31 <= nbytes < TWO_31
    case CloseCall(_) => true
  }

  /** One call, with the bytes a read leaves in its buffer added to what the descriptor gave before. */
  method MakeCall(p: Process, c: Call, got: seq<seq<Byte>>) returns (now: seq<seq<Byte>>)
    requires p.Valid() && Callable(c) && |got| == FD_COUNT
    modifies p.fds
    ensures p.Valid() && Log(p.fds[..], now) == After(p.img, Log(old(p.fds[..]), got), c)
  {
    hide Contents, Name, ByName;
    now := got;
    match c
    case OpenCall(name) =>
      var fd := p.Open(name);
      if fd >= 0 {
        now := got[fd := []];
      }
    case ReadCall(fd, nbytes) =>
      now := MakeRead(p, fd, nbytes, got);
    case CloseCall(fd) =>
      var status := p.Close(fd);
  }

  lemma FilledPart(file: seq<Byte>, offset: int, was: seq<Byte>, now: seq<Byte>, n: int)
    requires 0 <= offset && 0 <= n <= |was| == |now| && offset + n <= |file| && Filled(file, offset, was, now, 0, n)
    ensures now[..n] == file[offset..offset + n]
  {
  }

  method MakeRead(p: Process, fd: int, nbytes: int, got: seq<seq<Byte>>) returns (now: seq<seq<Byte>>)
    requires p.Valid() && Callable(ReadCall(fd, nbytes)) && |got| == FD_COUNT
    modifies p.fds
    ensures p.Valid() && Log(p.fds[..], now) == After(p.img, Log(old(p.fds[..]), got), ReadCall(fd, nbytes))
  {
    hide Contents, Name, ByName, Filled;
    now := got;
    var room := Max(Max(0, nbytes), AfterRead(p.img, p.fds[..], fd, nbytes).count);
    var buf := new Byte[room];
    ghost var was, d := buf[..], if 0 <= fd < FD_COUNT then p.fds[fd] else CLOSED;
    var count := p.Read(fd, buf, 0, nbytes);
    if count > 0 {
      if d.table == FileTable {
        FilledPart(Contents(p.img, d.inode), d.pos, was, buf[..], count);
      } else {
        assert buf[..count] == buf[0..0 + count] == Name(p.img, d.pos)[..count];
      }
      now := got[fd := got[fd] + buf[..count]];
    }
  }

  /** Any calls at all: what the buffers held, descriptor by descriptor, is what the log says. */
  method MakeCalls(p: Process, calls: seq<Call>) returns (got: seq<seq<Byte>>)
    requires p.Valid() && forall c :: c in calls ==> Callable(c)
    modifies p.fds
    ensures p.Valid() && AllValid(calls) && Log(p.fds[..], got) == AfterAll(p.img, Log(old(p.fds[..]), NOTHING), calls)
  {
    hide SoundDirectory, SoundTable, After;
    got := NOTHING;
    var i := 0;
    assert calls[..0] == [];
    while i < |calls|
      invariant 0 <= i <= |calls| && p.Valid() && |got| == FD_COUNT && AllValid(calls[..i])
      invariant Log(p.fds[..], got) == AfterAll(p.img, Log(old(p.fds[..]), NOTHING), calls[..i])
    {
      got := MakeCall(p, calls[i], got);
      assert calls[..i + 1][..i] == calls[..i];
      i := i + 1;
    }
    assert calls[..i] == calls;
  }

  // ---------------------------------------------------------------- cat

  /** Directory entries' names run together, up to the end or the first empty one. */
  function Names(img: seq<Byte>, k: int): seq<Byte>
    requires WellFormed(img) && 0 <= k
    decreases LAST_INDEX + 1 - k
  {
    if k >= Min(Entries(img), LAST_INDEX + 1) || Name(img, k) == [] then [] else Name(img, k) + Names(img, k + 1)
  }

  /** A directory without empty names is listed whole. */
  lemma {:induction false} AllNames(img: seq<Byte>, k: nat)
    requires WellFormed(img) && k <= Min(Entries(img), 63)
    requires forall i :: 0 <= i < Min(Entries(img), 63) ==> Name(img, i) != []
    ensures FirstNames(img, k) + Names(img, k) == FirstNames(img, Min(Entries(img), 63))
    decreases LAST_INDEX + 1 - k
  {
    hide Name, Word;
    if k < Min(Entries(img), 63) {
      AllNames(img, k + 1);
      Regroup(FirstNames(img, k), Name(img, k), Names(img, k + 1));
    }
  }

  /** Everything an open descriptor has left to give. */
  ghost function Rest(img: seq<Byte>, d: FileDesc): seq<Byte>
    requires WellFormed(img) && SoundDesc(img, d)
  {
    match d.table
    case FileTable => Contents(img, d.inode)[d.pos..]
    case DirectoryTable => Names(img, d.pos)
    case _ => []
  }

  ghost function Left(img: seq<Byte>, d: FileDesc): (n: nat)
    requires WellFormed(img) && SoundDesc(img, d)
  {
    match d.table
    case FileTable => Max(0, FileSize(img, d.inode) - d.pos)
    case DirectoryTable => Max(0, Min(Entries(img), LAST_INDEX + 1) - d.pos)
    case _ => 0
  }

  const CAT_BUFFER := 1024

  /** One read of cat's loop takes the next bytes off what is left. */
  method ReadChunk(p: Process, fd: int, buf: array<Byte>) returns (cnt: int)
    requires p.Valid() && FD_START <= fd < FD_COUNT && p.fds[fd].inUse && buf.Length == CAT_BUFFER
    modifies p.fds, buf
    ensures p.Valid() && p.fds[fd].inUse && 0 <= cnt <= CAT_BUFFER
    ensures old(Rest(p.img, p.fds[fd])) == if cnt == 0 then [] else buf[..cnt] + Rest(p.img, p.fds[fd])
    ensures Left(p.img, p.fds[fd]) <= old(Left(p.img, p.fds[fd]))
    ensures cnt > 0 ==> Left(p.img, p.fds[fd]) < old(Left(p.img, p.fds[fd]))
  {
    hide Contents, Name;
    ghost var d := p.fds[fd];
    assert SoundDesc(p.img, d);
    ghost var was := buf[..];
    cnt := p.Read(fd, buf, 0, CAT_BUFFER);
    if d.table == FileTable {
      ghost var file := Contents(p.img, d.inode);
      assert file[d.pos..] == file[d.pos..d.pos + cnt] + file[d.pos + cnt..];
      if cnt > 0 {
        assert buf[..cnt] == file[d.pos..d.pos + cnt];
      }
    } else if d.table == DirectoryTable && cnt > 0 {
      assert buf[..cnt] == buf[0..0 + cnt] == Name(p.img, d.pos);
    }
  }

  /** cat, given its argument: the status and everything written to the terminal. */
  method Cat(p: Process, name: seq<Byte>) returns (status: int, out: seq<Byte>)
    requires p.Valid() && NulFree(name)
    modifies p.fds
    ensures p.Valid()
    ensures var o := AfterOpen(p.img, old(p.fds[..]), name);
            if o.fd == -1 then status == 2 && out == Text("file not found\n")
            else status == 0 && SoundTable(p.img, o.fds) && out == Rest(p.img, o.fds[o.fd])
    ensures var o := AfterOpen(p.img, old(p.fds[..]), name);
            o.fd != -1 && o.fds[o.fd].table == FileTable ==>
              SoundTable(p.img, o.fds) && out == Contents(p.img, o.fds[o.fd].inode)
    ensures Name(p.img, 0) == ['.' as int] && name == ['.' as int] && old(HasFree(p.fds[..])) ==>
              status == 0 && out == Names(p.img, 0)
    ensures forall file :: OnDisk(p.img, name, file) && old(HasFree(p.fds[..])) ==> status == 0 && out == file
  {
    hide Rest, AfterOpen, Left, HasFree, OnDisk;
    CatGives(p.img, p.fds[..], name);
    out := [];
    OpenIsSound(p.img, p.fds[..], name);
    OpenedInUse(p.img, p.fds[..], name);
    var fd := p.Open(name);
    if fd == -1 {
      return 2, Text("file not found\n");
    }
    out := CopyOut(p, fd);
    return 0, out;
  }

  /** The read and write loop of cat. */
  method CopyOut(p: Process, fd: int) returns (out: seq<Byte>)
    requires p.Valid() && FD_START <= fd < FD_COUNT && p.fds[fd].inUse
    modifies p.fds
    ensures p.Valid() && out == old(Rest(p.img, p.fds[fd]))
  {
    hide Rest, Left, SoundDesc, SoundEntry, WellTyped, WellFormed;
    ghost var all := Rest(p.img, p.fds[fd]);
    out := [];
    assert out + all == all;
    var buf := new Byte[CAT_BUFFER];
    var cnt := ReadChunk(p, fd, buf);
    ghost var rest := Rest(p.img, p.fds[fd]);
    while cnt != 0
      invariant p.Valid() && p.fds[fd].inUse && 0 <= cnt <= CAT_BUFFER && rest == Rest(p.img, p.fds[fd])
      invariant all == out + if cnt == 0 then [] else buf[..cnt] + rest
      decreases Left(p.img, p.fds[fd]), cnt
    {
      Regroup(out, buf[..cnt], rest);
      out := out + buf[..cnt];
      cnt := ReadChunk(p, fd, buf);
      rest := Rest(p.img, p.fds[fd]);
    }
    assert out + [] == out;
  }

  lemma Regroup(a: seq<Byte>, b: seq<Byte>, c: seq<Byte>)
    ensures a + (b + c) == a + b + c
  {
  }

  /** What a newly opened descriptor has to give: the directory's names or the file's bytes. */
  lemma CatGives(img: seq<Byte>, fds: seq<FileDesc>, name: seq<Byte>)
    requires SoundDirectory(img) && SoundTable(img, fds) && NulFree(name)
    ensures var o := AfterOpen(img, fds, name);
            && (o.fd != -1 && o.fds[o.fd].table == FileTable ==>
                  SoundTable(img, o.fds) && Rest(img, o.fds[o.fd]) == Contents(img, o.fds[o.fd].inode))
            && (HasFree(fds) && Name(img, 0) == ['.' as int] && name == ['.' as int] ==>
                  o.fd != -1 && SoundTable(img, o.fds) && Rest(img, o.fds[o.fd]) == Names(img, 0))
            && forall file :: HasFree(fds) && OnDisk(img, name, file) ==>
                 o.fd != -1 && SoundTable(img, o.fds) && Rest(img, o.fds[o.fd]) == file
  {
    hide Word, Name, WellTyped, SoundEntry, OnDisk, HasFree;
    OpenIsSound(img, fds, name);
    FreeIsFound(fds);
    if Name(img, 0) == ['.' as int] {
      FoundItself(img);
    }
    forall file | HasFree(fds) && OnDisk(img, name, file)
      ensures var o := AfterOpen(img, fds, name);
              o.fd != -1 && SoundTable(img, o.fds) && Rest(img, o.fds[o.fd]) == file
    {
      OnDiskIsFound(img, name, file);
    }
  }

  lemma OpenedInUse(img: seq<Byte>, fds: seq<FileDesc>, name: seq<Byte>)
    requires WellFormed(img) && |fds| == FD_COUNT
    ensures var o := AfterOpen(img, fds, name);
            o.fd == -1 || (FD_START <= o.fd < FD_COUNT && o.fds[o.fd].inUse && o.fds[o.fd].pos == 0)
  {
    hide ByName;
  }
}
