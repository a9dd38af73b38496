/** Reading and writing open files (file_system_calls.c), and how long what was written can be read. */
module ReadWrite {
  import opened Words
  import opened Bitmap
  import opened Storage
  import opened Superblock
  import opened Inodes
  import opened Writes
  import opened Ownership
  import opened FsRuns
  import opened OpenFiles
  import opened FileAccess
  import opened Directories
  import opened FileOps
  import opened FileTree
  import opened Tree
  import opened RootCopy
  import opened LiveLinks
  import opened FileSystemCalls

  /** The inode behind a descriptor for a process with that table, or -1 if it may not use the file in this way. */
  function FileFor(es: seq<Fd>, table: seq<int>, fd: int, mode: Mode): int {
    if MayUse(Files(es, [table]), 0, fd, mode) then es[IdPosition(es, fd)].inode else -1
  }

  /** open_file lists no inode beyond the table. */
  predicate AllInTable(es: seq<Fd>, sb: Super) {
    forall i :: 0 <= i < |es| ==> es[i].inode < InodeNum(sb)
  }

  /** process_has_file_permission */
  method HasPermission(files: OpenFileTable, process: ProcessFiles, fd: int, mode: Mode) returns (r: int)
    requires files.Valid() && process.Valid()
    ensures r == if MayUse(Files(files.Entries(), [process.Entries()]), 0, fd, mode) then 1 else -1
  {
    var i := files.Position(fd);
    if i == files.count {
      return -1;
    }
    var flags := files.open[i].mode;
    if (mode == Read && flags == ReadGlobal) || (mode == Mode.Write && flags == WriteGlobal) {
      return 1;
    }
    if flags != ReadWrite && flags != mode {
      return -1;
    }
    r := process.IsOpen(fd);
  }

  /** The start of both calls: the permission and the inode. */
  method OpenInode(m: Mounted, process: ProcessFiles, fd: int, mode: Mode) returns (id: int, f: Inode)
    requires m.Valid() && process.Valid() && AllInTable(m.files.Entries(), m.fs.St().sb)
    ensures var wanted := FileFor(m.files.Entries(), process.Entries(), fd, mode);
            if wanted < 0 then id == -1 else id == wanted && f == InodeAt(m.fs.St(), id)
  {
    f := EmptyInode(0);
    var r := HasPermission(m.files, process, fd, mode);
    if r < 0 {
      return -1, f;
    }
    var i := m.files.Position(fd);
    id := m.files.open[i].inode;
    if id >= 0 {
      TableIsOnDisk(m.fs.St(), id);
    }
    var status;
    status, f := m.fs.ReadInode(id);
    if status < 0 {
      id := -1;
    }
  }

  /** sys_write. What goes to a device goes to the console that stdout and stderr are. */
  method SysWrite(m: Mounted, process: ProcessFiles, fd: int, x: seq<byte>, stdout: int, stderr: int)
    returns (status: int, ghost call: Call)
    requires m.Valid() && process.Valid() && AllInTable(m.files.Entries(), m.fs.St().sb) && |x| < 0x8000_0000
    modifies m.fs.disk, m.fs.sb
    ensures CallNext(old(m.View()), call, m.View())
    ensures var s, id := old(m.fs.St()), FileFor(m.files.Entries(), process.Entries(), fd, Mode.Write);
            if id >= 0 && InodeAt(s, id).kind == FILE && FitsInode(s.sb, |x|)
            then status == |x| && call == WriteFile(id, x)
            else call == Nothing && status ==
                   if id >= 0 && InodeAt(s, id).kind == DEVICE && (fd == stdout || fd == stderr) then |x| else -1
  {
    call := Nothing;
    ghost var s := m.fs.St();
    var id, f := OpenInode(m, process, fd, Mode.Write);
    if id < 0 {
      return -1, call;
    }
    if f.kind == DEVICE {
      return if fd == stdout || fd == stderr then |x| else -1, call;
    }
    if f.kind != FILE {
      return -1, call;
    }
    var written, g := m.fs.WriteToInode(f, x);
    if written < 0 {
      return -1, call;
    }
    status, call := |x|, WriteFile(id, x);
  }

  /** sys_read of n bytes. What comes from a device is left open. */
  method SysRead(m: Mounted, process: ProcessFiles, fd: int, n: nat, stdin: int) returns (status: int, data: seq<byte>)
    requires m.Valid() && process.Valid() && AllInTable(m.files.Entries(), m.fs.St().sb)
    ensures var s, id := m.fs.St(), FileFor(m.files.Entries(), process.Entries(), fd, Read);
            if id >= 0 && InodeAt(s, id).kind == FILE && FitsInode(s.sb, n) && Readable(s, InodeAt(s, id), n)
            then status == n && data == FileOf(s, id, n)
            else status == if id >= 0 && InodeAt(s, id).kind == DEVICE && fd == stdin then n else -1
  {
    data := [];
    var id, f := OpenInode(m, process, fd, Read);
    if id < 0 {
      return -1, data;
    }
    if f.kind == DEVICE {
      return if fd == stdin then n else -1, data;
    }
    if f.kind != FILE {
      return -1, data;
    }
    status, data := m.fs.ReadFromInode(f, n);
    status := if status < 0 then -1 else n;
  }

  /** sys_close. Who holds the descriptor is not looked at. */
  method SysClose(files: OpenFileTable, process: ProcessFiles, fd: int) returns (status: int)
    requires files.Valid() && process.Valid()
    modifies files, files.open, process, process.open
    ensures files.Valid() && process.Valid()
    ensures Files(files.Entries(), [process.Entries()])
            == After(Files(old(files.Entries()), [old(process.Entries())]), Use.SysClose(0, fd))
    ensures status == if (exists i :: 0 <= i < |old(files.Entries())| && old(files.Entries())[i].id == fd)
                         && fd in old(process.Entries()) then 0 else -1
  {
    ghost var es, table := files.Entries(), process.Entries();
    status := files.CloseFd(fd);
    if status < 0 {
      return;
    }
    assert es[IdPosition(es, fd)].id == fd;
    assert process.Entries() == table;
    ghost var rest := files.Entries();
    status := process.Remove(fd);
    assert files.Entries() == rest && [table][0 := AfterRemove(table, fd)] == [process.Entries()];
  }

  // ---- files between calls

  lemma LastingTwice(s: Fs, m: Fs, t: Fs, file: nat, n: nat)
    requires Lasting(s, m, file, n) && Lasting(m, t, file, n)
    ensures Lasting(s, t, file, n)
  {
  }

  lemma StoringKeepsFile(s: Fs, t: Fs, p: nat, d: Dir, g: Inode, file: nat, n: nat)
    requires FsInv(s) && DirStored(s, t, p, d, g) && DirHasRoom(s)
    requires file < InodeNum(s.sb) && file != p && Within(s, file, n)
    ensures Lasting(s, t, file, n) && Within(t, file, n)
  {
    DirReadsBack(s, t, p, d, g);
    StepFrame(s, FsStep.Write(p, DirBytes(d)), t, file, n);
  }

  lemma CreatingKeepsFile(s: Fs, m: Fs, f: Inode, file: nat, n: nat)
    requires FsInv(s) && Created(s, m, f) && f.owned == 0 && BlockLen(s.sb) > 0 && DirHasRoom(s)
    requires file < InodeNum(s.sb) && Markable(file) && InodeAt(s, file).kind != UNALLOCATED && Within(s, file, n)
    ensures Lasting(s, m, file, n) && Within(m, file, n) && DirHasRoom(m) && file != f.id
    ensures |FreeSet(m.sb)| == |FreeSet(s.sb)|
  {
    InodeMade(s, m, f);
    CreatedFrame(s, m, f, file, n);
  }

  lemma MakingKeepsFile(s: Fs, t: Fs, links: seq<Link>, name: Name, w: Making, file: nat, n: nat)
    requires FsInv(s) && FileMade(s, t, links, name, w) && w.inode.owned == 0 && DirHasRoom(s)
    requires file < InodeNum(s.sb) && Markable(file) && InodeAt(s, file).kind != UNALLOCATED && Within(s, file, n)
    requires file != links[0].id
    ensures Lasting(s, t, file, n) && Within(t, file, n) && file != w.inode.id
  {
    CreatingKeepsFile(s, w.mid, w.inode, file, n);
    StoringKeepsFile(w.mid, t, links[0].id, w.dir, w.out, file, n);
    LastingTwice(s, w.mid, t, file, n);
  }

  lemma MkdirKeepsFile(s: Fs, t: Fs, links: seq<Link>, name: Name, w: Making, v: Dotting, file: nat, n: nat)
    requires FsInv(s) && DirectoryMade(s, t, links, name, w, v) && w.inode.owned == 0 && BlockLen(s.sb) > 0
    requires 2 * DirBlocks(s.sb) <= |FreeSet(s.sb)|
    requires file < InodeNum(s.sb) && Markable(file) && InodeAt(s, file).kind != UNALLOCATED && Within(s, file, n)
    requires file != links[0].id
    ensures Lasting(s, t, file, n)
  {
    MakingKeepsFile(s, v.mid, links, name, w, file, n);
    assert DirHasRoom(v.mid) by {
      MakingSteps(s, v.mid, links, name, w, links[0].id, w.inode.id);
    }
    StoringKeepsFile(v.mid, t, w.inode.id, v.dir, v.out, file, n);
    LastingTwice(s, v.mid, t, file, n);
  }

  lemma UnlinkingKeepsFile(s: Fs, t: Fs, links: seq<Link>, name: Name, r: Removing, file: nat, n: nat)
    requires FsInv(s) && Unlinked(s, t, links, name, r) && DirHasRoom(s) && r.inode == InodeAt(s, r.inode.id)
    requires file < InodeNum(s.sb) && Within(s, file, n) && file != Home(links, name) && file != r.inode.id
    ensures Lasting(s, t, file, n)
  {
    StoringKeepsFile(s, r.mid, Home(links, name), r.dir, r.out, file, n);
    DeletedFrame(r.mid, t, r.inode, file, n);
    RemovedUnlinks(s, t, links, name, r, Home(links, name), r.inode.id);
  }

  /** The file is in use, has a place in the bitmap of inodes, and is no directory. */
  predicate IsPlainFile(s: Fs, file: nat)
    requires BlockLen(s.sb) > 0
  {
    file < InodeNum(s.sb) && Markable(file) && InodeAt(s, file).kind == FILE
  }

  /** The call writes the file or removes it. */
  predicate IsAbout(call: Call, file: nat) {
    match call
    case WriteFile(id, data) => id == file
    case Rm(links, name, r) => r.inode.id == file
    case Rmdir(links, name, r) => r.inode.id == file
    case _ => false
  }

  lemma HomeIsParent(x: Mount, links: seq<Link>, name: Name)
    requires MountInv(x) && IsParent(x, links) && name != DOT
    ensures links != [] && Home(links, name) == links[0].id && InodeAt(x.fs, links[0].id).kind == DIRECTORY
  {
    ParentIsDirectory(x, links);
    RemovedLinks(x.fs.sb, links, name, links[0].id);
  }

  lemma RemovalKeepsFile(x: Mount, links: seq<Link>, name: Name, r: Removing, t: Fs, file: nat, n: nat)
    requires MountInv(x) && IsParent(x, links) && name != DOT && Unlinked(x.fs, t, links, name, r)
    requires CleanVictim(x.fs, r.inode) && DirHasRoom(x.fs)
    requires IsPlainFile(x.fs, file) && Within(x.fs, file, n) && r.inode.id != file
    ensures Lasting(x.fs, t, file, n)
  {
    HomeIsParent(x, links, name);
    UnlinkingKeepsFile(x.fs, t, links, name, r, file, n);
  }

  lemma MkdirCallKeepsFile(x: Mount, links: seq<Link>, name: Name, w: Making, v: Dotting, t: Fs, file: nat, n: nat)
    requires MountInv(x) && IsParent(x, links) && DirectoryMade(x.fs, t, links, name, w, v)
    requires w.inode.owned == 0 && 2 * DirBlocks(x.fs.sb) <= |FreeSet(x.fs.sb)|
    requires IsPlainFile(x.fs, file) && Within(x.fs, file, n)
    ensures Lasting(x.fs, t, file, n)
  {
    ParentIsDirectory(x, links);
    MkdirKeepsFile(x.fs, t, links, name, w, v, file, n);
  }

  lemma TouchCallKeepsFile(x: Mount, links: seq<Link>, name: Name, w: Making, t: Fs, file: nat, n: nat)
    requires MountInv(x) && IsParent(x, links) && FileMade(x.fs, t, links, name, w)
    requires w.inode.owned == 0 && DirHasRoom(x.fs)
    requires IsPlainFile(x.fs, file) && Within(x.fs, file, n)
    ensures Lasting(x.fs, t, file, n)
  {
    ParentIsDirectory(x, links);
    MakingKeepsFile(x.fs, t, links, name, w, file, n);
  }

  lemma WriteCallKeepsFile(x: Mount, id: nat, data: seq<byte>, t: Fs, file: nat, n: nat)
    requires MountInv(x) && FsNext(x.fs, FsStep.Write(id, data), t) && HasRoom(x.fs, FsStep.Write(id, data))
    requires IsPlainFile(x.fs, file) && Within(x.fs, file, n) && id != file
    ensures Lasting(x.fs, t, file, n)
  {
    StepKeepsInv(x.fs, FsStep.Write(id, data), t);
    StepFrame(x.fs, FsStep.Write(id, data), t, file, n);
  }

  /** A clean call keeps the inode and the contents of every file that it does not write or remove. */
  lemma CallKeepsFile(x: Mount, call: Call, y: Mount, file: nat, n: nat)
    requires MountInv(x) && CallNext(x, call, y) && Clean(x, call) && !IsAbout(call, file)
    requires IsPlainFile(x.fs, file) && Within(x.fs, file, n)
    ensures Lasting(x.fs, y.fs, file, n) && IsPlainFile(y.fs, file) && Within(y.fs, file, n)
  {
    match call {
      case Nothing =>
      case Refresh =>
      case WriteFile(id, data) => WriteCallKeepsFile(x, id, data, y.fs, file, n);
      case Mkdir(links, name, w, v) => MkdirCallKeepsFile(x, links, name, w, v, y.fs, file, n);
      case Touch(links, name, w, reread) => TouchCallKeepsFile(x, links, name, w, y.fs, file, n);
      case Rm(links, name, r) => RemovalKeepsFile(x, links, name, r, y.fs, file, n);
      case Rmdir(links, name, r) => RemovalKeepsFile(x, links, name, r, y.fs, file, n);
    }
  }

  /** The file holds data, and a read of that length finds it. */
  ghost predicate CanBeRead(s: Fs, file: nat, data: seq<byte>)
    requires BlockLen(s.sb) > 0
  {
    && InodeAt(s, file).kind == FILE && InodeAt(s, file).size == |data|
    && FitsInode(s.sb, |data|) && Readable(s, InodeAt(s, file), |data|) && FileOf(s, file, |data|) == data
  }

  /** From x to y the file has been kept. */
  ghost predicate FileKept(x: Mount, y: Mount, file: nat, n: nat) {
    && MountInv(y) && Lasting(x.fs, y.fs, file, n) && IsPlainFile(y.fs, file) && Within(y.fs, file, n)
  }

  lemma StepKeepsFile(first: Mount, x: Mount, call: Call, y: Mount, file: nat, n: nat)
    requires MountStep(x, call, y) && !IsAbout(call, file) && FileKept(first, x, file, n)
    ensures FileKept(first, y, file, n)
  {
    CallKeepsMount(x, call, y);
    CallKeepsFile(x, call, y, file, n);
    LastingTwice(first.fs, x.fs, y.fs, file, n);
  }

  /** Over whole runs of calls a file that is neither written nor removed keeps its inode and its contents. */
  lemma {:induction false} FileLastsOverCalls(xs: seq<Mount>, calls: seq<Call>, file: nat, n: nat, i: nat)
    requires MountRun(xs, calls) && MountInv(xs[0]) && i <= |calls|
    requires IsPlainFile(xs[0].fs, file) && Within(xs[0].fs, file, n)
    requires forall j :: 0 <= j < i ==> !IsAbout(calls[j], file)
    ensures FileKept(xs[0], xs[i], file, n)
  {
    if i == 0 {
      KeptAtFirst(xs[0], file, n);
    } else {
      var j := i - 1;
      FileLastsOverCalls(xs, calls, file, n, j);
      RunStep(xs, calls, i);
      StepKeepsFile(xs[0], xs[j], calls[j], xs[i], file, n);
    }
  }

  lemma KeptAtFirst(x: Mount, file: nat, n: nat)
    requires MountInv(x) && IsPlainFile(x.fs, file) && Within(x.fs, file, n)
    ensures FileKept(x, x, file, n)
  {
  }

  lemma FileIsReadable(s: Fs, file: nat, n: nat)
    requires FsInv(s) && file < InodeNum(s.sb) && Within(s, file, n)
    ensures FitsInode(s.sb, n) && Readable(s, InodeAt(s, file), n)
  {
    var f := InodeAt(s, file);
    FsInvInode(s, file);
    WithinIsEnough(BlockLen(s.sb), n, f.owned);
    forall i | 0 <= i < f.owned
      ensures f.blocks[i] < |s.disk|
    {
      assert InData(s.sb, f.blocks[i]);
    }
  }

  lemma WriteHolds(s: Fs, file: nat, data: seq<byte>, t: Fs)
    requires FsInv(s) && FsNext(s, FsStep.Write(file, data), t) && HasRoom(s, FsStep.Write(file, data))
    requires IsPlainFile(s, file)
    ensures IsPlainFile(t, file) && Within(t, file, |data|)
    ensures FileOf(t, file, |data|) == data && InodeAt(t, file).size == |data|
  {
    var f, g := InodeAt(s, file), InodeAt(t, file);
    WriteThenRead(s, t, f, data, g);
    WrittenIsWithin(s, t, file, data);
    WroteReplaces(s, t, f, data, g);
  }

  /** What a call of sys_write has put into a file. */
  lemma WrittenCanBeRead(x: Mount, file: nat, data: seq<byte>, y: Mount)
    requires MountInv(x) && CallNext(x, WriteFile(file, data), y) && Clean(x, WriteFile(file, data))
    requires IsPlainFile(x.fs, file)
    ensures MountInv(y) && IsPlainFile(y.fs, file) && Within(y.fs, file, |data|)
    ensures FileOf(y.fs, file, |data|) == data && InodeAt(y.fs, file).size == |data|
  {
    assert MountInv(y) by {
      CallKeepsMount(x, WriteFile(file, data), y);
    }
    WriteHolds(x.fs, file, data, y.fs);
  }

  /** What was written to a file is what every read of that length finds after any run of clean calls that neither
      write nor remove this file, whatever they make and remove elsewhere. */
  lemma WrittenIsReadLater(x: Mount, file: nat, data: seq<byte>, xs: seq<Mount>, calls: seq<Call>)
    requires MountInv(x) && IsPlainFile(x.fs, file) && MountRun(xs, calls)
    requires CallNext(x, WriteFile(file, data), xs[0]) && Clean(x, WriteFile(file, data))
    requires forall j :: 0 <= j < |calls| ==> !IsAbout(calls[j], file)
    ensures MountInv(xs[|calls|]) && CanBeRead(xs[|calls|].fs, file, data)
  {
    WrittenCanBeRead(x, file, data, xs[0]);
    FileLastsOverCalls(xs, calls, file, |data|, |calls|);
    FileIsReadable(xs[|calls|].fs, file, |data|);
  }

  /** So a process that was allowed to read the file, and still is because nobody has closed its descriptor and it
      has closed nothing and not exited, reads with sys_read what another has written. */
  lemma ReaderFindsData(x: Mount, file: nat, data: seq<byte>, xs: seq<Mount>, calls: seq<Call>,
                        f: Files, us: seq<Use>, p: nat, fd: int)
    requires MountInv(x) && IsPlainFile(x.fs, file) && MountRun(xs, calls)
    requires CallNext(x, WriteFile(file, data), xs[0]) && Clean(x, WriteFile(file, data))
    requires forall j :: 0 <= j < |calls| ==> !IsAbout(calls[j], file)
    requires p < |f.tables| && FileFor(f.kernel, f.tables[p], fd, Read) == file
    requires forall i :: 0 <= i < |us| ==> us[i].p < |f.tables| && !EndsUse(us[i], p, fd)
    ensures var s, g := xs[|calls|].fs, Uses(f, us);
            && |g.tables| == |f.tables| && FileFor(g.kernel, g.tables[p], fd, Read) == file
            && MountInv(xs[|calls|]) && InodeAt(s, file).kind == FILE && FitsInode(s.sb, |data|)
            && Readable(s, InodeAt(s, file), |data|) && FileOf(s, file, |data|) == data
  {
    PermissionLasts(f, us, p, fd, Read);
    WrittenIsReadLater(x, file, data, xs, calls);
  }
}
