/** The calls that make and remove files, on the mounted file system (file_system_calls.c, open_file in fs.c). */
module FileSystemCalls {
  import opened Storage
  import opened Superblock
  import opened Inodes
  import opened Writes
  import opened Ownership
  import opened FileSystem
  import opened Directories
  import opened Paths
  import opened OpenFiles
  import opened FileOps
  import opened FileTree
  import opened Tree
  import opened RootCopy

  /** What the uninitialised variables of a call hold: the inode of path_to_inode_id, the inode and the
      directory of the call itself, and the inode of create_inode_type. */
  datatype Stack = Stack(walk: Inode, local: Inode, dir: Dir, made: Inode)

  predicate UsableDir(sb: Super, d: Dir) {
    IsDir(d) && 0 < d.count <= MAX_FILES_IN_DIRECTORY && LinksInTable(sb, Links(d))
  }

  /** A file that the calls can work with: its block list can be gone through, and if it is a directory it
      can be read and its links lead into the inode table. */
  predicate UsableFile(s: Fs, f: Inode)
    requires BlockLen(s.sb) > 0
  {
    IsDeletable(s.sb, f) && (f.kind == DIRECTORY ==> IsReadableDir(s, f) && UsableDir(s.sb, DirOf(s, f)))
  }

  /** All files of the inode table are like that, and directories fit into inodes. */
  ghost predicate Navigable(s: Fs) {
    && Numbered(s) && InodeNum(s.sb) > 0 && FitsInode(s.sb, DIRECTORY_BYTES)
    && forall id: nat :: id < InodeNum(s.sb) ==> UsableFile(s, InodeAt(s, id))
  }

  /** What is left on the stack does not lead out of the disk. */
  predicate IsContained(s: Fs, stack: Stack)
    requires BlockLen(s.sb) > 0
  {
    DirInode(s, stack.walk) && UsableDir(s.sb, stack.dir) && UsableFile(s, stack.local)
  }

  /** The inode of the parent directory: with a path of one name it is never read. */
  function ParentInode(x: Mount, path: Path, stack: Stack): Inode
    requires BlockLen(x.fs.sb) > 0
  {
    if path == [] then stack.local
    else
      var id := PathId(x.fs, Links(x.root), stack.walk, path);
      if id < 0 then stack.local else InodeAt(x.fs, id)
  }

  /** The parent directory: the copy of the root for a path of one name. */
  function ParentDir(x: Mount, path: Path, stack: Stack): Dir
    requires BlockLen(x.fs.sb) > 0
  {
    var f := ParentInode(x, path, stack);
    if path == [] then x.root else if f.kind == DIRECTORY then DirOf(x.fs, f) else stack.dir
  }

  /** The path leads to a directory. */
  predicate HasParent(x: Mount, path: Path, stack: Stack)
    requires BlockLen(x.fs.sb) > 0
  {
    path == [] || (
      var id := PathId(x.fs, Links(x.root), stack.walk, path);
      id >= 0 && InodeAt(x.fs, id).kind == DIRECTORY)
  }

  lemma {:induction false} WalkInTable(s: Fs, links: seq<Link>, f: Inode, parts: seq<Name>)
    requires Navigable(s) && LinksInTable(s.sb, links) && DirInode(s, f) && parts != []
    ensures Walk(s, links, f, parts) < InodeNum(s.sb)
    decreases |parts|
  {
    var id := Find(links, parts[0]);
    FindInTable(s, links, parts[0]);
    var g := if id < 0 then f else InodeAt(s, id);
    if |parts| > 1 && g.kind == DIRECTORY {
      WalkInTable(s, Links(DirOf(s, g)), g, parts[1..]);
    }
  }

  lemma NavigableIsDirTree(s: Fs)
    requires Navigable(s)
    ensures DirTree(s)
  {
    forall id: nat | id < InodeNum(s.sb)
      ensures DirInode(s, InodeAt(s, id))
    {
      assert UsableFile(s, InodeAt(s, id));
    }
  }

  lemma InodeIsDeletable(s: Fs, id: nat)
    requires FsInv(s) && id < InodeNum(s.sb)
    ensures IsDeletable(s.sb, InodeAt(s, id))
  {
    var f := InodeAt(s, id);
    FsInvInode(s, id);
    DataStartIsSmall(s.sb, |s.disk|, BlockLen(s.sb));
    forall i | 0 <= i < f.owned
      ensures f.blocks[i] < MAX_NUMBER_OF_BLOCKS
    {
      assert InData(s.sb, f.blocks[i]);
      AllocRange(s.sb, f.blocks[i]);
    }
  }

  lemma ProperIsUsable(sb: Super, d: Dir, id: nat)
    requires IsDir(d) && ProperLinks(sb, Links(d), id)
    ensures UsableDir(sb, d)
  {
  }

  /** In every state that a run of clean calls reaches, the calls can be made. */
  lemma MountIsNavigable(x: Mount)
    requires MountInv(x)
    ensures Navigable(x.fs) && UsableDir(x.fs.sb, x.root)
  {
    ProperIsUsable(x.fs.sb, x.root, 0);
    TreeInvIsDirTree(x.fs);
    forall id: nat | id < InodeNum(x.fs.sb)
      ensures UsableFile(x.fs, InodeAt(x.fs, id))
    {
      FileIsUsable(x.fs, id);
    }
  }

  lemma FileIsUsable(s: Fs, id: nat)
    requires TreeInv(s) && id < InodeNum(s.sb)
    ensures UsableFile(s, InodeAt(s, id))
  {
    InodeIsDeletable(s, id);
    assert GoodDir(s, id);
    if InodeAt(s, id).kind == DIRECTORY {
      WithinIsReadable(s, id);
      ProperIsUsable(s.sb, DirOf(s, InodeAt(s, id)), id);
    }
  }

  lemma ParentIsUsable(x: Mount, path: Path, stack: Stack)
    requires Navigable(x.fs) && UsableDir(x.fs.sb, x.root) && IsContained(x.fs, stack)
    ensures UsableDir(x.fs.sb, ParentDir(x, path, stack)) && UsableFile(x.fs, ParentInode(x, path, stack))
  {
    if path != [] {
      WalkInTable(x.fs, Links(x.root), stack.walk, Parts(path));
    }
  }

  lemma VictimIsUsable(s: Fs, links: seq<Link>, name: Name, local: Inode)
    requires Navigable(s) && LinksInTable(s.sb, links) && UsableFile(s, local)
    ensures UsableFile(s, RmdirVictim(s, links, name, local))
  {
    FindInTable(s, links, name);
  }

  /** A parent that a path leads to is one whose links a clean call may use. */
  lemma ParentIsParent(x: Mount, path: Path, stack: Stack)
    requires Navigable(x.fs) && UsableDir(x.fs.sb, x.root) && IsContained(x.fs, stack) && HasParent(x, path, stack)
    ensures IsParent(x, Links(ParentDir(x, path, stack)))
  {
    if path != [] {
      var id := PathId(x.fs, Links(x.root), stack.walk, path);
      WalkInTable(x.fs, Links(x.root), stack.walk, Parts(path));
      assert DirectoryAt(x.fs, id, Links(ParentDir(x, path, stack)));
    }
  }

  /** sys_mkdir makes a directory: the path does not end in a slash, its parent is a directory, and
      create_file goes ahead. */
  predicate MkdirGoes(x: Mount, input: Path, stack: Stack)
    requires input != [] && BlockLen(x.fs.sb) > 0
  {
    && input[|input| - 1] != SLASH && HasParent(x, ParentPath(input), stack)
    && CanCreate(x.fs.sb, Links(ParentDir(x, ParentPath(input), stack)), Last(input))
  }

  /** The call made the directory of that name in the parent with those links. */
  predicate IsMkdir(call: Call, sb: Super, links: seq<Link>, name: Name, made: Inode) {
    && FreeInodeFrom(sb, 0) >= 0 && call.Mkdir? && call.links == links && call.name == name
    && call.w.inode == made.(id := FreeInodeFrom(sb, 0), kind := DIRECTORY, created := 1)
  }

  /** What the name leads to in the parent directory, or -1. */
  function Target(x: Mount, input: Path, stack: Stack): int
    requires BlockLen(x.fs.sb) > 0
  {
    Find(Links(ParentDir(x, ParentPath(input), stack)), Last(input))
  }

  /** What read_root_dir returns. */
  function RereadStatus(s: Fs): int
    requires BlockLen(s.sb) > 0
  {
    if IsReadableDir(s, InodeAt(s, 0)) then DISK_SUCCESS else DISK_FAILURE
  }

  /** What sys_rmdir deletes: with a name that is missing, whatever its inode variable holds. */
  function RmdirVictim(s: Fs, links: seq<Link>, name: Name, local: Inode): Inode
    requires BlockLen(s.sb) > 0
  {
    if Find(links, name) < 0 then local else InodeAt(s, Find(links, name))
  }

  /** sys_rmdir goes ahead: the inode is that of a directory with at most two links. */
  predicate IsEmptyDir(s: Fs, f: Inode) {
    f.kind == DIRECTORY && DirOf(s, f).count <= 2
  }

  /** What sys_rmdir deletes has no names but its dots, so that no file loses its last link with it. */
  lemma EmptyDirHoldsNothing(s: Fs, f: Inode, id: nat, parent: nat, name: Name)
    requires IsEmptyDir(s, f) && HasDots(Links(DirOf(s, f)), id, parent)
    ensures Find(Links(DirOf(s, f)), name) >= 0 ==> name == [46] || name == [46, 46]
  {
    FindNone(Links(DirOf(s, f)), name);
  }

  /** A file can be made if its name is new, the directory has at most eight links, and an inode is unmarked. */
  lemma CanCreateIff(sb: Super, links: seq<Link>, name: Name)
    ensures CanCreate(sb, links, name) <==>
              && (forall i :: 0 <= i < |links| ==> links[i].name != name) && |links| <= 8
              && exists id: nat :: id < InodeNum(sb) && !InodeMarked(sb, id)
  {
    FindNone(links, name);
    assert FreeInodeFrom(sb, 0) >= 0 ==> !InodeMarked(sb, FreeInodeFrom(sb, 0));
  }

  /** Opening a missing file makes it in three of the modes, if it can be made, and fails in the other two. */
  lemma WhoMakesFiles(sb: Super, links: seq<Link>, name: Name, mode: Mode)
    requires Find(links, name) < 0
    ensures MakesFile(sb, links, name, mode) <==>
              (mode == Write || mode == ReadWrite || mode == WriteGlobal) && |links| <= 8 && FreeInodeFrom(sb, 0) >= 0
    ensures OpenedInode(sb, links, name, mode) == if MakesFile(sb, links, name, mode) then FreeInodeFrom(sb, 0) else -1
  {
  }

  /** open_file makes a file that is missing when it is to be written. */
  predicate MakesFile(sb: Super, links: seq<Link>, name: Name, mode: Mode) {
    Find(links, name) < 0 && ForWriting(mode) && CanCreate(sb, links, name)
  }

  predicate ForWriting(mode: Mode) {
    mode == Mode.Write || mode == ReadWrite || mode == WriteGlobal
  }

  /** The inode that open_file passes to add_fd: -1 when the file could not be made. */
  function OpenedInode(sb: Super, links: seq<Link>, name: Name, mode: Mode): int {
    if MakesFile(sb, links, name, mode) then FreeInodeFrom(sb, 0) else Find(links, name)
  }

  /** From s to t open_file has made the file if it was missing, and has changed nothing otherwise. */
  ghost predicate FoundOrMade(s: Fs, t: Fs, links: seq<Link>, name: Name, mode: Mode, made: Inode, w: Making) {
    if MakesFile(s.sb, links, name, mode)
    then && FreeInodeFrom(s.sb, 0) >= 0 && FileMade(s, t, links, name, w)
         && w.inode == made.(id := FreeInodeFrom(s.sb, 0), kind := FILE, created := 1)
    else t == s
  }

  /** The file that open_file wants, and the links of its parent; none, if the path ends in a slash or the
      file is missing and not to be written. */
  datatype Wanted = NoFile | File(links: seq<Link>, id: int)

  function WantedFile(x: Mount, input: Path, mode: Mode, stack: Stack): Wanted
    requires input != [] && BlockLen(x.fs.sb) > 0
  {
    var links := Links(ParentDir(x, ParentPath(input), stack));
    var id := OpenedInode(x.fs.sb, links, Last(input), mode);
    if input[|input| - 1] == SLASH || (id < 0 && !ForWriting(mode)) then NoFile else File(links, id)
  }

  /** What sys_open returns: the descriptor, if the root directory could be read again and the process has
      room for one more open file. */
  function Granted(listed: int, reread: int, process: seq<int>): int {
    if listed >= 0 && reread >= 0 && |process| < MAX_OPEN_FILES then listed else -1
  }

  /** sys_open answers -1 also for a file that the kernel has listed as open: when the root cannot be read again,
      and when the process has ten files already. */
  lemma ListedButNotGranted(listed: int, s: Fs, process: seq<int>)
    requires BlockLen(s.sb) > 0 && listed >= 0
    ensures Granted(listed, RereadStatus(s), process) == -1 <==>
              InodeAt(s, 0).kind != DIRECTORY || !IsReadableDir(s, InodeAt(s, 0)) || |process| >= 10
    ensures Granted(listed, RereadStatus(s), process) in {-1, listed}
  {
  }

  /** What sys_open does, apart from making the file: the table of open files was es, and the copy of the
      root is read again only if that table took the file. */
  predicate OpenOutcome(wanted: Wanted, call: Call, sb: Super, name: Name, mode: Mode, made: Inode,
                        es: seq<Fd>, after: seq<Fd>, reread: int, process: seq<int>, fd: int) {
    match wanted
    case NoFile => call == Nothing && fd == -1 && after == es
    case File(links, id) =>
      && IsOpen(call, sb, links, name, mode, made, Opened(es, id) >= 0)
      && fd == Granted(Opened(es, id), reread, process) && after == AfterOpen(es, id, mode)
  }

  predicate IsOpen(call: Call, sb: Super, links: seq<Link>, name: Name, mode: Mode, made: Inode, listed: bool) {
    if MakesFile(sb, links, name, mode)
    then && call.Touch? && call.links == links && call.name == name && call.reread == listed
         && FreeInodeFrom(sb, 0) >= 0
         && call.w.inode == made.(id := FreeInodeFrom(sb, 0), kind := FILE, created := 1)
    else call == if listed then Refresh else Nothing
  }

  ghost function OpenCall(makes: bool, links: seq<Link>, name: Name, w: Making, listed: bool): Call {
    if makes then Touch(links, name, w, listed) else if listed then Refresh else Nothing
  }

  lemma OpenNext(x: Mount, y: Fs, z: Mount, links: seq<Link>, name: Name, mode: Mode, made: Inode, w: Making,
                 listed: bool)
    requires FoundOrMade(x.fs, y, links, name, mode, made, w) && z.fs == y && BlockLen(y.sb) > 0
    requires if listed then Refreshed(Mount(y, x.root), z) else z.root == x.root
    ensures var call := OpenCall(MakesFile(x.fs.sb, links, name, mode), links, name, w, listed);
            CallNext(x, call, z) && IsOpen(call, x.fs.sb, links, name, mode, made, listed)
  {
  }

  lemma RmdirNext(x: Mount, links: seq<Link>, name: Name, r: Removing, y: Mount)
    requires Unlinked(x.fs, y.fs, links, name, r) && y.root == x.root
    ensures CallNext(x, Rmdir(links, name, r), y)
  {
  }

  lemma LastIsName(input: Path)
    requires input != [] && input[|input| - 1] != SLASH
    ensures Last(input) != [] && SLASH !in Last(input)
  {
  }

  class Mounted {
    const fs: FileSystem
    var root: Dir
    const files: OpenFileTable

    ghost predicate Valid()
      reads this, fs.disk, fs.sb, files, files.open
    {
      fs.Valid() && files.Valid() && Navigable(fs.St()) && UsableDir(fs.St().sb, root)
    }

    ghost function View(): Mount
      requires fs.Valid()
      reads this, fs.disk, fs.sb
    {
      Mount(fs.St(), root)
    }

    constructor (fs: FileSystem, root: Dir)
      requires fs.Valid() && Navigable(fs.St()) && UsableDir(fs.St().sb, root)
      ensures Valid() && this.fs == fs && this.root == root
      ensures files.Entries() == [] && fresh(files) && fresh(files.open)
    {
      this.fs := fs;
      this.root := root;
      files := new OpenFileTable();
    }

    /** read_root_dir */
    method ReadRootDir() returns (status: int)
      requires fs.Valid() && Good(fs.St()) && InodeNum(fs.St().sb) > 0
      modifies this
      ensures Refreshed(old(View()), View()) && fs.St() == old(fs.St())
      ensures status == RereadStatus(fs.St())
    {
      TableIsOnDisk(fs.St(), 0);
      var f;
      status, f := fs.ReadInode(0);
      if status < 0 {
        return;
      }
      var d;
      status, d := ReadDir(fs, f);
      if status >= 0 {
        root := d;
      }
    }

    /** The start of every call: the parent directory, found through its path. */
    method FindParent(path: Path, stack: Stack) returns (found: int, read: int, f: Inode, d: Dir)
      requires Valid() && IsContained(fs.St(), stack)
      ensures f == ParentInode(View(), path, stack) && d == ParentDir(View(), path, stack)
      ensures (found >= 0 && read >= 0 <==> HasParent(View(), path, stack)) && UsableDir(fs.St().sb, d)
    {
      ghost var x := View();
      ParentIsUsable(x, path, stack);
      if path == [] {
        return 0, 0, stack.local, root;
      }
      NavigableIsDirTree(x.fs);
      WalkInTable(x.fs, Links(root), stack.walk, Parts(path));
      var id := PathToInodeId(fs, Links(root), path, stack.walk);
      if id >= 0 {
        TableIsOnDisk(x.fs, id);
      }
      found, f := fs.ReadInode(id);
      if found < 0 {
        f := stack.local;
      }
      read, d := ReadDir(fs, f);
      if read < 0 {
        d := stack.dir;
      }
    }

    /** path_to_inode_id of a file name in the parent directory, and the inode it leads to. */
    method FindFile(d: Dir, name: Name, stack: Stack) returns (id: int, status: int, f: Inode)
      requires Valid() && IsContained(fs.St(), stack) && UsableDir(fs.St().sb, d) && name != [] && SLASH !in name
      ensures id == Find(Links(d), name) && (status >= 0 <==> id >= 0) && (id >= 0 ==> f == InodeAt(fs.St(), id))
    {
      ghost var s := fs.St();
      NavigableIsDirTree(s);
      NameIsItsToken(name);
      FindInTable(s, Links(d), name);
      id := PathToInodeId(fs, Links(d), name, stack.walk);
      status, f := fs.ReadInode(id);
    }

    /** The end of sys_mkdir, once the parent directory is known. */
    method MakeDirectory(d: Dir, name: Name, made: Inode) returns (status: int, ghost call: Call)
      requires Valid() && UsableDir(fs.St().sb, d) && IsName(name)
      modifies this, fs.disk, fs.sb
      ensures Good(fs.St()) && CallNext(old(View()), call, View()) && (call.Mkdir? ==> status == RereadStatus(fs.St()))
      ensures if CanCreate(old(fs.St()).sb, Links(d), name) then IsMkdir(call, old(fs.St()).sb, Links(d), name, made)
              else call == Nothing && status == -1
    {
      ghost var x := View();
      var parent := new Directory.Copy(d);
      var dir := new Directory();
      ghost var w, v;
      status, w, v := CreateDirectory(fs, parent, name, dir, made, x.fs, Links(d));
      if status < 0 {
        return -1, Nothing;
      }
      call := Mkdir(Links(d), name, w, v);
      status := ReadRootDir();
    }

    /** sys_rm, once the parent directory is known. A file and a directory are removed alike. */
    method RemoveFromDirectory(d: Dir, name: Name, stack: Stack) returns (status: int, ghost call: Call)
      requires Valid() && UsableDir(fs.St().sb, d) && IsContained(fs.St(), stack) && name != [] && SLASH !in name
      modifies this, fs.disk, fs.sb
      ensures Good(fs.St()) && CallNext(old(View()), call, View()) && (call.Rm? ==> status == RereadStatus(fs.St()))
      ensures var s, id := old(fs.St()), Find(Links(d), name);
              if id >= 0 then call.Rm? && call.links == Links(d) && call.name == name && call.r.inode == InodeAt(s, id)
              else call == Nothing && status == -1
    {
      ghost var s := fs.St();
      var id, f;
      id, status, f := FindFile(d, name, stack);
      if status < 0 {
        return -1, Nothing;
      }
      FindInTable(s, Links(d), name);
      var dir := new Directory.Copy(d);
      ghost var r;
      status, r := RemoveFile(fs, dir, name, f, s, Links(d));
      if status < 0 {
        return -1, Nothing;
      }
      call := Rm(Links(d), name, r);
      status := ReadRootDir();
    }

    /** The end of sys_rmdir. */
    method RemoveAnyway(d: Dir, name: Name, f: Inode) returns (status: int, ghost call: Call)
      requires Valid() && UsableDir(fs.St().sb, d) && IsDeletable(fs.St().sb, f)
      modifies fs.disk, fs.sb
      ensures CallNext(old(View()), call, View()) && status == 0
      ensures call.Rmdir? && call.links == Links(d) && call.name == name && call.r.inode == f
    {
      ghost var s, x := fs.St(), View();
      var dir := new Directory.Copy(d);
      ghost var r;
      status, r := RemoveDirectory(fs, dir, name, f, s, Links(d));
      RmdirNext(x, Links(d), name, r, View());
      call := Rmdir(Links(d), name, r);
    }

    /** sys_rmdir, once the parent directory is known; local is what the inode variable holds. */
    method RemoveEmptyDirectory(d: Dir, name: Name, local: Inode, stack: Stack) returns (status: int, ghost call: Call)
      requires Valid() && UsableDir(fs.St().sb, d) && IsContained(fs.St(), stack) && name != [] && SLASH !in name
      requires UsableFile(fs.St(), local)
      modifies fs.disk, fs.sb
      ensures CallNext(old(View()), call, View())
      ensures var s := old(fs.St());
              var victim := RmdirVictim(s, Links(d), name, local);
              if IsEmptyDir(s, victim)
              then status == 0 && call.Rmdir? && call.links == Links(d) && call.name == name && call.r.inode == victim
              else call == Nothing && status == -1
    {
      var id, read, g := FindFile(d, name, stack);
      var f := if read < 0 then local else g;
      VictimIsUsable(fs.St(), Links(d), name, local);
      var e;
      read, e := ReadDir(fs, f);
      if read < 0 || e.count > 2 {
        return -1, Nothing;
      }
      status, call := RemoveAnyway(d, name, f);
    }

    /** open_file, once the parent directory is known: a file that is missing is made if it is to be written. */
    method FindOrMakeFile(d: Dir, name: Name, mode: Mode, stack: Stack) returns (id: int, ghost w: Making)
      requires Valid() && UsableDir(fs.St().sb, d) && IsContained(fs.St(), stack)
      requires IsName(name) && name != [] && SLASH !in name
      modifies fs.disk, fs.sb
      ensures Good(fs.St()) && InodeNum(fs.St().sb) == InodeNum(old(fs.St()).sb)
      ensures id == OpenedInode(old(fs.St()).sb, Links(d), name, mode)
      ensures FoundOrMade(old(fs.St()), fs.St(), Links(d), name, mode, stack.made, w)
    {
      ghost var s := fs.St();
      w := Making(s, stack.made, d, stack.made);
      var read, f;
      id, read, f := FindFile(d, name, stack);
      if id >= 0 || !ForWriting(mode) {
        return;
      }
      var dir := new Directory.Copy(d);
      id, w := CreateFile(fs, dir, name, FILE, stack.made, s, Links(d));
    }

    /** sys_mkdir. It ends without returning a value when all goes well. */
    method SysMkdir(input: Path, stack: Stack) returns (status: int, ghost call: Call)
      requires Valid() && input != [] && IsName(Last(input)) && IsContained(fs.St(), stack)
      modifies this, fs.disk, fs.sb
      ensures Good(fs.St()) && CallNext(old(View()), call, View()) && (call.Mkdir? ==> status == RereadStatus(fs.St()))
      ensures var x := old(View());
              if MkdirGoes(x, input, stack)
              then IsMkdir(call, x.fs.sb, Links(ParentDir(x, ParentPath(input), stack)), Last(input), stack.made)
              else call == Nothing && status == -1
    {
      call := Nothing;
      var name, path;
      status, name, path := ParseFilename(input);
      if status < 0 {
        return;
      }
      var found, read, _, d := FindParent(path, stack);
      if found < 0 || read < 0 {
        return -1, call;
      }
      status, call := MakeDirectory(d, name, stack.made);
    }

    /** sys_rm. Whether the path leads to a directory is not looked at. */
    method SysRm(input: Path, stack: Stack) returns (status: int, ghost call: Call)
      requires Valid() && input != [] && IsContained(fs.St(), stack)
      modifies this, fs.disk, fs.sb
      ensures Good(fs.St()) && CallNext(old(View()), call, View()) && (call.Rm? ==> status == RereadStatus(fs.St()))
      ensures var x := old(View());
              if input[|input| - 1] != SLASH && Target(x, input, stack) >= 0
              then && call.Rm? && call.links == Links(ParentDir(x, ParentPath(input), stack))
                   && call.name == Last(input)
                   && call.r.inode == InodeAt(x.fs, Target(x, input, stack))
              else call == Nothing && status == -1
    {
      call := Nothing;
      var name, path;
      status, name, path := ParseFilename(input);
      if status < 0 {
        return;
      }
      LastIsName(input);
      var _, _, _, d := FindParent(path, stack);
      status, call := RemoveFromDirectory(d, name, stack);
    }

    /** sys_rmdir. It returns before it would read the root directory again. */
    method SysRmdir(input: Path, stack: Stack) returns (status: int, ghost call: Call)
      requires Valid() && input != [] && IsContained(fs.St(), stack)
      modifies fs.disk, fs.sb
      ensures CallNext(old(View()), call, View())
      ensures var x := old(View());
              var links := Links(ParentDir(x, ParentPath(input), stack));
              var victim := if Target(x, input, stack) < 0 then ParentInode(x, ParentPath(input), stack)
                            else InodeAt(x.fs, Target(x, input, stack));
              if input[|input| - 1] != SLASH && victim.kind == DIRECTORY && DirOf(x.fs, victim).count <= 2
              then && status == 0 && call.Rmdir? && call.links == links && call.name == Last(input)
                   && call.r.inode == victim
              else call == Nothing && status == -1 && View() == x
    {
      call := Nothing;
      var name, path;
      status, name, path := ParseFilename(input);
      if status < 0 {
        return;
      }
      LastIsName(input);
      ParentIsUsable(View(), path, stack);
      var _, _, f, d := FindParent(path, stack);
      status, call := RemoveEmptyDirectory(d, name, f, stack);
    }

    /** open_file up to add_fd. */
    method FindWanted(input: Path, mode: Mode, stack: Stack) returns (status: int, id: int, ghost w: Making)
      requires Valid() && input != [] && IsName(Last(input)) && IsContained(fs.St(), stack)
      modifies fs.disk, fs.sb
      ensures Good(fs.St()) && InodeNum(fs.St().sb) == InodeNum(old(fs.St()).sb)
      ensures var wanted := WantedFile(old(View()), input, mode, stack);
              if wanted.NoFile? then status < 0 && fs.St() == old(fs.St())
              else && status >= 0 && id == wanted.id
                   && FoundOrMade(old(fs.St()), fs.St(), wanted.links, Last(input), mode, stack.made, w)
    {
      id, w := -1, Making(fs.St(), stack.made, root, stack.made);
      var name, path;
      status, name, path := ParseFilename(input);
      if status < 0 {
        return;
      }
      LastIsName(input);
      var _, _, _, d := FindParent(path, stack);
      id, w := FindOrMakeFile(d, name, mode, stack);
      if id < 0 && !ForWriting(mode) {
        status := -1;
      }
    }

    /** From add_fd to the end of sys_open: the table of open files, the root directory if the table took the
        file, and the table of the process. */
    method ListFile(id: int, mode: Mode, process: ProcessFiles) returns (listed: int, fd: int)
      requires fs.Valid() && Good(fs.St()) && InodeNum(fs.St().sb) > 0 && files.Valid() && process.Valid()
      modifies this, files, files.open, process, process.open
      ensures files.Valid() && process.Valid() && fs.St() == old(fs.St())
      ensures listed == Opened(old(files.Entries()), id) && files.Entries() == AfterOpen(old(files.Entries()), id, mode)
      ensures if listed >= 0 then Refreshed(old(View()), View()) else root == old(root)
      ensures fd == Granted(listed, RereadStatus(fs.St()), old(process.Entries()))
      ensures process.Entries() == if fd >= 0 then old(process.Entries()) + [fd] else old(process.Entries())
    {
      ghost var x := View();
      listed := files.AddFd(id, mode);
      assert View() == x;
      if listed < 0 {
        return listed, -1;
      }
      var status := ReadRootDir();
      if status < 0 {
        return listed, -1;
      }
      status := process.Add(listed);
      fd := if status < 0 then -1 else listed;
    }

    /** The same, for a file that open_file found or made since x. */
    method ListWanted(ghost x: Mount, ghost wanted: Wanted, ghost name: Name, ghost made: Inode, ghost w: Making,
                      id: int, mode: Mode, process: ProcessFiles)
      returns (fd: int, ghost call: Call)
      requires fs.Valid() && Good(fs.St()) && InodeNum(fs.St().sb) > 0 && files.Valid() && process.Valid()
      requires wanted.File? && wanted.id == id && root == x.root
      requires FoundOrMade(x.fs, fs.St(), wanted.links, name, mode, made, w)
      modifies this, files, files.open, process, process.open
      ensures Good(fs.St()) && files.Valid() && process.Valid() && CallNext(x, call, View())
      ensures OpenOutcome(wanted, call, x.fs.sb, name, mode, made, old(files.Entries()), files.Entries(),
                          RereadStatus(fs.St()), old(process.Entries()), fd)
      ensures process.Entries() == if fd >= 0 then old(process.Entries()) + [fd] else old(process.Entries())
    {
      ghost var y := fs.St();
      var listed;
      listed, fd := ListFile(id, mode, process);
      OpenNext(x, y, View(), wanted.links, name, mode, made, w, listed >= 0);
      call := OpenCall(MakesFile(x.fs.sb, wanted.links, name, mode), wanted.links, name, w, listed >= 0);
    }

    /** sys_open: only when the table of open files took the file the root directory is read again. */
    method SysOpen(input: Path, mode: Mode, stack: Stack, process: ProcessFiles) returns (fd: int, ghost call: Call)
      requires Valid() && input != [] && IsName(Last(input)) && IsContained(fs.St(), stack) && process.Valid()
      modifies this, fs.disk, fs.sb, files, files.open, process, process.open
      ensures Good(fs.St()) && files.Valid() && process.Valid() && CallNext(old(View()), call, View())
      ensures OpenOutcome(WantedFile(old(View()), input, mode, stack), call, old(fs.St()).sb, Last(input), mode,
                          stack.made, old(files.Entries()), files.Entries(), RereadStatus(fs.St()),
                          old(process.Entries()), fd)
      ensures process.Entries() == if fd >= 0 then old(process.Entries()) + [fd] else old(process.Entries())
    {
      ghost var x, wanted := View(), WantedFile(View(), input, mode, stack);
      ghost var es, was := files.Entries(), process.Entries();
      var status, id;
      ghost var w;
      status, id, w := FindWanted(input, mode, stack);
      if status < 0 {
        return -1, Nothing;
      }
      assert wanted.File?;
      assert files.Valid() && files.Entries() == es;
      assert process.Valid() && process.Entries() == was;
      fd, call := ListWanted(x, wanted, Last(input), stack.made, w, id, mode, process);
    }
  }
}
