/** The copy of the root directory that the kernel keeps in memory, and how far it can be trusted. */
module RootCopy {
  import opened Words
  import opened Superblock
  import opened Inodes
  import opened Writes
  import opened Ownership
  import opened FsRuns
  import opened Directories
  import opened Paths
  import opened FileOps
  import opened FileTree
  import opened Tree

  /** The mounted file system and the copy that every path starts from. */
  datatype Mount = Mount(fs: Fs, root: Dir)

  /** The links of the root directory as it is on the disk. */
  function RootLinks(s: Fs): seq<Link>
    requires BlockLen(s.sb) > 0
  {
    Links(DirOf(s, InodeAt(s, 0)))
  }

  /** The tree is well kept and has a root, and the copy is that of some directory at inode 0. */
  ghost predicate MountInv(x: Mount) {
    && TreeInv(x.fs) && InodeNum(x.fs.sb) > 0 && InodeAt(x.fs, 0).kind == DIRECTORY
    && IsDir(x.root) && ProperLinks(x.fs.sb, Links(x.root), 0)
  }

  /** The copy is the root directory on the disk. */
  ghost predicate Coherent(x: Mount) {
    BlockLen(x.fs.sb) > 0 && InodeAt(x.fs, 0).kind == DIRECTORY && Links(x.root) == RootLinks(x.fs)
  }

  /** read_root_dir: from x to y the copy was read again, if the root is a directory. */
  ghost predicate Refreshed(x: Mount, y: Mount) {
    && BlockLen(y.fs.sb) > 0
    && y.root == if IsReadableDir(y.fs, InodeAt(y.fs, 0)) then DirOf(y.fs, InodeAt(y.fs, 0)) else x.root
  }

  /** What one call does to the file system. links are those of the directory that the call was about: the
      parent of the file. A call that fails early does nothing. */
  datatype Call =
    | Nothing
    | Refresh
    | WriteFile(id: nat, data: seq<byte>)
    | Mkdir(links: seq<Link>, name: Name, w: Making, v: Dotting)
    | Touch(links: seq<Link>, name: Name, w: Making, reread: bool)
    | Rm(links: seq<Link>, name: Name, r: Removing)
    | Rmdir(links: seq<Link>, name: Name, r: Removing)

  /** x becomes y. sys_mkdir, sys_rm and a successful sys_open end by reading the copy again; sys_rmdir
      returns before that, and so does sys_open when it made the file but found no place for it in the
      table of open files. */
  ghost predicate CallNext(x: Mount, call: Call, y: Mount) {
    match call
    case Nothing => y == x
    case Refresh => y.fs == x.fs && Refreshed(x, y)
    case WriteFile(id, data) => FsNext(x.fs, Write(id, data), y.fs) && y.root == x.root
    case Mkdir(links, name, w, v) =>
      CanCreate(x.fs.sb, links, name) && DirectoryMade(x.fs, y.fs, links, name, w, v) && Refreshed(x, y)
    case Touch(links, name, w, reread) =>
      && CanCreate(x.fs.sb, links, name) && FileMade(x.fs, y.fs, links, name, w) && w.inode.kind == FILE
      && (if reread then Refreshed(x, y) else y.root == x.root)
    case Rm(links, name, r) => Find(links, name) >= 0 && Unlinked(x.fs, y.fs, links, name, r) && Refreshed(x, y)
    case Rmdir(links, name, r) => Unlinked(x.fs, y.fs, links, name, r) && y.root == x.root
  }

  /** The links are those of a directory: of the copy, or of one on the disk. */
  ghost predicate IsParent(x: Mount, links: seq<Link>)
    requires BlockLen(x.fs.sb) > 0
  {
    links == Links(x.root) || exists id: nat :: DirectoryAt(x.fs, id, links)
  }

  ghost predicate DirectoryAt(s: Fs, id: nat, links: seq<Link>)
    requires BlockLen(s.sb) > 0
  {
    id < InodeNum(s.sb) && InodeAt(s, id).kind == DIRECTORY && links == Links(DirOf(s, InodeAt(s, id)))
  }

  /** What the caller can see to: there is room, a new inode starts without blocks, "." and the root are not
      removed, and what is removed is a file as it is on the disk. In the root rmdir is given a name that
      is there. */
  ghost predicate Clean(x: Mount, call: Call)
    requires BlockLen(x.fs.sb) > 0
  {
    match call
    case Nothing => true
    case Refresh => true
    case WriteFile(id, data) => HasRoom(x.fs, Write(id, data)) && InodeAt(x.fs, id).kind != DIRECTORY
    case Mkdir(links, name, w, v) =>
      IsParent(x, links) && w.inode.owned == 0 && 2 * DirBlocks(x.fs.sb) <= |FreeSet(x.fs.sb)|
    case Touch(links, name, w, reread) =>
      IsParent(x, links) && w.inode.owned == 0 && DirBlocks(x.fs.sb) <= |FreeSet(x.fs.sb)|
    case Rm(links, name, r) =>
      IsParent(x, links) && name != DOT && CleanVictim(x.fs, r.inode) && DirBlocks(x.fs.sb) <= |FreeSet(x.fs.sb)|
    case Rmdir(links, name, r) =>
      && IsParent(x, links) && name != DOT && CleanVictim(x.fs, r.inode) && DirBlocks(x.fs.sb) <= |FreeSet(x.fs.sb)|
      && (links != [] && Home(links, name) == 0 ==> Find(links, name) >= 0)
  }

  predicate CleanVictim(s: Fs, f: Inode)
    requires BlockLen(s.sb) > 0
  {
    f.id != 0 && f == InodeAt(s, f.id)
  }

  lemma ParentIsProper(x: Mount, links: seq<Link>)
    requires MountInv(x) && IsParent(x, links)
    ensures links != [] && ProperLinks(x.fs.sb, links, links[0].id)
  {
    if links != Links(x.root) {
      var id: nat :| DirectoryAt(x.fs, id, links);
      DirectoryIsProper(x.fs, id, links);
    }
  }

  lemma DirectoryIsProper(s: Fs, id: nat, links: seq<Link>)
    requires GoodDirs(s, -1) && DirectoryAt(s, id, links)
    ensures links != [] && links[0].id == id && ProperLinks(s.sb, links, id)
  {
    assert GoodDir(s, id);
  }

  // ---- the root directory on the disk

  /** The root directory on the disk is links, and its inode is a directory. */
  ghost predicate RootIs(s: Fs, links: seq<Link>) {
    BlockLen(s.sb) > 0 && InodeAt(s, 0).kind == DIRECTORY && RootLinks(s) == links
  }

  lemma RootIsKept(s: Fs, t: Fs, links: seq<Link>, c: nat)
    requires TreeInv(s) && RootIs(s, links) && OthersKept(s, t, c) && c != 0 && InodeNum(s.sb) > 0
    ensures RootIs(t, links)
  {
    assert GoodDir(s, 0) && DirKept(s, t, 0);
  }

  lemma NewInodeIsNotRoot(s: Fs, m: Fs, f: Inode)
    requires FsInv(s) && Created(s, m, f) && f.owned == 0 && InodeAt(s, 0).kind == DIRECTORY
    ensures f.id != 0
  {
    InodeMade(s, m, f);
  }

  lemma RootAfterWrite(m: Fs, t: Fs, links: seq<Link>, p: nat, d: Dir)
    requires RootIs(m, links) && Within(m, 0, DIRECTORY_BYTES) && InodeNum(m.sb) > 0
    requires OthersKept(m, t, p) && Holds(t, p, InodeAt(m, p).kind, d)
    ensures RootIs(t, if p == 0 then Links(d) else links)
  {
    assert p != 0 ==> DirKept(m, t, 0);
  }

  lemma RootAfterMaking(s: Fs, t: Fs, links: seq<Link>, name: Name, w: Making, root: seq<Link>, c: nat)
    requires TreeInv(s) && FileMade(s, t, links, name, w) && w.inode.owned == 0 && DirHasRoom(s)
    requires InodeNum(s.sb) > 0 && RootIs(s, root) && c == w.inode.id
    ensures c != 0 && RootIs(t, if links[0].id == 0 then links + [Link(c, name)] else root)
  {
    NewInodeIsNotRoot(s, w.mid, w.inode);
    MakingSteps(s, t, links, name, w, links[0].id, c);
    assert RootIs(w.mid, root) && Within(w.mid, 0, DIRECTORY_BYTES) by {
      assert DirKept(s, w.mid, 0) && GoodDir(s, 0);
    }
    RootAfterWrite(w.mid, t, root, links[0].id, w.dir);
  }

  lemma RootAfterRemoving(s: Fs, t: Fs, links: seq<Link>, name: Name, r: Removing, root: seq<Link>, q: nat, c: nat)
    requires TreeInv(s) && Unlinked(s, t, links, name, r) && DirHasRoom(s) && r.inode == InodeAt(s, c)
    requires InodeNum(s.sb) > 0 && RootIs(s, root) && q == Home(links, name) && c == r.inode.id != 0
    ensures RootIs(t, if q == 0 then Without(links, name) else root)
  {
    RemovedUnlinks(s, t, links, name, r, q, c);
    assert GoodDir(s, 0);
    assert q != 0 ==> DirKept(s, t, 0);
  }

  /** What a call makes of the root directory on the disk. */
  function NewRoot(call: Call, root: seq<Link>): seq<Link> {
    match call
    case Mkdir(links, name, w, v) =>
      if links != [] && links[0].id == 0 then links + [Link(w.inode.id, name)] else root
    case Touch(links, name, w, reread) =>
      if links != [] && links[0].id == 0 then links + [Link(w.inode.id, name)] else root
    case Rm(links, name, r) => if links != [] && Home(links, name) == 0 then Without(links, name) else root
    case Rmdir(links, name, r) => if links != [] && Home(links, name) == 0 then Without(links, name) else root
    case _ => root
  }

  /** After a call the tree is as it should be, and so is the root directory on the disk. */
  ghost predicate TreeAfter(x: Mount, call: Call, y: Mount) {
    && TreeInv(y.fs) && BlockLen(x.fs.sb) > 0 && InodeNum(y.fs.sb) == InodeNum(x.fs.sb)
    && RootIs(y.fs, NewRoot(call, RootLinks(x.fs)))
  }

  lemma MkdirCall(x: Mount, links: seq<Link>, name: Name, w: Making, v: Dotting, y: Mount)
    requires MountInv(x) && CallNext(x, Mkdir(links, name, w, v), y) && Clean(x, Mkdir(links, name, w, v))
    ensures TreeAfter(x, Mkdir(links, name, w, v), y)
  {
    ParentIsProper(x, links);
    DirectoryMadeKeepsTree(x.fs, y.fs, links, name, w, v, links[0].id);
    RootAfterMkdir(x.fs, y.fs, links, name, w, v, RootLinks(x.fs), w.inode.id);
  }

  lemma RootAfterMkdir(s: Fs, t: Fs, links: seq<Link>, name: Name, w: Making, v: Dotting, root: seq<Link>, c: nat)
    requires TreeInv(s) && DirectoryMade(s, t, links, name, w, v) && w.inode.owned == 0 && c == w.inode.id
    requires 2 * DirBlocks(s.sb) <= |FreeSet(s.sb)| && ProperLinks(s.sb, links, links[0].id)
    requires Find(links, name) < 0 && |links| + 1 < MAX_FILES_IN_DIRECTORY
    requires InodeNum(s.sb) > 0 && RootIs(s, root)
    ensures RootIs(t, if links[0].id == 0 then links + [Link(c, name)] else root)
  {
    FileMadeTree(s, v.mid, links, name, w, links[0].id, c);
    RootAfterMaking(s, v.mid, links, name, w, root, c);
    DottingSteps(s, t, links, name, w, v, links[0].id, c);
    assert DirKept(v.mid, t, 0) && GoodDir(v.mid, 0);
  }

  lemma TouchCall(x: Mount, links: seq<Link>, name: Name, w: Making, reread: bool, y: Mount)
    requires MountInv(x) && CallNext(x, Touch(links, name, w, reread), y) && Clean(x, Touch(links, name, w, reread))
    ensures TreeAfter(x, Touch(links, name, w, reread), y)
  {
    ParentIsProper(x, links);
    FileMadeKeepsTree(x.fs, y.fs, links, name, w, links[0].id);
    RootAfterMaking(x.fs, y.fs, links, name, w, RootLinks(x.fs), w.inode.id);
  }

  lemma RemovalNewRoot(call: Call, links: seq<Link>, name: Name, r: Removing, root: seq<Link>)
    requires call == Rm(links, name, r) || call == Rmdir(links, name, r)
    ensures NewRoot(call, root) == if links != [] && Home(links, name) == 0 then Without(links, name) else root
  {
  }

  lemma RemovingCall(x: Mount, links: seq<Link>, name: Name, r: Removing, y: Mount, call: Call)
    requires MountInv(x) && IsParent(x, links) && Unlinked(x.fs, y.fs, links, name, r) && name != DOT
    requires CleanVictim(x.fs, r.inode) && DirHasRoom(x.fs)
    requires call == Rm(links, name, r) || call == Rmdir(links, name, r)
    ensures TreeAfter(x, call, y)
  {
    assert TreeInv(y.fs) && SameLayout(x.fs.sb, y.fs.sb) by {
      ParentIsProper(x, links);
      UnlinkedKeepsTree(x.fs, y.fs, links, name, r, links[0].id);
    }
    var q, root := Home(links, name), RootLinks(x.fs);
    var root' := if q == 0 then Without(links, name) else root;
    RemovalNewRoot(call, links, name, r, root);
    assert RootIs(y.fs, root') by {
      RootAfterRemoving(x.fs, y.fs, links, name, r, root, q, r.inode.id);
    }
  }

  lemma WritingCall(x: Mount, id: nat, data: seq<byte>, y: Mount)
    requires MountInv(x) && CallNext(x, WriteFile(id, data), y) && Clean(x, WriteFile(id, data))
    ensures TreeAfter(x, WriteFile(id, data), y)
  {
    WrittenKeepsTree(x.fs, y.fs, id, data);
    StepKeepsOthers(x.fs, Write(id, data), y.fs);
    RootIsKept(x.fs, y.fs, RootLinks(x.fs), id);
  }

  lemma TreeAfterCall(x: Mount, call: Call, y: Mount)
    requires MountInv(x) && CallNext(x, call, y) && Clean(x, call)
    ensures TreeAfter(x, call, y)
  {
    match call {
      case Nothing =>
      case Refresh =>
      case WriteFile(id, data) => WritingCall(x, id, data, y);
      case Mkdir(links, name, w, v) => MkdirCall(x, links, name, w, v, y);
      case Touch(links, name, w, reread) => TouchCall(x, links, name, w, reread, y);
      case Rm(links, name, r) => RemovingCall(x, links, name, r, y, call);
      case Rmdir(links, name, r) => RemovingCall(x, links, name, r, y, call);
    }
  }

  /** The calls that end by reading the copy again. */
  predicate Refreshes(call: Call) {
    call.Refresh? || call.Mkdir? || call.Rm? || (call.Touch? && call.reread)
  }

  /** The calls that change the root directory on the disk and leave the copy as it is. */
  predicate Forgets(call: Call) {
    match call
    case Touch(links, name, w, reread) => !reread && links != [] && links[0].id == 0
    case Rmdir(links, name, r) => links != [] && Home(links, name) == 0
    case _ => false
  }

  lemma WhoRefreshes(x: Mount, call: Call, y: Mount)
    requires CallNext(x, call, y) && BlockLen(x.fs.sb) > 0 && Clean(x, call)
    ensures if Refreshes(call) then Refreshed(x, y) else y.root == x.root
    ensures call.Rmdir? && Forgets(call) ==> Find(call.links, call.name) >= 0
  {
  }

  /** Reading the root directory again finds a proper directory. */
  lemma RefreshedIsRead(x: Mount, y: Mount, root: seq<Link>)
    requires TreeInv(y.fs) && InodeNum(y.fs.sb) > 0 && RootIs(y.fs, root) && Refreshed(x, y)
    ensures Links(y.root) == root && IsDir(y.root) && ProperLinks(y.fs.sb, root, 0)
  {
    assert GoodDir(y.fs, 0);
    WithinIsReadable(y.fs, 0);
  }

  /** Every call of that kind leaves a sound file system with a root, and a proper copy. */
  lemma CallKeepsMount(x: Mount, call: Call, y: Mount)
    requires MountInv(x) && CallNext(x, call, y) && Clean(x, call)
    ensures MountInv(y) && TreeAfter(x, call, y)
  {
    assert TreeAfter(x, call, y) by {
      TreeAfterCall(x, call, y);
    }
    WhoRefreshes(x, call, y);
    if Refreshes(call) {
      RefreshedIsRead(x, y, NewRoot(call, RootLinks(x.fs)));
    }
    assert IsDir(y.root) && ProperLinks(y.fs.sb, Links(y.root), 0);
  }

  // ---- coherence

  /** A call that changes the root directory does so through the copy, as it does when the path is a slash
      and a name. While the copy is coherent the other paths to the root come to the same. */
  predicate UsesCopy(x: Mount, call: Call) {
    Forgets(call) ==> call.links == Links(x.root)
  }

  lemma ForgottenRoot(call: Call, root: seq<Link>, copy: seq<Link>)
    requires !Refreshes(call) && (Forgets(call) ==> call.links == copy)
    requires call.Rmdir? && Forgets(call) ==> Find(call.links, call.name) >= 0
    ensures NewRoot(call, root) == copy <==> !Forgets(call) && root == copy
  {
    if Forgets(call) {
      assert |NewRoot(call, root)| != |copy|;
    }
  }

  /** After a call the copy is coherent exactly if the call read it again, or if it was coherent before and
      the call did not change the root directory on the disk. */
  lemma CallCoherence(x: Mount, call: Call, y: Mount)
    requires MountInv(x) && CallNext(x, call, y) && Clean(x, call) && UsesCopy(x, call)
    ensures MountInv(y) && (Coherent(y) <==> Refreshes(call) || (Coherent(x) && !Forgets(call)))
  {
    var root := NewRoot(call, RootLinks(x.fs));
    assert MountInv(y) && RootIs(y.fs, root) by {
      CallKeepsMount(x, call, y);
    }
    WhoRefreshes(x, call, y);
    if Refreshes(call) {
      assert Links(y.root) == root by {
        RefreshedIsRead(x, y, root);
      }
    } else {
      assert root == Links(x.root) <==> Coherent(x) && !Forgets(call) by {
        ForgottenRoot(call, RootLinks(x.fs), Links(x.root));
      }
    }
  }

  /** A run of calls. */
  ghost predicate MountRun(xs: seq<Mount>, calls: seq<Call>) {
    && |xs| == |calls| + 1
    && forall i {:trigger calls[i]} :: 0 <= i < |calls| ==> MountStep(xs[i], calls[i], xs[i + 1])
  }

  /** One call of a run. */
  ghost predicate MountStep(x: Mount, call: Call, y: Mount) {
    CallNext(x, call, y) && BlockLen(x.fs.sb) > 0 && Clean(x, call)
  }

  lemma RunStep(xs: seq<Mount>, calls: seq<Call>, i: nat)
    requires MountRun(xs, calls) && 0 < i <= |calls|
    ensures MountStep(xs[i - 1], calls[i - 1], xs[i])
  {
    assert calls[i - 1] == calls[i - 1] && xs[i - 1 + 1] == xs[i];
  }

  lemma RunStepKeepsMount(xs: seq<Mount>, calls: seq<Call>, j: nat, i: nat)
    requires MountRun(xs, calls) && i == j + 1 <= |calls|
    ensures MountInv(xs[j]) ==> MountInv(xs[i])
  {
    RunStep(xs, calls, i);
    if MountInv(xs[j]) {
      CallKeepsMount(xs[j], calls[j], xs[i]);
    }
  }

  /** Over every run from a sound state the tree is kept. */
  lemma {:induction false} RunKeepsMount(xs: seq<Mount>, calls: seq<Call>, i: nat)
    requires MountRun(xs, calls) && MountInv(xs[0]) && i <= |calls|
    ensures MountInv(xs[i])
  {
    if i > 0 {
      var j := i - 1;
      RunKeepsMount(xs, calls, j);
      RunStepKeepsMount(xs, calls, j, i);
    }
  }

  /** So in every state of such a run path_to_inode_id finds every directory whole, and every link that it
      follows leads into the inode table. */
  lemma PathsResolve(xs: seq<Mount>, calls: seq<Call>, i: nat)
    requires MountRun(xs, calls) && MountInv(xs[0]) && i <= |calls|
    ensures DirTree(xs[i].fs) && LinksInTable(xs[i].fs.sb, Links(xs[i].root))
  {
    RunKeepsMount(xs, calls, i);
    TreeInvIsDirTree(xs[i].fs);
  }

  /** After the first i calls: the copy was coherent at the start or has been read again, and nothing has
      changed the root directory behind its back since. */
  predicate UpToDate(start: bool, calls: seq<Call>, i: nat)
    requires i <= |calls|
  {
    if i == 0 then start
    else Refreshes(calls[i - 1]) || (UpToDate(start, calls, i - 1) && !Forgets(calls[i - 1]))
  }

  /** Over whole runs that change the root through its copy, the copy is coherent exactly when it is up to
      date: it is wrong from an rmdir in the root until the next call that reads it again, and at no other
      time, apart from files made by a sys_open that then fails. */
  lemma {:induction false} RunCoherence(xs: seq<Mount>, calls: seq<Call>, i: nat)
    requires MountRun(xs, calls) && MountInv(xs[0]) && i <= |calls|
    requires forall j :: 0 <= j < i ==> UsesCopy(xs[j], calls[j])
    ensures MountInv(xs[i]) && (Coherent(xs[i]) <==> UpToDate(Coherent(xs[0]), calls, i))
  {
    if i > 0 {
      RunStep(xs, calls, i);
      RunCoherence(xs, calls, i - 1);
      CallCoherence(xs[i - 1], calls[i - 1], xs[i]);
    }
  }

  // ---- what a stale copy does

  /** A directory that was removed from the root comes back with the next one that is made there: its name
      is found again, with the inode that it had, so that both names stand for one directory whenever the
      new one got that inode. */
  lemma MkdirRevives(x: Mount, y: Mount, z: Mount, name: Name, r: Removing, links: seq<Link>, name': Name, w: Making,
                     v: Dotting)
    requires MountInv(x) && Coherent(x) && CallNext(x, Rmdir(Links(x.root), name, r), y)
    requires Clean(x, Rmdir(Links(x.root), name, r)) && Find(Links(x.root), name) >= 0
    requires links == Links(y.root) && CallNext(y, Mkdir(links, name', w, v), z) && BlockLen(y.fs.sb) > 0
    requires Clean(y, Mkdir(links, name', w, v))
    ensures Coherent(z) && Find(RootLinks(y.fs), name) == -1
    ensures Find(RootLinks(z.fs), name) == Find(RootLinks(x.fs), name) && Find(RootLinks(z.fs), name') == w.inode.id
  {
    CallKeepsMount(x, Rmdir(Links(x.root), name, r), y);
    CallCoherence(y, Mkdir(links, name', w, v), z);
    CallKeepsMount(y, Mkdir(links, name', w, v), z);
    RemovedLinks(x.fs.sb, Links(x.root), name, 0);
    FindAfterDelete(Links(x.root), name, name);
    FindNone(links, name');
    FindAfterAdd(links, Link(w.inode.id, name'), name);
    FindAfterAdd(links, Link(w.inode.id, name'), name');
  }

  /** sys_rmdir of a name that is missing deletes the directory in which it was looked for: its own inode is
      emptied, while every other file, and with it the link to that directory, stays as it was. */
  lemma RmdirOfMissingName(x: Mount, links: seq<Link>, name: Name, r: Removing, y: Mount, p: nat)
    requires MountInv(x) && CallNext(x, Rmdir(links, name, r), y) && Clean(x, Rmdir(links, name, r))
    requires p == r.inode.id && DirectoryAt(x.fs, p, links) && Find(links, name) < 0
    ensures MountInv(y) && InodeAt(y.fs, p).kind == UNALLOCATED && BothKept(x.fs, y.fs, p, p)
  {
    assert MountInv(y) by {
      CallKeepsMount(x, Rmdir(links, name, r), y);
    }
    assert Home(links, name) == p by {
      assert GoodDir(x.fs, p);
      FindNone(links, name);
    }
    assert InodeAt(y.fs, p).kind == UNALLOCATED && BothKept(x.fs, y.fs, p, p) by {
      RemovedUnlinks(x.fs, y.fs, links, name, r, p, p);
    }
  }
}
