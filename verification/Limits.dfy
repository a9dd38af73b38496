/** Runs from a new disk to the limits of the design: a write that finds no room, an inode that is handed out
    twice, and a removed directory that comes back. */
module Limits {
  import opened Sets
  import opened Words
  import opened Storage
  import opened Superblock
  import opened Inodes
  import opened Writes
  import opened Ownership
  import opened FsRuns
  import opened FileSystem
  import opened Directories
  import opened Paths
  import opened FileOps
  import opened FileTree
  import opened Tree
  import opened RootCopy
  import opened FileSystemCalls
  import opened NewDisk

  const BLOCK: nat := 1024

  function BlankDisk(n: nat): (r: seq<Block>)
    ensures |r| == n && forall a :: 0 <= a < n ==> |r[a]| == BLOCK
  {
    seq(n, _ => seq(BLOCK, _ => 0))
  }

  /** With blocks of 1024 bytes the superblock and every inode take one block, and a directory takes two. */
  lemma SmallBlocks(n: nat)
    ensures BlocksOccupied(BLOCK, SUPER_BYTES) == BlocksOccupied(BLOCK, INODE_BYTES) == 1
    ensures BlocksOccupied(BLOCK, DIRECTORY_BYTES) == 2 && Start(1, n) == n
  {
    assert BlocksOccupied(BLOCK, DIRECTORY_BYTES - BLOCK) == 1;
    StartIsProduct(1, n);
  }

  lemma SixBlocks()
    ensures BlocksOccupied(BLOCK, 6 * BLOCK) == 6
  {
    assert BlocksOccupied(BLOCK, 2 * BLOCK) == 2;
    assert BlocksOccupied(BLOCK, 3 * BLOCK) == 3;
    assert BlocksOccupied(BLOCK, 4 * BLOCK) == 4;
    assert BlocksOccupied(BLOCK, 5 * BLOCK) == 5;
  }

  lemma SmallLayout(sb: Super, n: nat)
    requires Layout(sb, n, BLOCK) && 6 <= n <= 33
    ensures BlockLen(sb) == BLOCK && InodeNum(sb) == n / 6 && DataStart(sb) == n / 6 + 1
    ensures AllocEnd(sb) == (if n < 32 then n else 32) && StuckAt(sb) == (if n > 32 then 32 else 0)
    ensures FitsInode(sb, DIRECTORY_BYTES) && DirBlocks(sb) == 2
  {
    SmallBlocks(n / 6);
  }

  /** A disk of n blocks that is mounted has all blocks free that come after the inode table and before the
      block that cannot be marked, apart from two for the root directory. */
  method NewMount(n: nat) returns (fs: FileSystem, root: Dir)
    requires 6 <= n <= 33
    ensures fresh(fs) && fresh(fs.disk) && fresh(fs.sb) && fs.Valid() && Layout(fs.St().sb, n, BLOCK)
    ensures MountInv(Mount(fs.St(), root)) && Coherent(Mount(fs.St(), root))
    ensures Links(root) == [Link(0, DOT), Link(0, DOT_DOT)]
    ensures |FreeSet(fs.St().sb)| == (if n < 32 then n else 32) - n / 6 - 3
    ensures forall id: nat :: id < InodeNum(fs.St().sb) ==> (InodeMarked(fs.St().sb, id) <==> id == 0)
  {
    fs := new FileSystem(BlankDisk(n));
    SmallBlocks(n / 6);
    var status;
    ghost var s, v;
    status, root, s, v := InitDisk(fs, BLOCK, EmptyInode(0));
    SmallLayout(s.sb, n);
    NewDiskIsMounted(s, fs.St(), EmptyInode(0).(kind := DIRECTORY, created := 1), v);
  }

  // ---- a write without room

  lemma RoomIsGone(s: Fs, t: Fs, data: seq<byte>)
    requires FsInv(s) && Layout(s.sb, 12, BLOCK) && FsNext(s, Write(1, data), t) && |data| == 6 * BLOCK
    requires |FreeSet(s.sb)| == 7
    ensures FsInv(t) && Layout(t.sb, 12, BLOCK) && |FreeSet(t.sb)| == 1
  {
    SixBlocks();
    StepKeepsInv(s, Write(1, data), t);
    SameFieldsSameLayout(s.sb, t.sb);
    FreeAfterStep(s, Write(1, data), t);
  }

  lemma NoRoomIsLost(s: Fs) returns (data: seq<byte>)
    requires FsInv(s) && Layout(s.sb, 12, BLOCK) && |FreeSet(s.sb)| == 1
    ensures |data| == 6 * BLOCK && Taken(s, InodeAt(s, 1), |data|) > Spare(s.sb)
    ensures forall t, g :: Wrote(s, t, InodeAt(s, 1), data, g) ==> Misread(t, 1, data)
  {
    SixBlocks();
    SmallLayout(s.sb, 12);
    FsInvInode(s, 1);
    data := LostData(s, InodeAt(s, 1), 6 * BLOCK);
  }

  method WriteFile(fs: FileSystem)
    requires fs.Valid() && FsInv(fs.St()) && Layout(fs.St().sb, 12, BLOCK) && |FreeSet(fs.St().sb)| == 7
    modifies fs.disk, fs.sb
    ensures FsInv(fs.St()) && Layout(fs.St().sb, 12, BLOCK) && |FreeSet(fs.St().sb)| == 1
  {
    ghost var s := fs.St();
    TableIsOnDisk(s, 1);
    FsInvInode(s, 1);
    var status, f := fs.ReadInode(1);
    SixBlocks();
    var zeros, g := seq(6 * BLOCK, _ => 0), f;
    status, g := fs.WriteToInode(f, zeros);
    RoomIsGone(s, fs.St(), zeros);
  }

  method MakeFile(fs: FileSystem)
    requires fs.Valid() && FsInv(fs.St()) && Layout(fs.St().sb, 12, BLOCK) && |FreeSet(fs.St().sb)| == 7
    requires FreeInodeFrom(fs.St().sb, 0) == 1
    modifies fs.disk, fs.sb
    ensures FsInv(fs.St()) && Layout(fs.St().sb, 12, BLOCK) && |FreeSet(fs.St().sb)| == 7
  {
    ghost var s := fs.St();
    var id := fs.CreateInode(FILE, EmptyInode(0));
    InodeMade(s, fs.St(), EmptyInode(0).(id := 1, kind := FILE, created := 1));
  }

  /** On a disk of 12 blocks a file of six blocks is written once. Writing it again finds one block left, and
      then there is data that is not read back, whatever the write does. */
  method RunOutOfRoom() returns (fs: FileSystem, ghost data: seq<byte>)
    ensures fresh(fs) && fs.Valid() && FsInv(fs.St()) && |data| == 6 * BLOCK
    ensures Taken(fs.St(), InodeAt(fs.St(), 1), |data|) > Spare(fs.St().sb)
    ensures forall t, g :: Wrote(fs.St(), t, InodeAt(fs.St(), 1), data, g) ==> Misread(t, 1, data)
  {
    var root;
    fs, root := NewMount(12);
    FirstUnmarked(fs.St().sb, 1);
    MakeFile(fs);
    WriteFile(fs);
    data := NoRoomIsLost(fs.St());
  }

  // ---- an inode twice

  lemma FirstUnmarked(sb: Super, i: nat)
    requires i < InodeNum(sb) && !InodeMarked(sb, i) && forall id: nat :: id < i ==> InodeMarked(sb, id)
    ensures FreeInodeFrom(sb, 0) == i
  {
  }

  /** Of 36 inodes the first i are marked. */
  predicate FirstAreMarked(sb: Super, i: nat) {
    InodeNum(sb) == 36 && forall id: nat :: id < 36 ==> (InodeMarked(sb, id) <==> id < i)
  }

  method NextInode(fs: FileSystem, i: nat) returns (id: int)
    requires fs.Valid() && Good(fs.St()) && FirstAreMarked(fs.St().sb, i) && i <= 32
    modifies fs.disk, fs.sb
    ensures Good(fs.St()) && FirstAreMarked(fs.St().sb, if i < 32 then i + 1 else 32) && id == i
  {
    ghost var s := fs.St();
    FirstUnmarked(s.sb, i);
    id := fs.CreateInode(FILE, EmptyInode(0));
    CreatedMarks(s, fs.St(), EmptyInode(0).(id := i, kind := FILE, created := 1));
  }

  /** On a disk of 216 blocks the 33rd new file gets inode 32, and so does the 34th. */
  method HandOutTwice() returns (fs: FileSystem, a: int, b: int)
    ensures fresh(fs) && fs.Valid() && Good(fs.St()) && InodeNum(fs.St().sb) == 36 && a == b == 32
  {
    fs := new FileSystem(BlankDisk(216));
    SmallBlocks(36);
    var status := fs.Format(BLOCK);
    var i := 0;
    while i < 32
      invariant 0 <= i <= 32 && fs.Valid() && fresh(fs.disk) && fresh(fs.sb)
      invariant Good(fs.St()) && FirstAreMarked(fs.St().sb, i)
    {
      a := NextInode(fs, i);
      i := i + 1;
    }
    a := NextInode(fs, 32);
    b := NextInode(fs, 32);
  }

  // ---- a removed directory that comes back

  lemma OneName(k: byte)
    requires k != SLASH && k != 0
    ensures Last([SLASH, k]) == [k] && ParentPath([SLASH, k]) == [] && IsName([k])
  {
    assert [SLASH, k][..1] == [SLASH];
  }

  function EmptyStack(root: Dir): Stack {
    Stack(EmptyInode(0), EmptyInode(0), root, EmptyInode(0))
  }

  /** Of four inodes only the first n are taken. */
  predicate OnlyFirst(sb: Super, n: nat) {
    forall id: nat :: id < 4 ==> (InodeMarked(sb, id) <==> id < n)
  }

  /** A disk with four inodes, of which the first n are taken, and with at least free blocks left. */
  ghost predicate SmallDisk(s: Fs, n: nat, free: nat) {
    BlockLen(s.sb) == BLOCK && InodeNum(s.sb) == 4 && free <= |FreeSet(s.sb)| && OnlyFirst(s.sb, n)
  }

  lemma MkdirMarks(s: Fs, t: Fs, links: seq<Link>, name: Name, w: Making, v: Dotting)
    requires FsInv(s) && DirectoryMade(s, t, links, name, w, v) && InodeNum(s.sb) == 4
    requires OnlyFirst(s.sb, 1) && w.inode.id == 1
    ensures OnlyFirst(t.sb, 2)
  {
    CreatedMarks(s, w.mid, w.inode);
    SameFieldsSameLayout(w.mid.sb, v.mid.sb);
  }

  lemma MkdirRoom(s: Fs, t: Fs, links: seq<Link>, name: Name, w: Making, v: Dotting, free: nat)
    requires FsInv(s) && DirectoryMade(s, t, links, name, w, v) && w.inode.owned == 0 && w.inode.id == 1
    requires BlockLen(s.sb) == BLOCK && free + 4 <= |FreeSet(s.sb)| && links[0].id == 0
    ensures SameLayout(s.sb, t.sb) && Holds(t, 1, DIRECTORY, v.dir) && free <= |FreeSet(t.sb)| && v.dir.count == 2
  {
    SmallBlocks(0);
    MkdirLinks(s, t, links, name, w, v, 0);
    assert |v.dir.slots[..v.dir.count]| == 2;
  }

  /** A directory that is made in the root of such a disk gets inode 1. */
  lemma MadeOnSmallDisk(s: Fs, t: Fs, links: seq<Link>, name: Name, w: Making, v: Dotting, free: nat)
    requires FsInv(s) && SmallDisk(s, 1, free + 4) && DirectoryMade(s, t, links, name, w, v) && w.inode.owned == 0
    requires w.inode.id == 1 && links[0].id == 0
    ensures SmallDisk(t, 2, free) && Holds(t, 1, DIRECTORY, v.dir) && v.dir.count == 2
  {
    MkdirMarks(s, t, links, name, w, v);
    MkdirRoom(s, t, links, name, w, v, free);
  }

  lemma DeletionFrees(m: Fs, t: Fs, f: Inode)
    requires Good(m) && Deleted(m, t, f)
    ensures SameLayout(m.sb, t.sb) && |FreeSet(m.sb)| <= |FreeSet(t.sb)|
  {
    DeletedMarks(m, t, f);
    SubsetSize(FreeSet(m.sb), FreeSet(t.sb));
  }

  lemma UnlinkMarks(s: Fs, t: Fs, links: seq<Link>, name: Name, r: Removing)
    requires FsInv(s) && Unlinked(s, t, links, name, r) && InodeNum(s.sb) == 4
    requires OnlyFirst(s.sb, 2) && r.inode.id == 1
    ensures OnlyFirst(t.sb, 1)
  {
    SameFieldsSameLayout(s.sb, r.mid.sb);
    DeletedMarks(r.mid, t, r.inode);
  }

  lemma UnlinkRoom(s: Fs, t: Fs, links: seq<Link>, name: Name, r: Removing, free: nat)
    requires FsInv(s) && Unlinked(s, t, links, name, r) && Home(links, name) == 0
    requires BlockLen(s.sb) == BLOCK && free + 2 <= |FreeSet(s.sb)|
    ensures SameLayout(s.sb, t.sb) && free <= |FreeSet(t.sb)|
  {
    SmallBlocks(0);
    DirWritten(s, r.mid, 0, r.dir, r.out);
    DeletionFrees(r.mid, t, r.inode);
  }

  /** When that directory is removed inode 1 is free again. */
  lemma RemovedOnSmallDisk(s: Fs, t: Fs, links: seq<Link>, name: Name, r: Removing, free: nat)
    requires FsInv(s) && SmallDisk(s, 2, free + 2) && Unlinked(s, t, links, name, r) && r.inode.id == 1
    requires Home(links, name) == 0
    ensures SmallDisk(t, 1, free)
  {
    UnlinkMarks(s, t, links, name, r);
    UnlinkRoom(s, t, links, name, r, free);
  }

  lemma MkdirGoesInRoot(x: Mount, k: byte)
    requires MountInv(x) && InodeNum(x.fs.sb) == 4 && OnlyFirst(x.fs.sb, 1) && k != SLASH && k != 0
    requires Find(Links(x.root), [k]) < 0 && |Links(x.root)| + 1 < MAX_FILES_IN_DIRECTORY
    ensures MkdirGoes(x, [SLASH, k], EmptyStack(x.root)) && FreeInodeFrom(x.fs.sb, 0) == 1
    ensures ParentDir(x, ParentPath([SLASH, k]), EmptyStack(x.root)) == x.root
    ensures IsName(Last([SLASH, k])) && Last([SLASH, k]) == [k]
    ensures IsContained(x.fs, EmptyStack(x.root))
  {
    OneName(k);
    assert FreeInodeFrom(x.fs.sb, 0) == 1 by {
      FirstUnmarked(x.fs.sb, 1);
    }
    EmptyStackIsContained(x);
  }

  lemma EmptyStackIsContained(x: Mount)
    requires MountInv(x)
    ensures IsContained(x.fs, EmptyStack(x.root))
  {
    MountIsNavigable(x);
  }

  /** sys_mkdir of a name of one letter in the root of such a disk. */
  method MakeInRoot(m: Mounted, k: byte) returns (ghost call: Call)
    requires m.Valid() && MountInv(m.View()) && InodeNum(m.fs.St().sb) == 4 && OnlyFirst(m.fs.St().sb, 1)
    requires Find(Links(m.root), [k]) < 0 && |Links(m.root)| + 1 < MAX_FILES_IN_DIRECTORY && k != SLASH && k != 0
    modifies m, m.fs.disk, m.fs.sb
    ensures CallNext(old(m.View()), call, m.View())
    ensures IsMkdir(call, old(m.fs.St()).sb, old(Links(m.root)), [k], EmptyInode(0))
    ensures call.w.inode.id == 1
  {
    MkdirGoesInRoot(m.View(), k);
    var status;
    status, call := m.SysMkdir([SLASH, k], EmptyStack(m.root));
  }

  lemma RmdirGoesInRoot(x: Mount, k: byte)
    requires MountInv(x) && k != SLASH && k != 0 && Find(Links(x.root), [k]) == 1
    ensures ParentDir(x, ParentPath([SLASH, k]), EmptyStack(x.root)) == x.root && Last([SLASH, k]) == [k]
    ensures IsContained(x.fs, EmptyStack(x.root)) && IsName(Last([SLASH, k]))
  {
    OneName(k);
    MountIsNavigable(x);
  }

  /** sys_rmdir of such a name, when it stands for inode 1. */
  method RemoveFromRoot(m: Mounted, k: byte) returns (ghost call: Call)
    requires m.Valid() && MountInv(m.View()) && k != SLASH && k != 0 && Find(Links(m.root), [k]) == 1
    requires IsEmptyDir(m.fs.St(), InodeAt(m.fs.St(), 1))
    modifies m.fs.disk, m.fs.sb
    ensures CallNext(old(m.View()), call, m.View())
    ensures call.Rmdir? && call.links == old(Links(m.root)) && call.name == [k]
    ensures call.r.inode == InodeAt(old(m.fs.St()), 1)
  {
    RmdirGoesInRoot(m.View(), k);
    var status;
    status, call := m.SysRmdir([SLASH, k], EmptyStack(m.root));
  }

  lemma MkdirIsClean(x: Mount, call: Call, k: byte)
    requires BlockLen(x.fs.sb) == BLOCK && 4 <= |FreeSet(x.fs.sb)|
    requires IsMkdir(call, x.fs.sb, Links(x.root), [k], EmptyInode(0))
    ensures Clean(x, call)
  {
    SmallBlocks(0);
  }

  lemma RmdirIsClean(x: Mount, call: Call, k: byte)
    requires MountInv(x) && BlockLen(x.fs.sb) == BLOCK && 2 <= |FreeSet(x.fs.sb)| && InodeNum(x.fs.sb) == 4
    requires call.Rmdir? && call.links == Links(x.root) && call.name == [k] && k != 46 && Find(Links(x.root), [k]) >= 0
    requires call.r.inode == InodeAt(x.fs, 1)
    ensures Clean(x, call)
  {
    assert DirBlocks(x.fs.sb) == 2 by {
      SmallBlocks(0);
    }
    assert CleanVictim(x.fs, call.r.inode) by {
      FsInvInode(x.fs, 1);
    }
    assert IsParent(x, call.links) && call.name != DOT;
  }

  /** Nothing is in the root yet. */
  ghost predicate IsNew(x: Mount) {
    MountInv(x) && Coherent(x) && SmallDisk(x.fs, 1, 17) && Links(x.root) == [Link(0, DOT), Link(0, DOT_DOT)]
  }

  /** There is one empty directory in the root. */
  ghost predicate HasDirectory(x: Mount, k: byte) {
    && MountInv(x) && Coherent(x) && SmallDisk(x.fs, 2, 13) && IsEmptyDir(x.fs, InodeAt(x.fs, 1))
    && Links(x.root) == [Link(0, DOT), Link(0, DOT_DOT)] + [Link(1, [k])]
  }

  /** The directory has been removed since x. */
  ghost predicate HasRemoved(x: Mount, gone: Call, y: Mount, k: byte) {
    && HasDirectory(x, k) && CallNext(x, gone, y) && Clean(x, gone) && MountInv(y) && SmallDisk(y.fs, 1, 11)
    && gone.Rmdir? && gone.links == Links(x.root) && gone.name == [k] && y.root == x.root
  }

  lemma NotThere(d: Dir, k: byte)
    requires Links(d) == [Link(0, DOT), Link(0, DOT_DOT)] && k != 46
    ensures Find(Links(d), [k]) == -1
  {
  }

  lemma NotThereYet(d: Dir, k: byte, k': byte)
    requires Links(d) == [Link(0, DOT), Link(0, DOT_DOT)] + [Link(1, [k])] && k' != 46 && k' != k
    ensures Find(Links(d), [k']) == -1
  {
    FindNone(Links(d), [k']);
  }

  lemma AfterMkdir(x: Mount, call: Call, y: Mount, k: byte)
    requires MountInv(x) && SmallDisk(x.fs, 1, 17) && CallNext(x, call, y)
    requires IsMkdir(call, x.fs.sb, Links(x.root), [k], EmptyInode(0)) && call.w.inode.id == 1
    ensures MountInv(y) && Coherent(y) && Links(y.root) == Links(x.root) + [Link(1, [k])]
  {
    MkdirIsClean(x, call, k);
    CallCoherence(x, call, y);
    CallKeepsMount(x, call, y);
  }

  lemma DiskAfterMkdir(x: Mount, call: Call, y: Mount, k: byte)
    requires FsInv(x.fs) && SmallDisk(x.fs, 1, 17) && CallNext(x, call, y) && ProperLinks(x.fs.sb, Links(x.root), 0)
    requires IsMkdir(call, x.fs.sb, Links(x.root), [k], EmptyInode(0)) && call.w.inode.id == 1
    ensures SmallDisk(y.fs, 2, 13) && IsEmptyDir(y.fs, InodeAt(y.fs, 1))
  {
    MadeOnSmallDisk(x.fs, y.fs, call.links, call.name, call.w, call.v, 13);
  }

  /** After the first mkdir the name is there and stands for an empty directory. */
  lemma AfterFirst(x: Mount, call: Call, y: Mount, k: byte)
    requires IsNew(x) && CallNext(x, call, y) && k != 46
    requires IsMkdir(call, x.fs.sb, Links(x.root), [k], EmptyInode(0)) && call.w.inode.id == 1
    ensures HasDirectory(y, k)
  {
    AfterMkdir(x, call, y, k);
    DiskAfterMkdir(x, call, y, k);
  }

  lemma ReadyAfterFirst(x: Mount, call: Call, y: Mount, k: byte)
    requires IsNew(x) && CallNext(x, call, y) && k != 46
    requires IsMkdir(call, x.fs.sb, Links(x.root), [k], EmptyInode(0)) && call.w.inode.id == 1
    ensures HasDirectory(y, k) && Navigable(y.fs) && UsableDir(y.fs.sb, y.root)
  {
    AfterFirst(x, call, y, k);
    MountIsNavigable(y);
  }

  /** After the rmdir: its inode is free again. */
  lemma AfterRmdir(x: Mount, call: Call, y: Mount, k: byte)
    requires MountInv(x) && SmallDisk(x.fs, 2, 13) && CallNext(x, call, y) && k != 46
    requires call.Rmdir? && call.links == Links(x.root) && call.name == [k] && Find(Links(x.root), [k]) >= 0
    requires call.r.inode == InodeAt(x.fs, 1)
    ensures Clean(x, call) && MountInv(y) && SmallDisk(y.fs, 1, 11) && y.root == x.root
  {
    RmdirIsClean(x, call, k);
    FsInvInode(x.fs, 1);
    CallKeepsMount(x, call, y);
    RemovedLinks(x.fs.sb, Links(x.root), [k], 0);
    RemovedOnSmallDisk(x.fs, y.fs, call.links, call.name, call.r, 11);
  }

  method FirstMkdir(m: Mounted, k: byte)
    requires m.Valid() && IsNew(m.View()) && k != SLASH && k != 0 && k != 46
    modifies m, m.fs.disk, m.fs.sb
    ensures m.Valid() && HasDirectory(m.View(), k)
  {
    ghost var x := m.View();
    NotThere(x.root, k);
    ghost var call := MakeInRoot(m, k);
    assert m.files.Valid();
    ReadyAfterFirst(x, call, m.View(), k);
  }

  method ThenRmdir(m: Mounted, k: byte) returns (ghost gone: Call)
    requires m.Valid() && HasDirectory(m.View(), k) && k != SLASH && k != 0 && k != 46
    modifies m.fs.disk, m.fs.sb
    ensures m.Valid() && HasRemoved(old(m.View()), gone, m.View(), k)
  {
    ghost var x := m.View();
    FoundLast(x.root, k);
    gone := RemoveFromRoot(m, k);
    assert m.files.Valid();
    AfterRmdir(x, gone, m.View(), k);
    MountIsNavigable(m.View());
  }

  lemma FoundLast(d: Dir, k: byte)
    requires Links(d) == [Link(0, DOT), Link(0, DOT_DOT)] + [Link(1, [k])] && k != 46
    ensures Find(Links(d), [k]) == 1
  {
    PositionIs(Links(d), [k], 2);
  }

  /** After the second mkdir both names stand for inode 1. */
  lemma AfterSecond(x: Mount, gone: Call, y: Mount, call: Call, z: Mount, k: byte, k': byte)
    requires HasRemoved(x, gone, y, k) && CallNext(y, call, z) && k' != k && k != 46
    requires IsMkdir(call, y.fs.sb, Links(y.root), [k'], EmptyInode(0)) && call.w.inode.id == 1
    ensures BlockLen(z.fs.sb) > 0 && Find(RootLinks(z.fs), [k]) == Find(RootLinks(z.fs), [k']) == 1
  {
    FoundLast(x.root, k);
    MkdirIsClean(y, call, k');
    MkdirRevives(x, y, z, [k], gone.r, call.links, [k'], call.w, call.v);
  }

  method ThenMkdir(m: Mounted, ghost x: Mount, ghost gone: Call, ghost k: byte, k': byte)
    requires m.Valid() && HasRemoved(x, gone, m.View(), k) && k' != SLASH && k' != 0 && k' != 46 && k' != k && k != 46
    modifies m, m.fs.disk, m.fs.sb
    ensures BlockLen(m.fs.St().sb) > 0
    ensures Find(RootLinks(m.fs.St()), [k]) == Find(RootLinks(m.fs.St()), [k']) == 1
  {
    ghost var y := m.View();
    NotThereYet(m.root, k, k');
    ghost var call := MakeInRoot(m, k');
    AfterSecond(x, gone, y, call, m.View(), k, k');
  }

  method MountSmallDisk() returns (m: Mounted)
    ensures fresh(m) && fresh(m.fs.disk) && fresh(m.fs.sb) && m.Valid() && IsNew(m.View())
  {
    var fs, root := NewMount(24);
    SmallLayout(fs.St().sb, 24);
    MountIsNavigable(Mount(fs.St(), root));
    m := new Mounted(fs, root);
  }

  /** On a new disk of 24 blocks: mkdir /a, rmdir /a, mkdir /b. Then there are both /a and /b, and they are the
      same directory. */
  method ReviveDirectory() returns (m: Mounted)
    ensures m.fs.Valid() && BlockLen(m.fs.St().sb) > 0
    ensures Find(RootLinks(m.fs.St()), [97]) == Find(RootLinks(m.fs.St()), [98]) == 1
  {
    m := MountSmallDisk();
    FirstMkdir(m, 97);
    ghost var x := m.View();
    ghost var gone := ThenRmdir(m, 97);
    ThenMkdir(m, x, gone, 97, 98);
  }
}
