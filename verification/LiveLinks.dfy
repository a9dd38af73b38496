/** Which links of the directory tree lead to files: when every link leads to an inode in use, and which
    calls keep it so. */
module LiveLinks {
  import opened Words
  import opened Bitmap
  import opened Superblock
  import opened Inodes
  import opened Writes
  import opened Ownership
  import opened FsRuns
  import opened Directories
  import opened Paths
  import opened FileOps
  import opened FileTree
  import opened Tree
  import opened RootCopy

  predicate InUse(s: Fs, id: nat)
    requires BlockLen(s.sb) > 0
  {
    InodeAt(s, id).kind != UNALLOCATED
  }

  /** The links lead to inodes in use, or to inode c. */
  predicate LinksInUse(s: Fs, links: seq<Link>, c: int)
    requires BlockLen(s.sb) > 0
  {
    forall i :: 0 <= i < |links| ==> links[i].id == c || InUse(s, links[i].id)
  }

  predicate LeadsTo(links: seq<Link>, c: nat) {
    exists i :: 0 <= i < |links| && links[i].id == c
  }

  predicate LiveDir(s: Fs, id: nat)
    requires BlockLen(s.sb) > 0
  {
    InodeAt(s, id).kind == DIRECTORY ==> LinksInUse(s, Links(DirOf(s, InodeAt(s, id))), -1)
  }

  /** Every link of every directory leads to an inode in use. */
  ghost predicate NoDanglingLinks(s: Fs) {
    BlockLen(s.sb) > 0 && forall id: nat :: id < InodeNum(s.sb) ==> LiveDir(s, id)
  }

  /** Such an inode is marked as taken if its mark has a place, so that no new file gets it. */
  lemma LiveLinksAreMarked(s: Fs, id: nat, i: nat)
    requires TreeInv(s) && NoDanglingLinks(s) && id < InodeNum(s.sb) && InodeAt(s, id).kind == DIRECTORY
    requires i < |Links(DirOf(s, InodeAt(s, id)))|
    ensures var target := Links(DirOf(s, InodeAt(s, id)))[i].id;
            target < InodeNum(s.sb) && (Markable(target) ==> InodeMarked(s.sb, target))
  {
    var target := Links(DirOf(s, InodeAt(s, id)))[i].id;
    assert target < InodeNum(s.sb) && InUse(s, target) by {
      assert GoodDir(s, id) && LiveDir(s, id);
    }
    if Markable(target) {
      InUseIsTaken(s, target);
    }
  }

  lemma InUseIsTaken(s: Fs, id: nat)
    requires FsInv(s) && id < InodeNum(s.sb) && InUse(s, id) && Markable(id)
    ensures InodeMarked(s.sb, id)
  {
    assert Table(s)[id] == InodeAt(s, id);
  }

  // ---- making files

  /** Kinds after an inode c has got the given kind. */
  ghost predicate KindsAfter(s: Fs, t: Fs, c: nat, kind: word) {
    && BlockLen(s.sb) > 0 && SameLayout(s.sb, t.sb)
    && forall id: nat {:trigger InodeAt(t, id)} :: id < InodeNum(s.sb) ==>
         InodeAt(t, id).kind == if id == c then kind else InodeAt(s, id).kind
  }

  lemma KindsAfterMaking(s: Fs, t: Fs, links: seq<Link>, name: Name, w: Making, p: nat, c: nat)
    requires FsInv(s) && FileMade(s, t, links, name, w) && w.inode.owned == 0 && DirHasRoom(s)
    requires p == links[0].id && c == w.inode.id && p != c
    ensures KindsAfter(s, t, c, w.inode.kind) && Holds(t, p, InodeAt(s, p).kind, w.dir)
    ensures Links(w.dir) == links + [Link(c, name)] && BothKept(s, t, p, c) && p < InodeNum(s.sb)
  {
    MakingSteps(s, t, links, name, w, p, c);
    assert KindsAfter(s, t, c, w.inode.kind) && Holds(t, p, InodeAt(s, p).kind, w.dir) && BothKept(s, t, p, c) by {
      KindsOfTwo(s, w.mid, t, p, c, w.inode, w.dir);
    }
  }

  lemma KeptByBoth(s: Fs, m: Fs, t: Fs, c: nat, p: nat)
    requires OthersKept(s, m, c) && OthersKept(m, t, p)
    ensures BothKept(s, t, p, c)
  {
    forall id: nat | id < InodeNum(s.sb) && id != p && id != c
      ensures DirKept(s, t, id)
    {
      assert DirKept(s, m, id) && DirKept(m, t, id);
    }
  }

  lemma KindsOfKept(s: Fs, t: Fs, p: nat, c: nat, kind: word)
    requires BothKept(s, t, p, c) && InodeAt(t, p).kind == InodeAt(s, p).kind && InodeAt(t, c).kind == kind && p != c
    ensures KindsAfter(s, t, c, kind)
  {
    forall id: nat | id < InodeNum(s.sb)
      ensures InodeAt(t, id).kind == if id == c then kind else InodeAt(s, id).kind
    {
      assert id != p && id != c ==> DirKept(s, t, id);
    }
  }

  lemma KindsOfTwo(s: Fs, m: Fs, t: Fs, p: nat, c: nat, f: Inode, d: Dir)
    requires OthersKept(s, m, c) && InodeAt(m, c) == f && OthersKept(m, t, p) && Holds(t, p, InodeAt(m, p).kind, d)
    requires p != c && p < InodeNum(s.sb) && c < InodeNum(s.sb)
    ensures KindsAfter(s, t, c, f.kind) && Holds(t, p, InodeAt(s, p).kind, d) && BothKept(s, t, p, c)
  {
    assert InodeAt(m, p) == InodeAt(s, p) && InodeAt(t, c) == f by {
      assert DirKept(s, m, p) && DirKept(m, t, c);
    }
    KeptByBoth(s, m, t, c, p);
    KindsOfKept(s, t, p, c, f.kind);
  }

  /** Other directories stay live while no inode goes out of use. */
  lemma OthersStayLive(s: Fs, t: Fs, q: nat, c: nat, kind: word, id: nat)
    requires BothKept(s, t, q, c) && KindsAfter(s, t, c, kind) && kind != UNALLOCATED
    requires id < InodeNum(s.sb) && id != q && id != c && GoodDir(s, id) && LiveDir(s, id)
    ensures LiveDir(t, id)
  {
    assert DirKept(s, t, id);
  }

  lemma LiveAfterAdd(s: Fs, t: Fs, links: seq<Link>, name: Name, c: word, kind: word)
    requires KindsAfter(s, t, c, kind) && kind != UNALLOCATED && LinksInTable(s.sb, links) && c < InodeNum(s.sb)
    ensures LinksInUse(t, links + [Link(c, name)], -1) <==> LinksInUse(s, links, c)
  {
    var all := links + [Link(c, name)];
    assert all[|links|].id == c;
    assert forall i :: 0 <= i < |links| ==> all[i] == links[i];
  }

  /** create_file in a directory p keeps all links live, apart from those of a new directory, exactly when the
      links that it started from lead to inodes in use, or to the one that it takes. */
  lemma FileMadeLive(s: Fs, t: Fs, links: seq<Link>, name: Name, w: Making, p: nat, c: nat)
    requires TreeInv(s) && NoDanglingLinks(s) && FileMade(s, t, links, name, w) && w.inode.owned == 0 && DirHasRoom(s)
    requires ProperLinks(s.sb, links, p) && c == w.inode.id && p != c && InodeAt(s, p).kind == DIRECTORY
    requires w.inode.kind != UNALLOCATED
    ensures KindsAfter(s, t, c, w.inode.kind) && BothKept(s, t, p, c)
    ensures LiveDir(t, p) <==> LinksInUse(s, links, c)
    ensures forall id: nat :: id < InodeNum(s.sb) && id != p && id != c ==> LiveDir(t, id)
  {
    KindsAfterMaking(s, t, links, name, w, p, c);
    LiveAfterAdd(s, t, links, name, c, w.inode.kind);
    forall id: nat | id < InodeNum(s.sb) && id != p && id != c
      ensures LiveDir(t, id)
    {
      assert GoodDir(s, id) && LiveDir(s, id);
      OthersStayLive(s, t, p, c, w.inode.kind, id);
    }
  }

  lemma TouchKeepsLinks(s: Fs, t: Fs, links: seq<Link>, name: Name, w: Making, p: nat)
    requires TreeInv(s) && NoDanglingLinks(s) && FileMade(s, t, links, name, w) && w.inode.owned == 0 && DirHasRoom(s)
    requires ProperLinks(s.sb, links, p) && p != w.inode.id && InodeAt(s, p).kind == DIRECTORY && w.inode.kind == FILE
    ensures NoDanglingLinks(t) <==> LinksInUse(s, links, w.inode.id)
  {
    var c := w.inode.id;
    FileMadeLive(s, t, links, name, w, p, c);
    assert LiveDir(t, c);
    AllButOne(t, p, c);
  }

  lemma AllButOne(t: Fs, p: nat, c: nat)
    requires BlockLen(t.sb) > 0 && p < InodeNum(t.sb) && LiveDir(t, c)
    requires forall id: nat :: id < InodeNum(t.sb) && id != p && id != c ==> LiveDir(t, id)
    ensures NoDanglingLinks(t) <==> LiveDir(t, p)
  {
  }

  lemma MkdirKeepsLinks(s: Fs, t: Fs, links: seq<Link>, name: Name, w: Making, v: Dotting, p: nat)
    requires TreeInv(s) && NoDanglingLinks(s) && DirectoryMade(s, t, links, name, w, v) && w.inode.owned == 0
    requires 2 * DirBlocks(s.sb) <= |FreeSet(s.sb)| && ProperLinks(s.sb, links, p) && p != w.inode.id
    requires InodeAt(s, p).kind == DIRECTORY && Find(links, name) < 0 && |links| + 1 < MAX_FILES_IN_DIRECTORY
    ensures NoDanglingLinks(t) <==> LinksInUse(s, links, w.inode.id)
  {
    var c, u := w.inode.id, v.mid;
    assert && KindsAfter(s, u, c, DIRECTORY) && (LiveDir(u, p) <==> LinksInUse(s, links, c))
           && (forall id: nat :: id < InodeNum(s.sb) && id != p && id != c ==> LiveDir(u, id)) by {
      FileMadeLive(s, u, links, name, w, p, c);
    }
    assert FsInv(u) && DirHasRoom(u) && SameLayout(s.sb, u.sb) && GoodDirs(u, c) by {
      FileMadeTree(s, u, links, name, w, p, c);
    }
    DottingSteps(s, t, links, name, w, v, p, c);
    assert LiveDir(t, c) by {
      DotsAreLive(u, t, v.dir, p, c);
    }
    assert forall id: nat :: id < InodeNum(u.sb) && id != c ==> (LiveDir(t, id) <==> LiveDir(u, id)) by {
      AllKeepLive(u, t, c);
    }
    DotsKeepLinks(u, t, p, c);
  }

  lemma DotsKeepLinks(u: Fs, t: Fs, p: nat, c: nat)
    requires BlockLen(u.sb) > 0 && SameLayout(u.sb, t.sb) && p < InodeNum(u.sb) && p != c && LiveDir(t, c)
    requires forall id: nat :: id < InodeNum(u.sb) && id != c ==> (LiveDir(t, id) <==> LiveDir(u, id))
    requires forall id: nat :: id < InodeNum(u.sb) && id != p && id != c ==> LiveDir(u, id)
    ensures NoDanglingLinks(t) <==> LiveDir(u, p)
  {
    AllButOne(t, p, c);
  }

  /** Writing the contents of the new directory c touches no other one. */
  lemma AllKeepLive(u: Fs, t: Fs, c: nat)
    requires OthersKept(u, t, c) && InodeAt(t, c).kind == InodeAt(u, c).kind && GoodDirs(u, c)
    ensures forall id: nat :: id < InodeNum(u.sb) && id != c ==> (LiveDir(t, id) <==> LiveDir(u, id))
  {
    forall id: nat | id < InodeNum(u.sb) && id != c
      ensures LiveDir(t, id) <==> LiveDir(u, id)
    {
      assert GoodDir(u, id);
      DotsKeepOthers(u, t, c, id);
    }
  }

  lemma DotsAreLive(u: Fs, t: Fs, d: Dir, p: word, c: word)
    requires OthersKept(u, t, c) && Holds(t, c, InodeAt(u, c).kind, d) && Links(d) == [Link(c, DOT), Link(p, DOT_DOT)]
    requires InodeAt(u, c).kind == InodeAt(u, p).kind == DIRECTORY && p != c && p < InodeNum(u.sb)
    ensures LiveDir(t, c)
  {
    assert InUse(t, p) by {
      assert DirKept(u, t, p);
    }
    DotsInUse(t, Links(d), p, c);
  }

  lemma DotsInUse(t: Fs, links: seq<Link>, p: word, c: word)
    requires BlockLen(t.sb) > 0 && links == [Link(c, DOT), Link(p, DOT_DOT)] && InUse(t, p) && InUse(t, c)
    ensures LinksInUse(t, links, -1)
  {
  }

  lemma DotsKeepOthers(u: Fs, t: Fs, c: nat, id: nat)
    requires OthersKept(u, t, c) && InodeAt(t, c).kind == InodeAt(u, c).kind && id < InodeNum(u.sb) && id != c
    requires GoodDir(u, id)
    ensures LiveDir(t, id) <==> LiveDir(u, id)
  {
    assert DirKept(u, t, id);
    if InodeAt(u, id).kind == DIRECTORY {
      SameUse(u, t, c, Links(DirOf(u, InodeAt(u, id))));
    }
  }

  lemma SameUse(u: Fs, t: Fs, c: nat, links: seq<Link>)
    requires OthersKept(u, t, c) && InodeAt(t, c).kind == InodeAt(u, c).kind && LinksInTable(u.sb, links)
    ensures LinksInUse(t, links, -1) <==> LinksInUse(u, links, -1)
  {
    forall i | 0 <= i < |links|
      ensures InUse(t, links[i].id) == InUse(u, links[i].id)
    {
      SameUseOf(u, t, c, links[i].id);
    }
  }

  lemma SameUseOf(u: Fs, t: Fs, c: nat, id: nat)
    requires OthersKept(u, t, c) && InodeAt(t, c).kind == InodeAt(u, c).kind && id < InodeNum(u.sb)
    ensures InUse(t, id) == InUse(u, id)
  {
    assert id != c ==> DirKept(u, t, id);
  }

  // ---- removing files

  lemma LinksAfterRemoval(s: Fs, t: Fs, links: seq<Link>, c: nat)
    requires KindsAfter(s, t, c, UNALLOCATED) && LinksInTable(s.sb, links)
    ensures LinksInUse(t, links, -1) <==> LinksInUse(s, links, -1) && !LeadsTo(links, c)
  {
    forall i | 0 <= i < |links|
      ensures InUse(t, links[i].id) <==> links[i].id != c && InUse(s, links[i].id)
    {
      assert InodeAt(t, links[i].id).kind == if links[i].id == c then UNALLOCATED else InodeAt(s, links[i].id).kind;
    }
  }

  /** No directory but q and c has a link to c. */
  ghost predicate NoOtherLink(s: Fs, q: nat, c: nat)
    requires BlockLen(s.sb) > 0
  {
    forall id: nat :: id < InodeNum(s.sb) && id != q && id != c ==> HasNoLink(s, id, c)
  }

  predicate HasNoLink(s: Fs, id: nat, c: nat)
    requires BlockLen(s.sb) > 0
  {
    InodeAt(s, id).kind == DIRECTORY ==> !LeadsTo(Links(DirOf(s, InodeAt(s, id))), c)
  }

  lemma OthersAfterRemoval(s: Fs, t: Fs, q: nat, c: nat, id: nat)
    requires BothKept(s, t, q, c) && KindsAfter(s, t, c, UNALLOCATED) && GoodDir(s, id) && LiveDir(s, id)
    requires id < InodeNum(s.sb) && id != q && id != c
    ensures LiveDir(t, id) <==> HasNoLink(s, id, c)
  {
    assert DirKept(s, t, id);
    if InodeAt(s, id).kind == DIRECTORY {
      LinksAfterRemoval(s, t, Links(DirOf(s, InodeAt(s, id))), c);
    }
  }

  lemma OthersAllAfterRemoval(s: Fs, t: Fs, q: nat, c: nat)
    requires BothKept(s, t, q, c) && KindsAfter(s, t, c, UNALLOCATED) && GoodDirs(s, -1) && NoDanglingLinks(s)
    ensures forall id: nat :: id < InodeNum(s.sb) && id != q && id != c ==> (LiveDir(t, id) <==> HasNoLink(s, id, c))
  {
    forall id: nat | id < InodeNum(s.sb) && id != q && id != c
      ensures LiveDir(t, id) <==> HasNoLink(s, id, c)
    {
      assert GoodDir(s, id) && LiveDir(s, id);
      OthersAfterRemoval(s, t, q, c, id);
    }
  }

  lemma AllAfterRemoval(s: Fs, t: Fs, q: nat, c: nat)
    requires BlockLen(s.sb) > 0 && SameLayout(s.sb, t.sb) && InodeAt(t, c).kind == UNALLOCATED && q < InodeNum(s.sb)
    requires forall id: nat :: id < InodeNum(s.sb) && id != q && id != c ==> (LiveDir(t, id) <==> HasNoLink(s, id, c))
    ensures NoDanglingLinks(t) <==> NoOtherLink(s, q, c) && LiveDir(t, q)
  {
    assert LiveDir(t, c);
    if NoDanglingLinks(t) {
      forall id: nat | id < InodeNum(s.sb) && id != q && id != c
        ensures HasNoLink(s, id, c)
      {
        assert LiveDir(t, id);
      }
    }
  }

  /** The directory p after the removal: its other links lead to inodes in use other than c. */
  predicate RestIsLive(s: Fs, p: nat, rest: seq<Link>, c: nat)
    requires BlockLen(s.sb) > 0
  {
    p != c && InodeAt(s, p).kind == DIRECTORY ==> LinksInUse(s, rest, -1) && !LeadsTo(rest, c)
  }

  /** sys_rm and sys_rmdir of a name other than "." keep all links live exactly when the link that goes was
      the only one to the inode c that is deleted, apart from those in c itself, and the others that the
      parent p is written with are live. */
  lemma UnlinkKeepsLinks(s: Fs, t: Fs, links: seq<Link>, name: Name, r: Removing, p: nat, c: nat)
    requires TreeInv(s) && NoDanglingLinks(s) && Unlinked(s, t, links, name, r) && DirHasRoom(s)
    requires r.inode == InodeAt(s, c) && c == r.inode.id && ProperLinks(s.sb, links, p) && name != DOT
    ensures NoDanglingLinks(t) <==> NoOtherLink(s, p, c) && RestIsLive(s, p, Without(links, name), c)
  {
    RemovedLinks(s.sb, links, name, p);
    assert && BothKept(s, t, p, c) && InodeAt(t, c).kind == UNALLOCATED && Links(r.dir) == Without(links, name)
           && (p != c ==> Holds(t, p, InodeAt(s, p).kind, r.dir)) && p < InodeNum(s.sb) by {
      RemovedUnlinks(s, t, links, name, r, p, c);
      HomeInTable(s.sb, links, name);
    }
    KindsAfterRemoval(s, t, p, c);
    OthersAllAfterRemoval(s, t, p, c);
    AllAfterRemoval(s, t, p, c);
    if p != c && InodeAt(s, p).kind == DIRECTORY {
      LinksAfterRemoval(s, t, Without(links, name), c);
    }
  }

  lemma KindsAfterRemoval(s: Fs, t: Fs, p: nat, c: nat)
    requires BothKept(s, t, p, c) && InodeAt(t, c).kind == UNALLOCATED
    requires p != c ==> InodeAt(t, p).kind == InodeAt(s, p).kind
    ensures KindsAfter(s, t, c, UNALLOCATED)
  {
    forall id: nat | id < InodeNum(s.sb)
      ensures InodeAt(t, id).kind == if id == c then UNALLOCATED else InodeAt(s, id).kind
    {
      assert id != p && id != c ==> DirKept(s, t, id);
    }
  }

  // ---- writing files

  lemma WriteKeepsLinks(s: Fs, t: Fs, id: nat, data: seq<byte>)
    requires TreeInv(s) && NoDanglingLinks(s) && FsNext(s, Write(id, data), t) && HasRoom(s, Write(id, data))
    requires InodeAt(s, id).kind != DIRECTORY
    ensures NoDanglingLinks(t)
  {
    SameFieldsSameLayout(s.sb, t.sb);
    StepKeepsOthers(s, Write(id, data), t);
    FsInvInode(s, id);
    assert InodeAt(t, id).kind == InodeAt(s, id).kind by {
      WroteReplaces(s, t, InodeAt(s, id), data, InodeAt(t, id));
    }
    AllKeepLive(s, t, id);
  }

  // ---- over runs of calls

  /** What can be tested before a call: a directory that is extended has live links, and a file that is removed
      has no other link. */
  ghost predicate KeepsLinks(x: Mount, call: Call)
    requires BlockLen(x.fs.sb) > 0
  {
    match call
    case Mkdir(links, name, w, v) => LinksInUse(x.fs, links, w.inode.id)
    case Touch(links, name, w, reread) => LinksInUse(x.fs, links, w.inode.id)
    case Rm(links, name, r) => RemovesLastLink(x.fs, links, name, r.inode.id)
    case Rmdir(links, name, r) => RemovesLastLink(x.fs, links, name, r.inode.id)
    case _ => true
  }

  ghost predicate RemovesLastLink(s: Fs, links: seq<Link>, name: Name, c: nat)
    requires BlockLen(s.sb) > 0
  {
    links != [] && NoOtherLink(s, links[0].id, c) && RestIsLive(s, links[0].id, Without(links, name), c)
  }

  /** A new inode has a place for its mark. */
  predicate HasPlace(call: Call) {
    (call.Mkdir? || call.Touch?) ==> Markable(call.w.inode.id)
  }

  lemma ParentIsDirectory(x: Mount, links: seq<Link>)
    requires MountInv(x) && IsParent(x, links)
    ensures links != [] && ProperLinks(x.fs.sb, links, links[0].id) && InodeAt(x.fs, links[0].id).kind == DIRECTORY
  {
    if links != Links(x.root) {
      var id: nat :| DirectoryAt(x.fs, id, links);
      DirectoryIsProper(x.fs, id, links);
    }
  }

  /** While the copy of the root is coherent every call starts from live links. */
  lemma CoherentLinksAreLive(x: Mount, links: seq<Link>, c: int)
    requires MountInv(x) && Coherent(x) && NoDanglingLinks(x.fs) && IsParent(x, links)
    ensures LinksInUse(x.fs, links, c)
  {
    if links == Links(x.root) {
      DirectoryIsLive(x.fs, 0, links, c);
    } else {
      var id: nat :| DirectoryAt(x.fs, id, links);
      DirectoryIsLive(x.fs, id, links, c);
    }
  }

  lemma DirectoryIsLive(s: Fs, id: nat, links: seq<Link>, c: int)
    requires NoDanglingLinks(s) && DirectoryAt(s, id, links)
    ensures LinksInUse(s, links, c)
  {
    assert LiveDir(s, id);
  }

  lemma NewIsNotParent(s: Fs, m: Fs, f: Inode, p: nat)
    requires FsInv(s) && Created(s, m, f) && Markable(f.id) && InodeAt(s, p).kind == DIRECTORY
    ensures f.id != p
  {
    CreatedIsFresh(s, m, f);
  }

  lemma MkdirCallLinks(x: Mount, links: seq<Link>, name: Name, w: Making, v: Dotting, y: Mount)
    requires MountInv(x) && CallNext(x, Mkdir(links, name, w, v), y) && Clean(x, Mkdir(links, name, w, v))
    requires NoDanglingLinks(x.fs) && Markable(w.inode.id)
    ensures NoDanglingLinks(y.fs) <==> LinksInUse(x.fs, links, w.inode.id)
  {
    ParentIsDirectory(x, links);
    NewIsNotParent(x.fs, w.mid, w.inode, links[0].id);
    MkdirKeepsLinks(x.fs, y.fs, links, name, w, v, links[0].id);
  }

  lemma TouchCallLinks(x: Mount, links: seq<Link>, name: Name, w: Making, reread: bool, y: Mount)
    requires MountInv(x) && CallNext(x, Touch(links, name, w, reread), y) && Clean(x, Touch(links, name, w, reread))
    requires NoDanglingLinks(x.fs) && Markable(w.inode.id)
    ensures NoDanglingLinks(y.fs) <==> LinksInUse(x.fs, links, w.inode.id)
  {
    ParentIsDirectory(x, links);
    NewIsNotParent(x.fs, w.mid, w.inode, links[0].id);
    TouchKeepsLinks(x.fs, y.fs, links, name, w, links[0].id);
  }

  lemma RemovingCallLinks(x: Mount, links: seq<Link>, name: Name, r: Removing, y: Mount)
    requires MountInv(x) && IsParent(x, links) && Unlinked(x.fs, y.fs, links, name, r) && name != DOT
    requires CleanVictim(x.fs, r.inode) && DirHasRoom(x.fs) && NoDanglingLinks(x.fs)
    ensures NoDanglingLinks(y.fs) <==> RemovesLastLink(x.fs, links, name, r.inode.id)
  {
    ParentIsDirectory(x, links);
    UnlinkKeepsLinks(x.fs, y.fs, links, name, r, links[0].id, r.inode.id);
  }

  /** A call keeps all links live exactly when that test is met. */
  lemma CallKeepsLinks(x: Mount, call: Call, y: Mount)
    requires MountInv(x) && CallNext(x, call, y) && Clean(x, call) && NoDanglingLinks(x.fs) && HasPlace(call)
    ensures NoDanglingLinks(y.fs) <==> KeepsLinks(x, call)
  {
    match call {
      case Nothing =>
      case Refresh =>
      case WriteFile(id, data) => WriteKeepsLinks(x.fs, y.fs, id, data);
      case Mkdir(links, name, w, v) => MkdirCallLinks(x, links, name, w, v, y);
      case Touch(links, name, w, reread) => TouchCallLinks(x, links, name, w, reread, y);
      case Rm(links, name, r) => RemovingCallLinks(x, links, name, r, y);
      case Rmdir(links, name, r) => RemovingCallLinks(x, links, name, r, y);
    }
  }

  /** Every call of the run meets the test. */
  ghost predicate AllKeepLinks(xs: seq<Mount>, calls: seq<Call>)
    requires MountRun(xs, calls)
  {
    forall i {:trigger calls[i]} :: 0 <= i < |calls| ==> MeetsTest(xs[i], calls[i])
  }

  ghost predicate MeetsTest(x: Mount, call: Call) {
    BlockLen(x.fs.sb) > 0 && KeepsLinks(x, call) && HasPlace(call)
  }

  ghost predicate LiveMount(x: Mount) {
    MountInv(x) && NoDanglingLinks(x.fs)
  }

  lemma RunStepKeepsLinks(xs: seq<Mount>, calls: seq<Call>, j: nat, i: nat)
    requires MountRun(xs, calls) && AllKeepLinks(xs, calls) && i == j + 1 <= |calls|
    ensures LiveMount(xs[j]) ==> LiveMount(xs[i])
  {
    if LiveMount(xs[j]) {
      RunStep(xs, calls, i);
      assert MeetsTest(xs[j], calls[j]);
      CallKeepsLinks(xs[j], calls[j], xs[i]);
      assert MountInv(xs[i]) by {
        CallKeepsMount(xs[j], calls[j], xs[i]);
      }
    }
  }

  /** Over runs of calls that meet the test no link ever dangles. */
  lemma {:induction false} RunKeepsLinks(xs: seq<Mount>, calls: seq<Call>, i: nat)
    requires MountRun(xs, calls) && AllKeepLinks(xs, calls) && i <= |calls| && LiveMount(xs[0])
    ensures LiveMount(xs[i])
  {
    if i > 0 {
      var j := i - 1;
      RunKeepsLinks(xs, calls, j);
      RunStepKeepsLinks(xs, calls, j, i);
    }
  }

  /** On a new disk the only links are those of the root to itself. */
  lemma NewDiskHasNoDanglingLinks(s: Fs, t: Fs, f: Inode, v: Dotting)
    requires Formatted(s, InodeNum(s.sb)) && RootMade(s, t, f, v)
    requires MountInv(Mount(t, v.dir)) && Coherent(Mount(t, v.dir)) && f.id == 0
    ensures NoDanglingLinks(t)
  {
    forall id: nat | id < InodeNum(t.sb)
      ensures LiveDir(t, id)
    {
      if id == 0 {
        assert Links(v.dir)[0].id == 0 && Links(v.dir)[1].id == 0;
      } else {
        OtherIsEmpty(s, t, f, v, id);
      }
    }
  }

  lemma OtherIsEmpty(s: Fs, t: Fs, f: Inode, v: Dotting, id: nat)
    requires Formatted(s, InodeNum(s.sb)) && RootMade(s, t, f, v) && f.id == 0 < id
    requires BlockLen(t.sb) > 0 && id < InodeNum(t.sb)
    ensures InodeAt(t, id).kind == UNALLOCATED
  {
    CreatedMarks(s, v.mid, f);
    CreatedTable(s, v.mid, f);
    SameFieldsSameLayout(v.mid.sb, t.sb);
    assert Table(v.mid)[id] == Table(s)[id];
  }
}
