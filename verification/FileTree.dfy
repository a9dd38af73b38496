/** What making and removing files means for the directories on the disk and for paths. */
module FileTree {
  import opened Sets
  import opened Words
  import opened Bitmap
  import opened Storage
  import opened Superblock
  import opened Inodes
  import opened Writes
  import opened Ownership
  import opened Accounting
  import opened FsRuns
  import opened Directories
  import opened Paths
  import opened FileOps

  /** The blocks that one write of a directory takes. */
  function DirBlocks(sb: Super): nat
    requires BlockLen(sb) > 0
  {
    BlocksOccupied(BlockLen(sb), DIRECTORY_BYTES)
  }

  /** There is room for one write of a directory. */
  ghost predicate DirHasRoom(s: Fs) {
    BlockLen(s.sb) > 0 && DirBlocks(s.sb) <= |FreeSet(s.sb)|
  }

  /** The blocks that can be handed out are either free or marked. */
  lemma FreeOrMarked(sb: Super)
    ensures |FreeSet(sb)| + |MarkedSet(sb)| == if DataStart(sb) <= AllocEnd(sb) then AllocEnd(sb) - DataStart(sb) else 0
  {
    var all := Range(DataStart(sb), AllocEnd(sb));
    assert all - FreeSet(sb) == MarkedSet(sb);
    Difference(all, FreeSet(sb));
  }

  ghost function Range(lo: nat, hi: nat): (r: set<int>)
    ensures |r| == (if lo <= hi then hi - lo else 0) && forall a :: a in r <==> lo <= a < hi
    decreases hi - lo
  {
    if lo >= hi then {} else Range(lo, hi - 1) + {hi - 1}
  }

  /** What a step takes is what it leaves fewer. */
  lemma FreeAfterStep(s: Fs, step: FsStep, t: Fs)
    requires FsInv(s) && FsNext(s, step, t) && HasRoom(s, step) && SameLayout(s.sb, t.sb)
    ensures |FreeSet(t.sb)| == |FreeSet(s.sb)| - Takes(s, step)
  {
    StepAccounts(s, step, t);
    FreeOrMarked(s.sb);
    FreeOrMarked(t.sb);
  }

  // ---- one directory is written

  /** File id holds the directory d, and the kind of its inode is as given. */
  ghost predicate Holds(t: Fs, id: nat, kind: word, d: Dir)
    requires BlockLen(t.sb) > 0
  {
    && InodeAt(t, id).kind == kind && InodeAt(t, id).size == DIRECTORY_BYTES && Within(t, id, DIRECTORY_BYTES)
    && DirOf(t, InodeAt(t, id)) == d
  }

  lemma DirIsHeld(s: Fs, t: Fs, id: nat, d: Dir, g: Inode)
    requires FsInv(s) && DirStored(s, t, id, d, g) && DirHasRoom(s) && BlockLen(t.sb) > 0
    ensures InodeAt(t, id).kind == InodeAt(s, id).kind && InodeAt(t, id).size == DIRECTORY_BYTES
    ensures DirOf(t, InodeAt(t, id)) == d
  {
    var f, data := InodeAt(s, id), DirBytes(d);
    assert f.id == id && f.owned <= MAX_INODE_BLOCKS by {
      FsInvInode(s, id);
    }
    assert InodeAt(t, id).size == DIRECTORY_BYTES && FileOf(t, id, DIRECTORY_BYTES) == data by {
      WriteThenRead(s, t, f, data, g);
    }
    BytesAreDir(t, id, d);
    assert InodeAt(t, id).kind == f.kind by {
      WroteReplaces(s, t, f, data, g);
    }
  }

  lemma BytesAreDir(t: Fs, id: nat, d: Dir)
    requires BlockLen(t.sb) > 0 && IsDir(d) && FileOf(t, id, DIRECTORY_BYTES) == DirBytes(d)
    ensures DirOf(t, InodeAt(t, id)) == d
  {
    DirRoundTrip(d);
  }

  /** Writing a directory file keeps the invariant, and afterwards the file holds the directory, slot by
      slot. */
  lemma DirReadsBack(s: Fs, t: Fs, id: nat, d: Dir, g: Inode)
    requires FsInv(s) && DirStored(s, t, id, d, g) && DirHasRoom(s)
    ensures FsInv(t) && SameLayout(s.sb, t.sb) && FsNext(s, Write(id, DirBytes(d)), t)
    ensures HasRoom(s, Write(id, DirBytes(d))) && Holds(t, id, InodeAt(s, id).kind, d)
  {
    var f, data := InodeAt(s, id), DirBytes(d);
    FsInvInode(s, id);
    SameFieldsSameLayout(s.sb, t.sb);
    WroteKeepsInv(s, t, f, data, g);
    WrittenIsWithin(s, t, id, data);
    DirIsHeld(s, t, id, d, g);
  }

  /** Every file but that of inode c keeps its inode, and if it can hold a directory, the directory that
      it holds. */
  ghost predicate OthersKept(s: Fs, t: Fs, c: nat) {
    && BlockLen(s.sb) > 0 && SameLayout(s.sb, t.sb)
    && forall id: nat :: id < InodeNum(s.sb) && id != c ==> DirKept(s, t, id)
  }

  ghost predicate DirKept(s: Fs, t: Fs, id: nat)
    requires BlockLen(s.sb) > 0 && BlockLen(t.sb) > 0
  {
    InodeAt(t, id) == InodeAt(s, id)
    && (Within(s, id, DIRECTORY_BYTES) ==> DirOf(t, InodeAt(t, id)) == DirOf(s, InodeAt(s, id)))
  }

  function StepFile(step: FsStep): nat {
    match step
    case Create(f) => f.id
    case Write(id, data) => id
    case Delete(id) => id
  }

  lemma StepKeepsOthers(s: Fs, step: FsStep, t: Fs)
    requires FsInv(s) && FsNext(s, step, t) && SameLayout(s.sb, t.sb)
    ensures OthersKept(s, t, StepFile(step))
  {
    forall id: nat | id < InodeNum(s.sb) && id != StepFile(step)
      ensures DirKept(s, t, id)
    {
      StepFrame(s, step, t, id, 0);
      if Within(s, id, DIRECTORY_BYTES) {
        StepFrame(s, step, t, id, DIRECTORY_BYTES);
      }
    }
  }

  /** Writing directory file id, all in one: what it then holds, what the others hold, and what is left. */
  lemma DirWritten(s: Fs, t: Fs, id: nat, d: Dir, g: Inode)
    requires FsInv(s) && DirStored(s, t, id, d, g) && DirHasRoom(s)
    ensures FsInv(t) && OthersKept(s, t, id) && |FreeSet(t.sb)| == |FreeSet(s.sb)| - DirBlocks(s.sb)
    ensures Holds(t, id, InodeAt(s, id).kind, d)
  {
    DirReadsBack(s, t, id, d, g);
    StepKeepsOthers(s, Write(id, DirBytes(d)), t);
    FreeAfterStep(s, Write(id, DirBytes(d)), t);
  }

  lemma InodePut(s: Fs, m: Fs, f: Inode)
    requires FsInv(s) && Created(s, m, f)
    ensures SameLayout(s.sb, m.sb) && InodeAt(m, f.id) == f
    ensures Markable(f.id) ==> InodeAt(s, f.id).kind == UNALLOCATED
  {
    CreatedMarks(s, m, f);
    CreatedTable(s, m, f);
    assert Table(m)[f.id] == f;
    if Markable(f.id) {
      CreatedIsFresh(s, m, f);
    }
  }

  /** A new inode is in place, the others are as before, and no block is taken. */
  lemma InodeMade(s: Fs, m: Fs, f: Inode)
    requires FsInv(s) && Created(s, m, f) && f.owned == 0
    ensures FsInv(m) && OthersKept(s, m, f.id) && |FreeSet(m.sb)| == |FreeSet(s.sb)| && InodeAt(m, f.id) == f
    ensures Markable(f.id) ==> InodeAt(s, f.id).kind == UNALLOCATED
  {
    InodePut(s, m, f);
    StepKeepsInv(s, Create(f), m);
    StepKeepsOthers(s, Create(f), m);
    FreeAfterStep(s, Create(f), m);
  }

  // ---- making files

  /** create_file: the new inode is in place and the directory p on the disk has a link to it. */
  lemma FileIsMade(s: Fs, t: Fs, links: seq<Link>, name: Name, w: Making, p: nat)
    requires FsInv(s) && FileMade(s, t, links, name, w) && w.inode.owned == 0 && DirHasRoom(s)
    requires p == links[0].id && p != w.inode.id
    ensures FsInv(t) && SameLayout(s.sb, t.sb) && |FreeSet(t.sb)| == |FreeSet(s.sb)| - DirBlocks(s.sb)
    ensures InodeAt(t, w.inode.id) == w.inode && Holds(t, p, InodeAt(s, p).kind, w.dir)
    ensures Links(w.dir) == links + [Link(w.inode.id, name)]
  {
    InodeMade(s, w.mid, w.inode);
    DirWritten(w.mid, t, p, w.dir, w.out);
    assert DirKept(s, w.mid, p) && DirKept(w.mid, t, w.inode.id);
  }

  /** create_directory makes the new directory known to its parent p and links it with "." and "..". */
  lemma MkdirLinks(s: Fs, t: Fs, links: seq<Link>, name: Name, w: Making, v: Dotting, p: nat)
    requires FsInv(s) && DirectoryMade(s, t, links, name, w, v) && w.inode.owned == 0
    requires BlockLen(s.sb) > 0 && 2 * DirBlocks(s.sb) <= |FreeSet(s.sb)|
    requires p == links[0].id && p != w.inode.id
    ensures FsInv(t) && SameLayout(s.sb, t.sb) && InodeAt(t, p).kind == InodeAt(s, p).kind && IsLinked(t, w.inode.id, p)
    ensures Links(DirOf(t, InodeAt(t, p))) == links + [Link(w.inode.id, name)] && Holds(t, w.inode.id, DIRECTORY, v.dir)
    ensures |FreeSet(t.sb)| == |FreeSet(s.sb)| - 2 * DirBlocks(s.sb)
  {
    var c := w.inode.id;
    FileIsMade(s, v.mid, links, name, w, p);
    DirWritten(v.mid, t, c, v.dir, v.out);
    assert DirKept(v.mid, t, p);
    assert Links(v.dir) == [Link(c, DOT), Link(links[0].id, DOT_DOT)];
  }

  /** What paths mean once the parent p has the child c and c has its dots. */
  lemma ChildResolves(t: Fs, start: seq<Link>, parts: seq<Name>, links: seq<Link>, name: Name, c: word, p: nat)
    requires BlockLen(t.sb) > 0 && InodeAt(t, p).kind == DIRECTORY && IsLinked(t, c, p)
    requires Links(DirOf(t, InodeAt(t, p))) == links + [Link(c, name)] && Find(links, name) == -1
    requires parts != [] && Resolve(t, start, parts) == p
    ensures Resolve(t, start, parts + [name]) == c
    ensures Resolve(t, start, parts + [name] + [DOT]) == c && Resolve(t, start, parts + [name] + [DOT_DOT]) == p
  {
    FindAfterAdd(links, Link(c, name), name);
    ResolveAppend(t, start, parts, [name]);
    DotsAreFound(Links(DirOf(t, InodeAt(t, c))), c, p);
    ResolveAppend(t, start, parts + [name], [DOT]);
    ResolveAppend(t, start, parts + [name], [DOT_DOT]);
  }

  /** After create_directory every path to the parent, followed by the new name, leads to the new
      directory, and from there "." leads to itself and ".." back to the parent. */
  lemma MkdirResolves(s: Fs, t: Fs, links: seq<Link>, name: Name, w: Making, v: Dotting, p: nat, start: seq<Link>,
                      parts: seq<Name>)
    requires FsInv(s) && DirectoryMade(s, t, links, name, w, v) && w.inode.owned == 0 && Find(links, name) < 0
    requires BlockLen(s.sb) > 0 && 2 * DirBlocks(s.sb) <= |FreeSet(s.sb)|
    requires p == links[0].id && p != w.inode.id && InodeAt(s, p).kind == DIRECTORY
    requires BlockLen(t.sb) > 0 && parts != [] && Resolve(t, start, parts) == p
    ensures Resolve(t, start, parts + [name]) == w.inode.id
    ensures Resolve(t, start, parts + [name] + [DOT]) == w.inode.id
    ensures Resolve(t, start, parts + [name] + [DOT_DOT]) == p
  {
    assert && InodeAt(t, p).kind == DIRECTORY && IsLinked(t, w.inode.id, p)
           && Links(DirOf(t, InodeAt(t, p))) == links + [Link(w.inode.id, name)] by {
      MkdirLinks(s, t, links, name, w, v, p);
    }
    assert Find(links, name) == -1 by {
      FindNone(links, name);
    }
    ChildResolves(t, start, parts, links, name, w.inode.id, p);
  }

  // ---- removing files

  /** An inode that was read earlier is deleted: the invariant is kept as long as the blocks that it lists
      are marked and nobody else's. */
  lemma InodeDeleted(m: Fs, t: Fs, f: Inode)
    requires FsInv(m) && Deleted(m, t, f) && Harmless(m.sb, Table(m), f)
    ensures FsInv(t) && OthersKept(m, t, f.id) && InodeAt(t, f.id) == EmptyInode(f.id)
  {
    DeletedMarks(m, t, f);
    DeletedTable(m, t, f);
    assert Table(t)[f.id] == EmptyInode(f.id);
    HarmlessDeletion(m, t, f);
    forall id: nat | id < InodeNum(m.sb) && id != f.id
      ensures DirKept(m, t, id)
    {
      DeletedFrame(m, t, f, id, 0);
      if Within(m, id, DIRECTORY_BYTES) {
        DeletedFrame(m, t, f, id, DIRECTORY_BYTES);
      }
    }
  }

  lemma ApartAfterOwnWrite(s: Fs, m: Fs, id: nat, d: Dir, g: Inode, f: Inode)
    requires FsInv(s) && DirStored(s, m, id, d, g) && DirHasRoom(s) && BlockLen(m.sb) > 0
    requires OwnsWell(s.sb, f) && OwnsWell(s.sb, InodeAt(s, id)) && Apart(InodeAt(s, id), f)
    ensures InodeAt(m, id).owned <= MAX_INODE_BLOCKS && Apart(InodeAt(m, id), f)
  {
    var k, h := Taken(s, InodeAt(s, id), DIRECTORY_BYTES), InodeAt(s, id);
    WroteReplaces(s, m, h, DirBytes(d), g);
    AllocationSucceeds(s.sb, k);
    ReplacedIsApart(s.sb, h, g, Allocated(s.sb, k), f);
  }

  lemma TableIsApart(s: Fs, a: nat, b: nat)
    requires FsInv(s) && a < InodeNum(s.sb) && b < InodeNum(s.sb) && a != b
    ensures OwnsWell(s.sb, InodeAt(s, a)) && OwnsWell(s.sb, InodeAt(s, b)) && Apart(InodeAt(s, a), InodeAt(s, b))
  {
    assert Table(s)[a] == InodeAt(s, a) && Table(s)[b] == InodeAt(s, b);
    ApartEntries(s.sb, Table(s), a, b);
  }

  lemma ApartAfterWrite(s: Fs, m: Fs, id: nat, d: Dir, g: Inode, f: Inode, other: nat)
    requires FsInv(s) && DirStored(s, m, id, d, g) && DirHasRoom(s) && f.id < InodeNum(s.sb) && f == InodeAt(s, f.id)
    requires BlockLen(m.sb) > 0 && other < InodeNum(s.sb) && other != f.id
    ensures InodeAt(m, other).owned <= MAX_INODE_BLOCKS && f.owned <= MAX_INODE_BLOCKS && Apart(f, InodeAt(m, other))
  {
    TableIsApart(s, other, f.id);
    if other == id {
      ApartAfterOwnWrite(s, m, id, d, g, f);
    }
  }

  /** The inode of a file stays harmless while any file, perhaps itself, is written. */
  lemma HarmlessAfterWrite(s: Fs, m: Fs, id: nat, d: Dir, g: Inode, f: Inode)
    requires FsInv(s) && DirStored(s, m, id, d, g) && DirHasRoom(s) && f.id < InodeNum(s.sb) && f == InodeAt(s, f.id)
    requires FsInv(m) && SameLayout(s.sb, m.sb)
    ensures Harmless(m.sb, Table(m), f)
  {
    var k := Taken(s, InodeAt(s, id), DIRECTORY_BYTES);
    assert OwnsWell(m.sb, f) by {
      FsInvInode(s, f.id);
      SameEnds(s.sb, m.sb);
      AllocationSucceeds(s.sb, k);
      MoreMarksOwnWell(s.sb, m.sb, f);
    }
    forall other | 0 <= other < |Table(m)| && other != f.id
      ensures Table(m)[other].owned <= MAX_INODE_BLOCKS && Apart(f, Table(m)[other])
    {
      ApartAfterWrite(s, m, id, d, g, f, other);
    }
  }

  lemma LinksAreSlots(d: Dir, links: seq<Link>)
    requires d.count <= |d.slots| && d.slots[..d.count] == links
    ensures Links(d) == links
  {
  }

  lemma UnlinkSteps(s: Fs, t: Fs, links: seq<Link>, name: Name, w: Removing, q: nat, c: nat)
    requires FsInv(s) && Unlinked(s, t, links, name, w) && DirHasRoom(s) && w.inode == InodeAt(s, c)
    requires q == Home(links, name) && c == w.inode.id
    ensures OthersKept(s, w.mid, q) && Holds(w.mid, q, InodeAt(s, q).kind, w.dir)
    ensures FsInv(t) && OthersKept(w.mid, t, c) && InodeAt(t, c) == EmptyInode(w.inode.id) && q < InodeNum(s.sb)
  {
    assert FsInv(w.mid) && OthersKept(s, w.mid, q) && Holds(w.mid, q, InodeAt(s, q).kind, w.dir) by {
      DirWritten(s, w.mid, q, w.dir, w.out);
    }
    RereadIsDeleted(s, w.mid, t, q, w.dir, w.out, w.inode);
  }

  /** An inode that was read before a directory was written is deleted after that. */
  lemma RereadIsDeleted(s: Fs, m: Fs, t: Fs, q: nat, d: Dir, g: Inode, f: Inode)
    requires FsInv(s) && DirStored(s, m, q, d, g) && DirHasRoom(s) && FsInv(m) && SameLayout(s.sb, m.sb)
    requires Deleted(m, t, f) && f == InodeAt(s, f.id)
    ensures FsInv(t) && OthersKept(m, t, f.id) && InodeAt(t, f.id) == EmptyInode(f.id)
  {
    HarmlessAfterWrite(s, m, q, d, g, f);
    InodeDeleted(m, t, f);
  }

  lemma KeptTwice(s: Fs, m: Fs, t: Fs, q: nat, c: nat, kind: word, d: Dir)
    requires OthersKept(s, m, q) && OthersKept(m, t, c) && Holds(m, q, kind, d) && q < InodeNum(s.sb)
    ensures BothKept(s, t, q, c) && (q != c ==> Holds(t, q, kind, d))
  {
    forall id: nat | id < InodeNum(s.sb) && id != c && id != q
      ensures DirKept(s, t, id)
    {
      assert DirKept(s, m, id) && DirKept(m, t, id);
    }
    assert q != c ==> DirKept(m, t, q);
  }

  /** Every file but those of two inodes keeps its inode and the directory that it holds. */
  ghost predicate BothKept(s: Fs, t: Fs, q: nat, c: nat) {
    && BlockLen(s.sb) > 0 && SameLayout(s.sb, t.sb)
    && forall id: nat :: id < InodeNum(s.sb) && id != q && id != c ==> DirKept(s, t, id)
  }

  /** sys_rm and sys_rmdir take the name out of the directory q on the disk, keep the other names in order,
      and give the inode c back, which was read before the directory was written; c may even be q. Every
      other file is kept. */
  lemma RemovedUnlinks(s: Fs, t: Fs, links: seq<Link>, name: Name, w: Removing, q: nat, c: nat)
    requires FsInv(s) && Unlinked(s, t, links, name, w) && DirHasRoom(s) && w.inode == InodeAt(s, c)
    requires q == Home(links, name) && c == w.inode.id
    ensures FsInv(t) && BothKept(s, t, q, c) && InodeAt(t, c) == EmptyInode(w.inode.id)
    ensures Links(w.dir) == Without(links, name) && (q != c ==> Holds(t, q, InodeAt(s, q).kind, w.dir))
  {
    UnlinkSteps(s, t, links, name, w, q, c);
    LinksAreSlots(w.dir, Without(links, name));
    assert BothKept(s, t, q, c) && (q != c ==> Holds(t, q, InodeAt(s, q).kind, w.dir)) by {
      KeptTwice(s, w.mid, t, q, c, InodeAt(s, q).kind, w.dir);
    }
  }
}
