/** The directories of the disk form a well-kept tree: what holds of them in every reachable file system. */
module Tree {
  import opened Words
  import opened Storage
  import opened Superblock
  import opened Inodes
  import opened Writes
  import opened Ownership
  import opened Accounting
  import opened FsRuns
  import opened Directories
  import opened Paths
  import opened FileOps
  import opened FileTree

  /** The links of directory id: "." comes first and is the directory itself, names are unique, a slot is
      free, and all links lead into the inode table. */
  predicate ProperLinks(sb: Super, links: seq<Link>, id: nat) {
    WellFormed(links) && links[0].id == id && LinksInTable(sb, links)
  }

  /** If the file is a directory, its contents are whole and its links are proper. */
  ghost predicate GoodDir(s: Fs, id: nat)
    requires BlockLen(s.sb) > 0
  {
    var f := InodeAt(s, id);
    f.kind == DIRECTORY ==>
      && f.size == DIRECTORY_BYTES && Within(s, id, DIRECTORY_BYTES)
      && IsDir(DirOf(s, f)) && ProperLinks(s.sb, Links(DirOf(s, f)), id)
  }

  /** All directories are good, apart from inode c. */
  ghost predicate GoodDirs(s: Fs, c: int) {
    && BlockLen(s.sb) > 0 && FitsInode(s.sb, DIRECTORY_BYTES)
    && forall id: nat :: id < InodeNum(s.sb) && id != c ==> GoodDir(s, id)
  }

  /** What holds in every reachable file system, as long as its writes find room. */
  ghost predicate TreeInv(s: Fs) {
    FsInv(s) && GoodDirs(s, -1)
  }

  lemma WithinIsEnough(len: nat, n: nat, owned: nat)
    requires len > 0 && n <= Start(len, owned)
    ensures BlocksOccupied(len, n) <= owned
  {
    BlocksOccupiedIsCeiling(len, n);
    if BlocksOccupied(len, n) > 0 {
      StartOrder(len, BlocksOccupied(len, n) - 1, owned);
    }
  }

  lemma StartOrder(len: nat, j: nat, i: nat)
    requires Start(len, j) < Start(len, i)
    ensures j < i
  {
    if i < j {
      StartMono(len, i, j);
    }
  }

  lemma WithinIsReadable(s: Fs, id: nat)
    requires FsInv(s) && id < InodeNum(s.sb) && Within(s, id, DIRECTORY_BYTES) && FitsInode(s.sb, DIRECTORY_BYTES)
    ensures Readable(s, InodeAt(s, id), DIRECTORY_BYTES)
  {
    var f := InodeAt(s, id);
    FsInvInode(s, id);
    WithinIsEnough(BlockLen(s.sb), DIRECTORY_BYTES, f.owned);
    forall i | 0 <= i < f.owned
      ensures f.blocks[i] < |s.disk|
    {
      assert InData(s.sb, f.blocks[i]);
    }
  }

  /** So paths can be resolved in every reachable file system. */
  lemma TreeInvIsDirTree(s: Fs)
    requires TreeInv(s)
    ensures DirTree(s) && Numbered(s)
  {
    forall id: nat | id < InodeNum(s.sb)
      ensures DirInode(s, InodeAt(s, id)) && InodeAt(s, id).id == id
    {
      FsInvInode(s, id);
      assert GoodDir(s, id);
      if InodeAt(s, id).kind == DIRECTORY {
        WithinIsReadable(s, id);
      }
    }
  }

  lemma GoodDirIsKept(s: Fs, t: Fs, id: nat)
    requires BlockLen(s.sb) > 0 && SameLayout(s.sb, t.sb) && GoodDir(s, id) && DirKept(s, t, id)
    ensures GoodDir(t, id)
  {
  }

  lemma OthersAreGood(s: Fs, t: Fs, q: nat, c: nat, e: int)
    requires BothKept(s, t, q, c) && GoodDirs(s, e)
    ensures forall id: nat :: id < InodeNum(t.sb) && id != q && id != c && id != e ==> GoodDir(t, id)
  {
    forall id: nat | id < InodeNum(t.sb) && id != q && id != c && id != e
      ensures GoodDir(t, id)
    {
      GoodDirIsKept(s, t, id);
    }
  }

  lemma KeptIsBothKept(s: Fs, t: Fs, c: nat)
    requires OthersKept(s, t, c)
    ensures BothKept(s, t, c, c)
  {
  }

  // ---- each operation

  /** A directory has been written to file id: it was the only one that was not good. */
  lemma WrittenTree(s: Fs, t: Fs, id: nat, d: Dir, kind: word, e: int)
    requires GoodDirs(s, e) && OthersKept(s, t, id) && Holds(t, id, kind, d)
    requires IsDir(d) && ProperLinks(s.sb, Links(d), id)
    ensures GoodDirs(t, if e == id then -1 else e)
  {
    KeptIsBothKept(s, t, id);
    OthersAreGood(s, t, id, id, e);
    assert ProperLinks(t.sb, Links(d), id);
    assert GoodDir(t, id);
  }

  lemma AddedLinks(sb: Super, links: seq<Link>, link: Link, p: nat)
    requires ProperLinks(sb, links, p) && Find(links, link.name) < 0 && |links| + 1 < MAX_FILES_IN_DIRECTORY
    requires IsName(link.name) && link.id < InodeNum(sb)
    ensures ProperLinks(sb, links + [link], p)
  {
    FindNone(links, link.name);
    AddKeepsForm(links, link);
  }

  /** What create_file does to the inode c and the directory p, one after the other. */
  lemma MakingSteps(s: Fs, t: Fs, links: seq<Link>, name: Name, w: Making, p: nat, c: nat)
    requires FsInv(s) && FileMade(s, t, links, name, w) && w.inode.owned == 0 && DirHasRoom(s)
    requires p == links[0].id && c == w.inode.id
    ensures OthersKept(s, w.mid, c) && InodeAt(w.mid, c) == w.inode && c < InodeNum(s.sb) && IsDir(w.dir)
    ensures FsInv(t) && OthersKept(w.mid, t, p) && Holds(t, p, InodeAt(w.mid, p).kind, w.dir)
    ensures Links(w.dir) == links + [Link(c, name)] && |FreeSet(t.sb)| == |FreeSet(s.sb)| - DirBlocks(s.sb)
  {
    InodeMade(s, w.mid, w.inode);
    DirWritten(w.mid, t, p, w.dir, w.out);
  }

  lemma MadeTree(s: Fs, m: Fs, f: Inode)
    requires GoodDirs(s, -1) && OthersKept(s, m, f.id) && InodeAt(m, f.id) == f
    ensures GoodDirs(m, if f.kind == DIRECTORY then f.id else -1)
  {
    KeptIsBothKept(s, m, f.id);
    OthersAreGood(s, m, f.id, f.id, -1);
  }

  lemma NameOfLast(d: Dir, links: seq<Link>, link: Link)
    requires IsDir(d) && Links(d) == links + [link]
    ensures IsName(link.name)
  {
    assert Links(d)[|links|] == link;
  }

  /** create_file keeps the tree, except that a new directory has no contents yet, unless it took the inode
      of its own parent. */
  lemma FileMadeTree(s: Fs, t: Fs, links: seq<Link>, name: Name, w: Making, p: nat, c: nat)
    requires TreeInv(s) && FileMade(s, t, links, name, w) && w.inode.owned == 0 && DirHasRoom(s) && c == w.inode.id
    requires ProperLinks(s.sb, links, p) && Find(links, name) < 0 && |links| + 1 < MAX_FILES_IN_DIRECTORY
    ensures FsInv(t) && SameLayout(s.sb, t.sb) && |FreeSet(t.sb)| == |FreeSet(s.sb)| - DirBlocks(s.sb)
    ensures GoodDirs(t, if w.inode.kind == DIRECTORY && c != p then c else -1)
  {
    MakingSteps(s, t, links, name, w, p, c);
    assert GoodDirs(w.mid, if w.inode.kind == DIRECTORY then c else -1) by {
      MadeTree(s, w.mid, w.inode);
    }
    assert ProperLinks(s.sb, Links(w.dir), p) by {
      NameOfLast(w.dir, links, Link(c, name));
      AddedLinks(s.sb, links, Link(c, name), p);
    }
    assert GoodDirs(t, if w.inode.kind == DIRECTORY && c != p then c else -1) by {
      WrittenTree(w.mid, t, p, w.dir, InodeAt(w.mid, p).kind, if w.inode.kind == DIRECTORY then c else -1);
    }
  }

  /** create_file of anything but a directory. */
  lemma FileMadeKeepsTree(s: Fs, t: Fs, links: seq<Link>, name: Name, w: Making, p: nat)
    requires TreeInv(s) && FileMade(s, t, links, name, w) && w.inode.owned == 0 && DirHasRoom(s)
    requires ProperLinks(s.sb, links, p) && Find(links, name) < 0 && |links| + 1 < MAX_FILES_IN_DIRECTORY
    requires w.inode.kind != DIRECTORY
    ensures TreeInv(t) && SameLayout(s.sb, t.sb)
  {
    FileMadeTree(s, t, links, name, w, p, w.inode.id);
  }

  lemma DotsAreProper(sb: Super, links: seq<Link>, c: word, p: word)
    requires links == [Link(c, DOT), Link(p, DOT_DOT)] && c < InodeNum(sb) && p < InodeNum(sb)
    ensures ProperLinks(sb, links, c)
  {
    assert |links[0].name| != |links[1].name|;
  }

  /** The contents of the new directory c. */
  lemma DottingSteps(s: Fs, t: Fs, links: seq<Link>, name: Name, w: Making, v: Dotting, p: nat, c: nat)
    requires FsInv(v.mid) && DirectoryMade(s, t, links, name, w, v) && DirHasRoom(v.mid)
    requires p == links[0].id && c == w.inode.id
    ensures FsInv(t) && OthersKept(v.mid, t, c) && Holds(t, c, InodeAt(v.mid, c).kind, v.dir) && IsDir(v.dir)
    ensures Links(v.dir) == [Link(c, DOT), Link(p, DOT_DOT)] && c < InodeNum(v.mid.sb)
  {
    DirWritten(v.mid, t, c, v.dir, v.out);
  }

  /** create_directory */
  lemma DirectoryMadeKeepsTree(s: Fs, t: Fs, links: seq<Link>, name: Name, w: Making, v: Dotting, p: nat)
    requires TreeInv(s) && DirectoryMade(s, t, links, name, w, v) && w.inode.owned == 0
    requires 2 * DirBlocks(s.sb) <= |FreeSet(s.sb)|
    requires ProperLinks(s.sb, links, p) && Find(links, name) < 0 && |links| + 1 < MAX_FILES_IN_DIRECTORY
    ensures TreeInv(t) && SameLayout(s.sb, t.sb)
  {
    var c := w.inode.id;
    assert && FsInv(v.mid) && SameLayout(s.sb, v.mid.sb) && DirHasRoom(v.mid)
           && GoodDirs(v.mid, if c != p then c else -1) by {
      FileMadeTree(s, v.mid, links, name, w, p, c);
    }
    DottingSteps(s, t, links, name, w, v, p, c);
    DotsAreProper(v.mid.sb, Links(v.dir), c, p);
    assert GoodDirs(t, -1) by {
      WrittenTree(v.mid, t, c, v.dir, InodeAt(v.mid, c).kind, if c != p then c else -1);
    }
  }

  lemma RemovedLinks(sb: Super, links: seq<Link>, name: Name, p: nat)
    requires ProperLinks(sb, links, p)
    ensures WellFormed(Without(links, name)) <==> name != DOT
    ensures name != DOT ==> ProperLinks(sb, Without(links, name), p) && Home(links, name) == p
  {
    DeleteKeepsForm(links, name);
  }

  /** sys_rm and sys_rmdir keep the tree exactly when the name is not ".", or what the first link leads to
      when "." is gone is no directory, or is the inode that is deleted. Otherwise that directory gets the
      contents of the one that lost its ".". */
  lemma UnlinkedKeepsTree(s: Fs, t: Fs, links: seq<Link>, name: Name, w: Removing, p: nat)
    requires TreeInv(s) && Unlinked(s, t, links, name, w) && DirHasRoom(s) && w.inode == InodeAt(s, w.inode.id)
    requires ProperLinks(s.sb, links, p)
    ensures FsInv(t) && SameLayout(s.sb, t.sb)
    ensures TreeInv(t) <==>
              name != DOT || Home(links, name) == w.inode.id || InodeAt(s, Home(links, name)).kind != DIRECTORY
  {
    var q, c := Home(links, name), w.inode.id;
    RemovedUnlinks(s, t, links, name, w, q, c);
    assert q < InodeNum(s.sb) by {
      HomeInTable(s.sb, links, name);
    }
    UnlinkedTree(s, t, links, name, w.dir, InodeAt(s, q).kind, p, q, c);
  }

  lemma UnlinkedTree(s: Fs, t: Fs, links: seq<Link>, name: Name, d: Dir, kind: word, p: nat, q: nat, c: nat)
    requires GoodDirs(s, -1) && BothKept(s, t, q, c) && InodeAt(t, c).kind == UNALLOCATED && q < InodeNum(s.sb)
    requires ProperLinks(s.sb, links, p) && q == Home(links, name) && IsDir(d) && Links(d) == Without(links, name)
    requires q != c ==> Holds(t, q, kind, d)
    ensures GoodDirs(t, -1) <==> name != DOT || q == c || kind != DIRECTORY
  {
    assert forall id: nat :: id < InodeNum(t.sb) && id != q && id != c ==> GoodDir(t, id) by {
      OthersAreGood(s, t, q, c, -1);
    }
    RemovedLinks(s.sb, links, name, p);
    assert GoodDir(t, c);
    assert q != c ==> (GoodDir(t, q) <==> name != DOT || kind != DIRECTORY) by {
      assert name != DOT ==> ProperLinks(t.sb, Links(d), q);
    }
  }

  /** Writing a file that is no directory keeps the tree. */
  lemma WrittenKeepsTree(s: Fs, t: Fs, id: nat, data: seq<byte>)
    requires TreeInv(s) && FsNext(s, Write(id, data), t) && HasRoom(s, Write(id, data))
    requires InodeAt(s, id).kind != DIRECTORY
    ensures TreeInv(t) && SameLayout(s.sb, t.sb)
  {
    StepKeepsInv(s, Write(id, data), t);
    SameFieldsSameLayout(s.sb, t.sb);
    StepKeepsOthers(s, Write(id, data), t);
    KeptIsBothKept(s, t, id);
    OthersAreGood(s, t, id, id, -1);
    FsInvInode(s, id);
    WroteReplaces(s, t, InodeAt(s, id), data, InodeAt(t, id));
    assert GoodDir(t, id);
  }

  // ---- the root directory

  lemma FormattedIsTree(s: Fs)
    requires Formatted(s, InodeNum(s.sb)) && SuperOnDisk(s) && FitsInode(s.sb, DIRECTORY_BYTES)
    ensures TreeInv(s) && |FreeSet(s.sb)| == AllocEnd(s.sb) - DataStart(s.sb)
  {
    FormattedIsSound(s);
    FreeOrMarked(s.sb);
  }

  /** The root directory that init_disk makes is inode 0, and with it the tree is there, exactly when the
      disk has room for one directory in the blocks that can be marked. */
  lemma RootMadeIsTree(s: Fs, t: Fs, f: Inode, v: Dotting)
    requires Formatted(s, InodeNum(s.sb)) && SuperOnDisk(s) && FitsInode(s.sb, DIRECTORY_BYTES)
    requires RootMade(s, t, f, v) && f.owned == 0
    ensures SameLayout(s.sb, t.sb) && f.id == 0
    ensures TreeInv(t) <==> DirBlocks(s.sb) <= AllocEnd(s.sb) - DataStart(s.sb)
    ensures TreeInv(t) ==>
              && Holds(t, 0, DIRECTORY, v.dir)
              && |FreeSet(t.sb)| == AllocEnd(s.sb) - DataStart(s.sb) - DirBlocks(s.sb)
  {
    FormattedIsTree(s);
    InodeMade(s, v.mid, f);
    MadeTree(s, v.mid, f);
    SameFieldsSameLayout(v.mid.sb, t.sb);
    if DirBlocks(s.sb) <= |FreeSet(s.sb)| {
      DirWritten(v.mid, t, 0, v.dir, v.out);
      DotsAreProper(v.mid.sb, Links(v.dir), 0, 0);
      WrittenTree(v.mid, t, 0, v.dir, DIRECTORY, 0);
    } else {
      FsInvInode(v.mid, 0);
      WroteKeepsInv(v.mid, t, f, DirBytes(v.dir), v.out);
    }
  }
}
