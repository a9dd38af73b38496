/** init_disk (fs.c), and what a new disk is like. */
module NewDisk {
  import opened Words
  import opened Storage
  import opened Superblock
  import opened Inodes
  import opened Writes
  import opened Ownership
  import opened FileSystem
  import opened Directories
  import opened Paths
  import opened FileOps
  import opened FileTree
  import opened Tree
  import opened RootCopy

  lemma FormattedIsNumbered(s: Fs)
    requires Formatted(s, InodeNum(s.sb))
    ensures Numbered(s) && FreeInodeFrom(s.sb, 0) == if InodeNum(s.sb) > 0 then 0 else -1
  {
  }

  /** A new disk can be mounted, and the root directory in memory is that on the disk, exactly when there is
      room for one directory among the blocks that can be marked. Only the root's inode is taken then. */
  lemma NewDiskIsMounted(s: Fs, t: Fs, f: Inode, v: Dotting)
    requires Formatted(s, InodeNum(s.sb)) && SuperOnDisk(s) && FitsInode(s.sb, DIRECTORY_BYTES)
    requires RootMade(s, t, f, v) && f.owned == 0
    ensures MountInv(Mount(t, v.dir)) <==> DirBlocks(s.sb) <= AllocEnd(s.sb) - DataStart(s.sb)
    ensures MountInv(Mount(t, v.dir)) ==>
              && Coherent(Mount(t, v.dir)) && Links(v.dir) == [Link(0, DOT), Link(0, DOT_DOT)] && SameLayout(s.sb, t.sb)
              && |FreeSet(t.sb)| == AllocEnd(s.sb) - DataStart(s.sb) - DirBlocks(s.sb)
              && forall id: nat :: id < InodeNum(t.sb) ==> (InodeMarked(t.sb, id) <==> id == 0)
  {
    RootMadeIsTree(s, t, f, v);
    DotsAreProper(s.sb, Links(v.dir), 0, 0);
    CreatedMarks(s, v.mid, f);
  }

  /** init_disk. The disk s is formatted first, and then it gets its root directory, if there is an inode for
      it and directories fit into inodes. */
  method InitDisk(fs: FileSystem, len: nat, stray: Inode)
    returns (status: int, root: Dir, ghost s: Fs, ghost v: Dotting)
    requires fs.Valid() && MIN_BLOCK_LENGTH <= len <= MAX_BLOCK_LEN && fs.disk.Length < WORD_LIMIT
    requires forall a :: 0 <= a < fs.disk.Length ==> |fs.disk[a]| == len
    requires Start(BlocksOccupied(len, INODE_BYTES), InodesFor(fs.disk.Length)) + BlocksOccupied(len, SUPER_BYTES)
             <= fs.disk.Length
    modifies fs.disk, fs.sb
    ensures Layout(s.sb, fs.disk.Length, len) && Formatted(s, InodeNum(s.sb)) && Good(fs.St())
    ensures fs.disk.Length < MAX_INODE_BLOCKS ==> status == -1 && fs.St() == s
    ensures fs.disk.Length >= MAX_INODE_BLOCKS ==>
              && SuperOnDisk(s)
              && var f := stray.(id := 0, kind := DIRECTORY, created := 1);
                 if FitsInode(s.sb, DIRECTORY_BYTES) then status == 0 && RootMade(s, fs.St(), f, v) && root == v.dir
                 else status == -1 && Created(s, fs.St(), f)
    ensures status == 0 && stray.owned == 0 ==>
              (MountInv(Mount(fs.St(), root)) <==> DirBlocks(s.sb) <= AllocEnd(s.sb) - DataStart(s.sb))
  {
    status := fs.Format(len);
    s := fs.St();
    FormattedIsNumbered(s);
    var dir := new Directory();
    status, v := CreateRootDirectory(fs, dir, stray, s);
    root := dir.Value();
    if status == 0 && stray.owned == 0 {
      NewDiskIsMounted(s, fs.St(), stray.(id := 0, kind := DIRECTORY, created := 1), v);
    }
  }

  /** In every state that calls can reach from a new disk with room for its root directory, paths can be
      resolved, and the root directory in memory is that on the disk exactly when it is up to date. */
  lemma ReachableFromNewDisk(s: Fs, f: Inode, v: Dotting, xs: seq<Mount>, calls: seq<Call>, i: nat)
    requires Formatted(s, InodeNum(s.sb)) && SuperOnDisk(s) && FitsInode(s.sb, DIRECTORY_BYTES)
    requires DirBlocks(s.sb) <= AllocEnd(s.sb) - DataStart(s.sb) && f.owned == 0
    requires MountRun(xs, calls) && i <= |calls| && RootMade(s, xs[0].fs, f, v) && xs[0].root == v.dir
    requires forall j :: 0 <= j < i ==> UsesCopy(xs[j], calls[j])
    ensures MountInv(xs[i]) && DirTree(xs[i].fs) && (Coherent(xs[i]) <==> UpToDate(true, calls, i))
  {
    assert MountInv(xs[0]) && Coherent(xs[0]) by {
      NewDiskIsMounted(s, xs[0].fs, f, v);
      assert xs[0] == Mount(xs[0].fs, v.dir);
    }
    RunCoherence(xs, calls, i);
    PathsResolve(xs, calls, i);
  }
}
