/** The operations of fs.c that work on directories and the disk together. */
module FileOps {
  import opened Words
  import opened Storage
  import opened Superblock
  import opened Inodes
  import opened Writes
  import opened FileSystem
  import opened Directories
  import opened Paths

  /** The links lead to inodes of the table. */
  predicate LinksInTable(sb: Super, links: seq<Link>) {
    forall i :: 0 <= i < |links| ==> links[i].id < InodeNum(sb)
  }

  /** If f is a directory it can be read, and its links lead to inodes of the table. */
  predicate DirInode(s: Fs, f: Inode)
    requires BlockLen(s.sb) > 0
  {
    f.kind == DIRECTORY ==> IsReadableDir(s, f) && LinksInTable(s.sb, Links(DirOf(s, f)))
  }

  predicate IsReadableDir(s: Fs, f: Inode)
    requires BlockLen(s.sb) > 0
  {
    f.kind == DIRECTORY && FitsInode(s.sb, DIRECTORY_BYTES) && Readable(s, f, DIRECTORY_BYTES)
  }

  /** This holds of every inode. */
  ghost predicate DirTree(s: Fs) {
    BlockLen(s.sb) > 0 && forall id: nat :: id < InodeNum(s.sb) ==> DirInode(s, InodeAt(s, id))
  }

  /** A directory fits into the direct blocks of an inode exactly on disks with blocks of at least 174
      bytes. */
  lemma DirectoriesFit(sb: Super)
    requires BlockLen(sb) > 0
    ensures FitsInode(sb, DIRECTORY_BYTES) <==> BlockLen(sb) >= 174
  {
    var len := BlockLen(sb);
    var b := BlocksOccupied(len, DIRECTORY_BYTES);
    BlocksOccupiedIsCeiling(len, DIRECTORY_BYTES);
    StartIsProduct(len, 6);
    if b > 6 {
      StartMono(len, 5, b - 1);
    } else if b < 6 {
      StartMono(len, b, 6);
    }
  }

  /** The names that path_to_inode_id goes through: a path without names stands for ".". */
  function Parts(path: Path): (r: seq<Name>)
    ensures r != []
  {
    if Tokens(path) == [] then [DOT] else Tokens(path)
  }

  /** The inode that path_to_inode_id answers, from a directory with the links start. */
  function PathId(s: Fs, start: seq<Link>, stray: Inode, path: Path): int
    requires BlockLen(s.sb) > 0
  {
    Walk(s, start, stray, Parts(path))
  }

  lemma FindInTable(s: Fs, links: seq<Link>, name: Name)
    requires Good(s) && LinksInTable(s.sb, links)
    ensures Find(links, name) < InodeNum(s.sb) && (Find(links, name) >= 0 ==> OnDisk(s, Find(links, name)))
  {
    if Find(links, name) >= 0 {
      TableIsOnDisk(s, Find(links, name));
    }
  }

  /** read_dir */
  method ReadDir(fs: FileSystem, f: Inode) returns (status: int, d: Dir)
    requires fs.Valid() && Good(fs.St())
    ensures if IsReadableDir(fs.St(), f) then status == DISK_SUCCESS && d == DirOf(fs.St(), f)
            else status == DISK_FAILURE
  {
    d := Dir(0, []);
    if f.kind != DIRECTORY {
      return DISK_FAILURE, d;
    }
    var bytes;
    status, bytes := fs.ReadFromInode(f, DIRECTORY_BYTES);
    if status >= 0 {
      d := BytesDir(bytes);
    }
  }

  /** path_to_inode_id, from a directory with the links start; stray is what the uninitialised inode on
      the stack holds. */
  method PathToInodeId(fs: FileSystem, start: seq<Link>, path: Path, stray: Inode) returns (id: int)
    requires fs.Valid() && Good(fs.St()) && DirTree(fs.St())
    requires LinksInTable(fs.St().sb, start) && DirInode(fs.St(), stray)
    ensures id == PathId(fs.St(), start, stray, path)
    ensures if Tokens(path) == [] then id == Find(start, DOT) else id == Walk(fs.St(), start, stray, Tokens(path))
  {
    ghost var s := fs.St();
    var parts := Parts(path);
    var links, f, i := start, stray, 0;
    id := -1;
    while i < |parts|
      invariant 0 <= i <= |parts| && LinksInTable(s.sb, links) && DirInode(s, f)
      invariant if i < |parts| then Walk(s, links, f, parts[i..]) == Walk(s, start, stray, parts)
                else id == Walk(s, start, stray, parts)
    {
      id := Find(links, parts[i]);
      FindInTable(s, links, parts[i]);
      assert parts[i..][1..] == parts[i + 1..];
      i := i + 1;
      var status, g := fs.ReadInode(id);
      if status >= 0 {
        f := g;
      }
      if f.kind == DIRECTORY {
        var d;
        status, d := ReadDir(fs, f);
        links := Links(d);
      } else {
        break;
      }
    }
    if i < |parts| {
      id := -1;
    }
  }

  // ---- changing a directory

  /** A formatted disk on which every inode of the table carries its own id, as in every sound file system. */
  ghost predicate Numbered(s: Fs) {
    Good(s) && forall id: nat :: id < InodeNum(s.sb) ==> InodeAt(s, id).id == id
  }

  lemma CreatedIsNumbered(s: Fs, t: Fs, f: Inode)
    requires Created(s, t, f) && Numbered(s)
    ensures SameLayout(s.sb, t.sb) && Numbered(t)
  {
    MarkInodeEffect(s.sb, f.id);
    var u := Fs(MarkInode(s.sb, f.id), s.disk);
    SameFieldsSameLayout(u.sb, t.sb);
    forall id: nat | id < InodeNum(s.sb)
      ensures InodeAt(t, id).id == id
    {
      InodeFrame(s, u, id);
    }
  }

  lemma WroteIsNumbered(s: Fs, t: Fs, f: Inode, data: seq<byte>, g: Inode)
    requires Wrote(s, t, f, data, g) && Numbered(s)
    ensures SameLayout(s.sb, t.sb) && Numbered(t)
  {
  }

  /** From s to t: the directory d has been written to file id, whose inode is g now. */
  ghost predicate DirStored(s: Fs, t: Fs, id: nat, d: Dir, g: Inode) {
    IsDir(d) && Numbered(s) && id < InodeNum(s.sb) && Wrote(s, t, InodeAt(s, id), DirBytes(d), g)
  }

  /** write_dir: the directory goes into the file of its "." link, if directories fit into inodes. */
  method WriteDir(fs: FileSystem, dir: Directory, ghost s: Fs, ghost d: Dir) returns (id: int, ghost g: Inode)
    requires fs.Valid() && Numbered(s) && s == fs.St()
    requires dir.Valid() && d == dir.Value() && d.slots[0].id < InodeNum(s.sb)
    modifies fs.disk, fs.sb
    ensures Numbered(fs.St()) && SameLayout(s.sb, fs.St().sb)
    ensures if FitsInode(s.sb, DIRECTORY_BYTES) then id == d.slots[0].id && DirStored(s, fs.St(), id, d, g)
            else id == -1 && fs.St() == s
  {
    var self := dir.links[0].id;
    TableIsOnDisk(s, self);
    var status, f := fs.ReadInode(self);
    status, g := fs.WriteToInode(f, DirBytes(dir.Value()));
    if FitsInode(s.sb, DIRECTORY_BYTES) {
      WroteIsNumbered(s, fs.St(), f, DirBytes(d), g);
    }
    id := if status < 0 then -1 else self;
  }

  /** create_file goes ahead: the name is new, two slots are left and so is an inode. */
  predicate CanCreate(sb: Super, links: seq<Link>, name: Name) {
    Find(links, name) < 0 && |links| + 1 < MAX_FILES_IN_DIRECTORY && FreeInodeFrom(sb, 0) >= 0
  }

  /** The directory d after a link has been added to it. */
  predicate Added(d: Dir, links: seq<Link>, id: int, name: Name) {
    && 0 < d.count <= |d.slots| && 0 <= id < WORD_LIMIT && d.slots[..d.count] == links + [Link(id, name)]
  }

  /** The directory d of a new directory id in its parent. */
  predicate Linked(d: Dir, id: int, parent: word) {
    && 0 < d.count <= |d.slots| && 0 <= id < WORD_LIMIT
    && d.slots[..d.count] == [Link(id, DOT), Link(parent, DOT_DOT)]
  }

  /** What making a file goes through: the state with the new inode, that inode, the directory with the new
      link, and the directory's own inode after it has been written. */
  datatype Making = Making(mid: Fs, inode: Inode, dir: Dir, out: Inode)

  /** From s to t: the inode was made, and the directory with the given links was written with a link to it. */
  ghost predicate FileMade(s: Fs, t: Fs, links: seq<Link>, name: Name, w: Making) {
    && links != [] && Created(s, w.mid, w.inode) && Added(w.dir, links, w.inode.id, name)
    && DirStored(w.mid, t, links[0].id, w.dir, w.out)
  }

  /** What a new directory goes through after that: the state before it gets its contents, the contents, and
      its inode afterwards. */
  datatype Dotting = Dotting(mid: Fs, dir: Dir, out: Inode)

  /** From s to t: a directory was made and got "." and ".." as contents. */
  ghost predicate DirectoryMade(s: Fs, t: Fs, links: seq<Link>, name: Name, w: Making, v: Dotting) {
    && FileMade(s, v.mid, links, name, w) && w.inode.kind == DIRECTORY
    && Linked(v.dir, w.inode.id, links[0].id) && DirStored(v.mid, t, w.inode.id, v.dir, v.out)
  }

  /** create_file: a new inode, a link to it in the directory, and the directory is written back. When
      directories do not fit into inodes it fails after the first two. */
  method CreateFile(fs: FileSystem, dir: Directory, name: Name, kind: word, stray: Inode, ghost s: Fs,
                    ghost links: seq<Link>)
    returns (id: int, ghost w: Making)
    requires fs.Valid() && Numbered(s) && s == fs.St()
    requires dir.Valid() && links == dir.Entries() && links != [] && links[0].id < InodeNum(s.sb) && IsName(name)
    modifies fs.disk, fs.sb, dir, dir.links
    ensures dir.Valid() && dir.count > 0 && dir.links[0] == links[0]
    ensures Numbered(fs.St()) && SameLayout(s.sb, fs.St().sb)
    ensures var free := FreeInodeFrom(s.sb, 0);
            if !CanCreate(s.sb, links, name) then id == -1 && fs.St() == s && dir.Entries() == links
            else && w.inode == stray.(id := free, kind := kind, created := 1) && w.dir == dir.Value()
                 && if FitsInode(s.sb, DIRECTORY_BYTES) then id == free && FileMade(s, fs.St(), links, name, w)
                    else id == -1 && Created(s, fs.St(), w.inode)
  {
    id := dir.Lookup(name);
    w := Making(s, stray, dir.Value(), stray);
    if id >= 0 || dir.count + 1 >= MAX_FILES_IN_DIRECTORY {
      id := -1;
      return;
    }
    id := fs.CreateInode(kind, stray);
    if id < 0 {
      return;
    }
    w := w.(mid := fs.St(), inode := stray.(id := id, kind := kind, created := 1));
    CreatedIsNumbered(s, w.mid, w.inode);
    var self;
    ghost var g;
    self, g := AddAndStore(fs, dir, id, name, w.mid, links);
    w := w.(dir := dir.Value(), out := g);
    if self < 0 {
      id := -1;
    }
  }

  /** The end of create_file: the link is added to the directory and the directory is written back. */
  method AddAndStore(fs: FileSystem, dir: Directory, id: word, name: Name, ghost s: Fs, ghost links: seq<Link>)
    returns (self: int, ghost g: Inode)
    requires fs.Valid() && Numbered(s) && s == fs.St()
    requires dir.Valid() && dir.count + 1 < MAX_FILES_IN_DIRECTORY && IsName(name)
    requires links == dir.Entries() && links != [] && links[0].id < InodeNum(s.sb)
    modifies fs.disk, fs.sb, dir, dir.links
    ensures dir.Valid() && Added(dir.Value(), links, id, name) && dir.links[0] == links[0]
    ensures Numbered(fs.St()) && SameLayout(s.sb, fs.St().sb)
    ensures if FitsInode(s.sb, DIRECTORY_BYTES) then self >= 0 && DirStored(s, fs.St(), links[0].id, dir.Value(), g)
            else self == -1 && fs.St() == s
  {
    dir.AddLink(id, name);
    assert dir.links[0] == links[0] by {
      assert dir.links[0] == dir.Entries()[0];
    }
    self, g := WriteDir(fs, dir, s, dir.Value());
  }

  /** The second half of create_directory: the contents of the new directory. */
  method StartDirectory(fs: FileSystem, dir: Directory, self: word, parent: word, ghost s: Fs)
    returns (id: int, ghost h: Inode)
    requires fs.Valid() && Numbered(s) && s == fs.St() && dir.Valid() && self < InodeNum(s.sb)
    modifies fs.disk, fs.sb, dir, dir.links
    ensures dir.Valid() && Linked(dir.Value(), self, parent)
    ensures Numbered(fs.St()) && SameLayout(s.sb, fs.St().sb)
    ensures if FitsInode(s.sb, DIRECTORY_BYTES) then id == self && DirStored(s, fs.St(), self, dir.Value(), h)
            else id == -1 && fs.St() == s
  {
    dir.StartWith(self, parent);
    assert dir.Value().slots[0].id == self by {
      assert dir.Value().slots[0] == dir.Entries()[0];
    }
    id, h := WriteDir(fs, dir, s, dir.Value());
  }

  /** The same for the child that create_file has made in its parent directory since s. */
  method StartChild(fs: FileSystem, parent: Directory, dir: Directory, self: word, ghost s: Fs,
                    ghost links: seq<Link>, ghost name: Name, ghost w: Making)
    returns (id: int, ghost v: Dotting)
    requires fs.Valid() && Numbered(fs.St()) && FitsInode(fs.St().sb, DIRECTORY_BYTES) && dir.Valid()
    requires parent.Valid() && dir != parent && dir.links != parent.links && self == w.inode.id < InodeNum(fs.St().sb)
    requires links != [] && parent.links[0] == links[0]
    requires FileMade(s, fs.St(), links, name, w) && w.inode.kind == DIRECTORY
    modifies fs.disk, fs.sb, dir, dir.links
    ensures parent.Valid() && dir.Valid() && Numbered(fs.St()) && SameLayout(old(fs.St()).sb, fs.St().sb)
    ensures id == self && DirectoryMade(s, fs.St(), links, name, w, v)
  {
    ghost var u := fs.St();
    ghost var h;
    id, h := StartDirectory(fs, dir, self, parent.links[0].id, u);
    v := Dotting(u, dir.Value(), h);
  }

  /** create_directory: a new file of the parent directory, which then gets "." and ".." as contents. */
  method CreateDirectory(fs: FileSystem, parent: Directory, name: Name, dir: Directory, stray: Inode, ghost s: Fs,
                         ghost links: seq<Link>)
    returns (id: int, ghost w: Making, ghost v: Dotting)
    requires fs.Valid() && Numbered(s) && s == fs.St()
    requires parent.Valid() && links == parent.Entries() && links != [] && links[0].id < InodeNum(s.sb) && IsName(name)
    requires dir.Valid() && dir != parent && dir.links != parent.links
    modifies fs.disk, fs.sb, parent, parent.links, dir, dir.links
    ensures parent.Valid() && dir.Valid() && Numbered(fs.St()) && SameLayout(s.sb, fs.St().sb)
    ensures !CanCreate(s.sb, links, name) ==> id == -1 && fs.St() == s && parent.Entries() == links
    ensures CanCreate(s.sb, links, name) ==>
              w.inode == stray.(id := FreeInodeFrom(s.sb, 0), kind := DIRECTORY, created := 1)
    ensures CanCreate(s.sb, links, name) && FitsInode(s.sb, DIRECTORY_BYTES) ==>
              id == FreeInodeFrom(s.sb, 0) && DirectoryMade(s, fs.St(), links, name, w, v)
    ensures CanCreate(s.sb, links, name) && !FitsInode(s.sb, DIRECTORY_BYTES) ==>
              id == -1 && Created(s, fs.St(), w.inode)
  {
    id, w := CreateFile(fs, parent, name, DIRECTORY, stray, s, links);
    v := Dotting(fs.St(), dir.Value(), stray);
    if id >= 0 {
      id, v := StartChild(fs, parent, dir, id, s, links, name, w);
    }
  }

  /** From s to t: the root directory was made, which is its own parent; f is its new inode. */
  ghost predicate RootMade(s: Fs, t: Fs, f: Inode, v: Dotting) {
    && Created(s, v.mid, f) && f.kind == DIRECTORY && Linked(v.dir, f.id, f.id)
    && DirStored(v.mid, t, f.id, v.dir, v.out)
  }

  /** create_root_directory */
  method CreateRootDirectory(fs: FileSystem, dir: Directory, stray: Inode, ghost s: Fs)
    returns (status: int, ghost v: Dotting)
    requires fs.Valid() && Numbered(s) && s == fs.St() && dir.Valid()
    modifies fs.disk, fs.sb, dir, dir.links
    ensures dir.Valid() && Numbered(fs.St()) && SameLayout(s.sb, fs.St().sb)
    ensures var free := FreeInodeFrom(s.sb, 0);
            if free < 0 then status == -1 && fs.St() == s
            else var f := stray.(id := free, kind := DIRECTORY, created := 1);
                 if FitsInode(s.sb, DIRECTORY_BYTES)
                 then status == free && RootMade(s, fs.St(), f, v) && dir.Value() == v.dir
                 else status == -1 && Created(s, fs.St(), f)
  {
    v := Dotting(s, dir.Value(), stray);
    status := fs.CreateInode(DIRECTORY, stray);
    if status < 0 {
      return;
    }
    v := v.(mid := fs.St());
    CreatedIsNumbered(s, v.mid, stray.(id := status, kind := DIRECTORY, created := 1));
    ghost var h;
    status, h := StartDirectory(fs, dir, status, status, v.mid);
    v := v.(dir := dir.Value(), out := h);
  }

  // ---- removing a file

  /** What removing a file goes through: the state with the link gone, the inode as it was read before, the
      directory without the link, and the directory's own inode after it has been written. */
  datatype Removing = Removing(mid: Fs, inode: Inode, dir: Dir, out: Inode)

  /** From s to t: the directory with the given links was written without the name, and then the inode was
      deleted. */
  ghost predicate Unlinked(s: Fs, t: Fs, links: seq<Link>, name: Name, w: Removing) {
    && |w.dir.slots| == MAX_FILES_IN_DIRECTORY && w.dir.count <= |w.dir.slots|
    && w.dir.slots[..w.dir.count] == Without(links, name)
    && links != [] && DirStored(s, w.mid, Home(links, name), w.dir, w.out) && Deleted(w.mid, t, w.inode)
  }

  /** The block list of an inode can be gone through by delete_inode. */
  predicate IsDeletable(sb: Super, f: Inode) {
    && f.id < InodeNum(sb) && f.owned <= MAX_INODE_BLOCKS
    && forall i :: 0 <= i < f.owned ==> f.blocks[i] < MAX_NUMBER_OF_BLOCKS
  }

  lemma HomeInTable(sb: Super, links: seq<Link>, name: Name)
    requires LinksInTable(sb, links) && links != []
    ensures Home(links, name) < InodeNum(sb)
  {
  }

  /** delete_file_link and write_dir, as sys_rm and sys_rmdir call them. */
  method Unlink(fs: FileSystem, dir: Directory, name: Name, ghost s: Fs, ghost links: seq<Link>)
    returns (found: int, id: int, ghost g: Inode)
    requires fs.Valid() && Numbered(s) && s == fs.St()
    requires dir.Valid() && links == dir.Entries() && links != [] && LinksInTable(s.sb, links)
    modifies fs.disk, fs.sb, dir, dir.links
    ensures dir.Valid() && dir.Entries() == Without(links, name) && found == if Find(links, name) < 0 then -1 else 0
    ensures Numbered(fs.St()) && SameLayout(s.sb, fs.St().sb)
    ensures if FitsInode(s.sb, DIRECTORY_BYTES)
            then id >= 0 && DirStored(s, fs.St(), Home(links, name), dir.Value(), g)
            else id == -1 && fs.St() == s
  {
    found := dir.DeleteLink(name);
    HomeInTable(s.sb, links, name);
    id, g := WriteDir(fs, dir, s, dir.Value());
  }

  /** The end of sys_rm, once the directory and the inode of the file have been found. */
  method RemoveFile(fs: FileSystem, dir: Directory, name: Name, f: Inode, ghost s: Fs, ghost links: seq<Link>)
    returns (status: int, ghost w: Removing)
    requires fs.Valid() && Numbered(s) && s == fs.St() && IsDeletable(s.sb, f)
    requires dir.Valid() && links == dir.Entries() && links != [] && LinksInTable(s.sb, links) && Find(links, name) >= 0
    modifies fs.disk, fs.sb, dir, dir.links
    ensures if FitsInode(s.sb, DIRECTORY_BYTES)
            then status == 0 && w.inode == f && Unlinked(s, fs.St(), links, name, w)
            else status == -1 && fs.St() == s
  {
    var found, id;
    ghost var g;
    found, id, g := Unlink(fs, dir, name, s, links);
    w := Removing(fs.St(), f, dir.Value(), g);
    if found < 0 || id < 0 {
      return -1, w;
    }
    status := fs.DeleteInode(f);
  }

  /** The end of sys_rmdir: neither a missing name nor a directory that cannot be written stops it. */
  method RemoveDirectory(fs: FileSystem, dir: Directory, name: Name, f: Inode, ghost s: Fs, ghost links: seq<Link>)
    returns (status: int, ghost w: Removing)
    requires fs.Valid() && Numbered(s) && s == fs.St() && IsDeletable(s.sb, f)
    requires dir.Valid() && links == dir.Entries() && links != [] && LinksInTable(s.sb, links)
    modifies fs.disk, fs.sb, dir, dir.links
    ensures status == 0
    ensures if FitsInode(s.sb, DIRECTORY_BYTES) then w.inode == f && Unlinked(s, fs.St(), links, name, w)
            else Deleted(s, fs.St(), f)
  {
    var found, id;
    ghost var g;
    found, id, g := Unlink(fs, dir, name, s, links);
    w := Removing(fs.St(), f, dir.Value(), g);
    status := fs.DeleteInode(f);
  }
}
