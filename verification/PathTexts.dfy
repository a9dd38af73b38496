/** What path_to_inode_id answers for the text of a path, and what the calls that make and remove files do to
    those answers. */
module PathTexts {
  import opened Words
  import opened Bitmap
  import opened Superblock
  import opened Inodes
  import opened Writes
  import opened Ownership
  import opened FsRuns
  import opened OpenFiles
  import opened Directories
  import opened Paths
  import opened FileOps
  import opened FileTree
  import opened Tree
  import opened RootCopy
  import opened FileSystemCalls

  // ---- texts

  lemma {:induction false} TrailingSlash(path: Path)
    ensures Tokens(path + [SLASH]) == Tokens(path)
    decreases |path|
  {
    if path == [] {
      assert (path + [SLASH])[1..] == [];
    } else if path[0] == SLASH {
      assert (path + [SLASH])[1..] == path[1..] + [SLASH];
      TrailingSlash(path[1..]);
    } else {
      var h := Head(path);
      HeadOfLonger(path, [SLASH]);
      assert (path + [SLASH])[|h|..] == path[|h|..] + [SLASH];
      TrailingSlash(path[|h|..]);
    }
  }

  /** Slashes at the ends of a path make no difference to the answer. A path without names is the starting
      directory's own ".", and a name alone is looked up there. */
  lemma ShortPaths(s: Fs, start: seq<Link>, stray: Inode, path: Path, name: Name)
    requires BlockLen(s.sb) > 0 && name != [] && SLASH !in name
    ensures PathId(s, start, stray, []) == Find(start, [46])
    ensures PathId(s, start, stray, name) == Find(start, name)
    ensures PathId(s, start, stray, [47] + path) == PathId(s, start, stray, path)
    ensures PathId(s, start, stray, path + [47]) == PathId(s, start, stray, path)
  {
    NameIsItsToken(name);
    assert ([SLASH] + path)[1..] == path;
    TrailingSlash(path);
  }

  /** When the loop of path_to_inode_id has found a directory it goes on from there. */
  lemma {:induction false} WalkAppend(s: Fs, links: seq<Link>, f: Inode, parts: seq<Name>, more: seq<Name>)
    requires BlockLen(s.sb) > 0 && parts != [] && more != [] && Walk(s, links, f, parts) >= 0
    ensures var g := InodeAt(s, Walk(s, links, f, parts));
            Walk(s, links, f, parts + more) ==
              if g.kind == DIRECTORY then Walk(s, Links(DirOf(s, g)), g, more) else -1
    decreases |parts|
  {
    var all := parts + more;
    assert all[1..] == parts[1..] + more;
    if |parts| > 1 {
      var id := Find(links, parts[0]);
      var g := if id < 0 then f else InodeAt(s, id);
      WalkAppend(s, Links(DirOf(s, g)), g, parts[1..], more);
    } else {
      assert all[1..] == more;
    }
  }

  /** A path that leads to a directory, a slash and a name lead to what that directory has under the name; behind
      a file there is nothing. */
  lemma PathThenName(s: Fs, start: seq<Link>, stray: Inode, path: Path, name: Name)
    requires BlockLen(s.sb) > 0 && name != [] && SLASH !in name && Tokens(path) != []
    requires PathId(s, start, stray, path) >= 0
    ensures var f := InodeAt(s, PathId(s, start, stray, path));
            PathId(s, start, stray, path + [SLASH] + name) ==
              if f.kind == DIRECTORY then Find(Links(DirOf(s, f)), name) else -1
  {
    TokensAppend(path, name);
    WalkAppend(s, start, stray, Tokens(path), [name]);
  }

  /** A missing name in the middle of a path is skipped. */
  lemma MissingInPath(s: Fs, start: seq<Link>, stray: Inode, path: Path, missing: Name, name: Name)
    requires BlockLen(s.sb) > 0 && name != [] && SLASH !in name && missing != [] && SLASH !in missing
    requires Tokens(path) != [] && PathId(s, start, stray, path) >= 0
    requires Find(Links(DirOf(s, InodeAt(s, PathId(s, start, stray, path)))), missing) < 0
    ensures PathId(s, start, stray, path + [SLASH] + missing + [SLASH] + name)
            == PathId(s, start, stray, path + [SLASH] + name)
  {
    TokensAppend(path, name);
    TokensAppend(path, missing);
    TokensAppend(path + [SLASH] + missing, name);
    WalkAppend(s, start, stray, Tokens(path), [name]);
    WalkAppend(s, start, stray, Tokens(path), [missing, name]);
    assert Tokens(path) + [missing] + [name] == Tokens(path) + [missing, name];
  }

  // ---- what making a file does to paths

  /** Whatever was found among the links before is found now. */
  ghost predicate LinksGrow(before: seq<Link>, after: seq<Link>) {
    forall name :: Find(before, name) >= 0 ==> Find(after, name) == Find(before, name)
  }

  ghost predicate DirGrows(s: Fs, t: Fs, id: nat)
    requires BlockLen(s.sb) > 0 && BlockLen(t.sb) > 0
  {
    && InodeAt(t, id).kind == DIRECTORY
    && LinksGrow(Links(DirOf(s, InodeAt(s, id))), Links(DirOf(t, InodeAt(t, id))))
  }

  /** All directories are still there, and so is whatever was found in them. */
  ghost predicate TreeGrows(s: Fs, t: Fs) {
    && BlockLen(s.sb) > 0 && BlockLen(t.sb) > 0
    && forall id: nat :: id < InodeNum(s.sb) && InodeAt(s, id).kind == DIRECTORY ==> DirGrows(s, t, id)
  }

  /** So every path means what it meant. */
  lemma {:induction false} ResolveGrows(s: Fs, t: Fs, before: seq<Link>, after: seq<Link>, parts: seq<Name>)
    requires Good(s) && DirTree(s) && LinksInTable(s.sb, before) && TreeGrows(s, t) && LinksGrow(before, after)
    requires parts != [] && Resolve(s, before, parts) >= 0
    ensures Resolve(t, after, parts) == Resolve(s, before, parts)
    decreases |parts|
  {
    var id := Find(before, parts[0]);
    FindInTable(s, before, parts[0]);
    if |parts| > 1 {
      ResolveStep(s, before, parts);
      assert DirGrows(s, t, id) && DirInode(s, InodeAt(s, id));
      ResolveGrows(s, t, Links(DirOf(s, InodeAt(s, id))), Links(DirOf(t, InodeAt(t, id))), parts[1..]);
    }
  }

  lemma AddedGrow(links: seq<Link>, link: Link)
    requires Find(links, link.name) < 0
    ensures LinksGrow(links, links + [link]) && Find(links + [link], link.name) == link.id
  {
    FindNone(links, link.name);
    FindAfterAdd(links, link, link.name);
    forall name | Find(links, name) >= 0
      ensures Find(links + [link], name) == Find(links, name)
    {
      FindAfterAdd(links, link, name);
    }
  }

  /** A name has been added to directory p, and to no other. */
  lemma OneDirGrows(s: Fs, t: Fs, p: nat, c: nat, links: seq<Link>, link: Link)
    requires TreeInv(s) && BothKept(s, t, p, c) && InodeAt(s, c).kind != DIRECTORY && BlockLen(t.sb) > 0
    requires Links(DirOf(s, InodeAt(s, p))) == links && Find(links, link.name) < 0
    requires InodeAt(t, p).kind == DIRECTORY && Links(DirOf(t, InodeAt(t, p))) == links + [link]
    ensures TreeGrows(s, t)
  {
    AddedGrow(links, link);
    forall id: nat | id < InodeNum(s.sb) && InodeAt(s, id).kind == DIRECTORY
      ensures DirGrows(s, t, id)
    {
      if id != p {
        assert GoodDir(s, id) && DirKept(s, t, id);
      }
    }
  }

  /** The path means a directory or file: every name in it is found. */
  predicate IsMeant(x: Mount, path: Path)
    requires BlockLen(x.fs.sb) > 0
  {
    Tokens(path) == [] || Resolve(x.fs, Links(x.root), Tokens(path)) >= 0
  }

  /** What a path means is what path_to_inode_id answers for it, whatever the stack holds. */
  lemma MeantIsAnswered(x: Mount, path: Path, stray: Inode)
    requires BlockLen(x.fs.sb) > 0 && IsMeant(x, path)
    ensures Tokens(path) != [] ==>
              PathId(x.fs, Links(x.root), stray, path) == Resolve(x.fs, Links(x.root), Tokens(path))
  {
    if Tokens(path) != [] {
      if !AllFound(x.fs, Links(x.root), Tokens(path)) {
        MissingMeansNothing(x.fs, Links(x.root), Tokens(path));
      }
      WalkIsResolve(x.fs, Links(x.root), stray, Tokens(path));
    }
  }

  /** The parent directory of a call is directory p on the disk. */
  ghost predicate ParentAt(x: Mount, path: Path, links: seq<Link>, p: nat)
    requires BlockLen(x.fs.sb) > 0
  {
    && DirectoryAt(x.fs, p, links) && links != [] && links[0].id == p
    && if Tokens(path) == [] then p == 0 else p == Resolve(x.fs, Links(x.root), Tokens(path))
  }

  lemma RootIsItsDot(x: Mount)
    requires MountInv(x)
    ensures Find(Links(x.root), DOT) == 0
  {
    PositionIs(Links(x.root), DOT, 0);
  }

  /** With a coherent copy the parent of a path that means something is the directory that it means. */
  lemma ParentIsMeant(x: Mount, path: Path, stack: Stack) returns (p: nat)
    requires MountInv(x) && Coherent(x) && IsContained(x.fs, stack) && HasParent(x, path, stack) && IsMeant(x, path)
    ensures ParentAt(x, path, Links(ParentDir(x, path, stack)), p)
  {
    MountIsNavigable(x);
    RootIsItsDot(x);
    MeantIsAnswered(x, path, stack.walk);
    p := if path == [] then 0 else PathId(x.fs, Links(x.root), stack.walk, path);
    if path != [] {
      WalkInTable(x.fs, Links(x.root), stack.walk, Parts(path));
    }
    assert GoodDir(x.fs, p);
  }

  /** After a file c has been made under that name in the directory that the path means, path, slash and name lead
      to it, and all paths that meant something mean the same. */
  lemma ChildIsNamed(x: Mount, y: Mount, path: Path, name: Name, links: seq<Link>, p: nat, c: word, stray: Inode)
    requires MountInv(x) && Coherent(x) && Coherent(y) && TreeGrows(x.fs, y.fs) && IsMeant(x, path)
    requires ParentAt(x, path, links, p) && Find(links, name) < 0 && name != [] && SLASH !in name
    requires Links(DirOf(y.fs, InodeAt(y.fs, p))) == links + [Link(c, name)]
    ensures PathId(y.fs, Links(y.root), stray, path + [SLASH] + name) == c
  {
    AddedGrow(links, Link(c, name));
    if Tokens(path) == [] {
      TokensAppend(path, name);
    } else {
      MeantStaysMeant(x, y, path);
      MeantIsAnswered(y, path, stray);
      PathThenName(y.fs, Links(y.root), stray, path, name);
      assert DirGrows(x.fs, y.fs, p);
    }
  }

  lemma MeantStaysMeant(x: Mount, y: Mount, path: Path)
    requires MountInv(x) && Coherent(x) && Coherent(y) && TreeGrows(x.fs, y.fs) && IsMeant(x, path)
    ensures IsMeant(y, path)
    ensures Tokens(path) != [] ==>
              Resolve(y.fs, Links(y.root), Tokens(path)) == Resolve(x.fs, Links(x.root), Tokens(path))
  {
    TreeInvIsDirTree(x.fs);
    assert DirGrows(x.fs, y.fs, 0);
    if Tokens(path) != [] {
      ResolveGrows(x.fs, y.fs, Links(x.root), Links(y.root), Tokens(path));
    }
  }

  /** If the path meant something in x it means the same in y. */
  predicate SameMeaning(x: Mount, y: Mount, path: Path)
    requires BlockLen(x.fs.sb) > 0 && BlockLen(y.fs.sb) > 0
  {
    IsMeant(x, path) ==> IsMeant(y, path) && (Tokens(path) != [] ==>
      Resolve(y.fs, Links(y.root), Tokens(path)) == Resolve(x.fs, Links(x.root), Tokens(path)))
  }

  lemma MeaningStays(x: Mount, y: Mount, path: Path)
    requires MountInv(x) && Coherent(x) && Coherent(y) && TreeGrows(x.fs, y.fs)
    ensures SameMeaning(x, y, path)
  {
    if IsMeant(x, path) {
      MeantStaysMeant(x, y, path);
    }
  }

  /** The path to what a call with that input makes. An input without a slash names its own parent. */
  function Called(input: Path): Path {
    if SLASH in input then input else input + [SLASH] + input
  }

  lemma CalledIs(input: Path)
    requires input != [] && input[|input| - 1] != SLASH
    ensures Called(input) == ParentPath(input) + [SLASH] + Last(input) && Last(input) != [] && SLASH !in Last(input)
  {
    SplitIsLossless(input);
    LastSplits(input);
  }

  // ---- mkdir

  lemma MadeDirectoryGrows(s: Fs, t: Fs, links: seq<Link>, name: Name, w: Making, v: Dotting, p: nat)
    requires TreeInv(s) && DirectoryMade(s, t, links, name, w, v) && w.inode.owned == 0 && Markable(w.inode.id)
    requires 2 * DirBlocks(s.sb) <= |FreeSet(s.sb)| && Find(links, name) < 0
    requires DirectoryAt(s, p, links) && links != [] && links[0].id == p
    ensures TreeGrows(s, t) && BlockLen(t.sb) > 0 && IsLinked(t, w.inode.id, p)
    ensures Links(DirOf(t, InodeAt(t, p))) == links + [Link(w.inode.id, name)]
  {
    var c := w.inode.id;
    assert InodeAt(s, c).kind == UNALLOCATED by {
      InodeMade(s, w.mid, w.inode);
    }
    MkdirLinks(s, t, links, name, w, v, p);
    assert BothKept(s, t, p, c) by {
      MkdirFrame(s, t, links, name, w, v, p);
    }
    OneDirGrows(s, t, p, c, links, Link(c, name));
  }

  lemma MkdirFrame(s: Fs, t: Fs, links: seq<Link>, name: Name, w: Making, v: Dotting, p: nat)
    requires FsInv(s) && DirectoryMade(s, t, links, name, w, v) && w.inode.owned == 0
    requires BlockLen(s.sb) > 0 && 2 * DirBlocks(s.sb) <= |FreeSet(s.sb)| && links != [] && links[0].id == p
    ensures BothKept(s, t, p, w.inode.id)
  {
    var c := w.inode.id;
    assert FsInv(v.mid) && DirHasRoom(v.mid) && BothKept(s, v.mid, p, c) by {
      MakingFrame(s, v.mid, links, name, w, p);
    }
    DottingSteps(s, t, links, name, w, v, p, c);
    BothStayKept(s, v.mid, t, p, c);
  }

  lemma MakingFrame(s: Fs, t: Fs, links: seq<Link>, name: Name, w: Making, p: nat)
    requires FsInv(s) && FileMade(s, t, links, name, w) && w.inode.owned == 0 && DirHasRoom(s) && links[0].id == p
    ensures FsInv(t) && BothKept(s, t, p, w.inode.id) && SameLayout(s.sb, t.sb)
    ensures |FreeSet(t.sb)| == |FreeSet(s.sb)| - DirBlocks(s.sb)
  {
    var c := w.inode.id;
    MakingSteps(s, t, links, name, w, p, c);
    KeptByTwo(s, w.mid, t, p, c);
  }

  lemma KeptByTwo(s: Fs, m: Fs, t: Fs, p: nat, c: nat)
    requires OthersKept(s, m, c) && OthersKept(m, t, p)
    ensures BothKept(s, t, p, c)
  {
    forall id: nat | id < InodeNum(s.sb) && id != p && id != c
      ensures DirKept(s, t, id)
    {
      assert DirKept(s, m, id) && DirKept(m, t, id);
    }
  }

  lemma BothStayKept(s: Fs, m: Fs, t: Fs, p: nat, c: nat)
    requires BothKept(s, m, p, c) && OthersKept(m, t, c)
    ensures BothKept(s, t, p, c)
  {
    forall id: nat | id < InodeNum(s.sb) && id != p && id != c
      ensures DirKept(s, t, id)
    {
      assert DirKept(s, m, id) && DirKept(m, t, id);
    }
  }

  /** A clean mkdir in a directory of the disk. */
  lemma MkdirGrows(x: Mount, links: seq<Link>, name: Name, w: Making, v: Dotting, y: Mount, p: nat)
    requires MountInv(x) && Coherent(x) && CallNext(x, Mkdir(links, name, w, v), y)
    requires Clean(x, Mkdir(links, name, w, v)) && Markable(w.inode.id) && w.inode.kind == DIRECTORY
    requires DirectoryAt(x.fs, p, links) && links != [] && links[0].id == p
    ensures MountInv(y) && Coherent(y) && TreeGrows(x.fs, y.fs) && InodeAt(y.fs, w.inode.id).kind == DIRECTORY
    ensures Links(DirOf(y.fs, InodeAt(y.fs, p))) == links + [Link(w.inode.id, name)]
  {
    assert MountInv(y) && Coherent(y) by {
      CallCoherence(x, Mkdir(links, name, w, v), y);
    }
    MadeDirectoryGrows(x.fs, y.fs, links, name, w, v, p);
  }

  /** After sys_mkdir has made a directory, path_to_inode_id of the same input is the new directory, whatever the
      stack holds then, and every path that meant something before means the same. That is when the copy of the
      root is coherent, the parent's path means something, and the bitmap has a place for the mark of the new
      inode. An input without a slash names its own parent, and leads to it and not to what was made. */
  lemma MkdirPath(x: Mount, input: Path, stack: Stack, call: Call, y: Mount, stray: Inode, other: Path)
    requires MountInv(x) && Coherent(x) && IsContained(x.fs, stack) && CallNext(x, call, y) && Clean(x, call)
    requires input != [] && MkdirGoes(x, input, stack) && IsMeant(x, ParentPath(input))
    requires IsMkdir(call, x.fs.sb, Links(ParentDir(x, ParentPath(input), stack)), Last(input), stack.made)
    requires Markable(FreeInodeFrom(x.fs.sb, 0))
    ensures var c := FreeInodeFrom(x.fs.sb, 0);
            && MountInv(y) && Coherent(y) && InodeAt(y.fs, c).kind == DIRECTORY
            && PathId(y.fs, Links(y.root), stray, Called(input)) == c
    ensures SameMeaning(x, y, other)
  {
    var path := ParentPath(input);
    var links := Links(ParentDir(x, path, stack));
    var p := ParentIsMeant(x, path, stack);
    MkdirGrows(x, links, Last(input), call.w, call.v, y, p);
    CalledIs(input);
    ChildIsNamed(x, y, path, Last(input), links, p, call.w.inode.id, stray);
    MeaningStays(x, y, other);
  }

  lemma NewDirectoryHolds(s: Fs, t: Fs, links: seq<Link>, name: Name, w: Making, v: Dotting, p: nat)
    requires FsInv(s) && DirectoryMade(s, t, links, name, w, v) && w.inode.owned == 0 && BlockLen(s.sb) > 0
    requires 2 * DirBlocks(s.sb) <= |FreeSet(s.sb)| && links != [] && p == links[0].id && p != w.inode.id
    requires BlockLen(t.sb) > 0
    ensures Links(DirOf(t, InodeAt(t, w.inode.id))) == [Link(w.inode.id, DOT), Link(p, DOT_DOT)]
  {
    MkdirLinks(s, t, links, name, w, v, p);
  }

  /** The path from the root through its "." to a name there. */
  function FromDot(name: Name): Path {
    DOT + [SLASH] + name
  }

  lemma FromDotIsAnswered(x: Mount, stray: Inode, name: Name)
    requires MountInv(x) && Coherent(x) && name != [] && SLASH !in name
    ensures PathId(x.fs, Links(x.root), stray, FromDot(name)) == Find(Links(x.root), name)
  {
    RootIsItsDot(x);
    NameIsItsToken(DOT);
    PathThenName(x.fs, Links(x.root), stray, DOT, name);
  }

  lemma SkippedName(x: Mount, name: Name, stray: Inode)
    requires MountInv(x) && Coherent(x) && name != [] && SLASH !in name && Find(Links(x.root), name) < 0
    ensures PathId(x.fs, Links(x.root), stray, FromDot(name) + [SLASH] + DOT) == 0
  {
    RootIsItsDot(x);
    NameIsItsToken(DOT);
    FromDotIsAnswered(x, stray, DOT);
    MissingInPath(x.fs, Links(x.root), stray, DOT, name, DOT);
  }

  lemma NewDirectoryIsEmpty(y: Mount, name: Name, c: word, p: word, stray: Inode)
    requires MountInv(y) && Coherent(y) && name != [] && SLASH !in name && name != DOT && name != DOT_DOT
    requires Find(Links(y.root), name) == c && InodeAt(y.fs, c).kind == DIRECTORY
    requires Links(DirOf(y.fs, InodeAt(y.fs, c))) == [Link(c, DOT), Link(p, DOT_DOT)]
    ensures PathId(y.fs, Links(y.root), stray, FromDot(name) + [SLASH] + DOT + [SLASH] + name) == -1
  {
    FromDotIsAnswered(y, stray, name);
    TokensAppend(DOT, name);
    OnlyDots(y.fs, Links(y.root), stray, FromDot(name), name, c, p);
  }

  lemma OnlyDots(s: Fs, start: seq<Link>, stray: Inode, path: Path, name: Name, c: word, p: word)
    requires BlockLen(s.sb) > 0 && Tokens(path) != [] && PathId(s, start, stray, path) == c
    requires name != [] && SLASH !in name && name != DOT && name != DOT_DOT && InodeAt(s, c).kind == DIRECTORY
    requires Links(DirOf(s, InodeAt(s, c))) == [Link(c, DOT), Link(p, DOT_DOT)]
    ensures PathId(s, start, stray, path + [SLASH] + DOT + [SLASH] + name) == -1
  {
    PathThenName(s, start, stray, path, DOT);
    TokensAppend(path, DOT);
    PathThenName(s, start, stray, path + [SLASH] + DOT, name);
    FindNone(Links(DirOf(s, InodeAt(s, c))), name);
  }

  /** When a name on the way is missing this fails: with no x in the root the parent path of "./x/./x" leads to
      the root, so that sys_mkdir makes x there. Afterwards the name that was skipped is found, and
      path_to_inode_id of the same input fails. */
  lemma MkdirAstray(x: Mount, name: Name, w: Making, v: Dotting, y: Mount, stray: Inode)
    requires MountInv(x) && Coherent(x) && name != [] && SLASH !in name && name != DOT && name != DOT_DOT
    requires CallNext(x, Mkdir(Links(x.root), name, w, v), y) && Clean(x, Mkdir(Links(x.root), name, w, v))
    requires w.inode.kind == DIRECTORY && Markable(w.inode.id)
    ensures MountInv(y) && Coherent(y)
    ensures PathId(x.fs, Links(x.root), stray, FromDot(name) + [SLASH] + DOT) == 0
    ensures PathId(y.fs, Links(y.root), stray, FromDot(name) + [SLASH] + DOT + [SLASH] + name) == -1
  {
    var links, c := Links(x.root), w.inode.id;
    SkippedName(x, name, stray);
    MkdirGrows(x, links, name, w, v, y, 0);
    NewInodeIsNotRoot(x.fs, w.mid, w.inode);
    NewDirectoryHolds(x.fs, y.fs, links, name, w, v, 0);
    AddedGrow(links, Link(c, name));
    NewDirectoryIsEmpty(y, name, c, 0, stray);
  }

  // ---- open

  lemma MadeFileGrows(s: Fs, t: Fs, links: seq<Link>, name: Name, w: Making, p: nat)
    requires TreeInv(s) && FileMade(s, t, links, name, w) && w.inode.owned == 0 && Markable(w.inode.id)
    requires DirHasRoom(s) && Find(links, name) < 0 && w.inode.kind == FILE
    requires DirectoryAt(s, p, links) && links != [] && links[0].id == p
    ensures TreeGrows(s, t) && BlockLen(t.sb) > 0 && InodeAt(t, w.inode.id).kind == FILE
    ensures Links(DirOf(t, InodeAt(t, p))) == links + [Link(w.inode.id, name)]
  {
    var c := w.inode.id;
    assert InodeAt(s, c).kind == UNALLOCATED by {
      InodeMade(s, w.mid, w.inode);
    }
    FileIsMade(s, t, links, name, w, p);
    assert BothKept(s, t, p, c) by {
      MakingFrame(s, t, links, name, w, p);
    }
    OneDirGrows(s, t, p, c, links, Link(c, name));
  }

  lemma TouchGrows(x: Mount, links: seq<Link>, name: Name, w: Making, reread: bool, y: Mount, p: nat)
    requires MountInv(x) && Coherent(x) && CallNext(x, Touch(links, name, w, reread), y) && reread
    requires Clean(x, Touch(links, name, w, reread)) && Markable(w.inode.id)
    requires DirectoryAt(x.fs, p, links) && links != [] && links[0].id == p
    ensures MountInv(y) && Coherent(y) && TreeGrows(x.fs, y.fs) && InodeAt(y.fs, w.inode.id).kind == FILE
    ensures Links(DirOf(y.fs, InodeAt(y.fs, p))) == links + [Link(w.inode.id, name)]
  {
    assert MountInv(y) && Coherent(y) by {
      CallCoherence(x, Touch(links, name, w, reread), y);
    }
    MadeFileGrows(x.fs, y.fs, links, name, w, p);
  }

  /** The same of a file that sys_open has made and listed. */
  lemma OpenPath(x: Mount, input: Path, mode: Mode, stack: Stack, call: Call, y: Mount, stray: Inode, other: Path)
    requires MountInv(x) && Coherent(x) && IsContained(x.fs, stack) && CallNext(x, call, y) && Clean(x, call)
    requires input != [] && input[|input| - 1] != SLASH && HasParent(x, ParentPath(input), stack)
    requires IsMeant(x, ParentPath(input)) && call.Touch? && Markable(call.w.inode.id)
    requires IsOpen(call, x.fs.sb, Links(ParentDir(x, ParentPath(input), stack)), Last(input), mode, stack.made, true)
    ensures var c := call.w.inode.id;
            && MountInv(y) && Coherent(y) && InodeAt(y.fs, c).kind == FILE
            && PathId(y.fs, Links(y.root), stray, Called(input)) == c
    ensures SameMeaning(x, y, other)
  {
    var path := ParentPath(input);
    var links := Links(ParentDir(x, path, stack));
    var p := ParentIsMeant(x, path, stack);
    TouchGrows(x, links, Last(input), call.w, true, y, p);
    CalledIs(input);
    ChildIsNamed(x, y, path, Last(input), links, p, call.w.inode.id, stray);
    MeaningStays(x, y, other);
  }

  // ---- rm

  lemma NameIsGone(x: Mount, links: seq<Link>, name: Name, r: Removing, y: Mount, p: nat)
    requires MountInv(x) && CallNext(x, Rm(links, name, r), y) && Clean(x, Rm(links, name, r))
    requires DirectoryAt(x.fs, p, links) && links != [] && links[0].id == p && r.inode.id != p
    requires BlockLen(y.fs.sb) > 0
    ensures InodeAt(y.fs, p).kind == DIRECTORY && Find(Links(DirOf(y.fs, InodeAt(y.fs, p))), name) == -1
  {
    assert GoodDir(x.fs, p);
    RemovedLinks(x.fs.sb, links, name, p);
    FindAfterDelete(links, name, name);
    RemovedUnlinks(x.fs, y.fs, links, name, r, p, r.inode.id);
  }

  /** Directory p has lost the name, or is gone itself. */
  ghost predicate HasLost(t: Fs, p: nat, name: Name)
    requires BlockLen(t.sb) > 0
  {
    InodeAt(t, p).kind == DIRECTORY ==> Find(Links(DirOf(t, InodeAt(t, p))), name) == -1
  }

  lemma RmStep(x: Mount, links: seq<Link>, name: Name, r: Removing, y: Mount, p: nat)
    requires MountInv(x) && Coherent(x) && CallNext(x, Rm(links, name, r), y) && Clean(x, Rm(links, name, r))
    requires DirectoryAt(x.fs, p, links) && links != [] && links[0].id == p
    ensures MountInv(y) && Coherent(y) && HasLost(y.fs, p, name)
  {
    assert MountInv(y) && Coherent(y) by {
      CallCoherence(x, Rm(links, name, r), y);
    }
    if r.inode.id != p {
      NameIsGone(x, links, name, r, y, p);
    } else {
      InodeIsGone(x, links, name, r, y);
    }
  }

  lemma InodeIsGone(x: Mount, links: seq<Link>, name: Name, r: Removing, y: Mount)
    requires MountInv(x) && CallNext(x, Rm(links, name, r), y) && Clean(x, Rm(links, name, r))
    requires BlockLen(y.fs.sb) > 0 && links != []
    ensures InodeAt(y.fs, r.inode.id).kind == UNALLOCATED
  {
    RemovedUnlinks(x.fs, y.fs, links, name, r, Home(links, name), r.inode.id);
  }

  lemma NameIsLost(x: Mount, y: Mount, path: Path, name: Name, links: seq<Link>, p: nat, stray: Inode)
    requires BlockLen(x.fs.sb) > 0 && Coherent(y) && HasLost(y.fs, p, name) && ParentAt(x, path, links, p)
    requires name != [] && SLASH !in name && IsMeant(x, path) && IsMeant(y, path) && SameMeaning(x, y, path)
    ensures PathId(y.fs, Links(y.root), stray, path + [SLASH] + name) == -1
  {
    if Tokens(path) == [] {
      TokensAppend(path, name);
    } else {
      MeantIsAnswered(y, path, stray);
      PathThenName(y.fs, Links(y.root), stray, path, name);
    }
  }

  /** After sys_rm path_to_inode_id of the input fails, as long as the way to the parent directory does not lead
      through what was removed. */
  lemma RmPath(x: Mount, input: Path, stack: Stack, call: Call, y: Mount, stray: Inode)
    requires MountInv(x) && Coherent(x) && IsContained(x.fs, stack) && CallNext(x, call, y) && Clean(x, call)
    requires SLASH in input && input[|input| - 1] != SLASH && call.Rm?
    requires HasParent(x, ParentPath(input), stack) && IsMeant(x, ParentPath(input)) && call.name == Last(input)
    requires call.links == Links(ParentDir(x, ParentPath(input), stack))
    requires call.r.inode.id == Find(call.links, call.name)
    requires IsMeant(y, ParentPath(input)) && SameMeaning(x, y, ParentPath(input))
    ensures MountInv(y) && Coherent(y) && PathId(y.fs, Links(y.root), stray, input) == -1
  {
    SplitIsLossless(input);
    var p := ParentIsMeant(x, ParentPath(input), stack);
    RmStep(x, call.links, call.name, call.r, y, p);
    NameIsLost(x, y, ParentPath(input), Last(input), call.links, p, stray);
  }
}
