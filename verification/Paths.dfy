/** Paths: splitting them, and finding the inode that they name (fs.c). */
module Paths {
  import opened Words
  import opened Superblock
  import opened Inodes
  import opened Directories

  const SLASH: byte := 47

  type Path = seq<byte>

  /** The part of a path before its first slash. */
  function Head(path: Path): (r: Name)
    ensures |r| <= |path| && SLASH !in r && r <= path && (|r| < |path| ==> path[|r|] == SLASH)
  {
    if path == [] || path[0] == SLASH then [] else [path[0]] + Head(path[1..])
  }

  /** The names that strtok finds in a path, one after the other. */
  function Tokens(path: Path): (r: seq<Name>)
    ensures forall i :: 0 <= i < |r| ==> r[i] != [] && SLASH !in r[i]
    decreases |path|
  {
    if path == [] then []
    else if path[0] == SLASH then Tokens(path[1..])
    else [Head(path)] + Tokens(path[|Head(path)|..])
  }

  lemma {:induction false} HeadOfName(name: Name, rest: Path)
    requires SLASH !in name && (rest == [] || rest[0] == SLASH)
    ensures Head(name + rest) == name
  {
    if name == [] {
      assert name + rest == rest;
    } else {
      assert (name + rest)[1..] == name[1..] + rest;
      HeadOfName(name[1..], rest);
    }
  }

  lemma {:induction false} HeadOfLonger(path: Path, more: Path)
    requires |Head(path)| < |path| || more == [] || more[0] == SLASH
    ensures Head(path + more) == Head(path)
  {
    if path == [] {
      assert path + more == more;
    } else if path[0] != SLASH {
      assert (path + more)[1..] == path[1..] + more;
      HeadOfLonger(path[1..], more);
    }
  }

  /** Appending a name behind a slash appends a token. */
  lemma {:induction false} TokensAppend(path: Path, name: Name)
    requires name != [] && SLASH !in name
    ensures Tokens(path + [SLASH] + name) == Tokens(path) + [name]
    decreases |path|
  {
    var all := path + [SLASH] + name;
    if path == [] {
      assert all[1..] == name;
      HeadOfName(name, []);
      assert name + [] == name;
    } else if path[0] == SLASH {
      assert all[1..] == path[1..] + [SLASH] + name;
      TokensAppend(path[1..], name);
    } else {
      var h := Head(path);
      assert all == path + ([SLASH] + name);
      HeadOfLonger(path, [SLASH] + name);
      assert all[|h|..] == path[|h|..] + [SLASH] + name;
      TokensAppend(path[|h|..], name);
    }
  }

  // ---- parse_filename

  /** The part behind the last slash. */
  function Last(path: Path): (r: Name)
    ensures |r| <= |path| && SLASH !in r && (|r| < |path| ==> path[|path| - |r| - 1] == SLASH)
    ensures forall i :: 0 <= i < |r| ==> r[i] == path[|path| - |r| + i]
  {
    if path == [] || path[|path| - 1] == SLASH then [] else Last(path[..|path| - 1]) + [path[|path| - 1]]
  }

  lemma {:induction false} LastSplits(path: Path)
    ensures |Last(path)| < |path| <==> SLASH in path
    ensures |Last(path)| < |path| ==> path == path[..|path| - |Last(path)| - 1] + [SLASH] + Last(path)
  {
    assert |Last(path)| == |path| ==> Last(path) == path;
  }

  lemma NameIsItsToken(name: Name)
    requires name != [] && SLASH !in name
    ensures Tokens(name) == [name]
  {
    assert name + [] == name;
    HeadOfName(name, []);
  }

  /** The last token of a path that does not end in a slash is the part behind its last slash. */
  lemma LastToken(path: Path)
    requires path != [] && path[|path| - 1] != SLASH
    ensures Tokens(path) != [] && Tokens(path)[|Tokens(path)| - 1] == Last(path)
  {
    LastSplits(path);
    if SLASH in path {
      TokensAppend(path[..|path| - |Last(path)| - 1], Last(path));
    } else {
      assert Last(path) == path;
      NameIsItsToken(path);
    }
  }

  /** The loop of parse_filename: the last token, or the input if there is none. */
  method LastPart(input: Path) returns (previous: Name)
    ensures previous == if Tokens(input) == [] then input else Tokens(input)[|Tokens(input)| - 1]
  {
    var parts := Tokens(input);
    previous := input;
    var i := 0;
    while i < |parts|
      invariant 0 <= i <= |parts| && previous == if i > 0 then parts[i - 1] else input
    {
      previous := parts[i];
      i := i + 1;
    }
  }

  /** The part before the last slash, or the whole path if it has none. */
  function ParentPath(path: Path): Path {
    if |Last(path)| < |path| then path[..|path| - |Last(path)| - 1] else path
  }

  /** parse_filename. Without a slash it ends the path string one place before its start, and path
      remains the whole input. */
  method ParseFilename(input: Path) returns (status: int, filename: Name, path: Path)
    requires input != []
    ensures input[|input| - 1] == SLASH ==> status == -1
    ensures input[|input| - 1] != SLASH ==> status == 0 && filename == Last(input) && path == ParentPath(input)
  {
    filename, path := [], [];
    if input[|input| - 1] == SLASH {
      return -1, filename, path;
    }
    LastToken(input);
    filename := LastPart(input);
    var end := |input| - |filename| - 1;
    path := if end >= 0 then input[..end] else input;
    status := 0;
  }

  /** parse_filename splits its input without loss exactly when the input has a slash: then path and
      file name joined by a slash give the input back, and the tokens of the input are those of the
      path followed by the file name. */
  lemma SplitIsLossless(input: Path)
    requires input != [] && input[|input| - 1] != SLASH
    ensures ParentPath(input) + [SLASH] + Last(input) == input <==> SLASH in input
    ensures Last(input) != [] && SLASH !in Last(input)
    ensures SLASH in input ==> Tokens(input) == Tokens(ParentPath(input)) + [Last(input)]
  {
    LastSplits(input);
    if SLASH in input {
      TokensAppend(ParentPath(input), Last(input));
    } else {
      assert |ParentPath(input) + [SLASH] + Last(input)| > |input|;
    }
  }

  // ---- path_to_inode_id

  /** The directory that read_dir finds in the file of inode f. */
  function DirOf(s: Fs, f: Inode): Dir {
    BytesDir(FileData(s, f, DIRECTORY_BYTES))
  }

  /** The links of a directory. */
  function Links(d: Dir): seq<Link> {
    if d.count <= |d.slots| then d.slots[..d.count] else d.slots
  }

  /** The loop of path_to_inode_id: the links of the directory it has reached, and the inode that was
      read last. A name that is not found leaves both as they are. */
  function Walk(s: Fs, links: seq<Link>, f: Inode, parts: seq<Name>): int
    requires BlockLen(s.sb) > 0 && parts != []
    decreases |parts|
  {
    var id := Find(links, parts[0]);
    var g := if id < 0 then f else InodeAt(s, id);
    if |parts| == 1 then id
    else if g.kind == DIRECTORY then Walk(s, Links(DirOf(s, g)), g, parts[1..])
    else -1
  }

  /** The meaning of a path: every name is looked up in the directory that the name before it has. */
  function Resolve(s: Fs, links: seq<Link>, parts: seq<Name>): int
    requires BlockLen(s.sb) > 0 && parts != []
    decreases |parts|
  {
    var id := Find(links, parts[0]);
    if |parts| == 1 || id < 0 then id
    else if InodeAt(s, id).kind == DIRECTORY then Resolve(s, Links(DirOf(s, InodeAt(s, id))), parts[1..])
    else -1
  }

  /** The path without the names, apart from the last, that are not found where they are looked up. */
  function Found(s: Fs, links: seq<Link>, parts: seq<Name>): (r: seq<Name>)
    requires BlockLen(s.sb) > 0 && parts != []
    ensures r != [] && |r| <= |parts|
    decreases |parts|
  {
    var id := Find(links, parts[0]);
    if |parts| == 1 then parts
    else if id < 0 then Found(s, links, parts[1..])
    else if InodeAt(s, id).kind == DIRECTORY then [parts[0]] + Found(s, Links(DirOf(s, InodeAt(s, id))), parts[1..])
    else parts
  }

  /** The inode read last is that of the directory reached. */
  predicate IsAt(s: Fs, links: seq<Link>, f: Inode) {
    f.kind == DIRECTORY && links == Links(DirOf(s, f))
  }

  /** From a directory that has been read, the loop finds what the path means once the names that do not
      exist have been dropped from it: it skips them instead of failing. */
  lemma {:induction false} WalkSkipsMissing(s: Fs, links: seq<Link>, f: Inode, parts: seq<Name>)
    requires BlockLen(s.sb) > 0 && parts != [] && IsAt(s, links, f)
    ensures Walk(s, links, f, parts) == Resolve(s, links, Found(s, links, parts))
    decreases |parts|
  {
    if |parts| > 1 {
      var id := Find(links, parts[0]);
      if id < 0 {
        WalkSkipsMissing(s, links, f, parts[1..]);
      } else {
        var g := InodeAt(s, id);
        if g.kind == DIRECTORY {
          var rest := Found(s, Links(DirOf(s, g)), parts[1..]);
          WalkSkipsMissing(s, Links(DirOf(s, g)), g, parts[1..]);
          assert ([parts[0]] + rest)[1..] == rest;
        }
      }
    }
  }

  /** The first name is looked up in a directory that the caller passes, while the inode is still what
      the stack happened to hold. If that name is missing the loop goes on from the stack contents when
      they look like a directory, and fails otherwise. */
  lemma WalkFromStart(s: Fs, links: seq<Link>, stray: Inode, parts: seq<Name>)
    requires BlockLen(s.sb) > 0 && parts != []
    ensures Find(links, parts[0]) >= 0 ==> Walk(s, links, stray, parts) == Resolve(s, links, Found(s, links, parts))
    ensures Find(links, parts[0]) < 0 && (|parts| == 1 || stray.kind != DIRECTORY) ==>
              Walk(s, links, stray, parts) == -1
    ensures Find(links, parts[0]) < 0 && |parts| > 1 && stray.kind == DIRECTORY ==>
              var garbage := Links(DirOf(s, stray));
              Walk(s, links, stray, parts) == Resolve(s, garbage, Found(s, garbage, parts[1..]))
  {
    var id := Find(links, parts[0]);
    if |parts| > 1 {
      if id >= 0 && InodeAt(s, id).kind == DIRECTORY {
        var g := InodeAt(s, id);
        var rest := Found(s, Links(DirOf(s, g)), parts[1..]);
        WalkSkipsMissing(s, Links(DirOf(s, g)), g, parts[1..]);
        assert ([parts[0]] + rest)[1..] == rest;
      } else if id < 0 && stray.kind == DIRECTORY {
        WalkSkipsMissing(s, Links(DirOf(s, stray)), stray, parts[1..]);
      }
    }
  }

  /** Every name but the last exists where it is looked up. */
  predicate AllFound(s: Fs, links: seq<Link>, parts: seq<Name>)
    requires BlockLen(s.sb) > 0 && parts != []
    decreases |parts|
  {
    |parts| == 1 || (
      var id := Find(links, parts[0]);
      id >= 0 && (InodeAt(s, id).kind == DIRECTORY ==> AllFound(s, Links(DirOf(s, InodeAt(s, id))), parts[1..])))
  }

  lemma {:induction false} FoundIsWhole(s: Fs, links: seq<Link>, parts: seq<Name>)
    requires BlockLen(s.sb) > 0 && parts != []
    ensures AllFound(s, links, parts) <==> Found(s, links, parts) == parts
    decreases |parts|
  {
    if |parts| > 1 {
      var id := Find(links, parts[0]);
      if id >= 0 && InodeAt(s, id).kind == DIRECTORY {
        FoundIsWhole(s, Links(DirOf(s, InodeAt(s, id))), parts[1..]);
        assert parts == [parts[0]] + parts[1..];
        assert ([parts[0]] + Found(s, Links(DirOf(s, InodeAt(s, id))), parts[1..]))[1..]
            == Found(s, Links(DirOf(s, InodeAt(s, id))), parts[1..]);
      }
    }
  }

  /** When a name in the middle is missing the path means nothing. */
  lemma {:induction false} MissingMeansNothing(s: Fs, links: seq<Link>, parts: seq<Name>)
    requires BlockLen(s.sb) > 0 && parts != [] && !AllFound(s, links, parts)
    ensures Resolve(s, links, parts) < 0
    decreases |parts|
  {
    var id := Find(links, parts[0]);
    if id >= 0 && InodeAt(s, id).kind == DIRECTORY {
      MissingMeansNothing(s, Links(DirOf(s, InodeAt(s, id))), parts[1..]);
    }
  }

  /** What the loop finds is what the path means exactly when every name but the last exists, whatever the
      stack holds at the start. */
  lemma WalkIsResolve(s: Fs, links: seq<Link>, stray: Inode, parts: seq<Name>)
    requires BlockLen(s.sb) > 0 && parts != []
    ensures Walk(s, links, stray, parts) >= 0 ==>
              (Walk(s, links, stray, parts) == Resolve(s, links, parts) <==> AllFound(s, links, parts))
    ensures AllFound(s, links, parts) ==> Walk(s, links, stray, parts) == Resolve(s, links, parts)
  {
    WalkFromStart(s, links, stray, parts);
    FoundIsWhole(s, links, parts);
    if !AllFound(s, links, parts) {
      MissingMeansNothing(s, links, parts);
    }
  }

  /** Directory id is made as create_directory makes it: "." is itself and ".." is its parent. */
  predicate IsLinked(s: Fs, id: nat, parent: nat)
    requires BlockLen(s.sb) > 0
  {
    InodeAt(s, id).kind == DIRECTORY && HasDots(Links(DirOf(s, InodeAt(s, id))), id, parent)
  }

  predicate HasDots(links: seq<Link>, id: nat, parent: nat) {
    && |links| >= 2 && links[0].name == DOT && links[0].id == id
    && links[1].name == DOT_DOT && links[1].id == parent
  }

  lemma DotsAreFound(links: seq<Link>, id: nat, parent: nat)
    requires HasDots(links, id, parent)
    ensures Find(links, DOT) == id && Find(links, DOT_DOT) == parent
  {
  }

  /** An input for which the two differ: in every directory that is linked in this way, "./x/.." is its
      parent to path_to_inode_id when there is no x, while the path means nothing. */
  lemma MissingIsSkipped(s: Fs, id: nat, parent: nat, stray: Inode, missing: Name)
    requires BlockLen(s.sb) > 0 && IsLinked(s, id, parent)
    requires Find(Links(DirOf(s, InodeAt(s, id))), missing) < 0
    ensures var links := Links(DirOf(s, InodeAt(s, id)));
            && Walk(s, links, stray, [DOT, missing, DOT_DOT]) == parent
            && Resolve(s, links, [DOT, missing, DOT_DOT]) == -1
  {
    var g := InodeAt(s, id);
    var links, parts := Links(DirOf(s, g)), [DOT, missing, DOT_DOT];
    DotsAreFound(links, id, parent);
    assert parts[1..] == [missing, DOT_DOT] && parts[1..][1..] == [DOT_DOT];
    assert Walk(s, links, g, parts[1..]) == Walk(s, links, g, parts[1..][1..]);
  }

  lemma ResolveStep(s: Fs, links: seq<Link>, parts: seq<Name>)
    requires BlockLen(s.sb) > 0 && |parts| > 1 && Resolve(s, links, parts) >= 0
    ensures var id := Find(links, parts[0]);
            && id >= 0 && InodeAt(s, id).kind == DIRECTORY
            && Resolve(s, links, parts) == Resolve(s, Links(DirOf(s, InodeAt(s, id))), parts[1..])
  {
  }

  lemma ResolveCons(s: Fs, links: seq<Link>, parts: seq<Name>, rest: seq<Name>)
    requires BlockLen(s.sb) > 0 && parts != [] && rest != [] && parts[1..] == rest
    requires var id := Find(links, parts[0]); id >= 0 && InodeAt(s, id).kind == DIRECTORY
    ensures Resolve(s, links, parts) == Resolve(s, Links(DirOf(s, InodeAt(s, Find(links, parts[0])))), rest)
  {
  }

  lemma {:induction false} ResolveAppend(s: Fs, links: seq<Link>, parts: seq<Name>, more: seq<Name>)
    requires BlockLen(s.sb) > 0 && parts != [] && more != []
    requires var id := Resolve(s, links, parts); id >= 0 && InodeAt(s, id).kind == DIRECTORY
    ensures Resolve(s, links, parts + more) == Resolve(s, Links(DirOf(s, InodeAt(s, Resolve(s, links, parts)))), more)
    decreases |parts|
  {
    assert (parts + more)[1..] == parts[1..] + more;
    if |parts| > 1 {
      ResolveStep(s, links, parts);
      ResolveAppend(s, Links(DirOf(s, InodeAt(s, Find(links, parts[0])))), parts[1..], more);
    } else {
      assert parts[1..] + more == more;
    }
    ResolveCons(s, links, parts + more, parts[1..] + more);
  }

  /** "d/." is d, and "d/child/.." is d, when d and the child are linked as create_directory links
      them. */
  lemma DotsResolve(s: Fs, links: seq<Link>, parts: seq<Name>, child: Name, up: nat, c: nat)
    requires BlockLen(s.sb) > 0 && parts != [] && Resolve(s, links, parts) >= 0
    requires var d := Resolve(s, links, parts); IsLinked(s, d, up)
    ensures Resolve(s, links, parts + [DOT]) == Resolve(s, links, parts)
    ensures var d := Resolve(s, links, parts);
            Find(Links(DirOf(s, InodeAt(s, d))), child) == c && IsLinked(s, c, d) ==>
              Resolve(s, links, parts + [child, DOT_DOT]) == d
  {
    var d := Resolve(s, links, parts);
    DotsAreFound(Links(DirOf(s, InodeAt(s, d))), d, up);
    ResolveAppend(s, links, parts, [DOT]);
    ResolveAppend(s, links, parts, [child, DOT_DOT]);
    if Find(Links(DirOf(s, InodeAt(s, d))), child) == c && IsLinked(s, c, d) {
      DotsAreFound(Links(DirOf(s, InodeAt(s, c))), c, d);
      assert [child, DOT_DOT][1..] == [DOT_DOT];
    }
  }
}
