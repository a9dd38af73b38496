/** Directories: a count and ten slots for links, searched in order and changed in place, and their
    form as the contents of a file (fs.h, fs.c). */
module Directories {
  import opened Words

  const MAX_FILES_IN_DIRECTORY := 10
  const MAX_FILE_NAME_LENGTH := 100
  const LINK_BYTES := 104
  const DIRECTORY_BYTES := 1044

  type Name = seq<byte>

  const DOT: Name := [46]
  const DOT_DOT: Name := [46, 46]

  datatype Link = Link(id: word, name: Name)

  /** A C string that fits into the name field of a link. */
  predicate IsName(name: Name) {
    |name| < MAX_FILE_NAME_LENGTH && 0 !in name
  }

  // ---- searching and changing a list of links

  /** The position of the first link with that name, or the number of links. */
  function Position(links: seq<Link>, name: Name): (r: nat)
    ensures r <= |links| && (r < |links| ==> links[r].name == name)
    ensures forall i :: 0 <= i < r ==> links[i].name != name
  {
    if links == [] then 0 else if links[0].name == name then 0 else 1 + Position(links[1..], name)
  }

  /** directory_lookup */
  function Find(links: seq<Link>, name: Name): int {
    var p := Position(links, name);
    if p < |links| then links[p].id else -1
  }

  /** The links without the first one of that name. */
  function Without(links: seq<Link>, name: Name): seq<Link> {
    var p := Position(links, name);
    if p < |links| then links[..p] + links[p + 1..] else links
  }

  /** The inode that the first slot of a directory leads to after the deletion of a name. The slot keeps its
      link when no other moves up. */
  function Home(links: seq<Link>, name: Name): word
    requires links != []
  {
    if Without(links, name) == [] then links[0].id else Without(links, name)[0].id
  }

  predicate UniqueNames(links: seq<Link>) {
    forall i, j :: 0 <= i < j < |links| ==> links[i].name != links[j].name
  }

  /** What create_directory and create_file keep: "." comes first, names are unique, and the last slot
      stays free. */
  predicate WellFormed(links: seq<Link>) {
    && 0 < |links| < MAX_FILES_IN_DIRECTORY && links[0].name == DOT && UniqueNames(links)
    && forall i :: 0 <= i < |links| ==> IsName(links[i].name)
  }

  lemma PositionIs(links: seq<Link>, name: Name, p: nat)
    requires p < |links| && links[p].name == name && forall i :: 0 <= i < p ==> links[i].name != name
    ensures Position(links, name) == p
  {
  }

  lemma FindNone(links: seq<Link>, name: Name)
    ensures Find(links, name) == -1 <==> forall i :: 0 <= i < |links| ==> links[i].name != name
  {
  }

  /** A directory is a finite map from names to inodes: an added name is found, and every other name is
      found as before. */
  lemma FindAfterAdd(links: seq<Link>, link: Link, name: Name)
    requires Find(links, link.name) == -1
    ensures Find(links + [link], name) == if name == link.name then link.id else Find(links, name)
  {
    var all, p := links + [link], Position(links, name);
    FindNone(links, link.name);
    if p < |links| {
      assert all[p] == links[p];
      PositionIs(all, name, p);
    } else if name == link.name {
      assert forall i :: 0 <= i < |links| ==> all[i] == links[i];
      PositionIs(all, name, |links|);
    } else {
      FindNone(all, name);
    }
  }

  /** A deleted name is not found any more, and every other name is found as before. */
  lemma FindAfterDelete(links: seq<Link>, gone: Name, name: Name)
    requires UniqueNames(links)
    ensures Find(Without(links, gone), name) == if name == gone then -1 else Find(links, name)
    ensures UniqueNames(Without(links, gone))
  {
    var rest, q, p := Without(links, gone), Position(links, gone), Position(links, name);
    if q < |links| {
      if name == gone {
        FindNone(rest, name);
      } else if p == |links| {
        FindNone(rest, name);
      } else {
        var p' := if p < q then p else p - 1;
        assert rest[p'] == links[p];
        PositionIs(rest, name, p');
      }
    }
  }

  /** Deleting keeps the form of a directory exactly when the name is not ".". */
  lemma DeleteKeepsForm(links: seq<Link>, gone: Name)
    requires WellFormed(links)
    ensures WellFormed(Without(links, gone)) <==> gone != DOT
  {
  }

  /** Adding a new name keeps the form of a directory exactly when two slots are left. */
  lemma AddKeepsForm(links: seq<Link>, link: Link)
    requires WellFormed(links) && Find(links, link.name) == -1 && IsName(link.name)
    ensures WellFormed(links + [link]) <==> |links| + 1 < MAX_FILES_IN_DIRECTORY
  {
  }

  // ---- a directory in memory

  class Directory {
    var count: nat
    const links: array<Link>

    ghost predicate Valid()
      reads this, links
    {
      && links.Length == MAX_FILES_IN_DIRECTORY && count <= links.Length
      && forall i :: 0 <= i < links.Length ==> IsName(links[i].name)
    }

    /** The whole directory_t, with whatever the free slots hold. */
    function Value(): (d: Dir)
      requires Valid()
      reads this, links
      ensures IsDir(d) && d.count <= |d.slots| && d.slots[..d.count] == Entries()
    {
      Dir(count, links[..])
    }

    ghost function Entries(): seq<Link>
      requires Valid()
      reads this, links
    {
      links[..count]
    }

    constructor ()
      ensures Valid() && count == 0 && fresh(links)
    {
      count := 0;
      links := new Link[MAX_FILES_IN_DIRECTORY](_ => Link(0, []));
    }

    /** A copy of a directory_t, as memcpy and read_dir make it. */
    constructor Copy(d: Dir)
      requires IsDir(d) && d.count <= MAX_FILES_IN_DIRECTORY
      ensures Valid() && Value() == d && fresh(links)
    {
      count := d.count;
      links := new Link[MAX_FILES_IN_DIRECTORY](i requires 0 <= i < MAX_FILES_IN_DIRECTORY => d.slots[i]);
      new;
      assert links[..] == d.slots;
    }

    /** directory_lookup */
    method Lookup(name: Name) returns (id: int)
      requires Valid()
      ensures id == Find(Entries(), name)
    {
      var i := 0;
      while i < count
        invariant 0 <= i <= count && forall j :: 0 <= j < i ==> links[j].name != name
      {
        if links[i].name == name {
          PositionIs(Entries(), name, i);
          return links[i].id;
        }
        i := i + 1;
      }
      FindNone(Entries(), name);
      id := -1;
    }

    /** delete_file_link: the links behind the deleted one move up. */
    method DeleteLink(name: Name) returns (status: int)
      requires Valid()
      modifies this, links
      ensures Valid() && Entries() == Without(old(Entries()), name)
      ensures status == if Find(old(Entries()), name) < 0 then -1 else 0
      ensures old(count) > 0 ==> links[0].id == Home(old(Entries()), name)
    {
      ghost var was := Entries();
      var index := -1;
      var i := 0;
      while i < count
        invariant 0 <= i <= count && forall j :: 0 <= j < i ==> was[j].name != name
        invariant index == -1
      {
        if links[i].name == name {
          index := i;
          break;
        }
        i := i + 1;
      }
      if index == -1 {
        FindNone(was, name);
        return -1;
      }
      PositionIs(was, name, index);
      MoveUp(index);
      status := 0;
    }

    /** The links behind place index move up by one. The last slot keeps what it has. */
    method MoveUp(index: nat)
      requires Valid() && index < count
      modifies this, links
      ensures Valid() && Entries() == old(Entries())[..index] + old(Entries())[index + 1..]
      ensures links[0] == if Entries() == [] then old(Entries())[0] else Entries()[0]
    {
      ghost var was := Entries();
      count := count - 1;
      forall k | index <= k < count {
        links[k] := links[k + 1];
      }
      ghost var rest := was[..index] + was[index + 1..];
      forall k | 0 <= k < count
        ensures links[k] == rest[k]
      {
        assert links[k] == was[if k < index then k else k + 1];
      }
      assert Entries() == rest;
    }

    /** The end of create_file: a link in the next slot. */
    method AddLink(id: word, name: Name)
      requires Valid() && count < MAX_FILES_IN_DIRECTORY && IsName(name)
      modifies this, links
      ensures Valid() && Entries() == old(Entries()) + [Link(id, name)]
    {
      links[count] := Link(id, name);
      count := count + 1;
    }

    /** The start of a new directory in create_directory: "." and "..". */
    method StartWith(id: word, parent: word)
      requires Valid()
      modifies this, links
      ensures Valid() && Entries() == [Link(id, DOT), Link(parent, DOT_DOT)]
    {
      links[0] := Link(id, DOT);
      links[1] := Link(parent, DOT_DOT);
      count := 2;
    }
  }

  // ---- a directory as bytes

  /** The contents of a directory_t. */
  datatype Dir = Dir(count: word, slots: seq<Link>)

  predicate IsDir(d: Dir) {
    |d.slots| == MAX_FILES_IN_DIRECTORY && forall i :: 0 <= i < |d.slots| ==> IsName(d.slots[i].name)
  }

  function LinkBytes(link: Link): (b: seq<byte>)
    requires IsName(link.name)
    ensures |b| == LINK_BYTES
  {
    WordBytes(link.id) + link.name + seq(MAX_FILE_NAME_LENGTH - |link.name|, _ => 0)
  }

  function SlotBytes(slots: seq<Link>): (b: seq<byte>)
    requires forall i :: 0 <= i < |slots| ==> IsName(slots[i].name)
    ensures |b| == LINK_BYTES * |slots|
  {
    if slots == [] then [] else SlotBytes(slots[..|slots| - 1]) + LinkBytes(slots[|slots| - 1])
  }

  function DirBytes(d: Dir): (b: seq<byte>)
    requires IsDir(d)
    ensures |b| == DIRECTORY_BYTES
  {
    WordBytes(d.count) + SlotBytes(d.slots)
  }

  /** The C string at the start of a buffer. */
  function CString(b: seq<byte>): Name {
    if b == [] || b[0] == 0 then [] else [b[0]] + CString(b[1..])
  }

  function BytesLink(b: seq<byte>): Link
    requires |b| == LINK_BYTES
  {
    Link(BytesWord(b[..4]), CString(b[4..]))
  }

  function BytesDir(b: seq<byte>): (d: Dir)
    requires |b| == DIRECTORY_BYTES
    ensures |d.slots| == MAX_FILES_IN_DIRECTORY
  {
    Dir(BytesWord(b[..4]),
        seq(MAX_FILES_IN_DIRECTORY, i requires 0 <= i < MAX_FILES_IN_DIRECTORY =>
          BytesLink(b[4 + LINK_BYTES * i..4 + LINK_BYTES * i + LINK_BYTES])))
  }

  lemma {:induction false} CStringOf(name: Name, rest: seq<byte>)
    requires 0 !in name && rest != [] && rest[0] == 0
    ensures CString(name + rest) == name
  {
    if name == [] {
      assert name + rest == rest;
    } else {
      assert (name + rest)[1..] == name[1..] + rest;
      CStringOf(name[1..], rest);
    }
  }

  lemma LinkRoundTrip(link: Link)
    requires IsName(link.name)
    ensures BytesLink(LinkBytes(link)) == link
  {
    var b := LinkBytes(link);
    var pad := seq(MAX_FILE_NAME_LENGTH - |link.name|, _ => 0);
    assert b[..4] == WordBytes(link.id);
    assert b[4..] == link.name + pad;
    WordRoundTrip(link.id);
    CStringOf(link.name, pad);
  }

  lemma {:induction false} SlotAt(slots: seq<Link>, i: nat)
    requires (forall j :: 0 <= j < |slots| ==> IsName(slots[j].name)) && i < |slots|
    ensures SlotBytes(slots)[LINK_BYTES * i..LINK_BYTES * i + LINK_BYTES] == LinkBytes(slots[i])
  {
    var last := |slots| - 1;
    if i < last {
      SlotAt(slots[..last], i);
    }
  }

  /** A directory written as bytes and read back is the same directory, slot by slot. */
  lemma DirRoundTrip(d: Dir)
    requires IsDir(d)
    ensures BytesDir(DirBytes(d)) == d
  {
    var b := DirBytes(d);
    assert b[..4] == WordBytes(d.count);
    WordRoundTrip(d.count);
    forall i | 0 <= i < MAX_FILES_IN_DIRECTORY
      ensures BytesDir(b).slots[i] == d.slots[i]
    {
      SlotAt(d.slots, i);
      assert b[4 + LINK_BYTES * i..4 + LINK_BYTES * i + LINK_BYTES]
          == SlotBytes(d.slots)[LINK_BYTES * i..LINK_BYTES * i + LINK_BYTES];
      LinkRoundTrip(d.slots[i]);
    }
  }
}
