/** Where the blocks go: what every operation does to the sets of marked, owned and leaked blocks, and
    what this means for whole runs. */
module Accounting {
  import opened Words
  import opened Superblock
  import opened Inodes
  import opened Writes
  import opened Ownership

  /** The marked blocks of the data area. */
  ghost function MarkedSet(sb: Super): set<int> {
    set a: nat | DataStart(sb) <= a < AllocEnd(sb) && BlockMarked(sb, a)
  }

  ghost function Elements(xs: seq<int>): set<int> {
    set x | x in xs
  }

  /** The blocks that some inode owns. */
  ghost function OwnedSet(table: seq<Inode>): set<int> {
    set id, i | 0 <= id < |table| && 0 <= i < MAX_INODE_BLOCKS && i < table[id].owned :: table[id].blocks[i]
  }

  /** Marked blocks without an owner: nothing will ever release them. */
  ghost function Leaked(s: Fs): set<int>
    requires BlockLen(s.sb) > 0
  {
    MarkedSet(s.sb) - OwnedSet(Table(s))
  }

  lemma {:induction false} ElementsOfDistinct(xs: seq<nat>)
    requires Distinct(xs)
    ensures |Elements(xs)| == |xs|
  {
    if xs != [] {
      var last := |xs| - 1;
      ElementsOfDistinct(xs[..last]);
      assert Elements(xs) == Elements(xs[..last]) + {xs[last]};
    }
  }

  /** The entries of the table that own block a. */
  ghost predicate OwnedBy(table: seq<Inode>, id: int, a: int) {
    0 <= id < |table| && table[id].owned <= MAX_INODE_BLOCKS && a in Owned(table[id])
  }

  lemma OwnedSetIsOwned(sb: Super, table: seq<Inode>, a: int)
    requires Sound(sb, table)
    ensures a in OwnedSet(table) <==> exists id :: OwnedBy(table, id, a)
  {
    if a in OwnedSet(table) {
      var id, i :| 0 <= id < |table| && 0 <= i < MAX_INODE_BLOCKS && i < table[id].owned && table[id].blocks[i] == a;
      assert OwnsWell(sb, table[id]);
      assert Owned(table[id])[i] == a;
      assert OwnedBy(table, id, a);
    }
    if id :| OwnedBy(table, id, a) {
      var i :| 0 <= i < |Owned(table[id])| && Owned(table[id])[i] == a;
      assert table[id].blocks[i] == a;
    }
  }

  /** A block has one owner. */
  lemma OneOwner(sb: Super, table: seq<Inode>, id: int, id': int, a: int)
    requires Sound(sb, table) && OwnedBy(table, id, a) && OwnedBy(table, id', a)
    ensures id == id'
  {
  }

  /** The owned blocks after one entry of the table has been replaced. */
  lemma OwnedAfter(sb: Super, t: Super, table: seq<Inode>, f: Inode)
    requires Sound(sb, table) && f.id < |table| && f.owned <= MAX_INODE_BLOCKS && Sound(t, table[f.id := f])
    requires table[f.id].owned <= MAX_INODE_BLOCKS
    ensures OwnedSet(table[f.id := f]) == OwnedSet(table) - Elements(Owned(table[f.id])) + Elements(Owned(f))
  {
    var all := table[f.id := f];
    forall a: int
      ensures a in OwnedSet(all) <==> a in OwnedSet(table) - Elements(Owned(table[f.id])) + Elements(Owned(f))
    {
      OwnedSetIsOwned(sb, table, a);
      OwnedSetIsOwned(t, all, a);
      if id :| OwnedBy(all, id, a) {
        if id != f.id {
          assert OwnedBy(table, id, a);
          if OwnedBy(table, f.id, a) {
            OneOwner(sb, table, id, f.id, a);
          }
        }
      }
      if id :| OwnedBy(table, id, a) {
        assert id != f.id ==> OwnedBy(all, id, a);
      }
      assert a in Owned(f) ==> OwnedBy(all, f.id, a);
    }
  }

  /** An owned block is marked. */
  lemma OwnedIsMarked(sb: Super, table: seq<Inode>)
    requires Sound(sb, table)
    ensures OwnedSet(table) <= MarkedSet(sb)
  {
  }

  // ---- one operation

  /** The blocks that an overwrite of f with k blocks forgets. */
  ghost function Forgotten(f: Inode, k: nat): set<int> {
    Elements(f.blocks[..Least(Least(k, f.owned), MAX_INODE_BLOCKS)])
  }

  function Least(a: nat, b: nat): nat {
    if a < b then a else b
  }

  lemma RewrittenOwns(sb: Super, f: Inode, g: Inode, addrs: seq<nat>)
    requires OwnsWell(sb, f) && Replaces(f, g, addrs) && forall a :: a in addrs ==> a in FreeSet(sb)
    ensures Elements(Owned(g)) == Elements(Owned(f)) - Forgotten(f, |addrs|) + Elements(addrs)
    ensures Elements(Owned(f)) !! Elements(addrs) && Forgotten(f, |addrs|) <= Elements(Owned(f))
  {
  }

  lemma FileIsOwned(s: Fs, id: nat)
    requires FsInv(s) && id < InodeNum(s.sb)
    ensures InodeAt(s, id).owned <= MAX_INODE_BLOCKS && Elements(Owned(InodeAt(s, id))) <= OwnedSet(Table(s))
    ensures |Elements(Owned(InodeAt(s, id)))| == InodeAt(s, id).owned
  {
    FsInvInode(s, id);
    var f := InodeAt(s, id);
    assert Table(s)[id] == f;
    ElementsOfDistinct(Owned(f));
    forall a | a in Elements(Owned(f))
      ensures a in OwnedSet(Table(s))
    {
      assert OwnedBy(Table(s), id, a);
      OwnedSetIsOwned(s.sb, Table(s), a);
    }
  }

  lemma WroteMarked(s: Fs, t: Fs, f: Inode, data: seq<byte>, g: Inode)
    requires Good(s) && Wrote(s, t, f, data, g) && Taken(s, f, |data|) <= |FreeSet(s.sb)|
    ensures var taken := Elements(Allocated(s.sb, Taken(s, f, |data|)));
            && |taken| == Taken(s, f, |data|) && taken !! MarkedSet(s.sb) && MarkedSet(t.sb) == MarkedSet(s.sb) + taken
  {
    var addrs := Allocated(s.sb, Taken(s, f, |data|));
    SameFieldsSameLayout(s.sb, t.sb);
    SameEnds(s.sb, t.sb);
    AllocationSucceeds(s.sb, |addrs|);
    ElementsOfDistinct(addrs);
    assert forall a :: a in addrs ==> a in FreeSet(s.sb);
  }

  lemma ReplacedOwned(sb: Super, t: Super, table: seq<Inode>, f: Inode, g: Inode, addrs: seq<nat>)
    requires Sound(sb, table) && f.id < |table| && table[f.id] == f && Sound(t, table[f.id := g])
    requires Replaces(f, g, addrs) && forall a :: a in addrs ==> a in FreeSet(sb)
    ensures |Forgotten(f, |addrs|)| == Least(|addrs|, f.owned) && Forgotten(f, |addrs|) <= OwnedSet(table)
    ensures OwnedSet(table[f.id := g]) == OwnedSet(table) - Forgotten(f, |addrs|) + Elements(addrs)
  {
    ElementsOfDistinct(f.blocks[..Least(|addrs|, f.owned)]);
    RewrittenOwns(sb, f, g, addrs);
    OwnedAfter(sb, t, table, g);
    forall a | a in Elements(Owned(f))
      ensures a in OwnedSet(table)
    {
      assert OwnedBy(table, f.id, a);
      OwnedSetIsOwned(sb, table, a);
    }
  }

  lemma WroteOwned(s: Fs, t: Fs, f: Inode, data: seq<byte>, g: Inode)
    requires FsInv(s) && Wrote(s, t, f, data, g) && f == InodeAt(s, f.id)
    requires Taken(s, f, |data|) <= |FreeSet(s.sb)| && BlockLen(t.sb) > 0
    ensures var k := Taken(s, f, |data|);
            && |Forgotten(f, k)| == Least(k, f.owned) && Forgotten(f, k) <= OwnedSet(Table(s))
            && OwnedSet(Table(t)) == OwnedSet(Table(s)) - Forgotten(f, k) + Elements(Allocated(s.sb, k))
  {
    FsInvInode(s, f.id);
    WroteReplaces(s, t, f, data, g);
    AllocatedAreFree(s.sb, Taken(s, f, |data|));
    WroteIsSound(s, t, f, data, g);
    WroteTable(s, t, f, data, g);
    ReplacedOwned(s.sb, t.sb, Table(s), f, g, Allocated(s.sb, Taken(s, f, |data|)));
  }

  lemma WroteTable(s: Fs, t: Fs, f: Inode, data: seq<byte>, g: Inode)
    requires Good(s) && Wrote(s, t, f, data, g) && BlockLen(t.sb) > 0
    ensures Table(t) == Table(s)[f.id := g] && g.id == f.id && Table(s)[f.id] == InodeAt(s, f.id)
  {
    SameFieldsSameLayout(s.sb, t.sb);
    TableAfter(s, t, g);
  }

  /** The balance of marked, owned and leaked blocks. */
  lemma Balance(marked: set<int>, owned: set<int>, gone: set<int>, taken: set<int>, marked': set<int>, owned': set<int>)
    requires owned <= marked && gone <= owned && taken !! marked
    requires marked' == marked + taken && owned' == owned - gone + taken
    ensures gone !! marked - owned && marked' - owned' == (marked - owned) + gone
  {
  }

  /** The accounts after a write of k blocks over a file of B blocks: k blocks are newly marked and the
      file owns them now, and the first min(k, B) of its blocks have leaked. */
  lemma WroteAccounts(s: Fs, t: Fs, f: Inode, data: seq<byte>, g: Inode)
    requires FsInv(s) && Wrote(s, t, f, data, g) && f == InodeAt(s, f.id)
    requires Taken(s, f, |data|) <= |FreeSet(s.sb)| && BlockLen(t.sb) > 0
    ensures var k := Taken(s, f, |data|);
            var taken := Elements(Allocated(s.sb, k));
            && |taken| == k && taken !! MarkedSet(s.sb) && MarkedSet(t.sb) == MarkedSet(s.sb) + taken
            && |Forgotten(f, k)| == Least(k, f.owned) && Forgotten(f, k) !! Leaked(s)
            && Leaked(t) == Leaked(s) + Forgotten(f, k)
  {
    var k := Taken(s, f, |data|);
    WroteMarked(s, t, f, data, g);
    WroteOwned(s, t, f, data, g);
    OwnedIsMarked(s.sb, Table(s));
    Balance(MarkedSet(s.sb), OwnedSet(Table(s)), Forgotten(f, k), Elements(Allocated(s.sb, k)), MarkedSet(t.sb),
            OwnedSet(Table(t)));
  }

  lemma DeletedOwned(s: Fs, t: Fs, f: Inode)
    requires FsInv(s) && FsInv(t) && Deleted(s, t, f) && f == InodeAt(s, f.id)
    ensures OwnedSet(Table(t)) == OwnedSet(Table(s)) - Elements(Owned(f))
  {
    DeletedMarks(s, t, f);
    DeletedTable(s, t, f);
    assert Table(s)[f.id] == f;
    assert Elements(Owned(EmptyInode(f.id))) == {};
    OwnedAfter(s.sb, t.sb, Table(s), EmptyInode(f.id));
  }

  lemma DeletedMarked(s: Fs, t: Fs, f: Inode)
    requires Good(s) && Deleted(s, t, f)
    ensures MarkedSet(t.sb) == MarkedSet(s.sb) - Elements(Owned(f))
  {
    DeletedMarks(s, t, f);
    SameEnds(s.sb, t.sb);
  }

  /** The accounts after a delete: exactly the blocks of the file are released, and none leaks. */
  lemma DeletedAccounts(s: Fs, t: Fs, f: Inode)
    requires FsInv(s) && Deleted(s, t, f) && f == InodeAt(s, f.id) && BlockLen(t.sb) > 0
    ensures |Elements(Owned(f))| == f.owned && Elements(Owned(f)) <= MarkedSet(s.sb)
    ensures MarkedSet(t.sb) == MarkedSet(s.sb) - Elements(Owned(f)) && Leaked(t) == Leaked(s)
  {
    DeletedKeepsInv(s, t, f);
    DeletedOwned(s, t, f);
    DeletedMarked(s, t, f);
    FileIsOwned(s, f.id);
    OwnedIsMarked(s.sb, Table(s));
  }

  lemma CreatedOwned(s: Fs, t: Fs, f: Inode)
    requires FsInv(s) && FsInv(t) && Created(s, t, f) && f.owned == 0 && InodeAt(s, f.id).owned <= MAX_INODE_BLOCKS
    ensures OwnedSet(Table(t)) == OwnedSet(Table(s)) - Elements(Owned(InodeAt(s, f.id)))
  {
    CreatedMarks(s, t, f);
    CreatedTable(s, t, f);
    assert Table(s)[f.id] == InodeAt(s, f.id);
    assert Elements(Owned(f)) == {};
    OwnedAfter(s.sb, t.sb, Table(s), f);
  }

  lemma CreatedMarked(s: Fs, t: Fs, f: Inode)
    requires Good(s) && Created(s, t, f)
    ensures MarkedSet(t.sb) == MarkedSet(s.sb)
  {
    CreatedMarks(s, t, f);
    SameEnds(s.sb, t.sb);
  }

  lemma CreatedSets(s: Fs, t: Fs, f: Inode)
    requires FsInv(s) && Created(s, t, f) && f.owned == 0 && BlockLen(t.sb) > 0
    requires InodeAt(s, f.id).owned <= MAX_INODE_BLOCKS
    ensures MarkedSet(t.sb) == MarkedSet(s.sb)
    ensures OwnedSet(Table(t)) == OwnedSet(Table(s)) - Elements(Owned(InodeAt(s, f.id)))
  {
    EmptyIsHarmless(s, f);
    CreatedKeepsInv(s, t, f);
    CreatedOwned(s, t, f);
    CreatedMarked(s, t, f);
  }

  /** The accounts after a create: no mark changes, and what the replaced inode owned has leaked. */
  lemma CreatedAccounts(s: Fs, t: Fs, f: Inode)
    requires FsInv(s) && Created(s, t, f) && f.owned == 0 && BlockLen(t.sb) > 0
    ensures var was := InodeAt(s, f.id);
            && was.owned <= MAX_INODE_BLOCKS && MarkedSet(t.sb) == MarkedSet(s.sb)
            && |Elements(Owned(was))| == was.owned && Elements(Owned(was)) !! Leaked(s)
            && Leaked(t) == Leaked(s) + Elements(Owned(was))
  {
    FileIsOwned(s, f.id);
    CreatedSets(s, t, f);
    assert OwnedSet(Table(s)) <= MarkedSet(s.sb) by {
      OwnedIsMarked(s.sb, Table(s));
    }
    ForgottenHasLeaked(s, t, Elements(Owned(InodeAt(s, f.id))));
  }

  lemma ForgottenHasLeaked(s: Fs, t: Fs, gone: set<int>)
    requires BlockLen(s.sb) > 0 && BlockLen(t.sb) > 0 && OwnedSet(Table(s)) <= MarkedSet(s.sb)
    requires gone <= OwnedSet(Table(s))
    requires MarkedSet(t.sb) == MarkedSet(s.sb) && OwnedSet(Table(t)) == OwnedSet(Table(s)) - gone
    ensures gone !! Leaked(s) && Leaked(t) == Leaked(s) + gone
  {
    Balance(MarkedSet(s.sb), OwnedSet(Table(s)), gone, {}, MarkedSet(t.sb), OwnedSet(Table(t)));
  }
}
