/** Who owns which block: the invariant of every reachable file system, what each operation does to
    it, and the accounting of blocks over whole runs. */
module Ownership {
  import opened Words
  import opened Bitmap
  import opened Storage
  import opened Superblock
  import opened Inodes
  import opened Writes

  /** The inode table as read_inode finds it. */
  ghost function Table(s: Fs): (r: seq<Inode>)
    requires BlockLen(s.sb) > 0
    ensures |r| == InodeNum(s.sb)
  {
    seq(InodeNum(s.sb), id requires 0 <= id < InodeNum(s.sb) => InodeAt(s, id))
  }

  /** a lies in the data area and is marked, in a place where marks work. */
  predicate InData(sb: Super, a: nat) {
    DataStart(sb) <= a < AllocEnd(sb) && BlockMarked(sb, a)
  }

  /** The owned entries of f are marked data blocks, all different. */
  predicate OwnsWell(sb: Super, f: Inode) {
    && f.owned <= MAX_INODE_BLOCKS
    && (forall i :: 0 <= i < f.owned ==> InData(sb, f.blocks[i]))
    && (forall i, j :: 0 <= i < j < f.owned ==> f.blocks[i] != f.blocks[j])
  }

  /** No block has two owners. */
  predicate Apart(f: Inode, g: Inode)
    requires f.owned <= MAX_INODE_BLOCKS && g.owned <= MAX_INODE_BLOCKS
  {
    forall i, j :: 0 <= i < f.owned && 0 <= j < g.owned ==> f.blocks[i] != g.blocks[j]
  }

  /** Owned blocks are marked data blocks, and no two entries of the table are the same block. */
  predicate Sound(sb: Super, table: seq<Inode>) {
    && (forall id :: 0 <= id < |table| ==> table[id].id == id && OwnsWell(sb, table[id]))
    && (forall id, id' :: 0 <= id < id' < |table| ==> Apart(table[id], table[id']))
  }

  /** An inode in use is marked as taken, if its mark has a place. */
  predicate InUseIsMarked(sb: Super, table: seq<Inode>) {
    forall id :: 0 <= id < |table| && Markable(id) && table[id].kind != UNALLOCATED ==> InodeMarked(sb, id)
  }

  /** What holds in every reachable file system. */
  ghost predicate FsInv(s: Fs) {
    && Good(s) && SuperIsMarked(s.sb) && SuperOnDisk(s)
    && Sound(s.sb, Table(s)) && InUseIsMarked(s.sb, Table(s))
  }

  // ---- the table after each operation

  lemma TableAfter(s: Fs, t: Fs, f: Inode)
    requires BlockLen(s.sb) > 0 && BlockLen(t.sb) > 0 && InodeNum(t.sb) == InodeNum(s.sb) && f.id < InodeNum(s.sb)
    requires forall id: nat :: id < InodeNum(s.sb) ==> InodeAt(t, id) == if id == f.id then f else InodeAt(s, id)
    ensures Table(t) == Table(s)[f.id := f]
  {
  }

  /** Replacing one entry keeps the table sound if the new entry is sound and apart from the others,
      and the marks of the others are kept. */
  lemma SoundUpdate(sb: Super, t: Super, table: seq<Inode>, f: Inode)
    requires Sound(sb, table) && f.id < |table| && OwnsWell(t, f)
    requires forall id :: 0 <= id < |table| && id != f.id ==> OwnsWell(t, table[id]) && Apart(f, table[id])
    ensures Sound(t, table[f.id := f])
  {
  }

  // ---- writing a file

  /** g has the blocks addrs in front, and keeps the blocks of f behind them that it still owns. */
  predicate Replaces(f: Inode, g: Inode, addrs: seq<nat>) {
    && g.id == f.id && g.kind == f.kind && |addrs| <= g.owned <= MAX_INODE_BLOCKS
    && (forall i :: 0 <= i < |addrs| ==> g.blocks[i] == addrs[i])
    && (forall i :: |addrs| <= i < g.owned ==> i < f.owned && g.blocks[i] == f.blocks[i])
    && (f.owned <= |addrs| ==> g.owned == |addrs|) && (|addrs| <= f.owned ==> g.owned == f.owned)
  }

  lemma WroteReplaces(s: Fs, t: Fs, f: Inode, data: seq<byte>, g: Inode)
    requires Wrote(s, t, f, data, g) && f.owned <= MAX_INODE_BLOCKS
    ensures Replaces(f, g, Allocated(s.sb, BlocksTaken(BlockLen(s.sb), |data|, f.owned)))
  {
  }

  lemma {:induction false} ReplacedOwnsWell(sb: Super, t: Super, f: Inode, g: Inode, addrs: seq<nat>)
    requires OwnsWell(sb, f) && Replaces(f, g, addrs) && Distinct(addrs) && forall a :: a in addrs ==> a in FreeSet(sb)
    requires DataStart(t) == DataStart(sb) && AllocEnd(t) == AllocEnd(sb)
    requires forall b: nat :: b >= DataStart(sb) ==> (BlockMarked(t, b) <==> BlockMarked(sb, b) || b in addrs)
    ensures OwnsWell(t, g)
  {
    forall i | 0 <= i < g.owned
      ensures InData(t, g.blocks[i])
    {
      assert i < |addrs| ==> addrs[i] in addrs;
    }
    forall i, j | 0 <= i < j < g.owned
      ensures g.blocks[i] != g.blocks[j]
    {
      assert i < |addrs| ==> addrs[i] in addrs;
    }
  }

  lemma ReplacedIsApart(sb: Super, f: Inode, g: Inode, addrs: seq<nat>, h: Inode)
    requires Replaces(f, g, addrs) && forall a :: a in addrs ==> a in FreeSet(sb)
    requires OwnsWell(sb, h) && OwnsWell(sb, f) && Apart(f, h)
    ensures Apart(g, h)
  {
    forall i, j | 0 <= i < g.owned && 0 <= j < h.owned
      ensures g.blocks[i] != h.blocks[j]
    {
      if i < |addrs| {
        assert addrs[i] in FreeSet(sb);
        assert InData(sb, h.blocks[j]);
      }
    }
  }

  lemma MoreMarksOwnWell(sb: Super, t: Super, h: Inode)
    requires OwnsWell(sb, h) && DataStart(t) == DataStart(sb) && AllocEnd(t) == AllocEnd(sb)
    requires forall b: nat :: BlockMarked(sb, b) && b >= DataStart(sb) ==> BlockMarked(t, b)
    ensures OwnsWell(t, h)
  {
  }

  /** The number of blocks that writing data through f takes. */
  function Taken(s: Fs, f: Inode, n: nat): nat
    requires BlockLen(s.sb) > 0
  {
    BlocksTaken(BlockLen(s.sb), n, f.owned)
  }

  lemma SameEnds(sb: Super, t: Super)
    requires SameLayout(sb, t)
    ensures AllocEnd(t) == AllocEnd(sb) && Barrier(t) == Barrier(sb) && StuckAt(t) == StuckAt(sb)
  {
  }

  lemma ApartEntries(sb: Super, table: seq<Inode>, id: nat, id': nat)
    requires Sound(sb, table) && id < |table| && id' < |table| && id != id'
    ensures Apart(table[id], table[id'])
  {
  }

  lemma WroteIsSound(s: Fs, t: Fs, f: Inode, data: seq<byte>, g: Inode)
    requires FsInv(s) && Wrote(s, t, f, data, g) && f == InodeAt(s, f.id)
    requires Taken(s, f, |data|) <= |FreeSet(s.sb)|
    ensures Sound(t.sb, Table(t))
  {
    var k, table := Taken(s, f, |data|), Table(s);
    var addrs := Allocated(s.sb, k);
    assert table[f.id] == f;
    WroteReplaces(s, t, f, data, g);
    AllocationSucceeds(s.sb, k);
    SameFieldsSameLayout(s.sb, t.sb);
    SameEnds(s.sb, t.sb);
    ReplacedOwnsWell(s.sb, t.sb, f, g, addrs);
    forall id | 0 <= id < |table| && id != f.id
      ensures OwnsWell(t.sb, table[id]) && Apart(g, table[id])
    {
      ApartEntries(s.sb, table, f.id, id);
      MoreMarksOwnWell(s.sb, t.sb, table[id]);
      ReplacedIsApart(s.sb, f, g, addrs, table[id]);
    }
    SoundUpdate(s.sb, t.sb, table, g);
    TableAfter(s, t, g);
  }

  lemma StuckIsNotOwned(sb: Super, t: Super, g: Inode, k: nat)
    requires Usable(sb) && SameLayout(sb, t) && 0 < k <= g.owned <= MAX_INODE_BLOCKS && |FreeSet(sb)| < k
    requires g.blocks[k - 1] == Allocated(sb, k)[k - 1]
    ensures !OwnsWell(t, g)
  {
    SameEnds(sb, t);
    AllocationSticks(sb, k, k - 1);
    assert !InData(t, g.blocks[k - 1]);
  }

  /** When the free blocks run out the last entry is a block that nobody can own. */
  lemma WroteIsUnsound(s: Fs, t: Fs, f: Inode, data: seq<byte>, g: Inode)
    requires FsInv(s) && Wrote(s, t, f, data, g) && f == InodeAt(s, f.id)
    requires Taken(s, f, |data|) > |FreeSet(s.sb)|
    ensures BlockLen(t.sb) > 0 && !Sound(t.sb, Table(t))
  {
    assert Table(s)[f.id] == f;
    WroteReplaces(s, t, f, data, g);
    SameFieldsSameLayout(s.sb, t.sb);
    StuckIsNotOwned(s.sb, t.sb, g, Taken(s, f, |data|));
    TableAfter(s, t, g);
    assert Table(t)[f.id] == g;
  }

  lemma InUseUpdate(sb: Super, t: Super, table: seq<Inode>, f: Inode)
    requires InUseIsMarked(sb, table) && f.id < |table|
    requires forall id: nat :: id < |table| && id != f.id && InodeMarked(sb, id) ==> InodeMarked(t, id)
    requires Markable(f.id) && f.kind != UNALLOCATED ==> InodeMarked(t, f.id)
    ensures InUseIsMarked(t, table[f.id := f])
  {
  }

  lemma WroteKeepsRest(s: Fs, t: Fs, f: Inode, data: seq<byte>, g: Inode)
    requires FsInv(s) && Wrote(s, t, f, data, g) && f == InodeAt(s, f.id)
    ensures SuperIsMarked(t.sb) && SuperOnDisk(t) && BlockLen(t.sb) > 0 && InUseIsMarked(t.sb, Table(t))
  {
    SameFieldsSameLayout(s.sb, t.sb);
    assert Table(s)[f.id] == f;
    InUseUpdate(s.sb, t.sb, Table(s), g);
    TableAfter(s, t, g);
  }

  /** A write to a file keeps the invariant exactly when enough free blocks are left. */
  lemma WroteKeepsInv(s: Fs, t: Fs, f: Inode, data: seq<byte>, g: Inode)
    requires FsInv(s) && Wrote(s, t, f, data, g) && f == InodeAt(s, f.id)
    ensures FsInv(t) <==> Taken(s, f, |data|) <= |FreeSet(s.sb)|
  {
    WroteKeepsRest(s, t, f, data, g);
    if Taken(s, f, |data|) <= |FreeSet(s.sb)| {
      WroteIsSound(s, t, f, data, g);
    } else {
      WroteIsUnsound(s, t, f, data, g);
    }
  }

  // ---- every other file is left alone

  /** The first n bytes of file id. */
  ghost function FileOf(s: Fs, id: nat, n: nat): seq<byte>
    requires BlockLen(s.sb) > 0
  {
    FileData(s, InodeAt(s, id), n)
  }

  /** n bytes lie within the blocks that file id owns. */
  ghost predicate Within(s: Fs, id: nat, n: nat)
    requires BlockLen(s.sb) > 0
  {
    n <= Start(BlockLen(s.sb), InodeAt(s, id).owned)
  }

  lemma AllocatedIsNotOwned(sb: Super, k: nat, a: nat)
    requires Usable(sb) && InData(sb, a)
    ensures a !in Allocated(sb, k)
  {
    forall i | 0 <= i < k
      ensures Allocated(sb, k)[i] != a
    {
      AllocatedEntry(sb, k, i);
      AllocRange(sb, DataStart(sb));
    }
  }

  lemma AllocateOne(sb: Super)
    requires Usable(sb)
    ensures FreeBlock(sb) in FreeSet(sb) || FreeBlock(sb) == StuckAt(sb)
    ensures WordIndex(BLOCK_BITMAP, FreeBlock(sb)) < SUPER_WORDS
    ensures var t := MarkBlock(sb, FreeBlock(sb)); Usable(t) && StuckAt(t) == StuckAt(sb) && FreeSet(t) <= FreeSet(sb)
  {
    FreeBlockAnswer(sb);
    MarkBlockEffect(sb, FreeBlock(sb));
    FreeSetAfterOne(sb);
  }

  /** Every address handed out was free, or is the one that the allocator is stuck at. */
  lemma {:induction false} AllocatedEntry(sb: Super, k: nat, i: nat)
    requires Usable(sb) && i < k
    ensures Allocated(sb, k)[i] in FreeSet(sb) || Allocated(sb, k)[i] == StuckAt(sb)
    decreases k
  {
    AllocateOne(sb);
    if i > 0 {
      AllocatedEntry(MarkBlock(sb, FreeBlock(sb)), k - 1, i - 1);
    }
  }

  /** A write to one file leaves every other file as it was, even when the blocks run out. */
  lemma WroteFrame(s: Fs, t: Fs, f: Inode, data: seq<byte>, g: Inode, id: nat, n: nat)
    requires FsInv(s) && Wrote(s, t, f, data, g) && id < InodeNum(s.sb) && id != f.id && Within(s, id, n)
    ensures BlockLen(t.sb) == BlockLen(s.sb) && InodeAt(t, id) == InodeAt(s, id) && FileOf(t, id, n) == FileOf(s, id, n)
  {
    var h := Table(s)[id];
    SameFieldsSameLayout(s.sb, t.sb);
    forall i | 0 <= i < h.owned
      ensures h.blocks[i] < |s.disk| && t.disk[h.blocks[i]] == s.disk[h.blocks[i]]
    {
      assert InData(s.sb, h.blocks[i]);
      AllocatedIsNotOwned(s.sb, Taken(s, f, |data|), h.blocks[i]);
    }
    ContentKept(s.disk, t.disk, BlockLen(s.sb), h.blocks, h.owned, n);
  }

  // ---- reading back what was written

  /** The number of different blocks that the allocator can still hand out: the free ones and, on a
      disk that goes beyond them, the block that it gets stuck at. */
  ghost function Spare(sb: Super): nat {
    |FreeSet(sb)| + if StuckAt(sb) != 0 then 1 else 0
  }

  /** While blocks are free, one allocation takes one of them and leaves one fewer. */
  lemma TakeFree(sb: Super)
    requires Usable(sb) && FreeSet(sb) != {}
    ensures var f := FreeBlock(sb);
            && f in FreeSet(sb) && f != StuckAt(sb) && f != 0 && WordIndex(BLOCK_BITMAP, f) < SUPER_WORDS
            && var t := MarkBlock(sb, f);
               Usable(t) && f !in FreeSet(t) && StuckAt(t) == StuckAt(sb) && Spare(t) == Spare(sb) - 1
  {
    FreeBlockAnswer(sb);
    MarkBlockEffect(sb, FreeBlock(sb));
    FreeSetAfterOne(sb);
    StuckIsNotFree(sb);
  }

  lemma {:induction false} NotAllocated(sb: Super, k: nat, f: nat)
    requires Usable(sb) && f !in FreeSet(sb) && f != StuckAt(sb)
    ensures f !in Allocated(sb, k)
  {
    var all := Allocated(sb, k);
    forall i | 0 <= i < |all|
      ensures all[i] != f
    {
      AllocatedEntry(sb, k, i);
    }
  }

  lemma DistinctCons(f: nat, rest: seq<nat>)
    requires Distinct(rest) && f !in rest && f != 0 && forall i :: 0 <= i < |rest| ==> rest[i] != 0
    ensures Distinct([f] + rest) && forall i :: 0 <= i < 1 + |rest| ==> ([f] + rest)[i] != 0
  {
  }

  lemma {:induction false} AllocatedIsDistinct(sb: Super, k: nat)
    requires Usable(sb) && k <= Spare(sb)
    ensures Distinct(Allocated(sb, k)) && forall i :: 0 <= i < k ==> Allocated(sb, k)[i] != 0
    decreases k
  {
    if k > 0 {
      if FreeSet(sb) == {} {
        AllocationSticks(sb, k, 0);
        assert k == 1;
      } else {
        TakeFree(sb);
        var t := MarkBlock(sb, FreeBlock(sb));
        AllocatedIsDistinct(t, k - 1);
        NotAllocated(t, k - 1, FreeBlock(sb));
        DistinctCons(FreeBlock(sb), Allocated(t, k - 1));
      }
    }
  }

  lemma StuckIsNotFree(sb: Super)
    requires Usable(sb)
    ensures StuckAt(sb) !in FreeSet(sb) && 0 !in FreeSet(sb)
  {
  }

  lemma BlockOfByte(len: nat, n: nat, k: nat, b: nat)
    requires len > 0 && b < n && Rounds(len, n, k)
    ensures b / len < k && b == Start(len, b / len) + b % len
  {
    DivBound(len, b, k);
    StartIsProduct(len, b / len);
  }

  /** The file is the data if every block holds its chunk. */
  lemma ReadBack(disk: seq<Block>, len: nat, addrs: seq<nat>, blocks: BlockList, data: seq<byte>)
    requires len > 0 && |addrs| <= MAX_INODE_BLOCKS && Rounds(len, |data|, |addrs|)
    requires forall i :: 0 <= i < |addrs| ==> blocks[i] == addrs[i] < |disk| && ChunkAt(disk[addrs[i]], len, i, data)
    ensures Content(disk, len, blocks, |data|) == data
  {
    forall b | 0 <= b < |data|
      ensures ByteAt(disk, len, blocks, b) == data[b]
    {
      BlockOfByte(len, |data|, |addrs|, b);
      assert ChunkAt(disk[addrs[b / len]], len, b / len, data);
    }
  }

  lemma EveryChunkIsThere(s: Fs, t: Fs, addrs: seq<nat>, data: seq<byte>, k: nat)
    requires Good(s) && Usable(s.sb) && addrs == Allocated(s.sb, k) && k <= Spare(s.sb)
    requires ChunksWritten(s.disk, t.disk, DataStart(s.sb), BlockLen(s.sb), addrs, data)
    ensures forall i :: 0 <= i < k ==> addrs[i] < |t.disk| && ChunkAt(t.disk[addrs[i]], BlockLen(s.sb), i, data)
  {
    AllocatedIsDistinct(s.sb, k);
    forall i | 0 <= i < k
      ensures addrs[i] < |t.disk| && ChunkAt(t.disk[addrs[i]], BlockLen(s.sb), i, data)
    {
      AllocatedOnDisk(s.sb, k, i);
      assert IsLastUse(addrs, i);
    }
  }

  /** What was written is read back, as long as the allocator finds that many different blocks. The
      last of them need not even be one that can be marked. */
  lemma WriteThenRead(s: Fs, t: Fs, f: Inode, data: seq<byte>, g: Inode)
    requires FsInv(s) && Wrote(s, t, f, data, g) && f == InodeAt(s, f.id)
    requires Taken(s, f, |data|) <= Spare(s.sb)
    ensures BlockLen(t.sb) > 0 && InodeAt(t, f.id) == g && g.size == |data| && FileOf(t, f.id, |data|) == data
  {
    var len, k := BlockLen(s.sb), Taken(s, f, |data|);
    assert Table(s)[f.id] == f;
    WroteReplaces(s, t, f, data, g);
    SameFieldsSameLayout(s.sb, t.sb);
    EveryChunkIsThere(s, t, Allocated(s.sb, k), data, k);
    BlocksTakenRounds(len, |data|, f.owned);
    ReadBack(t.disk, len, Allocated(s.sb, k), g.blocks, data);
  }

  function Spike(n: nat, at: nat, x: byte): (r: seq<byte>)
    ensures |r| == n && (at < n ==> r[at] == x)
  {
    seq(n, i => if i == at then x else 0)
  }

  /** Two chunks of the data went to one block of the disk. */
  lemma LaterChunkWins(disk: seq<Block>, len: nat, addrs: seq<nat>, blocks: BlockList, data: seq<byte>, j: nat)
    requires len > 0 && |addrs| <= MAX_INODE_BLOCKS && IsCeiling(len, |data|, |addrs|)
    requires forall i :: 0 <= i < |addrs| ==> blocks[i] == addrs[i]
    requires j < |addrs| - 1 && addrs[j] == addrs[|addrs| - 1] < |disk|
    requires ChunkAt(disk[addrs[j]], len, |addrs| - 1, data)
    requires data == Spike(|data|, Start(len, |addrs| - 1), 1)
    ensures Content(disk, len, blocks, |data|) != data
  {
    DivMod(len, j, 0);
    StartMono(len, j, |addrs| - 1);
    assert Content(disk, len, blocks, |data|)[Start(len, j)] == disk[addrs[j]][0] == 1;
  }

  /** The last chunk of the data went to a block that holds something else now. */
  lemma LastChunkIsGone(disk: seq<Block>, len: nat, addrs: seq<nat>, blocks: BlockList, data: seq<byte>)
    requires len > 0 && 0 < |addrs| <= MAX_INODE_BLOCKS && IsCeiling(len, |data|, |addrs|)
    requires forall i :: 0 <= i < |addrs| ==> blocks[i] == addrs[i]
    requires var a := addrs[|addrs| - 1];
             a < |disk| && |disk[a]| == len && disk[a][0] != data[Start(len, |addrs| - 1)]
    ensures Content(disk, len, blocks, |data|) != data
  {
    DivMod(len, |addrs| - 1, 0);
    var b := Start(len, |addrs| - 1);
    assert Content(disk, len, blocks, |data|)[b] == disk[addrs[|addrs| - 1]][0];
  }

  /** What a write of some data promises, in terms of the disk and the addresses. */
  lemma WroteBasics(s: Fs, t: Fs, f: Inode, data: seq<byte>, g: Inode, k: nat)
    requires Good(s) && Wrote(s, t, f, data, g) && f.owned <= MAX_INODE_BLOCKS && data != [] && k == Taken(s, f, |data|)
    ensures BlockLen(t.sb) == BlockLen(s.sb) > 0
    ensures FileOf(t, f.id, |data|) == Content(t.disk, BlockLen(s.sb), g.blocks, |data|)
    ensures 0 < k <= MAX_INODE_BLOCKS && IsCeiling(BlockLen(s.sb), |data|, k)
    ensures forall i :: 0 <= i < k ==> g.blocks[i] == Allocated(s.sb, k)[i]
    ensures var a := Allocated(s.sb, k)[k - 1];
            && a < |t.disk|
            && (a == 0 || ChunkAt(t.disk[a], BlockLen(s.sb), k - 1, data))
  {
    var addrs := Allocated(s.sb, k);
    SameFieldsSameLayout(s.sb, t.sb);
    WroteReplaces(s, t, f, data, g);
    BlocksOccupiedIsCeiling(BlockLen(s.sb), |data|);
    AllocatedOnDisk(s.sb, k, k - 1);
    assert IsLastUse(addrs, k - 1);
  }

  /** The first byte on the disk is that of the superblock. */
  lemma FirstByte(s: Fs, t: Fs)
    requires Good(s) && Good(t) && SameFields(s.sb, t.sb) && SuperOnDisk(t)
    ensures |t.disk| > 0 && |t.disk[0]| == BlockLen(s.sb) > 0 && t.disk[0][0] == Encode(s.sb)[0]
  {
    SameFieldsSameLayout(s.sb, t.sb);
    DataStartIsSmall(t.sb, |t.disk|, BlockLen(t.sb));
    assert Content(t.disk, BlockLen(t.sb), Span(0, InodeStart(t.sb)), SUPER_BYTES)[0] == t.disk[0][0];
  }

  /** n bytes that a write to k blocks loses: one byte, at the start of the last block, stands out. */
  function Fragile(sb: Super, n: nat, k: nat): (r: seq<byte>)
    requires BlockLen(sb) > 0 && k > 0
    ensures |r| == n
  {
    var first: int := Encode(sb)[0];
    Spike(n, Start(BlockLen(sb), k - 1), if StuckAt(sb) != 0 then 1 else (first + 1) % 256)
  }

  lemma FragileByte(sb: Super, n: nat, k: nat)
    requires BlockLen(sb) > 0 && k > 0 && StuckAt(sb) == 0 && Start(BlockLen(sb), k - 1) < n
    ensures Fragile(sb, n, k)[Start(BlockLen(sb), k - 1)] != Encode(sb)[0]
  {
  }

  lemma StuckTwice(sb: Super, k: nat)
    requires Usable(sb) && k > |FreeSet(sb)| + 1
    ensures Allocated(sb, k)[|FreeSet(sb)|] == Allocated(sb, k)[k - 1] == StuckAt(sb)
  {
    AllocationSticks(sb, k, k - 1);
    AllocationSticks(sb, k, |FreeSet(sb)|);
  }

  ghost predicate Misread(t: Fs, id: nat, data: seq<byte>) {
    BlockLen(t.sb) > 0 && FileOf(t, id, |data|) != data
  }

  lemma LostBeforeStuck(s: Fs, t: Fs, f: Inode, data: seq<byte>, g: Inode, k: nat, j: nat)
    requires Good(s) && Wrote(s, t, f, data, g) && f.owned <= MAX_INODE_BLOCKS && data != [] && k == Taken(s, f, |data|)
    requires j < k - 1 && Allocated(s.sb, k)[j] == Allocated(s.sb, k)[k - 1] != 0
    requires data == Spike(|data|, Start(BlockLen(s.sb), k - 1), 1)
    ensures Misread(t, f.id, data)
  {
    WroteBasics(s, t, f, data, g, k);
    LaterChunkWins(t.disk, BlockLen(s.sb), Allocated(s.sb, k), g.blocks, data, j);
  }

  lemma LostInSuperblock(s: Fs, t: Fs, f: Inode, data: seq<byte>, g: Inode, k: nat)
    requires Good(s) && Wrote(s, t, f, data, g) && f.owned <= MAX_INODE_BLOCKS && data != [] && k == Taken(s, f, |data|)
    requires k > |FreeSet(s.sb)| && StuckAt(s.sb) == 0 && SuperOnDisk(t) && data == Fragile(s.sb, |data|, k)
    ensures Misread(t, f.id, data)
  {
    WroteBasics(s, t, f, data, g, k);
    AllocationSticks(s.sb, k, k - 1);
    FirstByte(s, t);
    FragileByte(s.sb, |data|, k);
    LastChunkIsGone(t.disk, BlockLen(s.sb), Allocated(s.sb, k), g.blocks, data);
  }

  lemma FsInvInode(s: Fs, id: nat)
    requires FsInv(s) && id < InodeNum(s.sb)
    ensures InodeAt(s, id).id == id && OwnsWell(s.sb, InodeAt(s, id))
  {
    assert Table(s)[id] == InodeAt(s, id);
  }

  lemma FragileIsSpike(sb: Super, n: nat, k: nat)
    requires BlockLen(sb) > 0 && k > 0 && StuckAt(sb) != 0
    ensures Fragile(sb, n, k) == Spike(n, Start(BlockLen(sb), k - 1), 1)
  {
  }

  lemma FragileIsLost(s: Fs, t: Fs, f: Inode, data: seq<byte>, g: Inode, k: nat)
    requires Good(s) && SuperIsMarked(s.sb) && Wrote(s, t, f, data, g) && f.owned <= MAX_INODE_BLOCKS && data != []
    requires k == Taken(s, f, |data|) && k > Spare(s.sb) && data == Fragile(s.sb, |data|, k)
    ensures Misread(t, f.id, data)
  {
    if StuckAt(s.sb) != 0 {
      FragileIsSpike(s.sb, |data|, k);
      StuckTwice(s.sb, k);
      LostBeforeStuck(s, t, f, data, g, k, |FreeSet(s.sb)|);
    } else {
      LostInSuperblock(s, t, f, data, g, k);
    }
  }

  /** When the allocator finds fewer different blocks than the write takes, there is data that is not
      read back, whatever state the write leads to. */
  lemma LostData(s: Fs, f: Inode, n: nat) returns (data: seq<byte>)
    requires FsInv(s) && f.id < InodeNum(s.sb) && f == InodeAt(s, f.id) && 0 < n < WORD_LIMIT
    requires FitsInode(s.sb, n) && Taken(s, f, n) > Spare(s.sb)
    ensures |data| == n && forall t, g :: Wrote(s, t, f, data, g) ==> Misread(t, f.id, data)
  {
    var k := Taken(s, f, n);
    FsInvInode(s, f.id);
    data := Fragile(s.sb, n, k);
    forall t, g | Wrote(s, t, f, data, g)
      ensures Misread(t, f.id, data)
    {
      FragileIsLost(s, t, f, data, g, k);
    }
  }

  // ---- deleting a file

  lemma DeletedMarks(s: Fs, t: Fs, f: Inode)
    requires Good(s) && Deleted(s, t, f)
    ensures SameLayout(s.sb, t.sb)
    ensures forall b: nat :: b >= DataStart(s.sb) ==> (BlockMarked(t.sb, b) <==> BlockMarked(s.sb, b) && b !in Owned(f))
    ensures forall id: nat :: id < InodeNum(s.sb) ==> (InodeMarked(t.sb, id) <==> InodeMarked(s.sb, id) && id != f.id)
    ensures |t.disk| == |s.disk| && forall a :: DataStart(s.sb) <= a < |s.disk| ==> t.disk[a] == s.disk[a]
  {
    DataStartIsSmall(s.sb, |s.disk|, BlockLen(s.sb));
    var u := UnmarkBlocks(s.sb, Owned(f));
    UnmarkBlocksEffect(s.sb, Owned(f));
    UnmarkInodeEffect(u, f.id);
    SameFieldsSameLayout(UnmarkInode(u, f.id), t.sb);
  }

  lemma DeletedTable(s: Fs, t: Fs, f: Inode)
    requires Good(s) && Deleted(s, t, f) && SameLayout(s.sb, t.sb)
    ensures Table(t) == Table(s)[f.id := EmptyInode(f.id)]
  {
    UnmarkBlocksEffect(s.sb, Owned(f));
    var u := UnmarkBlocks(s.sb, Owned(f));
    UnmarkInodeEffect(u, f.id);
    forall id: nat | id < InodeNum(s.sb)
      ensures InodeAt(Fs(UnmarkInode(u, f.id), s.disk), id) == InodeAt(s, id)
    {
      InodeFrame(s, Fs(UnmarkInode(u, f.id), s.disk), id);
    }
    TableAfter(s, t, EmptyInode(f.id));
  }

  lemma DeletedStored(s: Fs, t: Fs, f: Inode)
    requires Good(s) && SuperIsMarked(s.sb) && Deleted(s, t, f) && OwnsWell(s.sb, f)
    ensures SuperIsMarked(t.sb) && SuperOnDisk(t)
  {
    DataStartIsSmall(s.sb, |s.disk|, BlockLen(s.sb));
    var u := UnmarkBlocks(s.sb, Owned(f));
    UnmarkBlocksEffect(s.sb, Owned(f));
    UnmarkInodeEffect(u, f.id);
    assert forall b: nat :: b < DataStart(s.sb) ==> b !in Owned(f);
  }

  lemma UnmarkedOwnsWell(sb: Super, t: Super, f: Inode, h: Inode)
    requires OwnsWell(sb, f) && OwnsWell(sb, h) && Apart(f, h) && SameLayout(sb, t)
    requires forall b: nat :: b >= DataStart(sb) ==> (BlockMarked(t, b) <==> BlockMarked(sb, b) && b !in Owned(f))
    ensures OwnsWell(t, h)
  {
  }

  /** Deleting an inode keeps the invariant if the blocks that it lists are marked and belong to no other
      inode. */
  lemma HarmlessDeletion(s: Fs, t: Fs, f: Inode)
    requires FsInv(s) && Deleted(s, t, f) && Harmless(s.sb, Table(s), f)
    ensures FsInv(t)
  {
    var table := Table(s);
    DeletedMarks(s, t, f);
    DeletedTable(s, t, f);
    DeletedStored(s, t, f);
    forall id | 0 <= id < |table| && id != f.id
      ensures OwnsWell(t.sb, table[id]) && Apart(EmptyInode(f.id), table[id])
    {
      UnmarkedOwnsWell(s.sb, t.sb, f, table[id]);
    }
    SoundUpdate(s.sb, t.sb, table, EmptyInode(f.id));
    InUseUpdate(s.sb, t.sb, table, EmptyInode(f.id));
  }

  /** Deleting a file keeps the invariant. */
  lemma DeletedKeepsInv(s: Fs, t: Fs, f: Inode)
    requires FsInv(s) && Deleted(s, t, f) && f == InodeAt(s, f.id)
    ensures FsInv(t)
  {
    var table := Table(s);
    assert table[f.id] == f;
    forall id | 0 <= id < |table| && id != f.id
      ensures Apart(f, table[id])
    {
      ApartEntries(s.sb, table, f.id, id);
    }
    HarmlessDeletion(s, t, f);
  }

  /** Deleting a file leaves every other file as it was. */
  lemma DeletedFrame(s: Fs, t: Fs, f: Inode, id: nat, n: nat)
    requires FsInv(s) && Deleted(s, t, f) && id < InodeNum(s.sb) && id != f.id && Within(s, id, n)
    ensures BlockLen(t.sb) == BlockLen(s.sb) && InodeAt(t, id) == InodeAt(s, id) && FileOf(t, id, n) == FileOf(s, id, n)
  {
    FsInvInode(s, id);
    DeletedMarks(s, t, f);
    DeletedTable(s, t, f);
    assert Table(t)[id] == Table(s)[id];
    DataKept(s, t, InodeAt(s, id), n);
  }

  /** A file whose blocks are all in the data area is kept with the data area. */
  lemma DataKept(s: Fs, t: Fs, h: Inode, n: nat)
    requires OwnsWell(s.sb, h) && BlockLen(t.sb) == BlockLen(s.sb) > 0 && n <= Start(BlockLen(s.sb), h.owned)
    requires |t.disk| == |s.disk| && forall a :: DataStart(s.sb) <= a < |s.disk| ==> t.disk[a] == s.disk[a]
    ensures FileData(t, h, n) == FileData(s, h, n)
  {
    forall i | 0 <= i < h.owned && h.blocks[i] < |s.disk|
      ensures t.disk[h.blocks[i]] == s.disk[h.blocks[i]]
    {
      assert InData(s.sb, h.blocks[i]);
    }
    ContentKept(s.disk, t.disk, BlockLen(s.sb), h.blocks, h.owned, n);
  }

  // ---- creating a file

  lemma CreatedMarks(s: Fs, t: Fs, f: Inode)
    requires Good(s) && Created(s, t, f)
    ensures SameLayout(s.sb, t.sb) && (SuperIsMarked(s.sb) ==> SuperIsMarked(t.sb) && SuperOnDisk(t))
    ensures forall b: nat :: b >= DataStart(s.sb) ==> (BlockMarked(t.sb, b) <==> BlockMarked(s.sb, b))
    ensures forall id: nat :: id < InodeNum(s.sb) ==>
              (InodeMarked(t.sb, id) <==> InodeMarked(s.sb, id) || (id == f.id && Markable(id)))
    ensures |t.disk| == |s.disk| && forall a :: DataStart(s.sb) <= a < |s.disk| ==> t.disk[a] == s.disk[a]
  {
    MarkInodeEffect(s.sb, f.id);
    SameFieldsSameLayout(MarkInode(s.sb, f.id), t.sb);
  }

  lemma CreatedTable(s: Fs, t: Fs, f: Inode)
    requires Good(s) && Created(s, t, f) && SameLayout(s.sb, t.sb)
    ensures Table(t) == Table(s)[f.id := f]
  {
    MarkInodeEffect(s.sb, f.id);
    var u := Fs(MarkInode(s.sb, f.id), s.disk);
    forall id: nat | id < InodeNum(s.sb)
      ensures InodeAt(u, id) == InodeAt(s, id)
    {
      InodeFrame(s, u, id);
    }
    TableAfter(s, t, f);
  }

  /** The owned entries that a new inode f starts with are marked blocks that no other file owns. */
  predicate Harmless(sb: Super, table: seq<Inode>, f: Inode) {
    && OwnsWell(sb, f)
    && forall id :: 0 <= id < |table| && id != f.id ==> table[id].owned <= MAX_INODE_BLOCKS && Apart(f, table[id])
  }

  /** The table with the new inode is sound exactly if the inode is harmless. */
  lemma SoundIffHarmless(sb: Super, t: Super, table: seq<Inode>, f: Inode)
    requires Sound(sb, table) && SameLayout(sb, t) && f.id < |table|
    requires forall b: nat :: b >= DataStart(sb) ==> (BlockMarked(t, b) <==> BlockMarked(sb, b))
    ensures Sound(t, table[f.id := f]) <==> Harmless(sb, table, f)
  {
    SameEnds(sb, t);
    var all := table[f.id := f];
    assert all[f.id] == f;
    if Harmless(sb, table, f) {
      MoreMarksOwnWell(sb, t, f);
      forall id | 0 <= id < |table| && id != f.id
        ensures OwnsWell(t, table[id]) && Apart(f, table[id])
      {
        MoreMarksOwnWell(sb, t, table[id]);
      }
      SoundUpdate(sb, t, table, f);
    }
    if Sound(t, all) {
      MoreMarksOwnWell(t, sb, f);
      forall id | 0 <= id < |table| && id != f.id
        ensures table[id].owned <= MAX_INODE_BLOCKS && Apart(f, table[id])
      {
        assert all[id] == table[id];
        ApartEntries(t, all, f.id, id);
      }
    }
  }

  lemma CreatedKeepsRest(s: Fs, t: Fs, f: Inode)
    requires FsInv(s) && Created(s, t, f)
    ensures SameLayout(s.sb, t.sb) && SuperIsMarked(t.sb) && SuperOnDisk(t) && InUseIsMarked(t.sb, Table(t))
  {
    CreatedMarks(s, t, f);
    CreatedTable(s, t, f);
    InUseUpdate(s.sb, t.sb, Table(s), f);
  }

  lemma CreatedIsSound(s: Fs, t: Fs, f: Inode)
    requires FsInv(s) && Created(s, t, f) && BlockLen(t.sb) > 0
    ensures Sound(t.sb, Table(t)) <==> Harmless(s.sb, Table(s), f)
  {
    CreatedMarks(s, t, f);
    CreatedTable(s, t, f);
    SoundIffHarmless(s.sb, t.sb, Table(s), f);
  }

  /** create_inode_type leaves blocks_allocated and the block list of the new inode as they happen to
      be on the stack. The invariant is kept exactly when that garbage is harmless. */
  lemma CreatedKeepsInv(s: Fs, t: Fs, f: Inode)
    requires FsInv(s) && Created(s, t, f)
    ensures FsInv(t) <==> Harmless(s.sb, Table(s), f)
  {
    CreatedKeepsRest(s, t, f);
    CreatedIsSound(s, t, f);
  }

  /** A new inode that starts without blocks, as new_inode would make it, is always harmless. */
  lemma EmptyIsHarmless(s: Fs, f: Inode)
    requires FsInv(s) && f.owned == 0
    ensures Harmless(s.sb, Table(s), f)
  {
  }

  /** Creating a file leaves every other file as it was. */
  lemma CreatedFrame(s: Fs, t: Fs, f: Inode, id: nat, n: nat)
    requires FsInv(s) && Created(s, t, f) && id < InodeNum(s.sb) && id != f.id && Within(s, id, n)
    ensures BlockLen(t.sb) == BlockLen(s.sb) && InodeAt(t, id) == InodeAt(s, id) && FileOf(t, id, n) == FileOf(s, id, n)
  {
    FsInvInode(s, id);
    CreatedMarks(s, t, f);
    CreatedTable(s, t, f);
    assert Table(t)[id] == Table(s)[id];
    DataKept(s, t, InodeAt(s, id), n);
  }

  /** A new file never takes the place of one in use, as long as its id has a place in the bitmap. */
  lemma CreatedIsFresh(s: Fs, t: Fs, f: Inode)
    requires FsInv(s) && Created(s, t, f) && Markable(f.id)
    ensures InodeAt(s, f.id).kind == UNALLOCATED
  {
    assert Table(s)[f.id] == InodeAt(s, f.id);
  }

  /** Creating another file takes another inode exactly when the mark of the first one has a place.
      Otherwise the second file replaces the first. */
  lemma NextCreate(s: Fs, t: Fs, f: Inode)
    requires Good(s) && Created(s, t, f)
    ensures InodeNum(t.sb) == InodeNum(s.sb) && (FreeInodeFrom(t.sb, 0) != f.id <==> Markable(f.id))
  {
    CreatedMarks(s, t, f);
  }

  /** However many inodes the table has, no more than 33 of them are ever handed out, and the last of
      these over and over. */
  lemma InodeCapacity(sb: Super)
    requires InodeNum(sb) > WORD_BITS
    ensures 0 <= FreeInodeFrom(sb, 0) <= WORD_BITS
  {
    assert !InodeMarked(sb, WORD_BITS);
  }
}
