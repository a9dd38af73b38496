/** Inodes in memory and on disk, and the state of a mounted file system (fs.h, fs.c). */
module Inodes {
  import opened Words
  import opened Bitmap
  import opened Storage
  import opened Superblock

  const UNALLOCATED: word := 0
  const FILE: word := 1
  const DIRECTORY: word := 2
  const DEVICE: word := 3

  type BlockList = b: seq<word> | |b| == 6 witness [0, 0, 0, 0, 0, 0]

  /** inode_t; owned is its blocks_allocated. */
  datatype Inode = Inode(id: word, kind: word, size: word, owned: word, created: word, modified: word,
                         blocks: BlockList)

  function InodeWords(n: Inode): (ws: seq<word>)
    ensures |ws| == 12
  {
    [n.id, n.kind, n.size, n.owned, n.created, n.modified] + n.blocks
  }

  function WordsInode(ws: seq<word>): Inode
    requires |ws| == 12
  {
    Inode(ws[0], ws[1], ws[2], ws[3], ws[4], ws[5], ws[6..])
  }

  function InodeToBytes(n: Inode): (b: seq<byte>)
    ensures |b| == INODE_BYTES
  {
    Encode(InodeWords(n))
  }

  function BytesToInode(b: seq<byte>): Inode
    requires |b| == INODE_BYTES
  {
    WordsInode(Decode(b))
  }

  lemma InodeRoundTrip(n: Inode)
    ensures BytesToInode(InodeToBytes(n)) == n
  {
    DecodeEncode(InodeWords(n));
    assert InodeWords(n)[6..] == n.blocks;
  }

  /** new_inode */
  function EmptyInode(id: word): Inode {
    Inode(id, UNALLOCATED, 0, 0, 0, 0, [0, 0, 0, 0, 0, 0])
  }

  /** The superblock in memory and the blocks of the disk. */
  datatype Fs = Fs(sb: Super, disk: seq<Block>)

  /** The disk is formatted for the superblock in memory. */
  ghost predicate Good(s: Fs) {
    && Layout(s.sb, |s.disk|, BlockLen(s.sb))
    && forall a :: 0 <= a < |s.disk| ==> |s.disk[a]| == BlockLen(s.sb)
  }

  function InodeSpan(sb: Super, id: nat): seq<nat>
    requires BlockLen(sb) > 0
  {
    Span(InodeAddr(sb, id), InodeBlocks(sb))
  }

  /** The inode that read_inode finds on disk. */
  function InodeAt(s: Fs, id: nat): Inode
    requires BlockLen(s.sb) > 0
  {
    BytesToInode(Content(s.disk, BlockLen(s.sb), InodeSpan(s.sb, id), INODE_BYTES))
  }

  /** The blocks where an inode with that id would lie are blocks of the disk. Those of the table are. */
  predicate OnDisk(s: Fs, id: nat)
    requires BlockLen(s.sb) > 0
  {
    InodeAddr(s.sb, id) + InodeBlocks(s.sb) <= |s.disk|
  }

  lemma TableIsOnDisk(s: Fs, id: nat)
    requires Good(s) && id < InodeNum(s.sb)
    ensures OnDisk(s, id)
  {
    InodeInTable(s.sb, |s.disk|, BlockLen(s.sb), id);
  }

  /** The first n bytes of the file whose inode is f. */
  function FileData(s: Fs, f: Inode, n: nat): seq<byte> {
    Content(s.disk, BlockLen(s.sb), f.blocks, n)
  }

  /** Writing a span of blocks sequentially marks them all. */
  function MarkSpan(sb: Super, first: nat, count: nat): Super
    requires WordIndex(BLOCK_BITMAP, first + count) < SUPER_WORDS
  {
    if count == 0 then sb else MarkBlock(MarkSpan(sb, first, count - 1), first + count - 1)
  }

  lemma {:induction false} MarkSpanEffect(sb: Super, first: nat, count: nat)
    requires Usable(sb) && WordIndex(BLOCK_BITMAP, first + count) < SUPER_WORDS
    ensures var t := MarkSpan(sb, first, count);
            && t[..BLOCK_BITMAP] == sb[..BLOCK_BITMAP] && Usable(t)
            && (forall b: nat ::
                  BlockMarked(t, b) <==> BlockMarked(sb, b) || (first <= b < first + count && Markable(b)))
            && (forall id: nat :: id < MAX_NUMBER_OF_INODES ==> (InodeMarked(t, id) <==> InodeMarked(sb, id)))
  {
    if count > 0 {
      MarkSpanEffect(sb, first, count - 1);
      MarkBlockEffect(MarkSpan(sb, first, count - 1), first + count - 1);
    }
  }

  /** The fields and the inode bitmap of the superblock are as before. */
  predicate SameFields(sb: Super, t: Super) {
    t[..BLOCK_BITMAP] == sb[..BLOCK_BITMAP]
  }

  /** All marks that writing the span would set are there already. */
  predicate SpanIsMarked(sb: Super, first: nat, count: nat) {
    forall b :: first <= b < first + count && Markable(b) ==> BlockMarked(sb, b)
  }

  /** The blocks of the superblock are marked. */
  predicate SuperIsMarked(sb: Super) {
    SpanIsMarked(sb, 0, InodeStart(sb))
  }

  /** read_superblock would find the superblock as it is in memory. */
  predicate SuperOnDisk(s: Fs) {
    Content(s.disk, BlockLen(s.sb), Span(0, InodeStart(s.sb)), SUPER_BYTES) == Encode(s.sb)
  }

  /** Only f's place in the inode table has changed, apart from the superblock's own blocks and the
      marks of metadata blocks. */
  ghost predicate InodePlaced(s: Fs, t: Fs, f: Inode) {
    && Good(s) && Good(t) && |t.disk| == |s.disk| && SameFields(s.sb, t.sb)
    && (forall b: nat :: BlockMarked(s.sb, b) ==> BlockMarked(t.sb, b))
    && (forall b: nat :: b >= DataStart(s.sb) ==> (BlockMarked(t.sb, b) <==> BlockMarked(s.sb, b)))
    && (forall id: nat :: id < InodeNum(s.sb) ==> (InodeMarked(t.sb, id) <==> InodeMarked(s.sb, id)))
    && (forall a :: DataStart(s.sb) <= a < |s.disk| ==> t.disk[a] == s.disk[a])
    && (forall id: nat :: id < InodeNum(s.sb) ==> InodeAt(t, id) == if id == f.id then f else InodeAt(s, id))
  }

  /** The superblock has been stored, faithfully if its own blocks were marked before. */
  ghost predicate SuperStored(s: Fs, t: Fs) {
    SuperIsMarked(t.sb) && (SuperIsMarked(s.sb) ==> SuperOnDisk(t))
  }

  /** t is s after write_inode(f). */
  ghost predicate InodeWritten(s: Fs, t: Fs, f: Inode) {
    InodePlaced(s, t, f) && SuperStored(s, t)
  }

  /** The number of blocks that a write of n bytes takes when the inode owns owned ones. */
  function BlocksTaken(size: nat, n: nat, owned: nat): nat
    requires size > 0
  {
    if n == 0 then (if owned == 0 then 0 else 1) else BlocksOccupied(size, n)
  }

  predicate AllWords(addrs: seq<nat>) {
    forall i :: 0 <= i < |addrs| ==> addrs[i] < WORD_LIMIT
  }

  /** blocks with its first entries replaced by addrs. */
  function NewBlocks(blocks: BlockList, addrs: seq<nat>): (r: BlockList)
    requires |addrs| <= MAX_INODE_BLOCKS && AllWords(addrs)
    ensures forall i :: 0 <= i < MAX_INODE_BLOCKS ==> r[i] == if i < |addrs| then addrs[i] else blocks[i]
  {
    if addrs == [] then blocks
    else
      var last := |addrs| - 1;
      var w: word := addrs[last];
      NewBlocks(blocks, addrs[..last])[last := w]
  }

  /** The inode after a write of n bytes into the blocks addrs. */
  function Rewritten(f: Inode, size: nat, n: word, addrs: seq<nat>): Inode
    requires size > 0 && BlocksOccupied(size, n) <= MAX_INODE_BLOCKS && |addrs| <= MAX_INODE_BLOCKS
    requires AllWords(addrs)
  {
    var needed := BlocksOccupied(size, n);
    f.(size := n, owned := if needed > f.owned then needed else f.owned,
       blocks := NewBlocks(f.blocks, addrs))
  }

  /** data has been written block by block to addrs, as far as blocks from lo on are concerned; of
      several writes to one block the last wins. */
  predicate ChunksWritten(disk: seq<Block>, disk': seq<Block>, lo: nat, size: nat, addrs: seq<nat>, data: seq<byte>) {
    && |disk'| == |disk|
    && (forall a :: lo <= a < |disk| && a !in addrs ==> disk'[a] == disk[a])
    && (forall j :: 0 <= j < |addrs| && lo <= addrs[j] < |disk| && IsLastUse(addrs, j) ==>
          ChunkAt(disk'[addrs[j]], size, j, data))
  }

  /** The address of entry j does not come again. */
  predicate IsLastUse(addrs: seq<nat>, j: nat)
    requires j < |addrs|
  {
    forall l :: j < l < |addrs| ==> addrs[l] != addrs[j]
  }

  /** block starts with the j-th chunk of data. */
  predicate ChunkAt(block: Block, size: nat, j: nat, data: seq<byte>) {
    |block| == size && forall r :: 0 <= r < size && Start(size, j) + r < |data| ==> block[r] == data[Start(size, j) + r]
  }

  /** free_inode_id: the first id from id on that is not marked, or -1. */
  function FreeInodeFrom(sb: Super, id: nat): (r: int)
    requires id <= InodeNum(sb)
    ensures r == -1 || (id <= r < InodeNum(sb) && !InodeMarked(sb, r))
    ensures forall i: nat :: id <= i < (if r == -1 then InodeNum(sb) else r) ==> InodeMarked(sb, i)
    decreases InodeNum(sb) - id
  {
    if id == InodeNum(sb) then -1
    else if !InodeMarked(sb, id) then id
    else FreeInodeFrom(sb, id + 1)
  }

  /** A read or write of n bytes fits into the direct blocks of an inode. */
  predicate FitsInode(sb: Super, n: nat)
    requires BlockLen(sb) > 0
  {
    BlocksOccupied(BlockLen(sb), n) <= MAX_INODE_BLOCKS
  }

  /** The layout fields agree. */
  predicate SameLayout(sb: Super, t: Super) {
    && BlockNum(t) == BlockNum(sb) && BlockLen(t) == BlockLen(sb) && InodeNum(t) == InodeNum(sb)
    && InodeStart(t) == InodeStart(sb) && DataStart(t) == DataStart(sb)
  }

  /** allocate_inode and unallocate_inode */
  function MarkInode(sb: Super, id: nat): Super
    requires id < MAX_NUMBER_OF_INODES
  {
    Mark(sb, INODE_BITMAP, id)
  }

  function UnmarkInode(sb: Super, id: nat): Super
    requires id < MAX_NUMBER_OF_INODES
  {
    Unmark(sb, INODE_BITMAP, id)
  }

  /** The blocks that f owns. */
  function Owned(f: Inode): (r: seq<word>)
    requires f.owned <= MAX_INODE_BLOCKS
  {
    f.blocks[..f.owned]
  }

  function UnmarkBlocks(sb: Super, blocks: seq<word>): Super
    requires forall i :: 0 <= i < |blocks| ==> blocks[i] < MAX_NUMBER_OF_BLOCKS
  {
    if blocks == [] then sb
    else Unmark(UnmarkBlocks(sb, blocks[..|blocks| - 1]), BLOCK_BITMAP, blocks[|blocks| - 1])
  }

  lemma MarkInodeEffect(sb: Super, id: nat)
    requires id < MAX_NUMBER_OF_INODES
    ensures var t := MarkInode(sb, id);
            && SameLayout(sb, t)
            && (forall b: nat :: BlockMarked(t, b) <==> BlockMarked(sb, b))
            && (forall i: nat :: i < MAX_NUMBER_OF_INODES ==>
                  (InodeMarked(t, i) <==> InodeMarked(sb, i) || (i == id && Markable(id))))
  {
    forall i: nat | i < MAX_NUMBER_OF_INODES
      ensures InodeMarked(MarkInode(sb, id), i) <==> InodeMarked(sb, i) || (i == id && Markable(id))
    {
      MarkedAfterMark(sb, INODE_BITMAP, id, i);
    }
  }

  lemma UnmarkInodeEffect(sb: Super, id: nat)
    requires id < MAX_NUMBER_OF_INODES
    ensures var t := UnmarkInode(sb, id);
            && SameLayout(sb, t)
            && (forall b: nat :: BlockMarked(t, b) <==> BlockMarked(sb, b))
            && (forall i: nat :: i < MAX_NUMBER_OF_INODES ==> (InodeMarked(t, i) <==> InodeMarked(sb, i) && i != id))
  {
    forall i: nat | i < MAX_NUMBER_OF_INODES
      ensures InodeMarked(UnmarkInode(sb, id), i) <==> InodeMarked(sb, i) && i != id
    {
      MarkedAfterUnmark(sb, INODE_BITMAP, id, i);
    }
  }

  lemma {:induction false} UnmarkBlocksEffect(sb: Super, blocks: seq<word>)
    requires forall i :: 0 <= i < |blocks| ==> blocks[i] < MAX_NUMBER_OF_BLOCKS
    ensures var t := UnmarkBlocks(sb, blocks);
            && SameLayout(sb, t)
            && (forall b: nat :: BlockMarked(t, b) <==> BlockMarked(sb, b) && b !in blocks)
            && (forall i: nat :: i < MAX_NUMBER_OF_INODES ==> (InodeMarked(t, i) <==> InodeMarked(sb, i)))
  {
    if blocks != [] {
      var last := |blocks| - 1;
      var u := UnmarkBlocks(sb, blocks[..last]);
      UnmarkBlocksEffect(sb, blocks[..last]);
      forall b: nat
        ensures BlockMarked(UnmarkBlocks(sb, blocks), b) <==> BlockMarked(sb, b) && b !in blocks
      {
        MarkedAfterUnmark(u, BLOCK_BITMAP, blocks[last], b);
        assert b in blocks <==> b in blocks[..last] || b == blocks[last];
      }
    }
  }

  /** t is s after create_inode_type made the inode f. */
  ghost predicate Created(s: Fs, t: Fs, f: Inode) {
    && f.id < InodeNum(s.sb) <= MAX_NUMBER_OF_INODES && f.id == FreeInodeFrom(s.sb, 0)
    && Good(s) && InodeWritten(Fs(MarkInode(s.sb, f.id), s.disk), t, f)
  }

  /** t is s after delete_inode(f). */
  ghost predicate Deleted(s: Fs, t: Fs, f: Inode) {
    && f.id < InodeNum(s.sb) <= MAX_NUMBER_OF_INODES && f.owned <= MAX_INODE_BLOCKS
    && (forall i :: 0 <= i < f.owned ==> f.blocks[i] < MAX_NUMBER_OF_BLOCKS)
    && Good(s) && InodeWritten(Fs(UnmarkInode(UnmarkBlocks(s.sb, Owned(f)), f.id), s.disk), t, EmptyInode(f.id))
  }

  /** t is s after write_to_inode wrote data through f, which has become g. */
  ghost predicate Wrote(s: Fs, t: Fs, f: Inode, data: seq<byte>, g: Inode) {
    && Good(s) && Good(t) && |t.disk| == |s.disk| && SameFields(s.sb, t.sb) && Usable(s.sb)
    && f.id < InodeNum(s.sb) && FitsInode(s.sb, |data|) && |data| < WORD_LIMIT
    && var size, k := BlockLen(s.sb), BlocksTaken(BlockLen(s.sb), |data|, f.owned);
       var addrs := Allocated(s.sb, k);
    && k <= MAX_INODE_BLOCKS && AllWords(addrs)
    && g == Rewritten(f, size, |data|, addrs)
    && (forall b: nat :: b >= DataStart(s.sb) ==> (BlockMarked(t.sb, b) <==> BlockMarked(AfterAllocation(s.sb, k), b)))
    && (forall id: nat :: id < InodeNum(s.sb) ==> (InodeMarked(t.sb, id) <==> InodeMarked(s.sb, id)))
    && (forall id: nat :: id < InodeNum(s.sb) ==> InodeAt(t, id) == if id == f.id then g else InodeAt(s, id))
    && ChunksWritten(s.disk, t.disk, DataStart(s.sb), size, addrs, data) && SuperStored(s, t)
  }
}
