/** The superblock: its layout in words, the layout of the disk that it describes, and the block
    allocator (fs.h, fs.c). */
module Superblock {
  import opened Words
  import opened Bitmap
  import opened Storage

  const SUPER_WORDS := 141
  const SUPER_BYTES := 564
  const INODE_BYTES := 48
  const MAX_INODE_BLOCKS := 6
  const MAX_NUMBER_OF_INODES := 1024
  const MAX_NUMBER_OF_BLOCKS := 16384
  const MIN_BLOCK_LENGTH := 16
  const MAX_BLOCK_LEN := 1024

  const BLOCK_NUM := 0
  const BLOCK_LENGTH := 1
  const INODE_NUM := 2
  const INODE_START := 3
  const INODE_BITMAP := 4
  const DATA_START := 12
  const BLOCK_BITMAP := 13

  /** superblock_t: four fields, the 8 words of the inode bitmap, the start of the data area and
      the 128 words of the block bitmap. */
  type Super = s: seq<word> | |s| == 141 witness seq(141, _ => 0)

  function BlockNum(sb: Super): nat { sb[BLOCK_NUM] }
  function BlockLen(sb: Super): nat { sb[BLOCK_LENGTH] }
  function InodeNum(sb: Super): nat { sb[INODE_NUM] }
  function InodeStart(sb: Super): nat { sb[INODE_START] }
  function DataStart(sb: Super): nat { sb[DATA_START] }

  predicate BlockMarked(sb: Super, a: nat) {
    Marked(sb, BLOCK_BITMAP, a)
  }

  predicate InodeMarked(sb: Super, id: nat) {
    Marked(sb, INODE_BITMAP, id)
  }

  /** The number of inodes on a disk of num blocks. */
  function InodesFor(num: nat): nat {
    if num / MAX_INODE_BLOCKS > MAX_NUMBER_OF_INODES then MAX_NUMBER_OF_INODES else num / MAX_INODE_BLOCKS
  }

  /** The fields of sb are those that new_superblock computes for a disk of num blocks of len bytes,
      and the disk has room for the inode table. */
  predicate Layout(sb: Super, num: nat, len: nat) {
    && MIN_BLOCK_LENGTH <= len <= MAX_BLOCK_LEN
    && BlockNum(sb) == num && BlockLen(sb) == len && InodeNum(sb) == InodesFor(num)
    && InodeStart(sb) == BlocksOccupied(len, SUPER_BYTES)
    && DataStart(sb) == Start(BlocksOccupied(len, INODE_BYTES), InodesFor(num)) + BlocksOccupied(len, SUPER_BYTES)
    && DataStart(sb) <= num
  }

  function InodeBlocks(sb: Super): nat
    requires BlockLen(sb) > 0
  {
    BlocksOccupied(BlockLen(sb), INODE_BYTES)
  }

  /** id_to_addr */
  function InodeAddr(sb: Super, id: nat): nat
    requires BlockLen(sb) > 0
  {
    InodeStart(sb) + Start(InodeBlocks(sb), id)
  }

  lemma OccupiedBounds(len: nat)
    requires MIN_BLOCK_LENGTH <= len <= MAX_BLOCK_LEN
    ensures 1 <= BlocksOccupied(len, SUPER_BYTES) <= 36 && 1 <= BlocksOccupied(len, INODE_BYTES) <= 3
  {
    BlocksOccupiedIsCeiling(len, SUPER_BYTES);
    BlocksOccupiedIsCeiling(len, INODE_BYTES);
    var b, i := BlocksOccupied(len, SUPER_BYTES), BlocksOccupied(len, INODE_BYTES);
    StartIsProduct(len, 36);
    StartIsProduct(len, 3);
    if b > 36 {
      StartMono(len, 35, b - 1);
    }
    if i > 3 {
      StartMono(len, 2, i - 1);
    }
  }

  lemma {:induction false} SmallTable(b: nat, n: nat)
    requires b <= 3
    ensures Start(b, n) <= 3 * n
  {
    if n > 0 {
      SmallTable(b, n - 1);
    }
  }

  /** Superblock, inode table and data area follow one another without overlap, distinct inodes have
      disjoint block ranges inside the inode table, and both bitmaps have a word for everything that
      the allocators look at. */
  lemma LayoutIsOrdered(sb: Super, num: nat, len: nat, id: nat, id': nat)
    requires Layout(sb, num, len) && id < id' < InodeNum(sb)
    ensures 0 < InodeStart(sb) <= InodeAddr(sb, id) && InodeAddr(sb, id) + InodeBlocks(sb) <= InodeAddr(sb, id')
    ensures InodeAddr(sb, id') + InodeBlocks(sb) <= DataStart(sb) <= num
    ensures DataStart(sb) < MAX_NUMBER_OF_BLOCKS && InodeNum(sb) <= MAX_NUMBER_OF_INODES
  {
    OccupiedBounds(len);
    InodeInTable(sb, num, len, id);
    InodeInTable(sb, num, len, id');
    StartMono(InodeBlocks(sb), id, id');
  }

  lemma InodeInTable(sb: Super, num: nat, len: nat, id: nat)
    requires Layout(sb, num, len) && id < InodeNum(sb)
    ensures 0 < InodeStart(sb) <= InodeAddr(sb, id)
    ensures InodeAddr(sb, id) + InodeBlocks(sb) <= DataStart(sb)
    ensures DataStart(sb) < MAX_NUMBER_OF_BLOCKS && InodeNum(sb) <= MAX_NUMBER_OF_INODES
  {
    DataStartIsSmall(sb, num, len);
    StartMono(InodeBlocks(sb), id, InodeNum(sb));
  }

  lemma DataStartIsSmall(sb: Super, num: nat, len: nat)
    requires Layout(sb, num, len)
    ensures 1 <= InodeStart(sb) <= 36 && InodeStart(sb) <= DataStart(sb) < MAX_NUMBER_OF_BLOCKS
    ensures InodeNum(sb) <= MAX_NUMBER_OF_INODES
  {
    OccupiedBounds(len);
    SmallTable(BlocksOccupied(len, INODE_BYTES), InodesFor(num));
  }

  /** From 72 blocks on every disk has room for its inode table, whatever its block length. */
  lemma LargeDisksHaveRoom(num: nat, len: nat)
    requires MIN_BLOCK_LENGTH <= len <= MAX_BLOCK_LEN && num >= 72
    ensures Start(BlocksOccupied(len, INODE_BYTES), InodesFor(num)) + BlocksOccupied(len, SUPER_BYTES) <= num
  {
    OccupiedBounds(len);
    SmallTable(BlocksOccupied(len, INODE_BYTES), InodesFor(num));
  }

  // ---- the block allocator

  /** What every superblock of a formatted disk satisfies, and all that the allocator needs. */
  predicate Usable(sb: Super) {
    0 < DataStart(sb) <= BlockNum(sb) && DataStart(sb) < MAX_NUMBER_OF_BLOCKS
  }

  /** The first block from a on that is not marked, or 0. */
  function FreeBlockFrom(sb: Super, a: nat): (r: nat)
    requires 0 < a <= BlockNum(sb)
    ensures r == 0 || (a <= r < BlockNum(sb) && !BlockMarked(sb, r))
    ensures forall b :: a <= b < (if r == 0 then BlockNum(sb) else r) ==> BlockMarked(sb, b)
    decreases BlockNum(sb) - a
  {
    if a == BlockNum(sb) then 0
    else if !BlockMarked(sb, a) then a
    else FreeBlockFrom(sb, a + 1)
  }

  /** free_data_block */
  function FreeBlock(sb: Super): nat
    requires Usable(sb)
  {
    FreeBlockFrom(sb, DataStart(sb))
  }

  /** The first address of the data area whose mark the bitmap cannot hold. */
  function Barrier(sb: Super): nat {
    var d := DataStart(sb);
    if Markable(d) then d - d % BITS_PER_WORD + WORD_BITS else d
  }

  /** The end of the addresses that the allocator can hand out and mark. */
  function AllocEnd(sb: Super): nat {
    if Barrier(sb) < BlockNum(sb) then Barrier(sb) else BlockNum(sb)
  }

  /** The addresses that can still be handed out and marked. */
  ghost function FreeSet(sb: Super): set<nat> {
    set a: nat | DataStart(sb) <= a < AllocEnd(sb) && !BlockMarked(sb, a)
  }

  /** What the allocator answers once FreeSet is empty: the barrier block, over and over, or 0 on a
      disk that ends before the barrier. */
  function StuckAt(sb: Super): nat {
    if Barrier(sb) < BlockNum(sb) then Barrier(sb) else 0
  }

  lemma AllocRange(sb: Super, a: nat)
    requires Usable(sb) && DataStart(sb) <= a <= Barrier(sb)
    ensures WordIndex(BLOCK_BITMAP, a) < SUPER_WORDS
    ensures a < AllocEnd(sb) ==> Markable(a)
    ensures !Markable(Barrier(sb)) && Barrier(sb) - DataStart(sb) <= WORD_BITS
  {
  }

  /** The allocator's answer in every state: a free markable block of the data area if there is one,
      and StuckAt otherwise. In particular it never looks beyond the block bitmap, also on disks
      that have more blocks than the bitmap has bits. */
  lemma FreeBlockAnswer(sb: Super)
    requires Usable(sb)
    ensures var f := FreeBlock(sb);
            && (FreeSet(sb) != {} ==> f in FreeSet(sb))
            && (FreeSet(sb) == {} ==> f == StuckAt(sb))
            && f <= Barrier(sb) && WordIndex(BLOCK_BITMAP, f) < SUPER_WORDS
  {
    var f := FreeBlock(sb);
    AllocRange(sb, DataStart(sb));
    assert !BlockMarked(sb, Barrier(sb));
    assert f <= Barrier(sb);
    assert f != 0 && f < AllocEnd(sb) ==> f in FreeSet(sb);
    assert forall a :: a in FreeSet(sb) ==> f != 0 && f <= a;
    if f != 0 {
      AllocRange(sb, f);
    }
  }

  /** However large the disk, at most 32 data blocks can ever be marked as taken. */
  lemma CapacityIsOneWord(sb: Super)
    requires Usable(sb)
    ensures |FreeSet(sb)| <= WORD_BITS
  {
    AllocRange(sb, DataStart(sb));
    SpanSize(DataStart(sb), AllocEnd(sb), FreeSet(sb));
  }

  lemma {:induction false} SpanSize(lo: nat, hi: nat, s: set<nat>)
    requires forall a :: a in s ==> lo <= a < hi
    ensures lo <= hi ==> |s| <= hi - lo
    decreases hi - lo
  {
    if lo >= hi {
      assert s == {};
    } else {
      SpanSize(lo, hi - 1, s - {hi - 1});
    }
  }

  /** allocate_block */
  function MarkBlock(sb: Super, a: nat): Super
    requires WordIndex(BLOCK_BITMAP, a) < SUPER_WORDS
  {
    Mark(sb, BLOCK_BITMAP, a)
  }

  lemma MarkBlockEffect(sb: Super, a: nat)
    requires Usable(sb) && WordIndex(BLOCK_BITMAP, a) < SUPER_WORDS
    ensures var t := MarkBlock(sb, a);
            && t[..BLOCK_BITMAP] == sb[..BLOCK_BITMAP] && Usable(t)
            && Barrier(t) == Barrier(sb) && AllocEnd(t) == AllocEnd(sb)
            && (forall b: nat :: BlockMarked(t, b) <==> BlockMarked(sb, b) || (b == a && Markable(a)))
            && (forall id: nat :: id < MAX_NUMBER_OF_INODES ==> (InodeMarked(t, id) <==> InodeMarked(sb, id)))
            && FreeSet(t) == FreeSet(sb) - {a}
  {
    var t := MarkBlock(sb, a);
    forall b: nat
      ensures BlockMarked(t, b) <==> BlockMarked(sb, b) || (b == a && Markable(a))
    {
      MarkedAfterMark(sb, BLOCK_BITMAP, a, b);
    }
    forall b: nat | DataStart(sb) <= b < AllocEnd(sb)
      ensures Markable(b)
    {
      AllocRange(sb, b);
    }
  }

  /** The addresses that k allocations in a row hand out, each marked before the next. */
  function Allocated(sb: Super, k: nat): (r: seq<nat>)
    requires Usable(sb)
    ensures |r| == k
    decreases k
  {
    if k == 0 then []
    else
      FreeBlockAnswer(sb);
      MarkBlockEffect(sb, FreeBlock(sb));
      [FreeBlock(sb)] + Allocated(MarkBlock(sb, FreeBlock(sb)), k - 1)
  }

  function AfterAllocation(sb: Super, k: nat): (r: Super)
    requires Usable(sb)
    ensures Usable(r)
    decreases k
  {
    if k == 0 then sb
    else
      FreeBlockAnswer(sb);
      MarkBlockEffect(sb, FreeBlock(sb));
      AfterAllocation(MarkBlock(sb, FreeBlock(sb)), k - 1)
  }

  predicate Distinct(addrs: seq<nat>) {
    forall i, j :: 0 <= i < j < |addrs| ==> addrs[i] != addrs[j]
  }

  lemma {:induction false} AllocatedAreFree(sb: Super, k: nat)
    requires Usable(sb) && k <= |FreeSet(sb)|
    ensures Distinct(Allocated(sb, k)) && forall a :: a in Allocated(sb, k) ==> a in FreeSet(sb)
    decreases k
  {
    if k > 0 {
      var f := FreeBlock(sb);
      FreeBlockAnswer(sb);
      MarkBlockEffect(sb, f);
      FreeSetAfterOne(sb);
      AllocatedAreFree(MarkBlock(sb, f), k - 1);
    }
  }

  lemma {:induction false} AllocatedAreMarked(sb: Super, k: nat, b: nat)
    requires Usable(sb)
    ensures var t := AfterAllocation(sb, k);
            && t[..BLOCK_BITMAP] == sb[..BLOCK_BITMAP]
            && (BlockMarked(t, b) <==> BlockMarked(sb, b) || (b in Allocated(sb, k) && Markable(b)))
            && (b < MAX_NUMBER_OF_INODES ==> (InodeMarked(t, b) <==> InodeMarked(sb, b)))
    decreases k
  {
    if k > 0 {
      var f := FreeBlock(sb);
      FreeBlockAnswer(sb);
      MarkBlockEffect(sb, f);
      AllocatedAreMarked(MarkBlock(sb, f), k - 1, b);
    }
  }

  /** k allocations with k free blocks hand out k different ones and mark exactly those. */
  lemma AllocationSucceeds(sb: Super, k: nat)
    requires Usable(sb) && k <= |FreeSet(sb)|
    ensures var addrs, t := Allocated(sb, k), AfterAllocation(sb, k);
            && Distinct(addrs) && (forall a :: a in addrs ==> a in FreeSet(sb))
            && t[..BLOCK_BITMAP] == sb[..BLOCK_BITMAP]
            && (forall b: nat :: BlockMarked(t, b) <==> BlockMarked(sb, b) || b in addrs)
            && (forall id: nat :: id < MAX_NUMBER_OF_INODES ==> (InodeMarked(t, id) <==> InodeMarked(sb, id)))
  {
    AllocatedAreFree(sb, k);
    AllocatedAreMarked(sb, k, 0);
    forall b: nat
      ensures BlockMarked(AfterAllocation(sb, k), b) <==> BlockMarked(sb, b) || b in Allocated(sb, k)
      ensures b < MAX_NUMBER_OF_INODES ==> (InodeMarked(AfterAllocation(sb, k), b) <==> InodeMarked(sb, b))
    {
      AllocatedAreMarked(sb, k, b);
      if b in Allocated(sb, k) {
        AllocRange(sb, b);
      }
    }
  }

  /** Beyond the free blocks the allocator hands out the same block again and again. */
  lemma {:induction false} AllocationSticks(sb: Super, k: nat, j: nat)
    requires Usable(sb) && |FreeSet(sb)| <= j < k
    ensures Allocated(sb, k)[j] == StuckAt(sb)
    decreases k
  {
    FreeSetAfterOne(sb);
    if j > 0 {
      AllocationSticks(MarkBlock(sb, FreeBlock(sb)), k - 1, j - 1);
    }
  }

  lemma FreeSetAfterOne(sb: Super)
    requires Usable(sb)
    ensures WordIndex(BLOCK_BITMAP, FreeBlock(sb)) < SUPER_WORDS
    ensures var t := MarkBlock(sb, FreeBlock(sb));
            && Usable(t) && StuckAt(t) == StuckAt(sb)
            && |FreeSet(t)| == (if FreeSet(sb) == {} then 0 else |FreeSet(sb)| - 1)
    ensures FreeSet(sb) == {} ==> FreeBlock(sb) == StuckAt(sb)
  {
    var f := FreeBlock(sb);
    FreeBlockAnswer(sb);
    MarkBlockEffect(sb, f);
    if f in FreeSet(sb) {
      assert |FreeSet(sb) - {f}| == |FreeSet(sb)| - 1;
    }
  }

  /** k allocations in a row hand out k different markable data blocks exactly when that many are
      free. */
  lemma AllocationIffFree(sb: Super, k: nat)
    requires Usable(sb)
    ensures (Distinct(Allocated(sb, k)) && forall a :: a in Allocated(sb, k) ==> a in FreeSet(sb))
            <==> k <= |FreeSet(sb)|
  {
    if k <= |FreeSet(sb)| {
      AllocationSucceeds(sb, k);
    } else {
      AllocationSticks(sb, k, |FreeSet(sb)|);
      assert StuckAt(sb) in Allocated(sb, k);
      AllocRange(sb, DataStart(sb));
      assert StuckAt(sb) !in FreeSet(sb);
    }
  }
}
