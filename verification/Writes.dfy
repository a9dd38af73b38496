/** What the steps of a write do to the superblock and the disk: sequential writes of metadata, writes
    of file data block by block, and formatting. */
module Writes {
  import opened Words
  import opened Bitmap
  import opened Storage
  import opened Superblock
  import opened Inodes

  /** One more allocation after k others. */
  lemma {:induction false} AllocatedSnoc(sb: Super, k: nat)
    requires Usable(sb)
    ensures Allocated(sb, k + 1) == Allocated(sb, k) + [FreeBlock(AfterAllocation(sb, k))]
    decreases k
  {
    FreeSetAfterOne(sb);
    var t := MarkBlock(sb, FreeBlock(sb));
    assert Allocated(sb, k + 1) == [FreeBlock(sb)] + Allocated(t, k);
    if k > 0 {
      AllocatedSnoc(t, k - 1);
      assert AfterAllocation(sb, k) == AfterAllocation(t, k - 1);
    }
  }

  lemma {:induction false} AfterAllocationSnoc(sb: Super, k: nat)
    requires Usable(sb)
    ensures WordIndex(BLOCK_BITMAP, FreeBlock(AfterAllocation(sb, k))) < SUPER_WORDS
    ensures AfterAllocation(sb, k + 1) == MarkBlock(AfterAllocation(sb, k), FreeBlock(AfterAllocation(sb, k)))
    decreases k
  {
    FreeBlockAnswer(AfterAllocation(sb, k));
    if k > 0 {
      FreeSetAfterOne(sb);
      AfterAllocationSnoc(MarkBlock(sb, FreeBlock(sb)), k - 1);
    }
  }

  /** The memory a write reads from: a buffer of the caller or the superblock itself. */
  datatype Source = Buffer(bytes: seq<byte>) | Superblock

  lemma {:induction false} SetBitIsSet(w: nat, k: nat)
    requires Bit(w, k)
    ensures SetBit(w, k) == w
  {
    if k > 0 {
      SetBitIsSet(w / 2, k - 1);
    }
  }

  lemma {:induction false} MarkedSpanIsKept(sb: Super, first: nat, count: nat, i: nat)
    requires SpanIsMarked(sb, first, count) && i <= count
    requires WordIndex(BLOCK_BITMAP, first + count) < SUPER_WORDS
    ensures MarkSpan(sb, first, i) == sb
  {
    if i > 0 {
      MarkedSpanIsKept(sb, first, count, i - 1);
      var b := first + i - 1;
      if Markable(b) {
        SetBitIsSet(sb[WordIndex(BLOCK_BITMAP, b)], b % BITS_PER_WORD);
      }
    }
  }

  /** disk' differs from disk in the span at most, and its blocks have the right length. */
  predicate OnlySpanChanged(disk: seq<Block>, disk': seq<Block>, len: nat, first: nat, count: nat) {
    && |disk'| == |disk|
    && (forall a :: 0 <= a < |disk| ==> |disk'[a]| == len)
    && (forall a :: 0 <= a < |disk| && !(first <= a < first + count) ==> disk'[a] == disk[a])
  }

  lemma SpanIndex(first: nat, count: nat, i: nat)
    requires i < count && WordIndex(BLOCK_BITMAP, first + count) < SUPER_WORDS
    ensures WordIndex(BLOCK_BITMAP, first + i) < SUPER_WORDS && WordIndex(BLOCK_BITMAP, first + i + 1) < SUPER_WORDS
  {
  }

  lemma SpanEntry(first: nat, count: nat, i: nat)
    requires i < count
    ensures Span(first, count)[i] == first + i && Span(first, count)[i] !in Span(first, count)[..i]
  {
  }

  lemma WrittenChunk(disk: seq<Block>, len: nat, span: seq<nat>, i: nat, block: Block, wanted: seq<byte>, done: nat,
                     n: nat)
    requires len > 0 && i < |span| && span[i] < |disk| && |block| == len && n <= len
    requires span[i] !in span[..i] && done == Start(len, i) && done + n <= |wanted|
    requires Content(disk, len, span, done) == wanted[..done] && block[..n] == wanted[done..done + n]
    ensures Content(disk[span[i] := block], len, span, done + n) == wanted[..done + n]
  {
    ContentUpdate(disk, len, span, i, block, n);
    assert wanted[..done + n] == wanted[..done] + wanted[done..done + n];
  }

  /** The bytes that source stands for while the superblock in memory is sb. */
  function BytesOf(source: Source, sb: Super): seq<byte> {
    if source.Buffer? then source.bytes else Encode(sb)
  }

  /** A sequential write of the first bytes of source, from state s to state t, stands before block i
      with done bytes written. */
  predicate Writing(s: Fs, t: Fs, len: nat, first: nat, blocks: nat, source: Source, i: nat, done: nat)
    requires WordIndex(BLOCK_BITMAP, first + blocks) < SUPER_WORDS && i <= blocks
  {
    && t.sb == MarkSpan(s.sb, first, i)
    && OnlySpanChanged(s.disk, t.disk, len, first, i)
    && SpanHolds(t.disk, len, Span(first, blocks), BytesOf(source, s.sb), IsSteady(source, s.sb, first, blocks), done)
  }

  /** Marking the span does not change the bytes of source. */
  predicate IsSteady(source: Source, sb: Super, first: nat, blocks: nat) {
    source.Buffer? || SpanIsMarked(sb, first, blocks)
  }

  /** The span starts with the first done bytes of wanted, as far as that is promised. */
  predicate SpanHolds(disk: seq<Block>, len: nat, span: seq<nat>, wanted: seq<byte>, promised: bool, done: nat) {
    done <= |wanted| && (promised ==> Content(disk, len, span, done) == wanted[..done])
  }

  lemma SteadyBytes(sb: Super, first: nat, blocks: nat, source: Source, i: nat)
    requires IsSteady(source, sb, first, blocks)
    requires WordIndex(BLOCK_BITMAP, first + blocks) < SUPER_WORDS && i <= blocks
    ensures BytesOf(source, MarkSpan(sb, first, i)) == BytesOf(source, sb)
  {
    if source.Superblock? {
      MarkedSpanIsKept(sb, first, blocks, i);
    }
  }

  lemma SpanRound(disk: seq<Block>, len: nat, span: seq<nat>, wanted: seq<byte>, promised: bool, i: nat, done: nat,
                  block: Block, n: nat)
    requires SpanHolds(disk, len, span, wanted, promised, done) && len > 0 && done == Start(len, i)
    requires i < |span| && span[i] < |disk| && span[i] !in span[..i]
    requires |block| == len && n <= len && done + n <= |wanted|
    requires promised ==> block[..n] == wanted[done..done + n]
    ensures SpanHolds(disk[span[i] := block], len, span, wanted, promised, done + n)
  {
    if promised {
      WrittenChunk(disk, len, span, i, block, wanted, done, n);
    }
  }

  /** The bytes that go into block i. */
  function Chunk(source: Source, sb: Super, done: nat, n: nat): (r: seq<byte>)
    requires done + n <= if source.Buffer? then |source.bytes| else SUPER_BYTES
    ensures |r| == n
  {
    BytesOf(source, sb)[done..done + n]
  }

  lemma SteadyChunk(sb: Super, first: nat, blocks: nat, source: Source, i: nat, done: nat, n: nat)
    requires WordIndex(BLOCK_BITMAP, first + blocks) < SUPER_WORDS && i <= blocks
    requires done + n <= if source.Buffer? then |source.bytes| else SUPER_BYTES
    ensures IsSteady(source, sb, first, blocks) ==>
              Chunk(source, MarkSpan(sb, first, i), done, n) == BytesOf(source, sb)[done..done + n]
  {
    if IsSteady(source, sb, first, blocks) {
      SteadyBytes(sb, first, blocks, source, i);
    }
  }

  lemma OneMoreChanged(disk: seq<Block>, now: seq<Block>, len: nat, first: nat, i: nat, block: Block)
    requires OnlySpanChanged(disk, now, len, first, i) && first + i < |now| && |block| == len
    ensures OnlySpanChanged(disk, now[first + i := block], len, first, i + 1)
  {
  }

  lemma MarkSpanSnoc(sb: Super, first: nat, blocks: nat, i: nat)
    requires WordIndex(BLOCK_BITMAP, first + blocks) < SUPER_WORDS && i < blocks
    ensures WordIndex(BLOCK_BITMAP, first + i) < SUPER_WORDS
    ensures MarkSpan(sb, first, i + 1) == MarkBlock(MarkSpan(sb, first, i), first + i)
  {
  }

  lemma WriteRound(s: Fs, t: Fs, u: Fs, len: nat, first: nat, blocks: nat, source: Source, i: nat, done: nat, n: nat)
    requires WordIndex(BLOCK_BITMAP, first + blocks) < SUPER_WORDS && i < blocks && first + blocks <= |t.disk|
    requires Writing(s, t, len, first, blocks, source, i, done) && len > 0 && done == Start(len, i)
    requires u.sb == MarkSpan(s.sb, first, i + 1) && |u.disk| == |t.disk|
    requires u.disk == t.disk[first + i := u.disk[first + i]]
    requires |u.disk[first + i]| == len && n <= len
    requires done + n <= if source.Buffer? then |source.bytes| else SUPER_BYTES
    requires u.disk[first + i][..n] == Chunk(source, u.sb, done, n)
    ensures Writing(s, u, len, first, blocks, source, i + 1, done + n)
  {
    var block, wanted, promised := u.disk[first + i], BytesOf(source, s.sb), IsSteady(source, s.sb, first, blocks);
    assert SpanHolds(u.disk, len, Span(first, blocks), wanted, promised, done + n) by {
      SteadyChunk(s.sb, first, blocks, source, i + 1, done, n);
      SpanEntry(first, blocks, i);
      SpanRound(t.disk, len, Span(first, blocks), wanted, promised, i, done, block, n);
    }
    assert OnlySpanChanged(s.disk, u.disk, len, first, i + 1) by {
      OneMoreChanged(s.disk, t.disk, len, first, i, block);
    }
  }

  /** What one sequential write of metadata leaves alone. */
  lemma WritingMetadata(s: Fs, t: Fs, first: nat, blocks: nat, source: Source, done: nat)
    requires Good(s) && first + blocks <= DataStart(s.sb)
    requires WordIndex(BLOCK_BITMAP, first + blocks) < SUPER_WORDS
    requires Writing(s, t, BlockLen(s.sb), first, blocks, source, blocks, done)
    ensures Good(t) && |t.disk| == |s.disk| && SameFields(s.sb, t.sb)
    ensures forall b: nat :: BlockMarked(s.sb, b) ==> BlockMarked(t.sb, b)
    ensures forall b: nat :: b >= DataStart(s.sb) ==> (BlockMarked(t.sb, b) <==> BlockMarked(s.sb, b))
    ensures forall id: nat :: id < InodeNum(s.sb) ==> (InodeMarked(t.sb, id) <==> InodeMarked(s.sb, id))
    ensures forall a :: 0 <= a < |s.disk| && !(first <= a < first + blocks) ==> t.disk[a] == s.disk[a]
    ensures SpanIsMarked(t.sb, first, blocks)
  {
    DataStartIsSmall(s.sb, |s.disk|, BlockLen(s.sb));
    MarkSpanEffect(s.sb, first, blocks);
    SameFieldsSameLayout(s.sb, t.sb);
  }

  lemma SameFieldsSameLayout(sb: Super, t: Super)
    requires SameFields(sb, t)
    ensures SameLayout(sb, t)
  {
  }

  lemma SameSpan(sb: Super, t: Super, id: nat)
    requires SameLayout(sb, t) && BlockLen(sb) > 0
    ensures InodeSpan(t, id) == InodeSpan(sb, id)
  {
  }

  lemma SpanFrame(disk: seq<Block>, disk': seq<Block>, len: nat, first: nat, count: nat, n: nat)
    requires |disk'| == |disk| && forall a :: first <= a < first + count && a < |disk| ==> disk'[a] == disk[a]
    ensures Content(disk', len, Span(first, count), n) == Content(disk, len, Span(first, count), n)
  {
  }

  /** An inode is read back unchanged while its own blocks are left alone. */
  lemma InodeFrame(s: Fs, t: Fs, id: nat)
    requires BlockLen(s.sb) > 0 && SameLayout(s.sb, t.sb) && |t.disk| == |s.disk|
    requires forall a :: InodeAddr(s.sb, id) <= a < InodeAddr(s.sb, id) + InodeBlocks(s.sb) && a < |s.disk| ==>
               t.disk[a] == s.disk[a]
    ensures InodeAt(t, id) == InodeAt(s, id)
  {
    SameSpan(s.sb, t.sb, id);
    SpanFrame(s.disk, t.disk, BlockLen(s.sb), InodeAddr(s.sb, id), InodeBlocks(s.sb), INODE_BYTES);
  }

  /** The inode that lies in its own span is the one that was written there. */
  lemma InodeInSpan(m: Fs, f: Inode)
    requires BlockLen(m.sb) > 0
    requires Content(m.disk, BlockLen(m.sb), InodeSpan(m.sb, f.id), INODE_BYTES) == InodeToBytes(f)
    ensures InodeAt(m, f.id) == f
  {
    InodeRoundTrip(f);
  }

  /** The inodes that lie elsewhere are left alone. */
  lemma OtherInodes(s: Fs, m: Fs, f: Inode)
    requires Good(s) && SameLayout(s.sb, m.sb) && |m.disk| == |s.disk| && f.id < InodeNum(s.sb)
    requires forall a ::
               0 <= a < |s.disk| && !(InodeAddr(s.sb, f.id) <= a < InodeAddr(s.sb, f.id) + InodeBlocks(s.sb)) ==>
               m.disk[a] == s.disk[a]
    ensures forall id: nat :: id < InodeNum(s.sb) && id != f.id ==> InodeAt(m, id) == InodeAt(s, id)
  {
    forall id: nat | id < InodeNum(s.sb) && id != f.id
      ensures InodeAt(m, id) == InodeAt(s, id)
    {
      InodesAreApart(s.sb, |s.disk|, BlockLen(s.sb), id, f.id);
      InodeFrame(s, m, id);
    }
  }

  /** The first half of write_inode: the inode's own blocks. */
  lemma InodeBlocksWritten(s: Fs, m: Fs, f: Inode)
    requires Good(s) && f.id < InodeNum(s.sb)
    requires WordIndex(BLOCK_BITMAP, InodeAddr(s.sb, f.id) + InodeBlocks(s.sb)) < SUPER_WORDS
    requires Writing(s, m, BlockLen(s.sb), InodeAddr(s.sb, f.id), InodeBlocks(s.sb), Buffer(InodeToBytes(f)),
                     InodeBlocks(s.sb), INODE_BYTES)
    ensures SameLayout(s.sb, m.sb) && InodePlaced(s, m, f)
  {
    InodeInTable(s.sb, |s.disk|, BlockLen(s.sb), f.id);
    WritingMetadata(s, m, InodeAddr(s.sb, f.id), InodeBlocks(s.sb), Buffer(InodeToBytes(f)), INODE_BYTES);
    SameFieldsSameLayout(s.sb, m.sb);
    assert InodeToBytes(f)[..INODE_BYTES] == InodeToBytes(f);
    InodeInSpan(m, f);
    OtherInodes(s, m, f);
  }

  /** The second half: the superblock. */
  lemma SuperblockWritten(s: Fs, m: Fs, t: Fs, f: Inode)
    requires InodePlaced(s, m, f) && WordIndex(BLOCK_BITMAP, InodeStart(m.sb)) < SUPER_WORDS
    requires Writing(m, t, BlockLen(m.sb), 0, InodeStart(m.sb), Source.Superblock, InodeStart(m.sb), SUPER_BYTES)
    ensures InodePlaced(s, t, f)
  {
    DataStartIsSmall(m.sb, |m.disk|, BlockLen(m.sb));
    WritingMetadata(m, t, 0, InodeStart(m.sb), Source.Superblock, SUPER_BYTES);
    SameFieldsSameLayout(m.sb, t.sb);
    SameFieldsSameLayout(s.sb, m.sb);
    forall id: nat | id < InodeNum(m.sb)
      ensures InodeAt(t, id) == InodeAt(m, id)
    {
      InodeInTable(m.sb, |m.disk|, BlockLen(m.sb), id);
      InodeFrame(m, t, id);
    }
  }

  lemma SuperblockStored(m: Fs, t: Fs)
    requires Good(m) && WordIndex(BLOCK_BITMAP, InodeStart(m.sb)) < SUPER_WORDS
    requires Writing(m, t, BlockLen(m.sb), 0, InodeStart(m.sb), Source.Superblock, InodeStart(m.sb), SUPER_BYTES)
    ensures SuperStored(m, t)
  {
    DataStartIsSmall(m.sb, |m.disk|, BlockLen(m.sb));
    WritingMetadata(m, t, 0, InodeStart(m.sb), Source.Superblock, SUPER_BYTES);
    SameFieldsSameLayout(m.sb, t.sb);
    if SuperIsMarked(m.sb) {
      MarkedSpanIsKept(m.sb, 0, InodeStart(m.sb), InodeStart(m.sb));
      assert Encode(m.sb)[..SUPER_BYTES] == Encode(m.sb);
    }
  }

  lemma InodesAreApart(sb: Super, num: nat, len: nat, id: nat, id': nat)
    requires Layout(sb, num, len) && id < InodeNum(sb) && id' < InodeNum(sb) && id != id'
    ensures InodeAddr(sb, id) + InodeBlocks(sb) <= InodeAddr(sb, id')
            || InodeAddr(sb, id') + InodeBlocks(sb) <= InodeAddr(sb, id)
  {
    if id < id' {
      LayoutIsOrdered(sb, num, len, id, id');
    } else {
      LayoutIsOrdered(sb, num, len, id', id);
    }
  }

  /** Writing the superblock marks its own blocks while it is being written, so the first write can
      store an outdated bitmap. A second write in a row always stores the superblock as it is. */
  lemma SecondWriteConverges(s: Fs, t: Fs, u: Fs)
    requires Good(s) && Good(t) && InodeStart(t.sb) == InodeStart(s.sb) && BlockLen(t.sb) == BlockLen(s.sb)
    requires WordIndex(BLOCK_BITMAP, InodeStart(s.sb)) < SUPER_WORDS
    requires Writing(s, t, BlockLen(s.sb), 0, InodeStart(s.sb), Source.Superblock, InodeStart(s.sb), SUPER_BYTES)
    requires Writing(t, u, BlockLen(s.sb), 0, InodeStart(s.sb), Source.Superblock, InodeStart(s.sb), SUPER_BYTES)
    ensures u.sb == t.sb && SuperOnDisk(u)
  {
    SuperblockStored(s, t);
    SuperblockStored(t, u);
    MarkedSpanIsKept(t.sb, 0, InodeStart(s.sb), InodeStart(s.sb));
  }

  // ---- writing a file

  /** write_to_inode from state s to state t, before block i with done bytes written. */
  ghost predicate FileWriting(s: Fs, t: Fs, len: nat, data: seq<byte>, i: nat, done: nat)
    requires Usable(s.sb)
  {
    && t.sb == AfterAllocation(s.sb, i) && done <= |data|
    && ChunksWritten(s.disk, t.disk, 0, len, Allocated(s.sb, i), data[..done])
    && forall a :: 0 <= a < |t.disk| ==> |t.disk[a]| == len
  }

  /** The same, with the list of addresses that the inode is going to get. */
  ghost predicate Filling(s: Fs, t: Fs, f: Inode, data: seq<byte>, i: nat, done: nat, blocks: BlockList)
    requires Usable(s.sb)
  {
    && Good(t) && Usable(t.sb) && SameLayout(s.sb, t.sb) && FileWriting(s, t, BlockLen(s.sb), data, i, done)
    && i <= MAX_INODE_BLOCKS && AllWords(Allocated(s.sb, i)) && blocks == NewBlocks(f.blocks, Allocated(s.sb, i))
  }

  lemma OldChunk(block: Block, len: nat, data: seq<byte>, j: nat, i: nat, done: nat, n: nat)
    requires j < i && done == Start(len, i) && done + n <= |data| && ChunkAt(block, len, j, data[..done])
    ensures ChunkAt(block, len, j, data[..done + n])
  {
    StartMono(len, j, i);
  }

  lemma NewChunk(block: Block, len: nat, data: seq<byte>, i: nat, done: nat, n: nat)
    requires done == Start(len, i) && n <= len == |block| && done + n <= |data| && block[..n] == data[done..done + n]
    ensures ChunkAt(block, len, i, data[..done + n])
  {
  }

  lemma ChunkRound(disk: seq<Block>, now: seq<Block>, len: nat, addrs: seq<nat>, data: seq<byte>, i: nat, done: nat,
                   a: nat, block: Block, n: nat)
    requires done == Start(len, i) && |addrs| == i && a < |now| && |block| == len && n <= len && done + n <= |data|
    requires ChunksWritten(disk, now, 0, len, addrs, data[..done]) && block[..n] == data[done..done + n]
    ensures ChunksWritten(disk, now[a := block], 0, len, addrs + [a], data[..done + n])
  {
    var all, after := addrs + [a], now[a := block];
    forall j | 0 <= j < |all| && 0 <= all[j] < |disk| && IsLastUse(all, j)
      ensures ChunkAt(after[all[j]], len, j, data[..done + n])
    {
      if j < i {
        assert all[i] != all[j];
        assert forall l :: j < l < i ==> addrs[l] == all[l];
        OldChunk(now[addrs[j]], len, data, j, i, done, n);
      } else {
        NewChunk(block, len, data, i, done, n);
      }
    }
  }

  lemma FileRound(s: Fs, t: Fs, len: nat, data: seq<byte>, i: nat, done: nat, block: Block, n: nat)
    requires Usable(s.sb) && FileWriting(s, t, len, data, i, done) && done == Start(len, i) && Usable(t.sb)
    requires FreeBlock(t.sb) < |t.disk| && WordIndex(BLOCK_BITMAP, FreeBlock(t.sb)) < SUPER_WORDS
    requires |block| == len && n <= len && done + n <= |data| && block[..n] == data[done..done + n]
    ensures var a := FreeBlock(t.sb);
            FileWriting(s, Fs(MarkBlock(t.sb, a), t.disk[a := block]), len, data, i + 1, done + n)
  {
    AllocatedSnoc(s.sb, i);
    AfterAllocationSnoc(s.sb, i);
    ChunkRound(s.disk, t.disk, len, Allocated(s.sb, i), data, i, done, FreeBlock(t.sb), block, n);
  }

  /** The allocator hands out addresses that the disk has. */
  lemma {:induction false} AllocatedOnDisk(sb: Super, k: nat, i: nat)
    requires Usable(sb) && i < k
    ensures Allocated(sb, k)[i] < BlockNum(sb)
    ensures Allocated(sb, k)[i] == 0 || DataStart(sb) <= Allocated(sb, k)[i]
    decreases k
  {
    FreeBlockAnswer(sb);
    MarkBlockEffect(sb, FreeBlock(sb));
    if i > 0 {
      SameFieldsSameLayout(sb, MarkBlock(sb, FreeBlock(sb)));
      AllocatedOnDisk(MarkBlock(sb, FreeBlock(sb)), k - 1, i - 1);
    }
  }

  lemma AfterAllocationFields(sb: Super, k: nat)
    requires Usable(sb)
    ensures SameFields(sb, AfterAllocation(sb, k)) && SameLayout(sb, AfterAllocation(sb, k))
    ensures forall id: nat :: id < MAX_NUMBER_OF_INODES ==>
              (InodeMarked(AfterAllocation(sb, k), id) <==> InodeMarked(sb, id))
  {
    AllocatedAreMarked(sb, k, 0);
    SameFieldsSameLayout(sb, AfterAllocation(sb, k));
    forall id: nat | id < MAX_NUMBER_OF_INODES
      ensures InodeMarked(AfterAllocation(sb, k), id) <==> InodeMarked(sb, id)
    {
      AllocatedAreMarked(sb, k, id);
    }
  }

  /** The data blocks of a file lie apart from the inode table. */
  lemma FileWritingKeepsInode(s: Fs, m: Fs, data: seq<byte>, k: nat, id: nat)
    requires Good(s) && Usable(s.sb) && SameLayout(s.sb, m.sb) && id < InodeNum(s.sb)
    requires FileWriting(s, m, BlockLen(s.sb), data, k, |data|)
    ensures InodeAt(m, id) == InodeAt(s, id)
  {
    InodeInTable(s.sb, |s.disk|, BlockLen(s.sb), id);
    forall a | InodeAddr(s.sb, id) <= a < InodeAddr(s.sb, id) + InodeBlocks(s.sb)
      ensures a !in Allocated(s.sb, k)
    {
      forall i | 0 <= i < k
        ensures Allocated(s.sb, k)[i] != a
      {
        AllocatedOnDisk(s.sb, k, i);
      }
    }
    InodeFrame(s, m, id);
  }

  lemma AllocationKeepsMarks(sb: Super, k: nat)
    requires Usable(sb)
    ensures SuperIsMarked(sb) ==> SuperIsMarked(AfterAllocation(sb, k))
  {
    AfterAllocationFields(sb, k);
    forall b: nat | BlockMarked(sb, b)
      ensures BlockMarked(AfterAllocation(sb, k), b)
    {
      AllocatedAreMarked(sb, k, b);
    }
  }

  lemma WroteEffect(s: Fs, m: Fs, t: Fs, f: Inode, data: seq<byte>, g: Inode, k: nat, blocks: BlockList)
    requires Good(s) && Usable(s.sb) && FitsInode(s.sb, |data|) && |data| < WORD_LIMIT && f.id < InodeNum(s.sb)
    requires k == BlocksTaken(BlockLen(s.sb), |data|, f.owned) && Filling(s, m, f, data, k, |data|, blocks)
    requires g == Rewritten(f, BlockLen(s.sb), |data|, Allocated(s.sb, k)) && InodeWritten(m, t, g)
    ensures Wrote(s, t, f, data, g)
  {
    AfterAllocationFields(s.sb, k);
    AllocationKeepsMarks(s.sb, k);
    DataStartIsSmall(s.sb, |s.disk|, BlockLen(s.sb));
    assert data[..|data|] == data;
    forall id: nat | id < InodeNum(s.sb)
      ensures InodeAt(m, id) == InodeAt(s, id)
    {
      FileWritingKeepsInode(s, m, data, k, id);
    }
    assert ChunksWritten(s.disk, t.disk, DataStart(s.sb), BlockLen(s.sb), Allocated(s.sb, k), data);
  }

  lemma NextFileBlock(sb: Super, blocks: BlockList, i: nat)
    requires Usable(sb) && i < MAX_INODE_BLOCKS && AllWords(Allocated(sb, i))
    requires FreeBlock(AfterAllocation(sb, i)) < WORD_LIMIT
    ensures AllWords(Allocated(sb, i + 1))
    ensures NewBlocks(blocks, Allocated(sb, i + 1)) ==
            NewBlocks(blocks, Allocated(sb, i))[i := FreeBlock(AfterAllocation(sb, i))]
  {
    AllocatedSnoc(sb, i);
    assert forall j :: 0 <= j < i ==> Allocated(sb, i + 1)[j] == Allocated(sb, i)[j];
  }

  /** The address that the allocator hands out lies on the disk and its mark within the superblock. */
  lemma AllocateOnDisk(t: Fs)
    requires Good(t) && Usable(t.sb)
    ensures var a := FreeBlock(t.sb);
            a < |t.disk| && a < WORD_LIMIT && WordIndex(BLOCK_BITMAP, a) < SUPER_WORDS && Usable(MarkBlock(t.sb, a))
  {
    FreeBlockAnswer(t.sb);
    MarkBlockEffect(t.sb, FreeBlock(t.sb));
  }

  lemma FillingRound(s: Fs, t: Fs, u: Fs, f: Inode, data: seq<byte>, i: nat, done: nat, blocks: BlockList, a: word,
                     block: Block, n: nat)
    requires Usable(s.sb) && i < MAX_INODE_BLOCKS && Filling(s, t, f, data, i, done, blocks)
    requires done == Start(BlockLen(t.sb), i) && n <= BlockLen(t.sb) && done + n <= |data|
    requires |block| == BlockLen(t.sb) && block[..n] == data[done..done + n]
    requires a == FreeBlock(t.sb) < |t.disk| && WordIndex(BLOCK_BITMAP, a) < SUPER_WORDS && Usable(MarkBlock(t.sb, a))
    requires u == Fs(MarkBlock(t.sb, a), t.disk[a := block])
    ensures Filling(s, u, f, data, i + 1, done + n, blocks[i := a])
  {
    MarkBlockEffect(t.sb, a);
    SameFieldsSameLayout(t.sb, MarkBlock(t.sb, a));
    FileRound(s, t, BlockLen(t.sb), data, i, done, block, n);
    NextFileBlock(s.sb, f.blocks, i);
  }

  /** write_to_inode goes through k rounds to write n bytes. */
  predicate Rounds(len: nat, n: nat, k: nat) {
    if n == 0 then k <= 1 else IsCeiling(len, n, k)
  }

  lemma BlocksTakenRounds(len: nat, n: nat, owned: nat)
    requires len > 0 && BlocksOccupied(len, n) <= MAX_INODE_BLOCKS
    ensures Rounds(len, n, BlocksTaken(len, n, owned)) && BlocksTaken(len, n, owned) <= MAX_INODE_BLOCKS
    ensures var needed := BlocksOccupied(len, n);
            var all := if needed > owned then needed else owned;
            BlocksTaken(len, n, owned) <= all && (BlocksTaken(len, n, owned) == 0 ==> all == 0 && n == 0)
  {
  }

  /** The round in which the data runs out is the last of the k rounds. */
  lemma LastFileBlock(len: nat, n: nat, k: nat, i: nat)
    requires len > 0 && i < k && Rounds(len, n, k)
    ensures Start(len, i) <= n
    ensures i + 1 == k <==> n - Start(len, i) <= len
  {
    if n > 0 {
      MoreToTransfer(len, n, k, i);
    }
  }

  /** The blocks that a read of n bytes through f looks at are on the disk. */
  predicate Readable(s: Fs, f: Inode, n: nat)
    requires BlockLen(s.sb) > 0 && FitsInode(s.sb, n)
  {
    forall i :: 0 <= i < BlocksTaken(BlockLen(s.sb), n, f.owned) && i < MAX_INODE_BLOCKS ==> f.blocks[i] < |s.disk|
  }

  lemma NewFields(len: nat, inodes: nat)
    requires MIN_BLOCK_LENGTH <= len <= MAX_BLOCK_LEN && inodes <= MAX_NUMBER_OF_INODES
    ensures Start(BlocksOccupied(len, INODE_BYTES), inodes) == BlocksOccupied(len, INODE_BYTES) * inodes
    ensures BlocksOccupied(len, SUPER_BYTES) <= 36 && Start(BlocksOccupied(len, INODE_BYTES), inodes) <= 3072
  {
    OccupiedBounds(len);
    SmallTable(BlocksOccupied(len, INODE_BYTES), inodes);
    StartIsProduct(BlocksOccupied(len, INODE_BYTES), inodes);
  }

  /** What new_superblock computes. */
  function NewSuper(num: word, len: nat): (sb: Super)
    requires MIN_BLOCK_LENGTH <= len <= MAX_BLOCK_LEN
  {
    NewFields(len, InodesFor(num));
    seq(SUPER_WORDS, _ => 0)[BLOCK_NUM := num][BLOCK_LENGTH := len][INODE_NUM := InodesFor(num)]
      [INODE_START := BlocksOccupied(len, SUPER_BYTES)]
      [DATA_START := Start(BlocksOccupied(len, INODE_BYTES), InodesFor(num)) + BlocksOccupied(len, SUPER_BYTES)]
  }

  lemma NewSuperIsLayout(num: word, len: nat)
    requires MIN_BLOCK_LENGTH <= len <= MAX_BLOCK_LEN
    requires Start(BlocksOccupied(len, INODE_BYTES), InodesFor(num)) + BlocksOccupied(len, SUPER_BYTES) <= num
    ensures Layout(NewSuper(num, len), num, len)
    ensures forall a: nat :: !BlockMarked(NewSuper(num, len), a)
    ensures forall id: nat :: id < MAX_NUMBER_OF_INODES ==> !InodeMarked(NewSuper(num, len), id)
  {
    var sb := NewSuper(num, len);
    assert forall k: nat :: !Bit(0, k) by {
      forall k: nat ensures !Bit(0, k) { NoBit(k); }
    }
    assert forall i :: (INODE_BITMAP <= i < DATA_START || BLOCK_BITMAP <= i < SUPER_WORDS) ==> sb[i] == 0;
  }

  lemma {:induction false} NoBit(k: nat)
    ensures !Bit(0, k)
  {
    if k > 0 {
      NoBit(k - 1);
    }
  }

  /** The first n inodes are empty, no inode is taken and no data block is marked. */
  ghost predicate Formatted(s: Fs, n: nat) {
    && Good(s) && SuperIsMarked(s.sb) && n <= InodeNum(s.sb)
    && (forall id: nat :: id < n ==> InodeAt(s, id) == EmptyInode(id))
    && (forall id: nat :: id < InodeNum(s.sb) ==> !InodeMarked(s.sb, id))
    && (forall a: nat :: a >= DataStart(s.sb) ==> !BlockMarked(s.sb, a))
  }

  lemma FormattedStart(s: Fs, t: Fs)
    requires Good(s) && WordIndex(BLOCK_BITMAP, InodeStart(s.sb)) < SUPER_WORDS
    requires forall a: nat :: !BlockMarked(s.sb, a)
    requires forall id: nat :: id < MAX_NUMBER_OF_INODES ==> !InodeMarked(s.sb, id)
    requires Writing(s, t, BlockLen(s.sb), 0, InodeStart(s.sb), Source.Superblock, InodeStart(s.sb), SUPER_BYTES)
    ensures Formatted(t, 0) && SameLayout(s.sb, t.sb)
  {
    DataStartIsSmall(s.sb, |s.disk|, BlockLen(s.sb));
    WritingMetadata(s, t, 0, InodeStart(s.sb), Source.Superblock, SUPER_BYTES);
    SameFieldsSameLayout(s.sb, t.sb);
    SuperblockStored(s, t);
  }

  lemma FormattedRound(t: Fs, u: Fs, i: nat)
    requires Formatted(t, i) && i < InodeNum(t.sb) && InodeWritten(t, u, EmptyInode(i))
    ensures Formatted(u, i + 1) && SameLayout(t.sb, u.sb) && SuperOnDisk(u)
  {
    SameFieldsSameLayout(t.sb, u.sb);
    DataStartIsSmall(t.sb, |t.disk|, BlockLen(t.sb));
    FormattedInodes(t, u, i);
  }

  lemma FormattedInodes(t: Fs, u: Fs, i: word)
    requires BlockLen(t.sb) > 0 && BlockLen(u.sb) > 0 && i < InodeNum(t.sb)
    requires forall id: nat :: id < i ==> InodeAt(t, id) == EmptyInode(id)
    requires forall id: nat :: id < InodeNum(t.sb) ==>
               InodeAt(u, id) == if id == i then EmptyInode(i) else InodeAt(t, id)
    ensures forall id: nat :: id < i + 1 ==> InodeAt(u, id) == EmptyInode(id)
  {
  }
}
