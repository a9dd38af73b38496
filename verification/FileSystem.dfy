/** The file system as the C code has it: a disk of blocks and a superblock in memory, both changed
    in place (fs.c). */
module FileSystem {
  import opened Words
  import opened Bitmap
  import opened Storage
  import opened Superblock
  import opened Inodes
  import opened Writes


  class FileSystem {
    const disk: array<Block>
    const sb: array<word>

    ghost predicate Valid() {
      sb.Length == SUPER_WORDS
    }

    ghost function St(): Fs
      requires Valid()
      reads disk, sb
    {
      Fs(sb[..], disk[..])
    }

    /** Nothing is mounted yet: the superblock is zero. */
    constructor (blocks: seq<Block>)
      ensures Valid() && disk[..] == blocks && fresh(disk) && fresh(sb)
    {
      disk := new Block[|blocks|](i requires 0 <= i < |blocks| => blocks[i]);
      sb := new word[SUPER_WORDS](_ => 0);
    }

    // ---- the disk device

    /** The device stores a block of the right length at an address that it has. */
    method DiskWr(a: nat, x: Block, len: nat) returns (status: int)
      modifies disk
      ensures if a < disk.Length && |x| == len
              then status == DISK_SUCCESS && disk[..] == old(disk[..])[a := x]
              else status == DISK_FAILURE && disk[..] == old(disk[..])
    {
      if a >= disk.Length || |x| != len {
        return DISK_FAILURE;
      }
      disk[a] := x;
      return DISK_SUCCESS;
    }

    /** disk_write: n bytes of data go into a block buffer whose rest is whatever the stack holds. */
    method DiskWrite(len: nat, a: nat, data: seq<byte>) returns (status: int)
      requires |data| <= len
      modifies disk
      ensures if a < disk.Length
              then && status == DISK_SUCCESS && |disk[a]| == len && disk[a][..|data|] == data
                   && disk[..] == old(disk[..])[a := disk[a]]
              else status == DISK_FAILURE && disk[..] == old(disk[..])
    {
      assert |seq<byte>(len - |data|, _ => 0)| == len - |data|;
      var rest: seq<byte> :| |rest| == len - |data|;
      status := DiskWr(a, data + rest, len);
    }

    /** disk_read: the first n bytes of a block. */
    method DiskRead(len: nat, a: nat, n: nat) returns (status: int, data: seq<byte>)
      requires a < disk.Length ==> n <= len == |disk[a]|
      ensures if a < disk.Length then status == DISK_SUCCESS && data == disk[a][..n]
              else status == DISK_FAILURE && data == []
    {
      if a >= disk.Length {
        return DISK_FAILURE, [];
      }
      return DISK_SUCCESS, disk[a][..n];
    }

    // ---- sequential blocks

    /** read_sequential_blocks; it fails when the span goes beyond the disk. */
    method ReadSequential(len: nat, first: nat, bytes: nat) returns (status: int, data: seq<byte>)
      requires len > 0 && forall a :: 0 <= a < disk.Length ==> |disk[a]| == len
      ensures if first + BlocksOccupied(len, bytes) <= disk.Length || bytes == 0
              then && status == DISK_SUCCESS
                   && data == Content(disk[..], len, Span(first, BlocksOccupied(len, bytes)), bytes)
              else status == DISK_FAILURE
    {
      var blocks := BlocksOccupied(len, bytes);
      ghost var span := Span(first, blocks);
      BlocksOccupiedIsCeiling(len, bytes);
      data := [];
      var bytesLeft: int := bytes;
      var i := 0;
      while i < blocks
        invariant 0 <= i <= blocks
        invariant bytesLeft == if i < blocks then bytes - Start(len, i) else 0
        invariant data == Content(disk[..], len, span, bytes - bytesLeft)
        invariant i > 0 ==> first + i <= disk.Length
      {
        MoreToTransfer(len, bytes, blocks, i);
        var n := if bytesLeft < len then bytesLeft else len;
        var chunk;
        status, chunk := DiskRead(len, first + i, n);
        if status < 0 {
          return;
        }
        ContentAppend(disk[..], len, span, i, n);
        bytesLeft := bytesLeft - n;
        data := data + chunk;
        if bytesLeft <= 0 {
          break;
        }
        i := i + 1;
      }
      status := DISK_SUCCESS;
    }

    /** One round of write_sequential_blocks: mark the block, then write the next n bytes to it. */
    method MarkAndWrite(ghost s: Fs, len: nat, first: nat, ghost blocks: nat, source: Source, i: nat, done: nat, n: nat)
      returns (status: int)
      requires Valid() && len > 0 && first + blocks <= disk.Length && i < blocks && n <= len && done == Start(len, i)
      requires WordIndex(BLOCK_BITMAP, first + blocks) < SUPER_WORDS && WordIndex(BLOCK_BITMAP, first + i) < SUPER_WORDS
      requires done + n <= (if source.Buffer? then |source.bytes| else SUPER_BYTES)
      requires Writing(s, St(), len, first, blocks, source, i, done)
      modifies disk, sb
      ensures status == DISK_SUCCESS && Writing(s, St(), len, first, blocks, source, i + 1, done + n)
    {
      ghost var t := St();
      SetBitAt(sb, BLOCK_BITMAP, first + i);
      status := DiskWrite(len, first + i, Chunk(source, sb[..], done, n));
      MarkSpanSnoc(s.sb, first, blocks, i);
      WriteRound(s, t, St(), len, first, blocks, source, i, done, n);
    }

    /** The loop of write_sequential_blocks. */
    method WriteBlocks(len: nat, first: nat, blocks: nat, source: Source, bytes: nat) returns (status: int)
      requires Valid() && len > 0 && forall a :: 0 <= a < disk.Length ==> |disk[a]| == len
      requires first + blocks <= disk.Length && IsCeiling(len, bytes, blocks)
      requires WordIndex(BLOCK_BITMAP, first + blocks) < SUPER_WORDS
      requires bytes <= if source.Buffer? then |source.bytes| else SUPER_BYTES
      modifies disk, sb
      ensures status == DISK_SUCCESS
      ensures Writing(old(St()), St(), len, first, blocks, source, blocks, bytes)
    {
      ghost var was := St();
      var done, i := 0, 0;
      assert Content(disk[..], len, Span(first, blocks), 0) == BytesOf(source, was.sb)[..0];
      while i < blocks
        invariant 0 <= i <= blocks && (i == blocks ==> bytes == 0) && done == Start(len, i)
        invariant Writing(was, St(), len, first, blocks, source, i, done)
      {
        MoreToTransfer(len, bytes, blocks, i);
        SpanIndex(first, blocks, i);
        var n := if bytes - done < len then bytes - done else len;
        status := MarkAndWrite(was, len, first, blocks, source, i, done, n);
        if status < 0 {
          return;
        }
        i, done := i + 1, done + n;
        if done >= bytes {
          break;
        }
      }
      status := DISK_SUCCESS;
    }

    /** write_sequential_blocks: every block is marked, then written. */
    method WriteSequential(len: nat, first: nat, source: Source, bytes: nat) returns (status: int)
      requires Valid() && len > 0 && forall a :: 0 <= a < disk.Length ==> |disk[a]| == len
      requires first + BlocksOccupied(len, bytes) <= disk.Length
      requires WordIndex(BLOCK_BITMAP, first + BlocksOccupied(len, bytes)) < SUPER_WORDS
      requires bytes <= if source.Buffer? then |source.bytes| else SUPER_BYTES
      modifies disk, sb
      ensures status == DISK_SUCCESS
      ensures var blocks := BlocksOccupied(len, bytes);
              Writing(old(St()), St(), len, first, blocks, source, blocks, bytes)
    {
      BlocksOccupiedIsCeiling(len, bytes);
      status := WriteBlocks(len, first, BlocksOccupied(len, bytes), source, bytes);
    }

    // ---- superblock and inodes

    method Load(words: Super)
      requires Valid()
      modifies sb
      ensures sb[..] == words
    {
      forall i | 0 <= i < SUPER_WORDS {
        sb[i] := words[i];
      }
    }

    /** read_superblock: whatever the disk holds becomes the superblock in memory. */
    method ReadSuperblock(len: nat) returns (status: int)
      requires Valid() && len > 0 && forall a :: 0 <= a < disk.Length ==> |disk[a]| == len
      modifies sb
      ensures status == if BlocksOccupied(len, SUPER_BYTES) <= disk.Length then DISK_SUCCESS else DISK_FAILURE
      ensures status == DISK_SUCCESS ==>
                sb[..] == Decode(Content(disk[..], len, Span(0, BlocksOccupied(len, SUPER_BYTES)), SUPER_BYTES))
    {
      var bytes;
      status, bytes := ReadSequential(len, 0, SUPER_BYTES);
      if status >= 0 {
        Load(Decode(bytes));
      }
    }

    method WriteSuperblock() returns (status: int)
      requires Valid() && Good(St())
      modifies disk, sb
      ensures status == DISK_SUCCESS && WordIndex(BLOCK_BITMAP, InodeStart(old(St()).sb)) < SUPER_WORDS
      ensures Writing(old(St()), St(), BlockLen(old(St()).sb), 0, InodeStart(old(St()).sb), Source.Superblock,
                      InodeStart(old(St()).sb), SUPER_BYTES)
    {
      DataStartIsSmall(sb[..], disk.Length, sb[BLOCK_LENGTH]);
      status := WriteSequential(sb[BLOCK_LENGTH], 0, Source.Superblock, SUPER_BYTES);
    }

    method IdToAddr(id: nat) returns (addr: nat)
      requires Valid() && BlockLen(sb[..]) > 0
      ensures addr == InodeAddr(sb[..], id)
    {
      StartIsProduct(InodeBlocks(sb[..]), id);
      addr := sb[INODE_START] + id * BlocksOccupied(sb[BLOCK_LENGTH], INODE_BYTES);
    }

    /** read_inode; a negative id is refused. Whether the id belongs to the inode table is not looked at. */
    method ReadInode(id: int) returns (status: int, f: Inode)
      requires Valid() && Good(St())
      ensures if id >= 0 && OnDisk(St(), id) then status == DISK_SUCCESS && f == InodeAt(St(), id)
              else status == DISK_FAILURE
    {
      f := EmptyInode(0);
      if id < 0 {
        return DISK_FAILURE, f;
      }
      var addr := IdToAddr(id);
      OccupiedBounds(sb[BLOCK_LENGTH]);
      var bytes;
      status, bytes := ReadSequential(sb[BLOCK_LENGTH], addr, INODE_BYTES);
      if status >= 0 {
        f := BytesToInode(bytes);
      }
    }

    method WriteInode(f: Inode) returns (status: int)
      requires Valid() && Good(St()) && f.id < InodeNum(St().sb)
      modifies disk, sb
      ensures status == DISK_SUCCESS && InodeWritten(old(St()), St(), f)
    {
      ghost var s := St();
      var addr := IdToAddr(f.id);
      InodeInTable(sb[..], disk.Length, sb[BLOCK_LENGTH], f.id);
      status := WriteSequential(sb[BLOCK_LENGTH], addr, Buffer(InodeToBytes(f)), INODE_BYTES);
      if status < 0 {
        return;
      }
      ghost var m := St();
      InodeBlocksWritten(s, m, f);
      status := WriteSuperblock();
      SuperblockWritten(s, m, St(), f);
      SuperblockStored(m, St());
    }

    method FreeDataBlock() returns (a: nat)
      requires Valid() && Usable(sb[..])
      ensures a == FreeBlock(sb[..])
    {
      a := sb[DATA_START];
      FreeBlockAnswer(sb[..]);
      AllocRange(sb[..], sb[DATA_START]);
      while a < sb[BLOCK_NUM]
        invariant DataStart(sb[..]) <= a <= BlockNum(sb[..])
        invariant FreeBlock(sb[..]) == FreeBlockFrom(sb[..], a)
      {
        if !Marked(sb[..], BLOCK_BITMAP, a) {
          return;
        }
        a := a + 1;
      }
      a := 0;
    }

    /** Allocate and mark a block and write a chunk of data to it. */
    method AllocateAndWrite(len: nat, chunk: seq<byte>) returns (status: int, a: word)
      requires Valid() && Good(St()) && Usable(sb[..]) && len == BlockLen(St().sb) && |chunk| <= len
      modifies disk, sb
      ensures status == DISK_SUCCESS && a == FreeBlock(old(St()).sb) && a < disk.Length
      ensures WordIndex(BLOCK_BITMAP, a) < SUPER_WORDS && Usable(MarkBlock(old(St()).sb, a))
      ensures |disk[a]| == len && disk[a][..|chunk|] == chunk
      ensures St() == Fs(MarkBlock(old(St()).sb, a), old(St()).disk[a := disk[a]])
    {
      AllocateOnDisk(St());
      a := FreeDataBlock();
      SetBitAt(sb, BLOCK_BITMAP, a);
      status := DiskWrite(len, a, chunk);
    }

    /** One round of write_to_inode. */
    method WriteFileBlock(ghost s: Fs, ghost f: Inode, len: nat, data: seq<byte>, ghost k: nat, i: nat, done: nat,
                          blocks: BlockList)
      returns (status: int, blocks': BlockList, done': nat)
      requires Valid() && Usable(s.sb) && len == BlockLen(s.sb) && len > 0
      requires Rounds(len, |data|, k) && i < k <= MAX_INODE_BLOCKS && done == Start(len, i)
      requires Filling(s, St(), f, data, i, done, blocks)
      modifies disk, sb
      ensures status == DISK_SUCCESS && done' <= |data| && Filling(s, St(), f, data, i + 1, done', blocks')
      ensures if i + 1 < k then done' == Start(len, i + 1) && done' < |data| else done' == |data|
    {
      ghost var t := St();
      LastFileBlock(len, |data|, k, i);
      var n := if |data| - done < len then |data| - done else len;
      var a;
      var chunk := data[done..done + n];
      status, a := AllocateAndWrite(len, chunk);
      assert |disk[a]| == len && disk[a][..n] == chunk;
      blocks' := blocks[i := a];
      FillingRound(s, t, St(), f, data, i, done, blocks, a, disk[a], n);
      done' := done + n;
    }

    /** The loop of write_to_inode: blocks is the inode's list of addresses. */
    method WriteFileBlocks(ghost s: Fs, f: Inode, len: nat, owned: nat, data: seq<byte>, ghost k: nat)
      returns (status: int, blocks: BlockList)
      requires Valid() && len == BlockLen(s.sb) && len > 0 && Usable(s.sb) && Rounds(len, |data|, k)
      requires k <= MAX_INODE_BLOCKS && k <= owned && (k == 0 ==> owned == 0 && data == [])
      requires Filling(s, St(), f, data, 0, 0, f.blocks)
      modifies disk, sb
      ensures status == DISK_SUCCESS && Filling(s, St(), f, data, k, |data|, blocks)
    {
      blocks := f.blocks;
      var i, done := 0, 0;
      while i < owned
        invariant 0 <= i <= k && (i == k ==> owned == 0 && data == []) && done == Start(len, i)
        invariant Filling(s, St(), f, data, i, done, blocks)
      {
        status, blocks, done := WriteFileBlock(s, f, len, data, k, i, done, blocks);
        if status < 0 {
          return;
        }
        i := i + 1;
        if done >= |data| {
          break;
        }
      }
      status := DISK_SUCCESS;
    }

    /** write_to_inode at file pointer 0, the only position its callers pass. */
    method WriteToInode(f: Inode, data: seq<byte>) returns (status: int, g: Inode)
      requires Valid() && Good(St()) && f.id < InodeNum(St().sb) && |data| < WORD_LIMIT
      modifies disk, sb
      ensures if FitsInode(old(St()).sb, |data|)
              then status == DISK_SUCCESS && Wrote(old(St()), St(), f, data, g)
              else status == DISK_FAILURE && St() == old(St()) && g == f
    {
      ghost var s := St();
      var len := sb[BLOCK_LENGTH];
      var needed := BlocksOccupied(len, |data|);
      if needed > MAX_INODE_BLOCKS {
        return DISK_FAILURE, f;
      }
      DataStartIsSmall(s.sb, |s.disk|, len);
      var owned := if needed > f.owned then needed else f.owned;
      ghost var k := BlocksTaken(len, |data|, f.owned);
      BlocksTakenRounds(len, |data|, f.owned);
      var blocks;
      status, blocks := WriteFileBlocks(s, f, len, owned, data, k);
      if status < 0 {
        return;
      }
      g := f.(size := |data|, owned := owned, blocks := blocks);
      ghost var m := St();
      status := WriteInode(g);
      WroteEffect(s, m, St(), f, data, g, k, blocks);
    }

    /** The loop of read_from_inode. */
    method ReadFileBlocks(f: Inode, len: nat, owned: nat, n: nat, ghost k: nat) returns (status: int, data: seq<byte>)
      requires len > 0 && (forall a :: 0 <= a < disk.Length ==> |disk[a]| == len) && Rounds(len, n, k)
      requires k <= MAX_INODE_BLOCKS && k <= owned && (k == 0 ==> owned == 0 && n == 0)
      ensures if forall i :: 0 <= i < k ==> f.blocks[i] < disk.Length
              then status == DISK_SUCCESS && data == Content(disk[..], len, f.blocks, n)
              else status == DISK_FAILURE
    {
      data := [];
      var i := 0;
      while i < owned
        invariant 0 <= i <= k && (i == k ==> owned == 0 && n == 0) && |data| == Start(len, i)
        invariant data == Content(disk[..], len, f.blocks, |data|)
        invariant forall j :: 0 <= j < i ==> f.blocks[j] < disk.Length
      {
        LastFileBlock(len, n, k, i);
        var m := if n - |data| < len then n - |data| else len;
        var chunk;
        status, chunk := DiskRead(len, f.blocks[i], m);
        if status < 0 {
          return;
        }
        ContentAppend(disk[..], len, f.blocks, i, m);
        data := data + chunk;
        i := i + 1;
        if |data| >= n {
          break;
        }
      }
      status := DISK_SUCCESS;
    }

    /** read_from_inode at file pointer 0. It may also raise the number of owned blocks of the inode in
        memory, which its callers drop. */
    method ReadFromInode(f: Inode, n: nat) returns (status: int, data: seq<byte>)
      requires Valid() && Good(St())
      ensures if FitsInode(St().sb, n) && Readable(St(), f, n)
              then status == DISK_SUCCESS && data == FileData(St(), f, n)
              else status == DISK_FAILURE
    {
      var len := sb[BLOCK_LENGTH];
      var needed := BlocksOccupied(len, n);
      data := [];
      if needed > MAX_INODE_BLOCKS {
        return DISK_FAILURE, data;
      }
      var owned := if needed > f.owned then needed else f.owned;
      BlocksTakenRounds(len, n, f.owned);
      status, data := ReadFileBlocks(f, len, owned, n, BlocksTaken(len, n, f.owned));
    }

    // ---- inodes

    method FreeInodeId() returns (id: int)
      requires Valid() && InodeNum(sb[..]) <= MAX_NUMBER_OF_INODES
      ensures id == FreeInodeFrom(sb[..], 0)
    {
      id := 0;
      while id < sb[INODE_NUM]
        invariant 0 <= id <= InodeNum(sb[..])
        invariant FreeInodeFrom(sb[..], 0) == FreeInodeFrom(sb[..], id)
      {
        if !Marked(sb[..], INODE_BITMAP, id) {
          return;
        }
        id := id + 1;
      }
      id := -1;
    }

    /** create_inode_type; stray is what the uninitialised inode on the stack holds. */
    method CreateInode(kind: word, stray: Inode) returns (id: int)
      requires Valid() && Good(St())
      modifies disk, sb
      ensures id == FreeInodeFrom(old(St()).sb, 0)
      ensures if id < 0 then St() == old(St())
              else Created(old(St()), St(), stray.(id := id, kind := kind, created := 1))
    {
      ghost var s := St();
      DataStartIsSmall(s.sb, |s.disk|, BlockLen(s.sb));
      id := FreeInodeId();
      if id < 0 {
        return;
      }
      MarkInodeEffect(s.sb, id);
      SetBitAt(sb, INODE_BITMAP, id);
      var status := WriteInode(stray.(id := id, kind := kind, created := 1));
      if status < 0 {
        id := -1;
      }
    }

    /** delete_inode: the blocks first, then the inode. */
    method DeleteInode(f: Inode) returns (status: int)
      requires Valid() && Good(St()) && f.id < InodeNum(St().sb) && f.owned <= MAX_INODE_BLOCKS
      requires forall i :: 0 <= i < f.owned ==> f.blocks[i] < MAX_NUMBER_OF_BLOCKS
      modifies disk, sb
      ensures status == DISK_SUCCESS && Deleted(old(St()), St(), f)
    {
      ghost var s := St();
      DataStartIsSmall(s.sb, |s.disk|, BlockLen(s.sb));
      var i := 0;
      while i < f.owned
        invariant 0 <= i <= f.owned && disk[..] == s.disk
        invariant sb[..] == UnmarkBlocks(s.sb, f.blocks[..i])
      {
        assert f.blocks[..i + 1][..i] == f.blocks[..i];
        ClearBitAt(sb, BLOCK_BITMAP, f.blocks[i]);
        i := i + 1;
      }
      UnmarkBlocksEffect(s.sb, Owned(f));
      UnmarkInodeEffect(sb[..], f.id);
      ClearBitAt(sb, INODE_BITMAP, f.id);
      status := WriteInode(EmptyInode(f.id));
    }

    // ---- a new disk

    method NewSuperblock(len: nat)
      requires Valid() && MIN_BLOCK_LENGTH <= len <= MAX_BLOCK_LEN && disk.Length < WORD_LIMIT
      modifies sb
      ensures sb[..] == NewSuper(disk.Length, len)
    {
      forall i | 0 <= i < SUPER_WORDS {
        sb[i] := 0;
      }
      var inodes := disk.Length / MAX_INODE_BLOCKS;
      if inodes > MAX_NUMBER_OF_INODES {
        inodes := MAX_NUMBER_OF_INODES;
      }
      var start := BlocksOccupied(len, SUPER_BYTES);
      NewFields(len, inodes);
      var dataStart := BlocksOccupied(len, INODE_BYTES) * inodes + start;
      sb[BLOCK_NUM] := disk.Length;
      sb[BLOCK_LENGTH] := len;
      sb[INODE_NUM] := inodes;
      sb[INODE_START] := start;
      sb[DATA_START] := dataStart;
    }

    method InitInodes() returns (status: int)
      requires Valid() && Formatted(St(), 0)
      modifies disk, sb
      ensures status == DISK_SUCCESS && Formatted(St(), InodeNum(old(St()).sb)) && SameLayout(old(St()).sb, St().sb)
      ensures InodeNum(St().sb) > 0 ==> SuperOnDisk(St())
    {
      ghost var s := St();
      var i := 0;
      while i < sb[INODE_NUM]
        invariant SameLayout(s.sb, St().sb) && 0 <= i <= InodeNum(s.sb) && Formatted(St(), i)
        invariant i > 0 ==> SuperOnDisk(St())
      {
        ghost var t := St();
        status := WriteInode(EmptyInode(i));
        if status < 0 {
          return;
        }
        FormattedRound(t, St(), i);
        i := i + 1;
      }
      status := DISK_SUCCESS;
    }

    /** init_disk up to the root directory. */
    method Format(len: nat) returns (status: int)
      requires Valid() && MIN_BLOCK_LENGTH <= len <= MAX_BLOCK_LEN && disk.Length < WORD_LIMIT
      requires forall a :: 0 <= a < disk.Length ==> |disk[a]| == len
      requires Start(BlocksOccupied(len, INODE_BYTES), InodesFor(disk.Length)) + BlocksOccupied(len, SUPER_BYTES)
               <= disk.Length
      modifies disk, sb
      ensures status == DISK_SUCCESS && Layout(St().sb, disk.Length, len) && Formatted(St(), InodeNum(St().sb))
      ensures InodeNum(St().sb) > 0 ==> SuperOnDisk(St())
    {
      NewSuperblock(len);
      ghost var s := St();
      NewSuperIsLayout(disk.Length, len);
      status := WriteSuperblock();
      FormattedStart(s, St());
      status := InitInodes();
    }
  }
}
