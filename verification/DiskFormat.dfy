/** Where things lie on the disk, in byte and word numbers (fs.h, bitmap.h). */
module DiskFormat {
  import opened Words
  import opened Bitmap
  import opened Storage
  import opened Superblock
  import opened Inodes
  import opened Writes
  import opened Directories

  /** A word lies in memory with its low byte first, and every four bytes are a word. */
  lemma LowByteFirst(b: seq<byte>)
    requires |b| == 4
    ensures BytesWord(b) == b[0] as int + 256 * b[1] as int + 65536 * b[2] as int + 16777216 * b[3] as int
    ensures WordBytes(BytesWord(b)) == b
  {
    var w: int := BytesWord(b);
    assert w / 16777216 == b[3];
    assert w / 65536 == b[2] as int + 256 * b[3] as int;
    assert w / 256 == b[1] as int + 256 * b[2] as int + 65536 * b[3] as int;
  }

  /** Byte r of the i-th block in the list of a file is its byte i * len + r, if the blocks have len bytes. */
  lemma FileByte(s: Fs, f: Inode, n: nat, len: nat, i: nat, r: nat)
    requires Good(s) && len == BlockLen(s.sb) && r < len && i < 6 && i * len + r < n && f.blocks[i] < |s.disk|
    ensures |FileData(s, f, n)| == n && FileData(s, f, n)[i * len + r] == s.disk[f.blocks[i]][r]
  {
    DivModProduct(len, i, r);
  }

  /** Words of a struct, at the places given by their byte offsets. */
  lemma WordAt(ws: seq<word>, i: nat)
    requires i < |ws|
    ensures Encode(ws)[4 * i..4 * i + 4] == WordBytes(ws[i])
  {
    EncodedWord(ws, i);
  }

  /** A superblock is 564 bytes: the number of blocks at 0, their length at 4, the number of inodes at 8, the
      start of the inode table at 12 and that of the data area at 48, behind the bitmap of the inodes. */
  lemma SuperblockBytes(sb: Super)
    ensures var b := Encode(sb);
            && |b| == 564 && b[0..4] == WordBytes(BlockNum(sb)) && b[4..8] == WordBytes(BlockLen(sb))
            && b[8..12] == WordBytes(InodeNum(sb)) && b[12..16] == WordBytes(InodeStart(sb))
            && b[48..52] == WordBytes(DataStart(sb))
  {
    WordAt(sb, 0);
    WordAt(sb, 1);
    WordAt(sb, 2);
    WordAt(sb, 3);
    WordAt(sb, 12);
  }

  /** The bitmaps: one word at byte 16 + 4 (id / 128) for an inode and at byte 52 + 4 (a / 128) for a block, and in
      that word the bit id % 128 or a % 128, if it is one of the 32. */
  lemma BitmapBits(sb: Super, id: nat, a: nat)
    requires id < 1024 && a < 16384
    ensures InodeMarked(sb, id) <==> id % 128 < 32 && Bit(sb[4 + id / 128], id % 128)
    ensures BlockMarked(sb, a) <==> a % 128 < 32 && Bit(sb[13 + a / 128], a % 128)
    ensures Encode(sb)[16 + 4 * (id / 128)..20 + 4 * (id / 128)] == WordBytes(sb[4 + id / 128])
    ensures Encode(sb)[52 + 4 * (a / 128)..56 + 4 * (a / 128)] == WordBytes(sb[13 + a / 128])
  {
    WordAt(sb, 4 + id / 128);
    WordAt(sb, 13 + a / 128);
  }

  /** Bit k of a word is worth 2 to the power of k. */
  lemma {:induction false} BitValue(w: nat, k: nat)
    ensures Pow2(k) > 0 && (Bit(w, k) <==> w / Pow2(k) % 2 == 1)
  {
    if k > 0 {
      BitValue(w / 2, k - 1);
      HalfThenRest(w, Pow2(k - 1));
    }
  }

  lemma HalfThenRest(w: nat, p: nat)
    requires p > 0
    ensures w / 2 / p == w / (2 * p)
  {
    var q := w / 2 / p;
    var r := w / 2 - q * p;
    assert 0 <= r < p && w / 2 == q * p + r;
    assert w == q * (2 * p) + (2 * r + w % 2);
    DivModProduct(2 * p, q, 2 * r + w % 2);
  }

  /** The superblock starts at block 0. The inode table starts behind it and has an inode of 48 bytes for every six
      blocks of the disk, but at most 1024, each at the start of a block of its own. Then the data begins. */
  lemma LayoutFormula(sb: Super, num: nat, len: nat, id: nat)
    requires Layout(sb, num, len)
    ensures 16 <= len <= 1024 && BlockNum(sb) == num && BlockLen(sb) == len
    ensures InodeNum(sb) == if num < 6144 then num / 6 else 1024
    ensures InodeStart(sb) == (len + 563) / len
    ensures InodeAddr(sb, id) == (len + 563) / len + id * ((len + 47) / len)
    ensures DataStart(sb) == InodeAddr(sb, InodeNum(sb))
  {
    BlocksOccupiedFormula(len, 564);
    BlocksOccupiedFormula(len, 48);
    StartIsProduct(InodeBlocks(sb), id);
  }

  /** An inode is 48 bytes: twelve words, the last six of them the addresses of blocks. */
  lemma InodeBytes(f: Inode)
    ensures var b := InodeToBytes(f);
            && |b| == 48 && b[0..4] == WordBytes(f.id) && b[4..8] == WordBytes(f.kind) && b[8..12] == WordBytes(f.size)
            && b[12..16] == WordBytes(f.owned) && b[16..20] == WordBytes(f.created)
            && b[20..24] == WordBytes(f.modified)
    ensures forall j :: 0 <= j < 6 ==> InodeToBytes(f)[24 + 4 * j..28 + 4 * j] == WordBytes(f.blocks[j])
  {
    var ws := InodeWords(f);
    WordAt(ws, 0);
    WordAt(ws, 1);
    WordAt(ws, 2);
    WordAt(ws, 3);
    WordAt(ws, 4);
    WordAt(ws, 5);
    forall j | 0 <= j < 6
      ensures InodeToBytes(f)[24 + 4 * j..28 + 4 * j] == WordBytes(f.blocks[j])
    {
      WordAt(ws, 6 + j);
    }
  }

  /** An inode of 48 zero bytes but for its id is a file that is not there. */
  lemma EmptyInodeBytes(id: word)
    ensures InodeToBytes(EmptyInode(id))[..4] == WordBytes(id)
    ensures forall k :: 4 <= k < 48 ==> InodeToBytes(EmptyInode(id))[k] == 0
  {
    InodeBytes(EmptyInode(id));
    var ws := InodeWords(EmptyInode(id));
    forall k | 4 <= k < 48
      ensures InodeToBytes(EmptyInode(id))[k] == 0
    {
      assert ws[k / 4] == 0;
    }
  }

  /** What a write leaves in the inode: the size, the larger of the numbers of blocks, and new addresses for the
      blocks that it took; the rest stays. */
  lemma WrittenInode(s: Fs, t: Fs, f: Inode, data: seq<byte>, g: Inode)
    requires Wrote(s, t, f, data, g)
    ensures var needed := BlocksOccupied(BlockLen(s.sb), |data|);
            && g.id == f.id && g.kind == f.kind && g.created == f.created && g.modified == f.modified
            && g.size == |data| && g.owned == (if needed > f.owned then needed else f.owned)
            && forall j :: needed <= j < 6 && data != [] ==> g.blocks[j] == f.blocks[j]
  {
  }

  // ---- directories

  lemma {:induction false} SlotAt(slots: seq<Link>, i: nat)
    requires i < |slots| && forall j :: 0 <= j < |slots| ==> IsName(slots[j].name)
    ensures SlotBytes(slots)[104 * i..104 * i + 104] == LinkBytes(slots[i])
  {
    if i + 1 < |slots| {
      SlotAt(slots[..|slots| - 1], i);
      assert SlotBytes(slots)[104 * i..104 * i + 104] == SlotBytes(slots[..|slots| - 1])[104 * i..104 * i + 104];
    }
  }

  /** A directory is 1044 bytes: the number of links, and ten slots of 104 bytes, each with an id, a name and
      zeros. */
  lemma DirectoryBytes(d: Dir, i: nat)
    requires IsDir(d) && i < 10
    ensures var b, slot := DirBytes(d), DirBytes(d)[4 + 104 * i..108 + 104 * i];
            && |b| == 1044 && b[..4] == WordBytes(d.count)
            && slot[..4] == WordBytes(d.slots[i].id) && slot[4..4 + |d.slots[i].name|] == d.slots[i].name
            && forall k :: 4 + |d.slots[i].name| <= k < 104 ==> slot[k] == 0
  {
    SlotAt(d.slots, i);
    var b := DirBytes(d);
    assert b[4 + 104 * i..108 + 104 * i] == SlotBytes(d.slots)[104 * i..104 * i + 104];
  }
}
