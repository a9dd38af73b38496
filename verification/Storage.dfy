/** Bytes stored in disk blocks. */
module Storage {
  import opened Words

  type Block = seq<byte>

  /** What disk operations return. */
  const DISK_SUCCESS := 0
  const DISK_FAILURE := -1

  /** The number of blocks of the given size that bytes bytes take. */
  function BlocksOccupied(size: nat, bytes: nat): nat
    requires size > 0
  {
    if bytes == 0 then 0 else if bytes <= size then 1 else 1 + BlocksOccupied(size, bytes - size)
  }

  /** The rounding up that blocks_occupied computes is that number. */
  lemma {:induction false} BlocksOccupiedFormula(size: nat, bytes: nat)
    requires size > 0
    ensures (size + bytes - 1) / size == BlocksOccupied(size, bytes)
  {
    BlocksOccupiedIsCeiling(size, bytes);
    var b := BlocksOccupied(size, bytes);
    DivBound(size, size + bytes - 1, b);
    DivBound(size, size + bytes - 1, b + 1);
  }

  /** Byte k of the data that lies in the blocks addrs, size bytes in each. */
  function ByteAt(disk: seq<Block>, size: nat, addrs: seq<nat>, k: nat): byte {
    if size > 0 && k / size < |addrs| && addrs[k / size] < |disk| && k % size < |disk[addrs[k / size]]|
    then disk[addrs[k / size]][k % size] else 0
  }

  /** The first n bytes of the data that lies in the blocks addrs. */
  function Content(disk: seq<Block>, size: nat, addrs: seq<nat>, n: nat): (r: seq<byte>)
    ensures |r| == n
  {
    seq(n, k requires 0 <= k < n => ByteAt(disk, size, addrs, k))
  }

  /** count consecutive addresses. */
  function Span(first: nat, count: nat): (r: seq<nat>)
    ensures |r| == count && forall j :: 0 <= j < count ==> r[j] == first + j
  {
    seq(count, j requires 0 <= j < count => first + j)
  }

  lemma MulMono(a: int, b: int, c: nat)
    requires a <= b
    ensures a * c <= b * c
  {
  }

  /** i * size: where block i starts. */
  function Start(size: nat, i: nat): nat {
    if i == 0 then 0 else Start(size, i - 1) + size
  }

  lemma {:induction false} StartIsProduct(size: nat, i: nat)
    ensures Start(size, i) == i * size
  {
    if i > 0 {
      StartIsProduct(size, i - 1);
      assert i * size == (i - 1) * size + size;
    }
  }

  lemma {:induction false} StartMono(size: nat, j: nat, i: nat)
    requires j < i
    ensures Start(size, j) + size <= Start(size, i)
  {
    if j + 1 < i {
      StartMono(size, j, i - 1);
    }
  }

  lemma DivModProduct(size: nat, i: nat, r: nat)
    requires r < size
    ensures (i * size + r) / size == i && (i * size + r) % size == r
  {
    var k := i * size + r;
    assert k == (k / size) * size + k % size;
    if k / size < i {
      MulMono(k / size + 1, i, size);
    } else if k / size > i {
      MulMono(i + 1, k / size, size);
    }
  }

  lemma DivMod(size: nat, i: nat, r: nat)
    requires r < size
    ensures (Start(size, i) + r) / size == i && (Start(size, i) + r) % size == r
  {
    StartIsProduct(size, i);
    DivModProduct(size, i, r);
  }

  lemma DivBound(size: nat, k: nat, i: nat)
    requires size > 0
    ensures k / size < i <==> k < Start(size, i)
  {
    StartIsProduct(size, i);
    if k / size >= i {
      MulMono(i, k / size, size);
    } else {
      MulMono(k / size + 1, i, size);
    }
  }

  /** b blocks of the given size hold n bytes, and fewer do not. */
  predicate IsCeiling(size: nat, n: nat, b: nat) {
    n <= Start(size, b) && (if b == 0 then n == 0 else Start(size, b - 1) < n)
  }

  lemma {:induction false} BlocksOccupiedIsCeiling(size: nat, n: nat)
    requires size > 0
    ensures IsCeiling(size, n, BlocksOccupied(size, n))
  {
    if n > size {
      BlocksOccupiedIsCeiling(size, n - size);
    }
  }

  /** The first n bytes only depend on the m blocks that they lie in. */
  lemma ContentKept(disk: seq<Block>, disk': seq<Block>, size: nat, addrs: seq<nat>, m: nat, n: nat)
    requires size > 0 && |disk| == |disk'| && m <= |addrs| && n <= Start(size, m)
    requires forall i :: 0 <= i < m && addrs[i] < |disk| ==> disk'[addrs[i]] == disk[addrs[i]]
    ensures Content(disk', size, addrs, n) == Content(disk, size, addrs, n)
  {
    forall k | 0 <= k < n
      ensures ByteAt(disk', size, addrs, k) == ByteAt(disk, size, addrs, k)
    {
      DivBound(size, k, m);
    }
  }

  /** The data of one more block, or of part of it. */
  lemma ContentAppend(disk: seq<Block>, size: nat, addrs: seq<nat>, i: nat, m: nat)
    requires size > 0 && i < |addrs| && addrs[i] < |disk| && |disk[addrs[i]]| == size && m <= size
    ensures Content(disk, size, addrs, Start(size, i) + m)
            == Content(disk, size, addrs, Start(size, i)) + disk[addrs[i]][..m]
  {
    var n := Start(size, i);
    forall k | n <= k < n + m
      ensures ByteAt(disk, size, addrs, k) == disk[addrs[i]][k - n]
    {
      DivMod(size, i, k - n);
    }
  }

  /** The data after one more block has been written, at an address not used before. */
  lemma ContentUpdate(disk: seq<Block>, size: nat, addrs: seq<nat>, i: nat, block: Block, m: nat)
    requires size > 0 && i < |addrs| && addrs[i] < |disk| && |block| == size && m <= size
    requires addrs[i] !in addrs[..i]
    ensures Content(disk[addrs[i] := block], size, addrs, Start(size, i) + m) ==
            Content(disk, size, addrs, Start(size, i)) + block[..m]
  {
    var disk' := disk[addrs[i] := block];
    ContentAppend(disk', size, addrs, i, m);
    forall k | 0 <= k < Start(size, i)
      ensures ByteAt(disk', size, addrs, k) == ByteAt(disk, size, addrs, k)
    {
      DivBound(size, k, i);
      assert k / size < i ==> addrs[k / size] in addrs[..i];
    }
    assert Content(disk', size, addrs, Start(size, i)) == Content(disk, size, addrs, Start(size, i));
  }

  /** A transfer of n bytes in b blocks: before block i some bytes are left. */
  lemma MoreToTransfer(size: nat, n: nat, b: nat, i: nat)
    requires size > 0 && i < b && IsCeiling(size, n, b)
    ensures 0 < n - Start(size, i)
    ensures i + 1 == b <==> n - Start(size, i) <= size
  {
    if i + 1 < b {
      StartMono(size, i, b - 1);
      if i + 2 < b {
        StartMono(size, i + 1, b - 1);
      }
    }
  }
}
