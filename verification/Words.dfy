/** Machine words and bytes, the bits of a word, and how words lie in memory. */
module Words {

  const WORD_LIMIT := 0x1_0000_0000

  type word = x: int | 0 <= x < 0x1_0000_0000
  type byte = x: int | 0 <= x < 256

  /** The conversion of a C int to uint32_t. */
  function ToWord(x: int): word {
    x % WORD_LIMIT
  }

  /** Bit k of w, counted from the low end. */
  predicate Bit(w: nat, k: nat) {
    if k == 0 then w % 2 == 1 else Bit(w / 2, k - 1)
  }

  /** w | (1 << k) */
  function SetBit(w: nat, k: nat): nat {
    if k == 0 then (if w % 2 == 1 then w else w + 1) else 2 * SetBit(w / 2, k - 1) + w % 2
  }

  /** w & ~(1 << k) */
  function ClearBit(w: nat, k: nat): nat {
    if k == 0 then (if w % 2 == 1 then w - 1 else w) else 2 * ClearBit(w / 2, k - 1) + w % 2
  }

  lemma {:induction false} BitAfterSet(w: nat, k: nat, j: nat)
    ensures Bit(SetBit(w, k), j) <==> j == k || Bit(w, j)
  {
    if k > 0 && j > 0 {
      BitAfterSet(w / 2, k - 1, j - 1);
    }
  }

  lemma {:induction false} BitAfterClear(w: nat, k: nat, j: nat)
    ensures Bit(ClearBit(w, k), j) <==> j != k && Bit(w, j)
  {
    if k > 0 && j > 0 {
      BitAfterClear(w / 2, k - 1, j - 1);
    }
  }

  function Pow2(n: nat): nat {
    if n == 0 then 1 else 2 * Pow2(n - 1)
  }

  /** A number below 2 * p keeps that bound when its low bit or its other bits change within bounds. */
  lemma HalfRange(w: nat, p: nat)
    requires w < 2 * p
    ensures w / 2 < p && (w % 2 == 0 ==> w + 1 < 2 * p)
    ensures forall h: nat :: h < p ==> 2 * h + w % 2 < 2 * p
  {
  }

  lemma {:induction false} BitsStayInRange(w: nat, k: nat, n: nat)
    requires k < n && w < Pow2(n)
    ensures SetBit(w, k) < Pow2(n) && ClearBit(w, k) < Pow2(n)
  {
    HalfRange(w, Pow2(n - 1));
    if k > 0 {
      BitsStayInRange(w / 2, k - 1, n - 1);
      var h := SetBit(w / 2, k - 1);
      assert SetBit(w, k) == 2 * h + w % 2;
    }
  }

  /** Setting or clearing one of the 32 bits of a word gives a word. */
  lemma WordAfterBit(w: word, k: nat)
    requires k < 32
    ensures SetBit(w, k) < WORD_LIMIT && ClearBit(w, k) < WORD_LIMIT
  {
    assert Pow2(4) == 16 && Pow2(8) == 256 && Pow2(12) == 0x1000 && Pow2(16) == 0x1_0000;
    assert Pow2(20) == 0x10_0000 && Pow2(24) == 0x100_0000 && Pow2(28) == 0x1000_0000;
    assert Pow2(32) == WORD_LIMIT;
    BitsStayInRange(w, k, 32);
  }

  /** The four bytes of a word in memory, low byte first. */
  function WordBytes(w: word): (b: seq<byte>)
    ensures |b| == 4
  {
    [w % 256, w / 256 % 256, w / 65536 % 256, w / 16777216]
  }

  function BytesWord(b: seq<byte>): word
    requires |b| == 4
  {
    b[0] as int + 256 * b[1] as int + 65536 * b[2] as int + 16777216 * b[3] as int
  }

  lemma WordRoundTrip(w: word)
    ensures BytesWord(WordBytes(w)) == w
  {
    assert w == w / 256 * 256 + w % 256;
    assert w / 256 == w / 65536 * 256 + w / 256 % 256;
    assert w / 65536 == w / 16777216 * 256 + w / 65536 % 256;
  }

  /** A struct of words as bytes. */
  function Encode(ws: seq<word>): (b: seq<byte>)
    ensures |b| == 4 * |ws|
  {
    seq(4 * |ws|, k requires 0 <= k < 4 * |ws| => WordBytes(ws[k / 4])[k % 4])
  }

  function Decode(b: seq<byte>): (ws: seq<word>)
    ensures |ws| == |b| / 4
  {
    seq(|b| / 4, i requires 0 <= i < |b| / 4 => BytesWord(b[4 * i..4 * i + 4]))
  }

  lemma EncodedWord(ws: seq<word>, i: nat)
    requires i < |ws|
    ensures Encode(ws)[4 * i..4 * i + 4] == WordBytes(ws[i])
  {
  }

  lemma DecodeEncode(ws: seq<word>)
    ensures Decode(Encode(ws)) == ws
  {
    forall i | 0 <= i < |ws|
      ensures Decode(Encode(ws))[i] == ws[i]
    {
      EncodedWord(ws, i);
      WordRoundTrip(ws[i]);
    }
  }
}
