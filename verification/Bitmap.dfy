/** The bitmaps of the superblock (bitmap.c). BITS_PER_WORD is sizeof(word_t) * 32, so a 32-bit
    word stands for 128 bit numbers, of which the upper 96 are shifted out of the word. */
module Bitmap {
  import opened Words

  const BITS_PER_WORD := 128
  const WORD_BITS := 32

  /** Bit number n has a place in its word. */
  predicate Markable(n: nat) {
    n % BITS_PER_WORD < WORD_BITS
  }

  function WordIndex(base: nat, n: nat): nat {
    base + n / BITS_PER_WORD
  }

  /** get_bit on the bitmap that starts at word base of ws. */
  predicate Marked(ws: seq<word>, base: nat, n: nat) {
    WordIndex(base, n) < |ws| && Markable(n) && Bit(ws[WordIndex(base, n)], n % BITS_PER_WORD)
  }

  function Mark(ws: seq<word>, base: nat, n: nat): (r: seq<word>)
    requires WordIndex(base, n) < |ws|
    ensures |r| == |ws|
  {
    var i := WordIndex(base, n);
    if Markable(n) then
      WordAfterBit(ws[i], n % BITS_PER_WORD);
      ws[i := SetBit(ws[i], n % BITS_PER_WORD)]
    else ws
  }

  function Unmark(ws: seq<word>, base: nat, n: nat): (r: seq<word>)
    requires WordIndex(base, n) < |ws|
    ensures |r| == |ws|
  {
    var i := WordIndex(base, n);
    if Markable(n) then
      WordAfterBit(ws[i], n % BITS_PER_WORD);
      ws[i := ClearBit(ws[i], n % BITS_PER_WORD)]
    else ws
  }

  lemma MarkedAfterMark(ws: seq<word>, base: nat, n: nat, m: nat)
    requires WordIndex(base, n) < |ws|
    ensures Marked(Mark(ws, base, n), base, m) <==> Marked(ws, base, m) || (m == n && Markable(n))
  {
    if Markable(n) && WordIndex(base, m) == WordIndex(base, n) {
      BitAfterSet(ws[WordIndex(base, n)], n % BITS_PER_WORD, m % BITS_PER_WORD);
    }
  }

  lemma MarkedAfterUnmark(ws: seq<word>, base: nat, n: nat, m: nat)
    requires WordIndex(base, n) < |ws|
    ensures Marked(Unmark(ws, base, n), base, m) <==> Marked(ws, base, m) && m != n
  {
    if Markable(n) && WordIndex(base, m) == WordIndex(base, n) {
      BitAfterClear(ws[WordIndex(base, n)], n % BITS_PER_WORD, m % BITS_PER_WORD);
    }
  }

  /** set_bit followed by get_bit gives 1 exactly for the bit numbers that fit into the word. */
  lemma MarkSticks(ws: seq<word>, base: nat, n: nat)
    requires WordIndex(base, n) < |ws|
    ensures Marked(Mark(ws, base, n), base, n) <==> Markable(n)
  {
    MarkedAfterMark(ws, base, n, n);
  }

  method SetBitAt(words: array<word>, base: nat, n: nat)
    requires WordIndex(base, n) < words.Length
    modifies words
    ensures words[..] == Mark(old(words[..]), base, n)
  {
    var i := base + n / BITS_PER_WORD;
    var k := n % BITS_PER_WORD;
    if k < WORD_BITS {
      WordAfterBit(words[i], k);
      words[i] := SetBit(words[i], k);
    }
  }

  method ClearBitAt(words: array<word>, base: nat, n: nat)
    requires WordIndex(base, n) < words.Length
    modifies words
    ensures words[..] == Unmark(old(words[..]), base, n)
  {
    var i := base + n / BITS_PER_WORD;
    var k := n % BITS_PER_WORD;
    if k < WORD_BITS {
      WordAfterBit(words[i], k);
      words[i] := ClearBit(words[i], k);
    }
  }
}
