/** Decimal numbers as text: itoa, atoi and ss of the user library (libc.c). */
module Decimal {

  /** The powers of ten that itoa goes through stay below the limit of a 32-bit int up to here. */
  const LIMIT := 1_000_000_000

  function Abs(x: int): nat {
    if x < 0 then -x else x
  }

  function DigitChar(d: nat): char
    requires d < 10
  {
    '0' + d as char
  }

  /** The digits of t, none for 0. */
  function Digits(t: nat): seq<char> {
    if t == 0 then [] else Digits(t / 10) + [DigitChar(t % 10)]
  }

  /** The text of a number. */
  function Text(x: int): seq<char> {
    (if x < 0 then ['-'] else []) + if x == 0 then ['0'] else Digits(Abs(x))
  }

  // ---- reading

  /** The number that the characters make, read with that sign. */
  function Number(negative: bool, s: seq<char>): int {
    if s == [] then 0
    else
      var d := s[|s| - 1] as int - '0' as int;
      Number(negative, s[..|s| - 1]) * 10 + if negative then -d else d
  }

  /** The number that a text stands for. */
  function Parsed(s: seq<char>): int {
    if s != [] && s[0] == '-' then Number(true, s[1..])
    else if s != [] && s[0] == '+' then Number(false, s[1..])
    else Number(false, s)
  }

  /** atoi of the text of length n at the start of the buffer. */
  method Atoi(buf: array<char>, ghost n: nat) returns (r: int)
    requires n < buf.Length && buf[n] == '\0' && forall i :: 0 <= i < n ==> buf[i] != '\0'
    ensures r == Parsed(buf[..n])
  {
    var p, s := 0, false;
    r := 0;
    if buf[p] == '-' {
      s := true;
      p := p + 1;
    } else if buf[p] == '+' {
      p := p + 1;
    }
    ghost var first := p;
    while buf[p] != '\0'
      invariant first <= p <= n && r == Number(s, buf[first..p])
      decreases n - p
    {
      assert buf[first..p + 1][..p - first] == buf[first..p];
      var d := buf[p] as int - '0' as int;
      r := if s then r * 10 - d else r * 10 + d;
      p := p + 1;
    }
    assert buf[..n][first..] == buf[first..n];
  }

  // ---- writing

  lemma DigitValue(d: nat)
    requires d < 10
    ensures DigitChar(d) as int - '0' as int == d && '0' <= DigitChar(d) <= '9'
  {
  }

  function Signed(negative: bool, t: int): int {
    if negative then -t else t
  }

  lemma {:induction false} DigitsRead(negative: bool, t: nat)
    ensures Number(negative, Digits(t)) == Signed(negative, t)
  {
    if t != 0 {
      DigitsRead(negative, t / 10);
      DigitValue(t % 10);
      var ds := Digits(t);
      assert ds[..|ds| - 1] == Digits(t / 10) && ds[|ds| - 1] == DigitChar(t % 10);
      assert t == t / 10 * 10 + t % 10;
    }
  }

  lemma {:induction false} DigitsAreDigits(t: nat)
    ensures forall i :: 0 <= i < |Digits(t)| ==> '0' <= Digits(t)[i] <= '9'
    ensures t != 0 ==> Digits(t) != []
  {
    if t != 0 {
      DigitsAreDigits(t / 10);
      DigitValue(t % 10);
    }
  }

  lemma NoSign(s: seq<char>)
    requires s != [] && s[0] != '-' && s[0] != '+'
    ensures Parsed(s) == Number(false, s)
  {
  }

  /** Reading the text of a number gives the number. */
  lemma TextRoundTrip(x: int)
    ensures Parsed(Text(x)) == x && '\0' !in Text(x)
  {
    var ds := Digits(Abs(x));
    DigitsRead(x < 0, Abs(x));
    DigitsAreDigits(Abs(x));
    if x < 0 {
      assert Text(x) == ['-'] + ds && Text(x)[1..] == ds;
    } else if x == 0 {
      assert Text(x) == ['0'] && ['0'][..0] == [];
      NoSign(Text(x));
    } else {
      assert Text(x) == ds;
      NoSign(ds);
    }
  }

  function Pow10(k: nat): nat {
    if k == 0 then 1 else 10 * Pow10(k - 1)
  }

  /** The k-th digit of t from the right. */
  lemma {:induction false} DigitAt(t: nat, k: nat)
    requires k < |Digits(t)|
    ensures Pow10(k) > 0 && Digits(t)[|Digits(t)| - 1 - k] as int == 48 + t / Pow10(k) % 10
    ensures Digits(t)[0] != '0'
  {
    if k > 0 {
      DigitAt(t / 10, k - 1);
      DivTwice(t, Pow10(k - 1));
    } else if t >= 10 {
      DigitAt(t / 10, 0);
    }
  }

  lemma DivTwice(t: nat, p: nat)
    requires p > 0
    ensures t / 10 / p == t / (10 * p)
  {
    var q, r := t / 10 / p, t / 10 % p;
    assert t / 10 == q * p + r && t == 10 * (q * p + r) + t % 10;
    assert t == q * (10 * p) + (10 * r + t % 10);
    assert 0 <= 10 * r + t % 10 < 10 * p;
    Quotient(10 * p, q, 10 * r + t % 10);
  }

  lemma Quotient(size: nat, q: nat, r: nat)
    requires r < size
    ensures (q * size + r) / size == q
  {
    var d := (q * size + r) / size;
    Monotone(d + 1, q, size);
    Monotone(q + 1, d, size);
  }

  lemma Monotone(a: nat, b: nat, size: nat)
    ensures a <= b ==> a * size <= b * size
  {
  }

  /** The text of a number: a minus sign if it is negative, and its decimal digits without leading zeros. */
  lemma TextIsDecimal(x: int, k: nat)
    requires k < |Digits(Abs(x))|
    ensures var text, n := Text(x), |Digits(Abs(x))|;
            && |text| == n + (if x < 0 then 1 else 0) && (x < 0 ==> text[0] as int == 45)
            && text[|text| - n] != '0' && Pow10(k) > 0
            && text[|text| - 1 - k] as int == 48 + Abs(x) / Pow10(k) % 10
    ensures Pow10(|Digits(Abs(x))|) > Abs(x) && Text(0) == ['0']
  {
    DigitAt(Abs(x), k);
    DigitCount(Abs(x), |Digits(Abs(x))|);
  }

  /** t has k digits exactly when it lies below the k-th power of ten and not below the one before. */
  lemma {:induction false} DigitCount(t: nat, k: nat)
    ensures |Digits(t)| <= k <==> t < Pow10(k)
  {
    if k == 0 {
    } else if t == 0 {
      DigitCount(0, k - 1);
    } else {
      DigitCount(t / 10, k - 1);
    }
  }

  /** The first loop of itoa counts the digits; its power of ten stays within a 32-bit int. */
  method CountDigits(t: nat) returns (k: nat)
    requires t < LIMIT
    ensures k == |Digits(t)| && Pow10(k) <= LIMIT
  {
    var n := 1;
    k := 0;
    while t >= n
      invariant n == Pow10(k) <= LIMIT && (k > 0 ==> Pow10(k - 1) <= t)
      decreases LIMIT - n
    {
      assert Pow10(9) == LIMIT by {
        assert Pow10(3) == 1000 && Pow10(6) == 1_000_000;
      }
      if k >= 9 {
        PowMono(9, k);
      }
      PowMono(k + 1, 9);
      n := n * 10;
      k := k + 1;
    }
    DigitCount(t, k);
    if k > 0 {
      DigitCount(t, k - 1);
    }
  }

  lemma {:induction false} PowMono(j: nat, k: nat)
    ensures j <= k ==> Pow10(j) <= Pow10(k)
    ensures Pow10(j) > 0
    decreases j + k
  {
    if j > 0 && k > 0 {
      PowMono(j - 1, k - 1);
    } else if j > 0 {
      PowMono(j - 1, k);
    } else if k > 0 {
      PowMono(j, k - 1);
    }
  }

  /** The digits that itoa writes: its second loop makes at least one turn. */
  function Written(t: nat): (r: seq<char>)
    ensures r != []
  {
    if t == 0 then ['0'] else Digits(t)
  }

  /** The second loop of itoa writes the digits below end, from the last to the first; p is the place before
      them. */
  method WriteDigits(buf: array<char>, end: nat, number: nat) returns (p: int)
    requires |Written(number)| <= end <= buf.Length
    modifies buf
    ensures p == end - |Written(number)| - 1
    ensures forall i :: 0 <= i < buf.Length ==>
              buf[i] == if p < i < end then Written(number)[i - p - 1] else old(buf[i])
  {
    ghost var ds, start := Written(number), end - |Written(number)|;
    var t := number;
    p := end - 1;
    DigitsEnd(t, ds);
    buf[p], p, t := DigitChar(t % 10), p - 1, t / 10;
    while t != 0
      invariant start - 1 <= p < end - 1 && |Digits(t)| == p + 1 - start && ds[..p + 1 - start] == Digits(t)
      invariant forall i :: 0 <= i < buf.Length ==> buf[i] == if p < i < end then ds[i - start] else old(buf[i])
      decreases t
    {
      DigitsEnd(t, ds[..p + 1 - start]);
      assert ds[..p + 1 - start][..p - start] == ds[..p - start];
      buf[p], p, t := DigitChar(t % 10), p - 1, t / 10;
    }
  }

  lemma DigitsEnd(t: nat, ds: seq<char>)
    requires ds == Written(t)
    ensures ds[|ds| - 1] == DigitChar(t % 10) && ds[..|ds| - 1] == Digits(t / 10) && |Digits(t / 10)| == |ds| - 1
  {
  }

  /** The place where itoa starts to write, counted from the start of its buffer. */
  function Offset(x: int): int {
    if x == 0 then -1 else 0
  }

  /** itoa of a number for the buffer that starts at place base of the memory buf: the end of the text is
      found first, then its characters are written from the end to the start. What is written is the text
      and the 0 behind it, from the start of the buffer on, but from one place before it if x is 0; nothing
      else is written. */
  method Itoa(buf: array<char>, base: nat, x: int)
    requires Abs(x) < LIMIT && base + |Text(x)| < buf.Length && 0 <= base + Offset(x)
    modifies buf
    ensures forall i :: 0 <= i < buf.Length ==>
              var j := i - (base + Offset(x));
              buf[i] == if 0 <= j < |Text(x)| then Text(x)[j] else if j == |Text(x)| then '\0' else old(buf[i])
  {
    var p := base;
    var t := Abs(x);
    if x < 0 {
      p := p + 1;
    }
    var k := CountDigits(t);
    p := p + k;
    buf[p] := '\0';
    p := WriteDigits(buf, p, t);
    if x < 0 {
      buf[p] := '-';
      p := p - 1;
    }
  }

  /** The case that ss catches: itoa of 0 writes its digit before the buffer, and only then is anything
      written there. */
  method ItoaBeforeBuffer(buf: array<char>, base: nat, x: int)
    requires Abs(x) < LIMIT && base + |Text(x)| < buf.Length && 0 <= base + Offset(x)
    modifies buf
    ensures forall i :: 0 <= i < base ==> buf[i] == if x == 0 && i == base - 1 then '0' else old(buf[i])
    ensures base > 0 && old(buf[base - 1]) != '0' ==> (buf[base - 1] != old(buf[base - 1]) <==> x == 0)
    ensures x == 0 ==> buf[base] == '\0'
  {
    Itoa(buf, base, x);
  }

  /** ss: itoa with 0 as a special case. */
  method Ss(buf: array<char>, x: int) returns (s: seq<char>)
    requires Abs(x) < LIMIT && |Text(x)| < buf.Length
    modifies buf
    ensures s == Text(x) && Parsed(s) == x
  {
    TextRoundTrip(x);
    buf[0] := '\0';
    if x == 0 {
      s := ['0'];
    } else {
      Itoa(buf, 0, x);
      s := buf[..|Text(x)|];
    }
  }

  /** What itoa writes atoi reads back. */
  method ItoaThenAtoi(buf: array<char>, x: int) returns (r: int)
    requires 0 < Abs(x) < LIMIT && |Text(x)| < buf.Length
    modifies buf
    ensures r == x
  {
    Itoa(buf, 0, x);
    TextRoundTrip(x);
    ghost var n := |Text(x)|;
    assert buf[..n] == Text(x) && buf[n] == '\0';
    r := Atoi(buf, n);
  }
}
