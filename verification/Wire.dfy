/** The disk as a device at the other end of a serial line: the requests that the kernel sends
    (PL011.c, disk.c) and the server that answers them (disk.py). */
module Wire {
  import opened Words
  import opened Storage

  const DISK_RETRY := 3
  /** From here on the server takes an address for a negative number, which stops it. So does a write
      request without data. */
  const ADDRESS_LIMIT := 0x8000_0000

  // ---- hexadecimal digits

  /** itox for a digit. */
  function ItoX(d: nat): char
    requires d < 16
  {
    if d <= 9 then '0' + d as char else 'A' + (d - 10) as char
  }

  /** xtoi */
  function XtoI(c: char): int {
    if '0' <= c <= '9' then c as int - '0' as int
    else if 'a' <= c <= 'f' then 10 + c as int - 'a' as int
    else if 'A' <= c <= 'F' then 10 + c as int - 'A' as int
    else -1
  }

  /** The two characters that PL011_puth sends. */
  function Puth(b: byte): (s: seq<char>)
    ensures |s| == 2
  {
    [ItoX(b / 16), ItoX(b % 16)]
  }

  /** The byte that PL011_geth makes of two characters. A character that is no digit is -1 and sets every
      bit that it reaches. */
  function Geth(high: char, low: char): byte {
    if XtoI(low) < 0 then 255
    else if XtoI(high) < 0 then 240 + XtoI(low)
    else 16 * XtoI(high) + XtoI(low)
  }

  /** The two digits that the server sends for a byte: they are in lower case. */
  function Hexlify(b: byte): (s: seq<char>)
    ensures |s| == 2
  {
    [LowerDigit(b / 16), LowerDigit(b % 16)]
  }

  function LowerDigit(d: nat): char
    requires d < 16
  {
    if d <= 9 then '0' + d as char else 'a' + (d - 10) as char
  }

  lemma DigitRoundTrip(d: nat)
    requires d < 16
    ensures XtoI(ItoX(d)) == d && XtoI(LowerDigit(d)) == d && ItoX(d) != ' ' && ItoX(d) != '\n'
  {
  }

  /** What one side sends for a byte the other side reads as that byte. */
  lemma ByteRoundTrip(b: byte)
    ensures Geth(Puth(b)[0], Puth(b)[1]) == b && Geth(Hexlify(b)[0], Hexlify(b)[1]) == b
    ensures Unhex(Puth(b)[0], Puth(b)[1]) == b
  {
  }

  // ---- the server

  /** unhexlify of two digits. */
  function Unhex(high: char, low: char): byte {
    if XtoI(high) < 0 || XtoI(low) < 0 then 0 else 16 * XtoI(high) + XtoI(low)
  }

  function UnhexAll(s: seq<char>): (r: seq<byte>)
    ensures |r| == |s| / 2
  {
    if |s| < 2 then [] else [Unhex(s[0], s[1])] + UnhexAll(s[2..])
  }

  function HexAll(x: seq<byte>): (s: seq<char>)
    ensures |s| == 2 * |x|
  {
    if x == [] then [] else Hexlify(x[0]) + HexAll(x[1..])
  }

  function FirstSpace(s: seq<char>): (i: nat)
    ensures i <= |s| && (i < |s| ==> s[i] == ' ') && ' ' !in s[..i]
  {
    if s == [] || s[0] == ' ' then 0 else 1 + FirstSpace(s[1..])
  }

  /** The fields of a request line. */
  function Fields(s: seq<char>): (r: seq<seq<char>>)
    ensures r != []
    decreases |s|
  {
    var i := FirstSpace(s);
    if i == |s| then [s] else [s[..i]] + Fields(s[i + 1..])
  }

  /** The disk and the reply after a request. A line that is no well-formed request stops the server; the
      kernel sends none. */
  function Serve(disk: seq<Block>, len: nat, line: seq<char>): (seq<Block>, seq<char>) {
    var req := Fields(line);
    if req[0] == "01" && |req| == 3 && |req[1]| == 8 then
      var a, data := BytesWord(UnhexAll(req[1])), UnhexAll(req[2]);
      if a < |disk| && |data| == len then (disk[a := data], "00") else (disk, "01")
    else if req[0] == "02" && |req| == 2 && |req[1]| == 8 then
      var a := BytesWord(UnhexAll(req[1]));
      if a < |disk| then (disk, "00 " + HexAll(disk[a])) else (disk, "01")
    else (disk, "01")
  }

  // ---- what the kernel sends

  function PuthAll(x: seq<byte>): (s: seq<char>)
    ensures |s| == 2 * |x|
  {
    if x == [] then [] else PuthAll(x[..|x| - 1]) + Puth(x[|x| - 1])
  }

  function WriteRequest(a: word, x: seq<byte>): seq<char> {
    "01" + [' '] + PuthAll(WordBytes(a)) + [' '] + PuthAll(x)
  }

  function ReadRequest(a: word): seq<char> {
    "02" + [' '] + PuthAll(WordBytes(a))
  }

  /** The kernel sends the high digit of a byte first, and the digits above 9 in upper case. */
  lemma DigitsSent(b: byte)
    ensures var digits := "0123456789ABCDEF"; Puth(b) == [digits[b / 16], digits[b % 16]]
  {
  }

  /** A request is a number, the address with its low byte first, and for a write the bytes in order. */
  lemma RequestText(a: word, x: seq<byte>)
    ensures ReadRequest(a) == "02" + [' '] + AddressText(a)
    ensures WriteRequest(a, x) == "01" + [' '] + AddressText(a) + [' '] + PuthAll(x)
    ensures forall i :: 0 <= i < |x| ==> PuthAll(x)[2 * i..2 * i + 2] == Puth(x[i])
  {
    AddressSent(WordBytes(a));
    forall i | 0 <= i < |x|
      ensures PuthAll(x)[2 * i..2 * i + 2] == Puth(x[i])
    {
      SentByte(x, i);
    }
  }

  function AddressText(a: word): seq<char> {
    Puth(a % 256) + Puth(a / 256 % 256) + Puth(a / 65536 % 256) + Puth(a / 16777216)
  }

  lemma AddressSent(b: seq<byte>)
    requires |b| == 4
    ensures PuthAll(b) == Puth(b[0]) + Puth(b[1]) + Puth(b[2]) + Puth(b[3])
  {
    PuthAllSnoc(b[..3], b[3]);
    PuthAllSnoc(b[..2], b[2]);
    PuthAllSnoc(b[..1], b[1]);
    PuthAllSnoc([], b[0]);
    assert b == b[..3] + [b[3]] && b[..3] == b[..2] + [b[2]] && b[..2] == b[..1] + [b[1]] && b[..1] == [] + [b[0]];
  }

  lemma PuthAllSnoc(x: seq<byte>, b: byte)
    ensures PuthAll(x + [b]) == PuthAll(x) + Puth(b)
  {
    assert (x + [b])[..|x|] == x;
  }

  lemma {:induction false} SentByte(x: seq<byte>, i: nat)
    requires i < |x|
    ensures PuthAll(x)[2 * i..2 * i + 2] == Puth(x[i])
  {
    if i + 1 < |x| {
      SentByte(x[..|x| - 1], i);
    }
  }

  lemma {:induction false} UnhexAppend(s: seq<char>, t: seq<char>)
    requires |s| % 2 == 0
    ensures UnhexAll(s + t) == UnhexAll(s) + UnhexAll(t)
  {
    if s == [] {
      assert s + t == t;
    } else {
      assert (s + t)[2..] == s[2..] + t;
      UnhexAppend(s[2..], t);
    }
  }

  lemma {:induction false} PuthAllRoundTrip(x: seq<byte>)
    ensures UnhexAll(PuthAll(x)) == x
    ensures forall i :: 0 <= i < |PuthAll(x)| ==> PuthAll(x)[i] != ' ' && PuthAll(x)[i] != '\n'
  {
    if x != [] {
      var last := |x| - 1;
      PuthAllRoundTrip(x[..last]);
      ByteRoundTrip(x[last]);
      DigitRoundTrip(x[last] / 16);
      DigitRoundTrip(x[last] % 16);
      UnhexAppend(PuthAll(x[..last]), Puth(x[last]));
      assert Puth(x[last])[2..] == [];
      assert UnhexAll(Puth(x[last])) == [x[last]];
    }
  }

  lemma {:induction false} SpaceAt(s: seq<char>, t: seq<char>)
    requires ' ' !in s
    ensures FirstSpace(s + [' '] + t) == |s| && FirstSpace(s) == |s|
  {
    if s != [] {
      assert (s + [' '] + t)[1..] == s[1..] + [' '] + t;
      SpaceAt(s[1..], t);
    }
  }

  lemma FieldsCons(s: seq<char>, t: seq<char>)
    requires ' ' !in s
    ensures Fields(s + [' '] + t) == [s] + Fields(t) && Fields(s) == [s]
  {
    SpaceAt(s, t);
    var all := s + [' '] + t;
    assert all[..|s|] == s && all[|s| + 1..] == t;
  }

  lemma ThreeFields(s: seq<char>, t: seq<char>, u: seq<char>)
    requires ' ' !in s && ' ' !in t && ' ' !in u
    ensures Fields(s + [' '] + t + [' '] + u) == [s, t, u]
  {
    var rest := t + [' '] + u;
    assert s + [' '] + t + [' '] + u == s + [' '] + rest;
    assert Fields(rest) == [t, u] by {
      FieldsCons(u, []);
      FieldsCons(t, u);
    }
    FieldsCons(s, rest);
  }

  lemma WriteFields(a: word, x: seq<byte>)
    ensures Fields(WriteRequest(a, x)) == ["01", PuthAll(WordBytes(a)), PuthAll(x)]
  {
    PuthAllRoundTrip(WordBytes(a));
    PuthAllRoundTrip(x);
    ThreeFields("01", PuthAll(WordBytes(a)), PuthAll(x));
  }

  /** The server does with a write request what disk_wr is meant to do. */
  lemma ServesWrite(disk: seq<Block>, len: nat, a: word, x: seq<byte>)
    requires a < ADDRESS_LIMIT && x != []
    ensures Serve(disk, len, WriteRequest(a, x)) ==
            if a < |disk| && |x| == len then (disk[a := x], "00") else (disk, "01")
  {
    WriteFields(a, x);
    PuthAllRoundTrip(WordBytes(a));
    PuthAllRoundTrip(x);
    WordRoundTrip(a);
  }

  lemma ServesRead(disk: seq<Block>, len: nat, a: word)
    requires a < ADDRESS_LIMIT
    ensures Serve(disk, len, ReadRequest(a)) == if a < |disk| then (disk, "00 " + HexAll(disk[a])) else (disk, "01")
  {
    var addr := PuthAll(WordBytes(a));
    PuthAllRoundTrip(WordBytes(a));
    WordRoundTrip(a);
    FieldsCons(addr, []);
    FieldsCons("02", addr);
    assert Fields(ReadRequest(a)) == ["02", addr];
  }

  // ---- both ends of the line

  /** The UART and the server behind it: what has been sent of a line, what has come back and has not been
      read, and the disk. */
  class SerialDisk {
    var line: seq<char>
    var input: seq<char>
    var disk: seq<Block>
    const len: nat

    /** A server for a disk with the given blocks. */
    constructor (disk: seq<Block>, len: nat)
      ensures line == [] && input == [] && this.disk == disk && this.len == len
    {
      this.line, this.input, this.disk, this.len := [], [], disk, len;
    }

    /** PL011_putc; the end of a line makes the server answer. */
    method PutC(c: char)
      modifies this
      ensures c != '\n' ==> line == old(line) + [c] && input == old(input) && disk == old(disk)
      ensures c == '\n' ==> var (disk', reply) := Serve(old(disk), len, old(line));
                            line == [] && disk == disk' && input == old(input) + reply + ['\n']
    {
      if c == '\n' {
        var (disk', reply) := Serve(disk, len, line);
        disk, input, line := disk', input + reply + ['\n'], [];
      } else {
        line := line + [c];
      }
    }

    /** PL011_getc */
    method GetC() returns (c: char)
      requires input != []
      modifies this`input
      ensures [c] + input == old(input)
    {
      c := input[0];
      input := input[1..];
    }

    method PutH(b: byte)
      modifies this
      ensures line == old(line) + Puth(b) && input == old(input) && disk == old(disk)
    {
      DigitRoundTrip(b / 16);
      DigitRoundTrip(b % 16);
      PutC(ItoX(b / 16));
      PutC(ItoX(b % 16));
    }

    method GetH() returns (b: byte)
      requires |input| >= 2
      modifies this`input
      ensures b == Geth(old(input)[0], old(input)[1]) && input == old(input)[2..]
    {
      var high := GetC();
      var low := GetC();
      b := Geth(high, low);
    }

    /** data_puth; addr_puth is the same for the four bytes of an address. */
    method DataPutH(x: seq<byte>)
      modifies this
      ensures line == old(line) + PuthAll(x) && input == old(input) && disk == old(disk)
    {
      var i := 0;
      while i < |x|
        invariant 0 <= i <= |x| && line == old(line) + PuthAll(x[..i]) && input == old(input) && disk == old(disk)
      {
        assert x[..i + 1][..i] == x[..i];
        PutH(x[i]);
        i := i + 1;
      }
      assert x[..|x|] == x;
    }

    /** data_geth */
    method DataGetH(ghost x: seq<byte>, n: nat, ghost rest: seq<char>) returns (data: seq<byte>)
      requires n == |x| && input == HexAll(x) + rest
      modifies this`input
      ensures data == x && input == rest
    {
      data := [];
      var i := 0;
      while i < n
        invariant 0 <= i <= n && data == x[..i] && input == HexAll(x[i..]) + rest
      {
        ByteRoundTrip(x[i]);
        assert x[i..][1..] == x[i + 1..];
        var b := GetH();
        data := data + [b];
        i := i + 1;
      }
    }

    /** disk_wr. A block is on the disk, or the address or the length was wrong and nothing has changed;
        and the line is ready for the next request. */
    method DiskWr(a: word, x: seq<byte>) returns (status: int)
      requires line == [] && input == [] && a < ADDRESS_LIMIT && x != []
      modifies this
      ensures line == [] && input == []
      ensures if a < |old(disk)| && |x| == len then status == DISK_SUCCESS && disk == old(disk)[a := x]
              else status == DISK_FAILURE && disk == old(disk)
    {
      var i := 0;
      while i < DISK_RETRY
        invariant line == [] && input == [] && disk == old(disk)
        invariant i > 0 ==> !(a < |disk| && |x| == len)
      {
        SendWrite(a, x);
        ServesWrite(disk, len, a, x);
        PutC('\n');
        var ack := GetH();
        var eol := GetC();
        if ack == 0 {
          return DISK_SUCCESS;
        }
        i := i + 1;
      }
      status := DISK_FAILURE;
    }

    method SendWrite(a: word, x: seq<byte>)
      requires line == []
      modifies this
      ensures line == WriteRequest(a, x) && input == old(input) && disk == old(disk)
    {
      PutH(1);
      PutC(' ');
      DataPutH(WordBytes(a));
      PutC(' ');
      DataPutH(x);
    }

    method SendRead(a: word)
      requires line == []
      modifies this
      ensures line == ReadRequest(a) && input == old(input) && disk == old(disk)
    {
      PutH(2);
      PutC(' ');
      DataPutH(WordBytes(a));
    }

    /** One attempt of disk_rd: the request, and the answer up to its first separator. */
    method AskBlock(a: word) returns (ack: byte)
      requires line == [] && input == [] && a < ADDRESS_LIMIT
      modifies this
      ensures line == [] && disk == old(disk) && (ack == 0 <==> a < |disk|)
      ensures input == if a < |disk| then HexAll(disk[a]) + ['\n'] else []
    {
      ServesRead(disk, len, a);
      SendRead(a);
      PutC('\n');
      ghost var reply := input;
      ack := GetH();
      var separator := GetC();
      if a < |disk| {
        assert reply[2..][1..] == HexAll(disk[a]) + ['\n'];
      }
    }

    /** disk_rd of a whole block. */
    method DiskRd(a: word, n: nat) returns (status: int, data: seq<byte>)
      requires line == [] && input == [] && a < ADDRESS_LIMIT
      requires n == len && forall b :: 0 <= b < |disk| ==> |disk[b]| == len
      modifies this
      ensures line == [] && input == [] && disk == old(disk)
      ensures if a < |disk| then status == DISK_SUCCESS && data == disk[a] else status == DISK_FAILURE
    {
      data := [];
      var i := 0;
      while i < DISK_RETRY
        invariant line == [] && input == [] && disk == old(disk) && (i > 0 ==> a >= |disk|)
      {
        var ack := AskBlock(a);
        if ack == 0 {
          data := DataGetH(disk[a], n, ['\n']);
          var eol := GetC();
          return DISK_SUCCESS, data;
        }
        i := i + 1;
      }
      status := DISK_FAILURE;
    }
  }
}
