/** Bytes, fixed-width integers, error values and the hexadecimal renderings
    that the GDB Remote Serial Protocol uses on the wire. */
module Wire {

  /** A byte of the connection.  Payloads are handled as text whose characters
      are single bytes, so a byte is a character below 256. */
  type Byte = c: char | c as int < 256
  type Bytes = seq<Byte>

  type u8 = x: int | 0 <= x < 0x100
  type u32 = x: int | 0 <= x < 0x1_0000_0000
  type u64 = x: int | 0 <= x < 0x1_0000_0000_0000_0000
  type i32 = x: int | -0x8000_0000 <= x < 0x8000_0000

  datatype Option<T> = None | Some(value: T)

  /** The error kinds of the server.  `Panic` stands for a Rust panic (an index
      out of bounds or an arithmetic overflow), which ends the session like an
      error does. */
  datatype GdbServerError = ConnectionClosed | ParseIntError | CpuError | BridgeError | Panic

  datatype Result<T> = Ok(value: T) | Err(error: GdbServerError)

  /** Size of the receive buffer, and the largest payload the send buffer holds. */
  const MaxPayload: nat := 16384

  function Min(a: nat, b: nat): nat
  {
    if a <= b then a else b
  }

  predicate IsHexDigit(c: char) {
    ('0' <= c <= '9') || ('a' <= c <= 'f') || ('A' <= c <= 'F')
  }

  /** Value of a hexadecimal digit of either case; any other character counts
      as 0, as the monitor-command decoder does. */
  function Nybble(c: char): (n: nat)
    ensures n < 16
    ensures !IsHexDigit(c) ==> n == 0
  {
    if '0' <= c <= '9' then c as int - '0' as int
    else if 'a' <= c <= 'f' then c as int - 'a' as int + 10
    else if 'A' <= c <= 'F' then c as int - 'A' as int + 10
    else 0
  }

  /** The lower-case digit for a value below 16. */
  function HexDigit(n: nat): (c: Byte)
    requires n < 16
    ensures IsHexDigit(c) && Nybble(c) == n
    ensures !('A' <= c <= 'Z')
  {
    "0123456789abcdef"[n]
  }

  /** `format!("{:02x}", b)`: two lower-case digits. */
  function Hex2(b: nat): (r: Bytes)
    requires b < 0x100
    ensures |r| == 2 && IsHexDigit(r[0]) && IsHexDigit(r[1])
    ensures 16 * Nybble(r[0]) + Nybble(r[1]) == b
    ensures !('A' <= r[0] <= 'Z') && !('A' <= r[1] <= 'Z')
  {
    [HexDigit(b / 16), HexDigit(b % 16)]
  }

  predicate AllHex(s: seq<char>) {
    forall i :: 0 <= i < |s| ==> IsHexDigit(s[i])
  }

  lemma AllHexAppend(a: seq<char>, b: seq<char>)
    requires AllHex(a) && AllHex(b)
    ensures AllHex(a + b)
  {
    forall i | 0 <= i < |a + b|
      ensures IsHexDigit((a + b)[i])
    {
      if i < |a| {
        assert (a + b)[i] == a[i];
      } else {
        assert (a + b)[i] == b[i - |a|];
      }
    }
  }

  /** The number a string of hexadecimal digits denotes, most significant first. */
  function HexValue(s: seq<char>): nat
  {
    if |s| == 0 then 0 else 16 * HexValue(s[..|s| - 1]) + Nybble(s[|s| - 1])
  }

  /** `format!("{:x}", n)`: the shortest lower-case rendering of `n`. */
  function HexOf(n: nat): (r: Bytes)
    ensures |r| >= 1 && AllHex(r)
    decreases n
  {
    if n < 16 then [HexDigit(n)] else HexOf(n / 16) + [HexDigit(n % 16)]
  }

  lemma {:induction false} HexOfValue(n: nat)
    ensures HexValue(HexOf(n)) == n
    decreases n
  {
    if n >= 16 {
      HexOfValue(n / 16);
      var r := HexOf(n);
      assert r[..|r| - 1] == HexOf(n / 16);
    }
  }

  /** Byte `i` of a word, counted from the least significant one. */
  function ByteOf(w: u32, i: nat): (b: u8)
    requires i < 4
  {
    if i == 0 then w % 0x100 else ByteOf(w / 0x100, i - 1)
  }

  /** The word whose bytes, most significant first, are `b3 b2 b1 b0`. */
  function FromBytes(b3: u8, b2: u8, b1: u8, b0: u8): u32
  {
    ((b3 * 0x100 + b2) * 0x100 + b1) * 0x100 + b0
  }

  lemma DivModUnique(x: nat, q: nat, r: nat)
    requires r < 0x100 && x == q * 0x100 + r
    ensures x / 0x100 == q && x % 0x100 == r
  {
  }

  /** Reading the bytes of a word built from bytes gives those bytes back. */
  lemma BytesOfFromBytes(b3: u8, b2: u8, b1: u8, b0: u8)
    ensures var w := FromBytes(b3, b2, b1, b0);
      ByteOf(w, 0) == b0 && ByteOf(w, 1) == b1 && ByteOf(w, 2) == b2 && ByteOf(w, 3) == b3
  {
    var w := FromBytes(b3, b2, b1, b0);
    DivModUnique(w, (b3 * 0x100 + b2) * 0x100 + b1, b0);
    DivModUnique((b3 * 0x100 + b2) * 0x100 + b1, b3 * 0x100 + b2, b1);
    DivModUnique(b3 * 0x100 + b2, b3, b2);
    DivModUnique(b3, 0, b3);
    var w1, w2 := w / 0x100, w / 0x100 / 0x100;
    assert ByteOf(w, 2) == ByteOf(w1, 1) == ByteOf(w2, 0);
    assert ByteOf(w, 3) == ByteOf(w1, 2) == ByteOf(w2, 1) == ByteOf(w2 / 0x100, 0);
  }

  /** A word is determined by its four bytes. */
  lemma FromBytesOf(w: u32)
    ensures w == FromBytes(ByteOf(w, 3), ByteOf(w, 2), ByteOf(w, 1), ByteOf(w, 0))
  {
    var w1 := w / 0x100;
    var w2 := w1 / 0x100;
    var w3 := w2 / 0x100;
    assert w == w1 * 0x100 + w % 0x100;
    assert w1 == w2 * 0x100 + w1 % 0x100;
    assert w2 == w3 * 0x100 + w2 % 0x100;
    assert w3 < 0x100 by {
      assert w1 < 0x100_0000;
      assert w2 < 0x1_0000;
    }
    assert ByteOf(w, 1) == w1 % 0x100;
    assert ByteOf(w, 2) == ByteOf(w1, 1) == w2 % 0x100;
    assert ByteOf(w, 3) == ByteOf(w1, 2) == ByteOf(w2, 1) == w3 % 0x100 == w3;
  }

  /** `format!("{:08x}", w)`: exactly eight lower-case digits. */
  function Hex8(w: u32): (r: Bytes)
    ensures |r| == 8
  {
    Hex2(ByteOf(w, 3)) + Hex2(ByteOf(w, 2)) + Hex2(ByteOf(w, 1)) + Hex2(ByteOf(w, 0))
  }

  lemma HexValueAppend2(s: seq<char>, b: u8)
    ensures HexValue(s + Hex2(b)) == 0x100 * HexValue(s) + b
  {
    var h := Hex2(b);
    var t := s + h;
    assert t[..|t| - 1] == s + [h[0]];
    assert (s + [h[0]])[..|s|] == s;
  }

  /** The eight digits denote the word. */
  lemma Hex8Value(w: u32)
    ensures |Hex8(w)| == 8 && AllHex(Hex8(w))
    ensures HexValue(Hex8(w)) == w
  {
    var b3, b2, b1, b0 := ByteOf(w, 3), ByteOf(w, 2), ByteOf(w, 1), ByteOf(w, 0);
    HexValueAppend2([], b3);
    assert [] + Hex2(b3) == Hex2(b3);
    HexValueAppend2(Hex2(b3), b2);
    HexValueAppend2(Hex2(b3) + Hex2(b2), b1);
    HexValueAppend2(Hex2(b3) + Hex2(b2) + Hex2(b1), b0);
    FromBytesOf(w);
  }

  /** A word with its four bytes in the reverse order: what reading a
      big-endian buffer back in little-endian order yields. */
  function ByteSwap(w: u32): (r: u32)
  {
    FromBytes(ByteOf(w, 0), ByteOf(w, 1), ByteOf(w, 2), ByteOf(w, 3))
  }

  /** The digits of a byte-swapped word list the bytes of the word starting
      with the least significant one. */
  lemma Hex8ByteSwap(w: u32)
    ensures Hex8(ByteSwap(w)) == Hex2(ByteOf(w, 0)) + Hex2(ByteOf(w, 1)) + Hex2(ByteOf(w, 2)) + Hex2(ByteOf(w, 3))
  {
    BytesOfFromBytes(ByteOf(w, 0), ByteOf(w, 1), ByteOf(w, 2), ByteOf(w, 3));
  }

  /** Plain sum of the byte values. */
  function Sum(p: Bytes): nat
  {
    if |p| == 0 then 0 else p[0] as int + Sum(p[1..])
  }

  /** The running checksum of a packet: a `u8` to which each byte is added
      with wrap-around, in order. */
  function Checksum(p: Bytes): (c: u8)
  {
    if |p| == 0 then 0 else (Checksum(p[..|p| - 1]) + p[|p| - 1] as int) % 0x100
  }

  /** One more byte adds its value to the checksum, wrapping at 256. */
  lemma ChecksumSnoc(p: Bytes, b: Byte)
    ensures Checksum(p + [b]) == (Checksum(p) + b as int) % 0x100
  {
    assert (p + [b])[..|p|] == p;
  }

  lemma {:induction false} SumAppend(p: Bytes, b: Byte)
    ensures Sum(p + [b]) == Sum(p) + b as int
  {
    if |p| > 0 {
      assert (p + [b])[1..] == p[1..] + [b];
      SumAppend(p[1..], b);
    }
  }

  lemma ModAddByte(x: nat, b: nat)
    ensures (x % 0x100 + b) % 0x100 == (x + b) % 0x100
  {
    var q := x / 0x100;
    assert x == 0x100 * q + x % 0x100;
    assert x + b == 0x100 * q + (x % 0x100 + b);
  }

  /** The wrapping checksum is the byte sum modulo 256. */
  lemma {:induction false} ChecksumIsSumMod256(p: Bytes)
    ensures Checksum(p) == Sum(p) % 0x100
  {
    if |p| > 0 {
      var q, b := p[..|p| - 1], p[|p| - 1];
      assert p == q + [b];
      ChecksumIsSumMod256(q);
      SumAppend(q, b);
      ModAddByte(Sum(q), b as int);
    }
  }

  /** Lower-case hexadecimal rendering of bytes, two digits each, as a client
      sends the text of a monitor command. */
  function HexEncode(s: Bytes): (r: Bytes)
    ensures |r| == 2 * |s| && AllHex(r)
  {
    if |s| == 0 then [] else Hex2(s[0] as int) + HexEncode(s[1..])
  }
}
