/**
 * The framing a backup stream is made of: `DataOutputStream.writeUTF` /
 * `DataInputStream.readUTF` (a two-byte big-endian length followed by the
 * string in modified UTF-8), `writeLong` / `readLong` (eight bytes,
 * big-endian, two's complement), and the checksum's rendering as 64
 * lower-case hex digits.
 */
module BackupFormat {
  import opened Wrappers
  import opened JavaLang
  import opened Streams

  /* ---------------------------------------------------------------- */
  /* Modified UTF-8                                                    */
  /* ---------------------------------------------------------------- */

  /** Three-byte modified UTF-8 of a UTF-16 unit at or above 0x800. */
  function ThreeBytes(u: int): (r: seq<Byte>)
    requires 0x800 <= u < 0x1_0000
    ensures |r| == 3
  {
    [ToByte(0xE0 + u / 4096), ToByte(0x80 + (u / 64) % 64), ToByte(0x80 + u % 64)]
  }

  /**
   * The modified UTF-8 of one character: 1..0x7F as one byte, NUL and up to
   * 0x7FF as two, the rest of the basic plane as three, and a supplementary
   * character as its two UTF-16 surrogates of three bytes each.
   */
  function ModifiedUtf8Char(c: char): (r: seq<Byte>)
    ensures 1 <= |r| <= 6
    ensures |r| == 1 <==> 1 <= c as int < 0x80
    ensures 1 <= c as int < 0x80 ==> r == [c as int]
  {
    var x := c as int;
    if 1 <= x < 0x80 then [ToByte(x)]
    else if x < 0x800 then [ToByte(0xC0 + x / 64), ToByte(0x80 + x % 64)]
    else if x < 0x1_0000 then ThreeBytes(x)
    else ThreeBytes(0xD800 + (x - 0x1_0000) / 1024) + ThreeBytes(0xDC00 + (x - 0x1_0000) % 1024)
  }

  /** The modified UTF-8 of a string. */
  function ModifiedUtf8(s: string): (r: seq<Byte>)
    ensures |s| <= |r| <= 6 * |s|
  {
    if s == [] then [] else ModifiedUtf8Char(s[0]) + ModifiedUtf8(s[1..])
  }

  /** A string every character of which is 1..0x7F: one byte per character. */
  predicate IsAsciiText(s: string)
  {
    forall i :: 0 <= i < |s| ==> 1 <= s[i] as int < 0x80
  }

  lemma {:induction false} AsciiEncoding(s: string)
    requires IsAsciiText(s)
    ensures ModifiedUtf8(s) == seq(|s|, i requires 0 <= i < |s| => s[i] as int)
  {
    if s != [] {
      assert IsAsciiText(s[1..]) by {
        forall i | 0 <= i < |s[1..]| ensures 1 <= s[1..][i] as int < 0x80 {
          assert s[1..][i] == s[i + 1];
        }
      }
      AsciiEncoding(s[1..]);
    }
  }

  /** The longest encoding `writeUTF` accepts. */
  const MaxUtfLength: int := 65535

  /** Two bytes, big-endian. */
  function U16(n: int): (r: seq<Byte>)
    requires 0 <= n <= MaxUtfLength
    ensures |r| == 2 && Unsigned(r[0]) * 256 + Unsigned(r[1]) == n
  {
    [ToByte(n / 256), ToByte(n % 256)]
  }

  /** The bytes `writeUTF` emits for a string whose encoding fits: its length, then the encoding. */
  function Frame(s: string): (r: seq<Byte>)
    requires |ModifiedUtf8(s)| <= MaxUtfLength
    ensures |r| == 2 + |ModifiedUtf8(s)| && r[2..] == ModifiedUtf8(s)
  {
    U16(|ModifiedUtf8(s)|) + ModifiedUtf8(s)
  }

  /**
   * `writeUTF(s)`: the frame; an encoding longer than 65535 bytes fails
   * before anything is written.
   */
  function WriteUTF(s: string): (r: Result<seq<Byte>, Exc>)
    ensures r.Failure? <==> |ModifiedUtf8(s)| > MaxUtfLength
    ensures r.Failure? ==> r.error == UTFDataFormat
  {
    if |ModifiedUtf8(s)| > MaxUtfLength then Failure(UTFDataFormat) else Success(Frame(s))
  }

  function Prepend(c: char, r: Result<string, Exc>): Result<string, Exc>
  {
    if r.Failure? then r else Success([c] + r.value)
  }

  /** Is `u` (an unsigned byte) a continuation byte `10xxxxxx`? */
  predicate IsContinuation(u: int)
  {
    u / 64 == 2
  }

  /** Do the first three bytes form a `1110xxxx 10xxxxxx 10xxxxxx` sequence? */
  predicate IsThreeByte(b: seq<Byte>)
    requires |b| >= 3
  {
    Unsigned(b[0]) / 16 == 14 && IsContinuation(Unsigned(b[1])) && IsContinuation(Unsigned(b[2]))
  }

  /** The UTF-16 unit the payload bits of three bytes spell. */
  function ThreeValue(b: seq<Byte>): (u: int)
    requires |b| >= 3
    ensures 0 <= u < 0x1_0000
  {
    (Unsigned(b[0]) % 16) * 4096 + (Unsigned(b[1]) % 64) * 64 + Unsigned(b[2]) % 64
  }

  /** The character a high and a low surrogate stand for together. */
  function Combine(hi: int, lo: int): char
    requires 0xD800 <= hi < 0xDC00 && 0xDC00 <= lo < 0xE000
  {
    (0x1_0000 + (hi - 0xD800) * 1024 + (lo - 0xDC00)) as char
  }

  /**
   * The decoding half of `readUTF`: bytes 0x00..0x7F stand for themselves,
   * `110xxxxx 10xxxxxx` and `1110xxxx 10xxxxxx 10xxxxxx` for the UTF-16 unit
   * their payload bits spell, a high surrogate followed by a low one for the
   * supplementary character of the pair, and anything else (a stray
   * continuation byte, a `1111xxxx` byte, a sequence cut short, a surrogate
   * outside a pair) is malformed.
   */
  function DecodeModifiedUtf8(b: seq<Byte>): (r: Result<string, Exc>)
    ensures r.Failure? ==> r.error == UTFDataFormat
    decreases |b|
  {
    if b == [] then Success([])
    else
      var c := Unsigned(b[0]);
      if c / 16 <= 7 then Prepend(c as char, DecodeModifiedUtf8(b[1..]))
      else if c / 16 == 12 || c / 16 == 13 then
        if |b| < 2 || !IsContinuation(Unsigned(b[1])) then Failure(UTFDataFormat)
        else Prepend(((c % 32) * 64 + Unsigned(b[1]) % 64) as char, DecodeModifiedUtf8(b[2..]))
      else if c / 16 == 14 then
        if |b| < 3 || !IsThreeByte(b) then Failure(UTFDataFormat)
        else
          var x := ThreeValue(b);
          if 0xD800 <= x < 0xDC00 then
            if |b| < 6 || !IsThreeByte(b[3..]) || !(0xDC00 <= ThreeValue(b[3..]) < 0xE000) then Failure(UTFDataFormat)
            else Prepend(Combine(x, ThreeValue(b[3..])), DecodeModifiedUtf8(b[6..]))
          else if 0xDC00 <= x < 0xE000 then Failure(UTFDataFormat)
          else Prepend(x as char, DecodeModifiedUtf8(b[3..]))
      else Failure(UTFDataFormat)
  }

  /** Three-byte sequences decode to the unit they encode. */
  lemma ThreeBytesDecode(u: int, rest: seq<Byte>)
    requires 0x800 <= u < 0x1_0000
    ensures IsThreeByte(ThreeBytes(u) + rest) && ThreeValue(ThreeBytes(u) + rest) == u
  {
    var b := ThreeBytes(u) + rest;
    var q, m, l := u / 4096, (u / 64) % 64, u % 64;
    assert Unsigned(b[0]) == 0xE0 + q && Unsigned(b[1]) == 0x80 + m && Unsigned(b[2]) == 0x80 + l;
    assert u == 4096 * q + 64 * m + l;
  }

  /** A character's encoding decodes back to it, before whatever follows. */
  lemma DecodeChar(c: char, rest: seq<Byte>)
    ensures DecodeModifiedUtf8(ModifiedUtf8Char(c) + rest) == Prepend(c, DecodeModifiedUtf8(rest))
  {
    var x := c as int;
    if 1 <= x < 0x80 {
      DecodeOneByte(c, rest);
    } else if x < 0x800 {
      DecodeTwoBytes(c, rest);
    } else if x < 0x1_0000 {
      DecodeThreeBytes(c, rest);
    } else {
      DecodePair(c, rest);
    }
  }

  lemma DecodeOneByte(c: char, rest: seq<Byte>)
    requires 1 <= c as int < 0x80
    ensures DecodeModifiedUtf8(ModifiedUtf8Char(c) + rest) == Prepend(c, DecodeModifiedUtf8(rest))
  {
    var b := [ToByte(c as int)] + rest;
    assert ModifiedUtf8Char(c) + rest == b;
    assert b[1..] == rest;
  }

  lemma DecodeTwoBytes(c: char, rest: seq<Byte>)
    requires (c as int == 0 || 0x80 <= c as int) && c as int < 0x800
    ensures DecodeModifiedUtf8(ModifiedUtf8Char(c) + rest) == Prepend(c, DecodeModifiedUtf8(rest))
  {
    var x := c as int;
    var q, l := x / 64, x % 64;
    var b := [ToByte(0xC0 + q), ToByte(0x80 + l)] + rest;
    assert ModifiedUtf8Char(c) + rest == b;
    assert Unsigned(b[0]) == 0xC0 + q && Unsigned(b[1]) == 0x80 + l;
    assert (0xC0 + q) % 32 == q && (0x80 + l) % 64 == l;
    assert q * 64 + l == x;
    assert b[2..] == rest;
  }

  lemma DecodeThreeBytes(c: char, rest: seq<Byte>)
    requires 0x800 <= c as int < 0x1_0000
    ensures DecodeModifiedUtf8(ModifiedUtf8Char(c) + rest) == Prepend(c, DecodeModifiedUtf8(rest))
  {
    var x := c as int;
    var b := ThreeBytes(x) + rest;
    assert ModifiedUtf8Char(c) + rest == b;
    ThreeBytesDecode(x, rest);
    assert Unsigned(b[0]) / 16 == 14;
    assert b[3..] == rest;
  }

  lemma DecodePair(c: char, rest: seq<Byte>)
    requires 0x1_0000 <= c as int
    ensures DecodeModifiedUtf8(ModifiedUtf8Char(c) + rest) == Prepend(c, DecodeModifiedUtf8(rest))
  {
    var x := c as int - 0x1_0000;
    var hi, lo := 0xD800 + x / 1024, 0xDC00 + x % 1024;
    var b := ThreeBytes(hi) + (ThreeBytes(lo) + rest);
    assert ModifiedUtf8Char(c) + rest == b;
    ThreeBytesDecode(hi, ThreeBytes(lo) + rest);
    ThreeBytesDecode(lo, rest);
    assert Unsigned(b[0]) / 16 == 14;
    assert b[3..] == ThreeBytes(lo) + rest;
    assert b[3..][3..] == rest && b[6..] == rest;
    assert x == 1024 * (x / 1024) + x % 1024;
    assert Combine(hi, lo) == c;
  }

  /** Decoding inverts the modified UTF-8 encoding of every string. */
  lemma {:induction false} DecodeRoundTrip(s: string)
    ensures DecodeModifiedUtf8(ModifiedUtf8(s)) == Success(s)
  {
    if s != [] {
      DecodeChar(s[0], ModifiedUtf8(s[1..]));
      DecodeRoundTrip(s[1..]);
      assert [s[0]] + s[1..] == s;
    }
  }

  /** What a read from a stream yields, and the bytes left after it. */
  datatype Read<T> = Read(value: Result<T, Exc>, rest: seq<Byte>)

  /**
   * `readUTF()` on the given bytes: the length, then that many bytes decoded.
   * Running out of bytes is an EOFException, after everything left has been
   * consumed.
   */
  function ReadUTFSpec(input: seq<Byte>): (r: Read<string>)
    ensures input != [] ==> |r.rest| < |input|
    ensures |r.rest| <= |input|
  {
    if |input| < 2 then Read(Failure(EOF), [])
    else
      var n := Unsigned(input[0]) * 256 + Unsigned(input[1]);
      if |input| - 2 < n then Read(Failure(EOF), [])
      else Read(DecodeModifiedUtf8(input[2..2 + n]), input[2 + n..])
  }

  /** A string that fits `writeUTF` reads back as itself, and the bytes after it are left. */
  lemma UtfRoundTrip(s: string, tail: seq<Byte>)
    requires |ModifiedUtf8(s)| <= MaxUtfLength
    ensures WriteUTF(s) == Success(Frame(s))
    ensures ReadUTFSpec(Frame(s) + tail) == Read(Success(s), tail)
  {
    DecodeRoundTrip(s);
    var f, n := Frame(s), |ModifiedUtf8(s)|;
    var input := f + tail;
    assert input[..2] == f[..2] == U16(n);
    assert input[2..2 + n] == ModifiedUtf8(s);
    assert input[2 + n..] == tail;
  }

  /** `readUTF` over a stream. */
  method ReadUTF(input: InStream) returns (r: Result<string, Exc>)
    requires input.Valid()
    modifies input
    ensures input.Valid()
    ensures Read(r, input.Remaining()) == ReadUTFSpec(old(input.Remaining()))
  {
    ghost var start := input.Remaining();
    var size := input.ReadUpTo(2);
    if |size| < 2 {
      assert |start| < 2 && input.Remaining() == [];
      return Failure(EOF);
    }
    assert size == start[..2];
    ghost var afterSize := input.Remaining();
    assert afterSize == start[2..];
    var n := Unsigned(size[0]) * 256 + Unsigned(size[1]);
    var body := input.ReadUpTo(n);
    if |body| < n {
      assert |afterSize| < n && input.Remaining() == [];
      return Failure(EOF);
    }
    assert body == afterSize[..n] == start[2..2 + n];
    assert input.Remaining() == afterSize[n..] == start[2 + n..];
    r := DecodeModifiedUtf8(body);
  }

  /* ---------------------------------------------------------------- */
  /* Longs                                                             */
  /* ---------------------------------------------------------------- */

  function Pow256(n: nat): (p: nat)
    ensures p >= 1
  {
    if n == 0 then 1 else 256 * Pow256(n - 1)
  }

  /** `v` as `n` bytes, big-endian (the low `n` bytes of `v`). */
  function BigEndian(v: nat, n: nat): (r: seq<Byte>)
    ensures |r| == n
  {
    if n == 0 then [] else BigEndian(v / 256, n - 1) + [ToByte(v % 256)]
  }

  /** The unsigned value of big-endian bytes. */
  function FromBigEndian(b: seq<Byte>): nat
  {
    if b == [] then 0 else FromBigEndian(b[..|b| - 1]) * 256 + Unsigned(b[|b| - 1])
  }

  lemma {:induction false} BigEndianRoundTrip(v: nat, n: nat)
    requires v < Pow256(n)
    ensures FromBigEndian(BigEndian(v, n)) == v
  {
    if n > 0 {
      var q := v / 256;
      assert Pow256(n) == 256 * Pow256(n - 1);
      BigEndianRoundTrip(q, n - 1);
      var b := BigEndian(v, n);
      assert b[..|b| - 1] == BigEndian(q, n - 1);
    }
  }

  const LongModulus: int := 0x1_0000_0000_0000_0000
  const LongMax: int := 0x7FFF_FFFF_FFFF_FFFF

  /** `writeLong(x)`: the 64-bit two's complement of `x`, big-endian. */
  function LongBytes(x: int): (r: seq<Byte>)
    ensures |r| == 8
  {
    BigEndian(x % LongModulus, 8)
  }

  /** The signed value of eight big-endian bytes. */
  function SignedLong(b: seq<Byte>): int
    requires |b| == 8
  {
    var u := FromBigEndian(b);
    if u > LongMax then u - LongModulus else u
  }

  /** `readLong()` on the given bytes: too few is an EOFException after consuming them. */
  function ReadLongSpec(input: seq<Byte>): (r: Read<int>)
    ensures |r.rest| <= |input|
  {
    if |input| < 8 then Read(Failure(EOF), []) else Read(Success(SignedLong(input[..8])), input[8..])
  }

  lemma Pow256Long()
    ensures Pow256(8) == LongModulus
  {
    assert Pow256(2) == 0x1_0000;
    assert Pow256(4) == 256 * (256 * Pow256(2));
    assert Pow256(6) == 256 * (256 * Pow256(4));
    assert Pow256(8) == 256 * (256 * Pow256(6));
  }

  /** A non-negative long reads back as itself, and the bytes after it are left. */
  lemma LongRoundTrip(x: int, tail: seq<Byte>)
    requires 0 <= x <= LongMax
    ensures ReadLongSpec(LongBytes(x) + tail) == Read(Success(x), tail)
  {
    Pow256Long();
    assert x % LongModulus == x;
    BigEndianRoundTrip(x, 8);
    assert (LongBytes(x) + tail)[..8] == LongBytes(x);
    assert (LongBytes(x) + tail)[8..] == tail;
  }

  /** `readLong` over a stream. */
  method ReadLong(input: InStream) returns (r: Result<int, Exc>)
    requires input.Valid()
    modifies input
    ensures input.Valid()
    ensures Read(r, input.Remaining()) == ReadLongSpec(old(input.Remaining()))
  {
    var b := input.ReadUpTo(8);
    if |b| < 8 {
      return Failure(EOF);
    }
    r := Success(SignedLong(b));
  }

  /* ---------------------------------------------------------------- */
  /* Hex                                                               */
  /* ---------------------------------------------------------------- */

  const HexDigits: string := "0123456789abcdef"

  /**
   * Lower-case hex, two digits per byte. For a 32-byte digest this is
   * `String.format("%064x", new BigInteger(1, digest))`: the unsigned
   * big-endian value, zero-padded to 64 digits.
   */
  function Hex(d: seq<Byte>): (r: string)
    ensures |r| == 2 * |d|
    ensures forall c :: c in r ==> c in HexDigits
  {
    if d == [] then []
    else [HexDigits[Unsigned(d[0]) / 16], HexDigits[Unsigned(d[0]) % 16]] + Hex(d[1..])
  }

  /** Hex text is ASCII, contains no `/`, and is not blank once non-empty. */
  lemma HexIsAscii(d: seq<Byte>)
    ensures IsAsciiText(Hex(d))
    ensures d != [] ==> !IsTrimmed(Hex(d)[0])
    ensures '/' !in Hex(d)
  {
    var h := Hex(d);
    forall i | 0 <= i < |h| ensures 1 <= h[i] as int < 0x80 && h[i] != '/' {
      assert h[i] in HexDigits;
    }
    if d != [] {
      assert h[0] in HexDigits;
    }
  }
}
