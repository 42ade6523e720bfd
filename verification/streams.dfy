/**
 * The byte streams and the running digest the store copies through, and
 * `Utils.copy` in its bounded and unbounded forms.
 *
 * An `InStream` is a byte source with a read position; an `OutStream`
 * accumulates what is written to it; a `MessageDigest` accumulates the bytes it
 * is fed. The SHA-256 function itself is a parameter (`Sha256`): only which
 * bytes reach it, and in which order, is modelled.
 */
module Streams {
  import opened Wrappers
  import opened JavaLang

  /** A SHA-256 value: 32 bytes. */
  type DigestValue = d: seq<Byte> | |d| == 32 witness seq(32, _ => 0)

  /** The hash function a `MessageDigest` computes (left abstract). */
  type Sha256 = seq<Byte> -> DigestValue

  /** `InputStream.read()`'s end-of-stream value (`EOF` in the source). */
  const EndOfStream: int := -1

  /** A byte source read front to back (a `FileInputStream`, or the stream handed to a restore). */
  class InStream {
    const data: seq<Byte>
    var pos: nat

    ghost predicate Valid()
      reads this
    {
      pos <= |data|
    }

    constructor (data: seq<Byte>)
      ensures Valid() && this.data == data && pos == 0
    {
      this.data := data;
      pos := 0;
    }

    /** The bytes not read yet. */
    function Remaining(): seq<Byte>
      reads this
      requires Valid()
    {
      data[pos..]
    }

    /** `available() > 0`: some bytes are left. */
    function Available(): bool
      reads this
      requires Valid()
    {
      pos < |data|
    }

    /** `read()`: the next byte as 0..255, or -1 at the end. */
    method Read() returns (r: int)
      requires Valid()
      modifies this
      ensures Valid()
      ensures old(Remaining()) == [] ==> r == EndOfStream && pos == old(pos)
      ensures old(Remaining()) != [] ==> r == Unsigned(old(Remaining())[0]) && Remaining() == old(Remaining())[1..]
    {
      if pos == |data| {
        return EndOfStream;
      }
      r := Unsigned(data[pos]);
      pos := pos + 1;
    }

    /** A read of up to `n` bytes that stops early only at the end of the stream (`readFully`, `readUnsignedShort`). */
    method ReadUpTo(n: nat) returns (got: seq<Byte>)
      requires Valid()
      modifies this
      ensures Valid()
      ensures got == old(Remaining())[..Min(n, |old(Remaining())|)]
      ensures Remaining() == old(Remaining())[|got|..]
    {
      var k := Min(n, |data| - pos);
      got := data[pos..pos + k];
      pos := pos + k;
    }

    /** `read(buffer)`: up to `buffer.length` bytes into the front of the buffer; the count, or -1 at the end. */
    method ReadInto(buffer: array<Byte>) returns (n: int)
      requires Valid() && buffer.Length > 0
      modifies this, buffer
      ensures Valid()
      ensures old(Remaining()) == [] ==> n == EndOfStream && pos == old(pos) && buffer[..] == old(buffer[..])
      ensures old(Remaining()) != [] ==>
        && n == Min(buffer.Length, |old(Remaining())|)
        && buffer[..n] == old(Remaining())[..n]
        && Remaining() == old(Remaining())[n..]
    {
      if pos == |data| {
        return EndOfStream;
      }
      n := Min(buffer.Length, |data| - pos);
      var k := 0;
      while k < n
        invariant 0 <= k <= n
        invariant buffer[..k] == data[pos..pos + k]
        modifies buffer
      {
        buffer[k] := data[pos + k];
        k := k + 1;
      }
      pos := pos + n;
    }
  }

  function Min(a: int, b: int): int
  {
    if a < b then a else b
  }

  /** A byte sink (a `FileOutputStream`, or the stream a backup is written to). */
  class OutStream {
    var bytes: seq<Byte>

    constructor ()
      ensures bytes == []
    {
      bytes := [];
    }

    /** `write(int)`: the low eight bits of `b`. */
    method Write(b: int)
      requires 0 <= b < 256
      modifies this
      ensures bytes == old(bytes) + [ToByte(b)]
    {
      bytes := bytes + [ToByte(b)];
    }

    /** `write(bytes)`. */
    method WriteBytes(bs: seq<Byte>)
      modifies this
      ensures bytes == old(bytes) + bs
    {
      bytes := bytes + bs;
    }

    /** `write(buffer, 0, n)`. */
    method WriteFrom(buffer: array<Byte>, n: nat)
      requires n <= buffer.Length
      modifies this
      ensures bytes == old(bytes) + buffer[..n]
    {
      bytes := bytes + buffer[..n];
    }
  }

  /** `java.security.MessageDigest`: the bytes fed since the last `digest()`. */
  class MessageDigest {
    var fed: seq<Byte>

    constructor ()
      ensures fed == []
    {
      fed := [];
    }

    /** `update(byte)`. */
    method Update(b: Byte)
      modifies this
      ensures fed == old(fed) + [b]
    {
      fed := fed + [b];
    }

    /** `update(buffer, 0, n)`. */
    method UpdateFrom(buffer: array<Byte>, n: nat)
      requires n <= buffer.Length
      modifies this
      ensures fed == old(fed) + buffer[..n]
    {
      fed := fed + buffer[..n];
    }

    /** `digest()`: the hash of everything fed, after which the digest starts over. */
    method Digest(sha: Sha256) returns (d: DigestValue)
      modifies this
      ensures d == sha(old(fed)) && fed == []
    {
      d := sha(fed);
      fed := [];
    }
  }

  /** What a copy of `count` bytes moves: the first `count` bytes still unread. */
  function Moved(input: seq<Byte>, maxBytes: int): (r: seq<Byte>)
    ensures maxBytes < 1 ==> r == []
    ensures maxBytes >= |input| ==> r == input
    ensures |r| == if maxBytes < 1 then 0 else Min(maxBytes, |input|)
    ensures r <= input
  {
    if maxBytes < 1 then [] else input[..Min(maxBytes, |input|)]
  }

  /**
   * `Utils.copy(in, out, maxBytes, md)`: -1 when a stream is null, 0 when
   * `maxBytes < 1`, otherwise the first `min(maxBytes, remaining)` bytes go to
   * `out` and to the digest, byte by byte, and their number is returned. It
   * stops on the byte budget before reading, so nothing beyond is consumed.
   */
  method CopyBounded(input: InStream?, out: OutStream?, maxBytes: int, md: MessageDigest?) returns (count: int)
    requires input != null ==> input.Valid()
    modifies input, out, md
    ensures input != null ==> input.Valid()
    ensures input == null || out == null ==>
      count == -1 && (input != null ==> unchanged(input)) && (out != null ==> unchanged(out)) && (md != null ==> unchanged(md))
    ensures input != null && out != null ==>
      var moved := Moved(old(input.Remaining()), maxBytes);
      && count == |moved|
      && input.Remaining() == old(input.Remaining())[count..]
      && out.bytes == old(out.bytes) + moved
      && (md != null ==> md.fed == old(md.fed) + moved)
  {
    if input == null || out == null {
      return -1;
    }
    if maxBytes < 1 {
      return 0;
    }
    ghost var start := input.Remaining();
    ghost var outStart := out.bytes;
    ghost var mdStart := if md != null then md.fed else [];
    var budget := maxBytes;
    count := 0;
    while budget > 0
      invariant input.Valid()
      invariant 0 <= count <= |start| && budget == maxBytes - count
      invariant input.Remaining() == start[count..]
      invariant out.bytes == outStart + start[..count]
      invariant md != null ==> md.fed == mdStart + start[..count]
      decreases budget
    {
      var r := input.Read();
      if r <= EndOfStream {
        break;
      }
      assert start[..count + 1] == start[..count] + [ToByte(r)];
      if md != null {
        md.Update(ToByte(r));
      }
      budget := budget - 1;
      out.Write(r);
      count := count + 1;
    }
    assert count == Min(maxBytes, |start|);
  }

  /** The size of `copy`'s buffer. */
  const BufferSize: nat := 1024 * 2

  /**
   * `Utils.copy(in, out, md)`: -1 when a stream is null; otherwise everything
   * left in `in` goes to `out` and to the digest, in 2048-byte chunks, and its
   * length is returned.
   */
  method CopyAll(input: InStream?, out: OutStream?, md: MessageDigest?) returns (count: int)
    requires input != null ==> input.Valid()
    modifies input, out, md
    ensures input != null ==> input.Valid()
    ensures input == null || out == null ==>
      count == -1 && (input != null ==> unchanged(input)) && (out != null ==> unchanged(out)) && (md != null ==> unchanged(md))
    ensures input != null && out != null ==>
      && count == |old(input.Remaining())|
      && input.Remaining() == []
      && out.bytes == old(out.bytes) + old(input.Remaining())
      && (md != null ==> md.fed == old(md.fed) + old(input.Remaining()))
  {
    if input == null || out == null {
      return -1;
    }
    count := Drain(input, out, md);
  }

  /** The loop of `copy(in, out, md)` over two open streams. */
  method Drain(input: InStream, out: OutStream, md: MessageDigest?) returns (count: int)
    requires input.Valid()
    modifies input, out, md
    ensures input.Valid() && input.Remaining() == []
    ensures count == |old(input.Remaining())|
    ensures out.bytes == old(out.bytes) + old(input.Remaining())
    ensures md != null ==> md.fed == old(md.fed) + old(input.Remaining())
  {
    ghost var start := input.Remaining();
    ghost var outStart := out.bytes;
    ghost var mdStart := if md != null then md.fed else [];
    ghost var done: seq<Byte> := [];
    var buffer := new Byte[BufferSize];
    count := 0;
    while true
      invariant input.Valid()
      invariant count == |done| <= |start| && start == done + input.Remaining()
      invariant out.bytes == outStart + done
      invariant md != null ==> md.fed == mdStart + done
      decreases |start| - count
    {
      ghost var rem := input.Remaining();
      var n := CopyChunk(input, out, md, buffer);
      if n == EndOfStream {
        assert done + [] == done;
        break;
      }
      ghost var chunk := rem[..n];
      assert rem == chunk + input.Remaining();
      assert start == (done + chunk) + input.Remaining();
      assert out.bytes == outStart + (done + chunk);
      assert md != null ==> md.fed == mdStart + (done + chunk);
      done := done + chunk;
      count := count + n;
    }
  }

  /** One pass of `copy`'s loop: one `read(buffer)`, then the digest update and the write of what was read. */
  method CopyChunk(input: InStream, out: OutStream, md: MessageDigest?, buffer: array<Byte>) returns (n: int)
    requires input.Valid() && buffer.Length > 0
    modifies input, out, md, buffer
    ensures input.Valid()
    ensures old(input.Remaining()) == [] ==>
      && n == EndOfStream && input.Remaining() == [] && out.bytes == old(out.bytes)
      && (md != null ==> md.fed == old(md.fed))
    ensures old(input.Remaining()) != [] ==>
      && 0 < n <= |old(input.Remaining())|
      && input.Remaining() == old(input.Remaining())[n..]
      && out.bytes == old(out.bytes) + old(input.Remaining())[..n]
      && (md != null ==> md.fed == old(md.fed) + old(input.Remaining())[..n])
  {
    n := input.ReadInto(buffer);
    if n == EndOfStream {
      return;
    }
    if md != null {
      md.UpdateFrom(buffer, n);
    }
    out.WriteFrom(buffer, n);
  }

  /** `copy(in, out)`: the unbounded copy without a digest. */
  method Copy(input: InStream?, out: OutStream?) returns (count: int)
    requires input != null ==> input.Valid()
    modifies input, out
    ensures input != null ==> input.Valid()
    ensures input == null || out == null ==> count == -1
    ensures input != null && out != null ==>
      count == |old(input.Remaining())| && input.Remaining() == [] && out.bytes == old(out.bytes) + old(input.Remaining())
  {
    count := CopyAll(input, out, null);
  }

  /** Copying in two bounded steps moves what one bounded copy of the summed budget moves. */
  lemma MovedSplit(input: seq<Byte>, a: nat, b: nat)
    ensures Moved(input, a) + Moved(input[|Moved(input, a)|..], b) == Moved(input, a + b)
  {
  }
}
