/** A byte stream with a cursor, and the big-endian integer readers of
    SimCity2000Parser/StreamUtils.cs. */
module StreamUtils {

  /** A C# `byte`. */
  type byte = x: int | 0 <= x < 0x100

  const TwoTo31: int := 0x8000_0000
  const TwoTo32: int := 0x1_0000_0000

  function Min(a: int, b: int): int { if a <= b then a else b }
  function Max(a: int, b: int): int { if a <= b then b else a }

  /** C# `int` arithmetic: the value modulo 2^32, taken into [-2^31, 2^31). */
  function Wrap32(x: int): (r: int)
    ensures -TwoTo31 <= r < TwoTo31
    ensures (x - r) % TwoTo32 == 0
    ensures -TwoTo31 <= x < TwoTo31 ==> r == x
  {
    var m := x % TwoTo32;
    if m < TwoTo31 then m else m - TwoTo32
  }

  /** The byte `(byte)stream.ReadByte()` yields at position `p`: past the end
      ReadByte returns -1, which the cast turns into 0xFF. */
  function ByteAt(data: seq<byte>, p: nat): byte {
    if p < |data| then data[p] else 0xFF
  }

  /** The position after `n` calls of ReadByte from `p`: ReadByte does not move
      the position once the end is reached. */
  function Advance(data: seq<byte>, p: nat, n: nat): nat {
    Min(p + n, Max(p, |data|))
  }

  /** The `n` bytes that `n` calls of ReadByte from `p` yield. */
  function Peek(data: seq<byte>, p: nat, n: nat): (r: seq<byte>)
    ensures |r| == n
  {
    seq<byte>(n, k requires 0 <= k < n => ByteAt(data, p + k))
  }

  lemma PeekAt(data: seq<byte>, p: nat, n: nat, k: nat)
    requires k < n
    ensures Peek(data, p, n)[k] == ByteAt(data, p + k)
  {
  }

  /** Inside the stream, Peek is a plain slice. */
  lemma PeekInside(data: seq<byte>, p: nat, n: nat)
    requires p + n <= |data|
    ensures Peek(data, p, n) == data[p..p + n]
  {
    forall k | 0 <= k < n ensures Peek(data, p, n)[k] == data[p..p + n][k] {
      PeekAt(data, p, n, k);
      assert ByteAt(data, p + k) == data[p + k];
    }
  }

  /** Reading one more byte after `i` reads from `q` extends Peek by one byte. */
  lemma PeekAdvance(data: seq<byte>, q: nat, i: nat)
    requires q <= |data|
    ensures ByteAt(data, Advance(data, q, i)) == ByteAt(data, q + i)
    ensures Advance(data, Advance(data, q, i), 1) == Advance(data, q, i + 1)
    ensures Peek(data, q, i + 1) == Peek(data, q, i) + [ByteAt(data, q + i)]
  {
  }

  function Zeros(n: nat): (r: seq<byte>)
    ensures |r| == n && forall k :: 0 <= k < n ==> r[k] == 0
  {
    seq<byte>(n, k => 0)
  }

  /** Read2ByteInt: `b0 << 8` plus `b1`, the first byte most significant. */
  function Int16BE(b0: byte, b1: byte): (r: int)
    ensures 0 <= r < 0x1_0000
    ensures r / 256 == b0 && r % 256 == b1
  {
    b0 * 0x100 + b1
  }

  /** The four bytes read as an unsigned big-endian number. */
  function UInt32BE(b0: byte, b1: byte, b2: byte, b3: byte): int {
    b0 * 0x100_0000 + b1 * 0x1_0000 + b2 * 0x100 + b3
  }

  /** Read4ByteInt: `b0 << 24`, computed in a 32-bit `int` and so wrapping from
      b0 = 0x80 on, plus `b1 << 16`, `b2 << 8` and `b3`. */
  function Int32BE(b0: byte, b1: byte, b2: byte, b3: byte): int {
    Wrap32(b0 * 0x100_0000) + b1 * 0x1_0000 + b2 * 0x100 + b3
  }

  /** Read4ByteInt gives the two's-complement value of the 32-bit word: the
      unsigned value when the top bit is clear, that value less 2^32 when it is set. */
  lemma Int32BETwosComplement(b0: byte, b1: byte, b2: byte, b3: byte)
    ensures var u := UInt32BE(b0, b1, b2, b3);
            Int32BE(b0, b1, b2, b3) == (if b0 < 0x80 then u else u - TwoTo32)
    ensures -TwoTo31 <= Int32BE(b0, b1, b2, b3) < TwoTo31
    ensures Int32BE(b0, b1, b2, b3) < 0 <==> b0 >= 0x80
  {
    var x := b0 * 0x100_0000;
    if b0 < 0x80 {
      assert x < TwoTo31;
    } else {
      assert TwoTo31 <= x < TwoTo32;
      assert x % TwoTo32 == x;
    }
  }

  /** The bytes that Read2ByteInt decodes to `v`, most significant first. */
  function Int16Bytes(v: int): (r: (byte, byte))
    requires 0 <= v < 0x1_0000
  {
    ((v / 0x100) as byte, (v % 0x100) as byte)
  }

  lemma Int16RoundTrip(b0: byte, b1: byte, v: int)
    requires 0 <= v < 0x1_0000
    ensures Int16BE(Int16Bytes(v).0, Int16Bytes(v).1) == v
    ensures Int16Bytes(Int16BE(b0, b1)) == (b0, b1)
  {
  }

  /** The bytes that Read4ByteInt decodes to the 32-bit value `v`, most significant first. */
  function Int32Bytes(v: int): (r: seq<byte>)
    requires -TwoTo31 <= v < TwoTo31
    ensures |r| == 4
  {
    var u := if v < 0 then v + TwoTo32 else v;
    var a := u / 0x100;
    var b := a / 0x100;
    [(b / 0x100) as byte, (b % 0x100) as byte, (a % 0x100) as byte, (u % 0x100) as byte]
  }

  /** Splitting off the low byte of `x * 256 + d`. */
  lemma LowByte(x: int, d: int)
    requires 0 <= d < 0x100
    ensures (x * 0x100 + d) / 0x100 == x && (x * 0x100 + d) % 0x100 == d
  {
  }

  /** Read4ByteInt and Int32Bytes are inverse to each other. */
  lemma Int32RoundTrip(v: int, b0: byte, b1: byte, b2: byte, b3: byte)
    requires -TwoTo31 <= v < TwoTo31
    ensures var r := Int32Bytes(v); Int32BE(r[0], r[1], r[2], r[3]) == v
    ensures Int32Bytes(Int32BE(b0, b1, b2, b3)) == [b0, b1, b2, b3]
  {
    var r := Int32Bytes(v);
    var u := if v < 0 then v + TwoTo32 else v;
    var a := u / 0x100;
    var b := a / 0x100;
    assert u == a * 0x100 + u % 0x100;
    assert a == b * 0x100 + a % 0x100;
    assert b == (b / 0x100) * 0x100 + b % 0x100;
    assert UInt32BE(r[0], r[1], r[2], r[3]) == u;
    Int32BETwosComplement(r[0], r[1], r[2], r[3]);
    Int32BETwosComplement(b0, b1, b2, b3);
    var y := b0 * 0x100 + b1;
    var x := y * 0x100 + b2;
    assert UInt32BE(b0, b1, b2, b3) == x * 0x100 + b3;
    LowByte(x, b3);
    LowByte(y, b2);
    LowByte(b0, b1);
  }

  /** A FileStream or MemoryStream over a fixed sequence of bytes. */
  class ByteStream {
    const data: seq<byte>
    var pos: nat

    ghost predicate Valid()
      reads this
    {
      pos <= |data|
    }

    constructor (data: seq<byte>)
      ensures Valid() && this.data == data && pos == 0
    {
      this.data := data;
      pos := 0;
    }

    /** `(byte)stream.ReadByte()`. */
    method ReadByte() returns (b: byte)
      requires Valid()
      modifies this`pos
      ensures Valid()
      ensures b == ByteAt(data, old(pos)) && pos == Advance(data, old(pos), 1)
    {
      if pos < |data| {
        b := data[pos];
        pos := pos + 1;
      } else {
        b := 0xFF;
      }
    }

    /** `stream.Read(buffer, 0, count)` into a fresh, zeroed buffer of `count`
        bytes; `n` is the number of bytes actually read. */
    method Read(count: nat) returns (buffer: seq<byte>, n: nat)
      requires Valid()
      modifies this`pos
      ensures Valid()
      ensures n == Min(count, |data| - old(pos)) && pos == old(pos) + n
      ensures buffer == data[old(pos)..pos] + Zeros(count - n)
    {
      n := Min(count, |data| - pos);
      buffer := data[pos..pos + n] + Zeros(count - n);
      pos := pos + n;
    }

    method Read4ByteInt() returns (v: int)
      requires Valid()
      modifies this`pos
      ensures Valid() && pos == Advance(data, old(pos), 4)
      ensures v == Int32BE(ByteAt(data, old(pos)), ByteAt(data, old(pos) + 1),
                           ByteAt(data, old(pos) + 2), ByteAt(data, old(pos) + 3))
    {
      var buffer := new byte[4];
      buffer[0] := ReadByte();
      buffer[1] := ReadByte();
      buffer[2] := ReadByte();
      buffer[3] := ReadByte();
      v := Int32BE(buffer[0], buffer[1], buffer[2], buffer[3]);
    }

    method Read2ByteInt() returns (v: int)
      requires Valid()
      modifies this`pos
      ensures Valid() && pos == Advance(data, old(pos), 2)
      ensures v == Int16BE(ByteAt(data, old(pos)), ByteAt(data, old(pos) + 1))
    {
      var buffer := new byte[2];
      buffer[0] := ReadByte();
      buffer[1] := ReadByte();
      v := Int16BE(buffer[0], buffer[1]);
    }
  }
}
