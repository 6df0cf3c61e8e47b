/** The run-length decompressor of SimCity2000Parser/CompressedSaveSection.cs,
    shared by the MISC, XTER, XZON and XBLD sections. */
module CompressedSaveSection {
  import opened StreamUtils
  import opened Failures
  import opened SaveSection

  /** Bytes appended to the output, and the stream position after them. */
  datatype Chunk = Chunk(bytes: seq<byte>, next: nat)

  function Repeat(v: byte, n: nat): (r: seq<byte>)
    ensures |r| == n && forall k :: 0 <= k < n ==> r[k] == v
  {
    seq<byte>(n, k => v)
  }

  /** How many output bytes a valid control byte stands for. */
  function RunLength(b: byte): nat {
    if b < 128 then b else b - 127
  }

  /** One pass of the source's loop body at position `p`, exactly as written:
      a control byte `0 < b < 128` appends the next `b` bytes, `b > 128` appends
      the next byte `b - 127` times, and 0 or 128 is "Bad run-length encoding". */
  function Step(data: seq<byte>, p: nat): (r: Result<Chunk>)
    requires p <= |data|
    ensures r.Ok? <==> ByteAt(data, p) != 0 && ByteAt(data, p) != 128
    ensures r.Ok? ==> |r.value.bytes| == RunLength(ByteAt(data, p))
    ensures r.Ok? ==> p <= r.value.next <= |data|
    ensures r.Ok? && p < |data| ==> p < r.value.next
  {
    var b := ByteAt(data, p);
    var q := Advance(data, p, 1);
    if 0 < b < 128 then Ok(Chunk(Peek(data, q, b), Advance(data, q, b)))
    else if b > 128 then Ok(Chunk(Repeat(ByteAt(data, q), b - 127), Advance(data, q, 1)))
    else Err(BadRunLength)
  }

  /** Puts `pre` in front of the bytes of a successful decode. */
  function Prepend(pre: seq<byte>, r: Result<Chunk>): Result<Chunk> {
    match r
    case Ok(c) => Ok(Chunk(pre + c.bytes, c.next))
    case Err(e) => Err(e)
  }

  lemma PrependPrepend(a: seq<byte>, b: seq<byte>, r: Result<Chunk>)
    ensures Prepend(a, Prepend(b, r)) == Prepend(a + b, r)
  {
    if r.Ok? {
      assert a + (b + r.value.bytes) == (a + b) + r.value.bytes;
    }
  }

  lemma PrependEmpty(r: Result<Chunk>)
    ensures Prepend([], r) == r
  {
    match r
    case Ok(c) => assert [] + c.bytes == c.bytes;
    case Err(_) =>
  }

  /** The decompressed bytes from position `p` while the position is below
      `end`. Where the source would go on looping at the end of the stream, this
      fails with TruncatedSection. */
  function Decode(data: seq<byte>, p: nat, end: int): (r: Result<Chunk>)
    requires p <= |data|
    ensures r.Ok? ==> p <= r.value.next <= |data|
    ensures r.Ok? ==> end <= r.value.next
    ensures r.Ok? && p < end ==> p < r.value.next
    decreases |data| - p
  {
    if p >= end then Ok(Chunk([], p))
    else if p == |data| then Err(TruncatedSection)
    else
      match Step(data, p)
      case Err(e) => Err(e)
      case Ok(c) => Prepend(c.bytes, Decode(data, c.next, end))
  }

  /** The whole of ParseSection from position `p`: the 4-byte declared length,
      the offset just after it, and the decompressed payload. The loop bound
      `RawDataFileOffset + Length` is computed in a 32-bit `int`. */
  function ParseSpec(data: seq<byte>, p: nat): (r: Result<Parsed>)
    requires p <= |data|
    ensures r.Ok? ==> r.value.payload.length == Int32BE(ByteAt(data, p), ByteAt(data, p + 1), ByteAt(data, p + 2), ByteAt(data, p + 3))
    ensures r.Ok? ==> r.value.payload.offset == Wrap32(Advance(data, p, 4))
    ensures r.Ok? ==> Advance(data, p, 4) <= r.value.next <= |data|
  {
    var length := Int32BE(ByteAt(data, p), ByteAt(data, p + 1), ByteAt(data, p + 2), ByteAt(data, p + 3));
    var q := Advance(data, p, 4);
    var offset := Wrap32(q);
    match Decode(data, q, Wrap32(offset + length))
    case Err(e) => Err(e)
    case Ok(c) => Ok(Parsed(Payload(length, offset, c.bytes), c.next))
  }

  /** CompressedSaveSection.ParseSection. */
  method ParseSection(file: ByteStream) returns (r: Result<Payload>)
    requires file.Valid()
    modifies file
    ensures file.Valid()
    ensures var spec := ParseSpec(file.data, old(file.pos));
            (r.Ok? <==> spec.Ok?) &&
            (r.Ok? ==> r.value == spec.value.payload && file.pos == spec.value.next) &&
            (r.Err? ==> r.error == spec.error)
  {
    var length := file.Read4ByteInt();
    var offset := Wrap32(file.pos);
    var end := Wrap32(offset + length);
    ghost var start := file.pos;
    var bytes: seq<byte> := [];
    PrependEmpty(Decode(file.data, start, end));
    while file.pos < end
      invariant file.Valid() && start <= file.pos
      invariant Decode(file.data, start, end) == Prepend(bytes, Decode(file.data, file.pos, end))
      decreases |file.data| - file.pos
    {
      if file.pos == |file.data| {
        // The source keeps reading 0xFF control bytes here and never leaves the loop.
        return Err(TruncatedSection);
      }
      var run := ReadRun(file);
      if run.Err? {
        return Err(run.error);
      }
      PrependPrepend(bytes, run.value, Decode(file.data, file.pos, end));
      bytes := bytes + run.value;
    }
    r := Ok(Payload(length, offset, bytes));
  }

  /** One pass of ParseSection's loop body: a control byte and the run it
      introduces. */
  method ReadRun(file: ByteStream) returns (r: Result<seq<byte>>)
    requires file.Valid() && file.pos < |file.data|
    modifies file
    ensures file.Valid()
    ensures var s := Step(file.data, old(file.pos));
            (r.Ok? <==> s.Ok?) &&
            (r.Ok? ==> r.value == s.value.bytes && file.pos == s.value.next) &&
            (r.Err? ==> r.error == s.error)
  {
    var b := file.ReadByte();
    ghost var q := file.pos;
    var bytes: seq<byte> := [];
    if b > 0 && b < 128 {
      for i := 0 to b
        invariant file.Valid() && file.pos == Advance(file.data, q, i)
        invariant bytes == Peek(file.data, q, i)
      {
        PeekAdvance(file.data, q, i);
        var x := file.ReadByte();
        bytes := bytes + [x];
      }
    } else if b > 128 {
      var nextByte := file.ReadByte();
      for i := 0 to b - 127
        invariant bytes == Repeat(nextByte, i)
      {
        bytes := bytes + [nextByte];
        assert Repeat(nextByte, i + 1) == Repeat(nextByte, i) + [nextByte];
      }
    } else {
      return Err(BadRunLength);
    }
    r := Ok(bytes);
  }

  // ----- Runs: the encoder this decompressor inverts -----

  /** A literal run of 1..127 bytes, or a value repeated 2..128 times. */
  datatype Run = Literal(bytes: seq<byte>) | Repeated(count: nat, value: byte)

  predicate WellFormed(run: Run) {
    match run
    case Literal(bs) => 0 < |bs| < 128
    case Repeated(n, _) => 2 <= n <= 128
  }

  predicate AllWellFormed(runs: seq<Run>) {
    runs == [] || (WellFormed(runs[0]) && AllWellFormed(runs[1..]))
  }

  function ExpandRun(run: Run): seq<byte> {
    match run
    case Literal(bs) => bs
    case Repeated(n, v) => Repeat(v, n)
  }

  function EncodeRun(run: Run): seq<byte>
    requires WellFormed(run)
  {
    match run
    case Literal(bs) => [|bs|] + bs
    case Repeated(n, v) => [n + 127, v]
  }

  function Expand(runs: seq<Run>): seq<byte> {
    if runs == [] then [] else ExpandRun(runs[0]) + Expand(runs[1..])
  }

  function Encode(runs: seq<Run>): seq<byte>
    requires AllWellFormed(runs)
  {
    if runs == [] then [] else EncodeRun(runs[0]) + Encode(runs[1..])
  }

  /** Decoding one encoded run yields its expansion and stops right after it. */
  lemma StepEncodeRun(data: seq<byte>, p: nat, run: Run)
    requires WellFormed(run)
    requires p + |EncodeRun(run)| <= |data| && data[p..p + |EncodeRun(run)|] == EncodeRun(run)
    ensures Step(data, p) == Ok(Chunk(ExpandRun(run), p + |EncodeRun(run)|))
  {
    var e := EncodeRun(run);
    assert data[p] == e[0];
    match run
    case Literal(bs) =>
      PeekInside(data, p + 1, |bs|);
      assert data[p + 1..p + 1 + |bs|] == e[1..];
    case Repeated(n, v) =>
      assert data[p + 1] == e[1];
  }

  lemma SliceParts(data: seq<byte>, p: nat, a: seq<byte>, b: seq<byte>)
    requires p + |a| + |b| <= |data| && data[p..p + |a| + |b|] == a + b
    ensures data[p..p + |a|] == a && data[p + |a|..p + |a| + |b|] == b
  {
    assert data[p..p + |a|] == (a + b)[..|a|];
    assert data[p + |a|..p + |a| + |b|] == (a + b)[|a|..];
  }

  lemma DecodeUnfold(data: seq<byte>, p: nat, end: int, c: Chunk)
    requires p < end && p < |data| && Step(data, p) == Ok(c)
    ensures Decode(data, p, end) == Prepend(c.bytes, Decode(data, c.next, end))
  {
  }

  /** One encoded run in front of a region that decodes to `rest`. */
  lemma DecodeCons(data: seq<byte>, p: nat, run: Run, rest: seq<byte>, end: nat)
    requires WellFormed(run)
    requires p + |EncodeRun(run)| <= end <= |data|
    requires data[p..p + |EncodeRun(run)|] == EncodeRun(run)
    requires Decode(data, p + |EncodeRun(run)|, end) == Ok(Chunk(rest, end))
    ensures Decode(data, p, end) == Ok(Chunk(ExpandRun(run) + rest, end))
  {
    StepEncodeRun(data, p, run);
    DecodeUnfold(data, p, end, Chunk(ExpandRun(run), p + |EncodeRun(run)|));
  }

  /** The decompressor inverts Encode: a region holding the encoding of
      well-formed runs, with the declared end right after it, decodes to their
      expansion. */
  lemma {:induction false} DecodeEncode(data: seq<byte>, p: nat, runs: seq<Run>, end: nat)
    requires AllWellFormed(runs)
    requires end == p + |Encode(runs)| <= |data| && data[p..end] == Encode(runs)
    ensures Decode(data, p, end) == Ok(Chunk(Expand(runs), end))
    decreases |runs|
  {
    if runs != [] {
      var q := SplitEncoding(data, p, runs, end);
      DecodeEncode(data, q, runs[1..], end);
      DecodeCons(data, p, runs[0], Expand(runs[1..]), end);
    }
  }

  /** The encoding of the first run, then the encoding of the others. */
  lemma SplitEncoding(data: seq<byte>, p: nat, runs: seq<Run>, end: nat) returns (q: nat)
    requires runs != [] && AllWellFormed(runs)
    requires end == p + |Encode(runs)| <= |data| && data[p..end] == Encode(runs)
    ensures WellFormed(runs[0]) && AllWellFormed(runs[1..])
    ensures q == p + |EncodeRun(runs[0])| && data[p..q] == EncodeRun(runs[0])
    ensures end == q + |Encode(runs[1..])| && data[q..end] == Encode(runs[1..])
  {
    var head := EncodeRun(runs[0]);
    var tail := Encode(runs[1..]);
    assert Encode(runs) == head + tail;
    q := p + |head|;
    SliceParts(data, p, head, tail);
  }

  /** The example of the save format: [3, AA, BB, CC, 130, DD] decodes to
      [AA, BB, CC, DD, DD, DD]. */
  lemma DecodeExample()
    ensures Decode([3, 0xAA, 0xBB, 0xCC, 130, 0xDD], 0, 6) == Ok(Chunk([0xAA, 0xBB, 0xCC, 0xDD, 0xDD, 0xDD], 6))
  {
    var runs := [Literal([0xAA, 0xBB, 0xCC]), Repeated(3, 0xDD)];
    assert Encode(runs) == [3, 0xAA, 0xBB, 0xCC, 130, 0xDD];
    DecodeEncode([3, 0xAA, 0xBB, 0xCC, 130, 0xDD], 0, runs, 6);
    assert Expand(runs) == [0xAA, 0xBB, 0xCC, 0xDD, 0xDD, 0xDD];
  }

  /** Control bytes 0 and 128 are rejected wherever they occur as a control byte. */
  lemma BadControlByteRejected(data: seq<byte>, p: nat, end: int)
    requires p < |data| && p < end && (data[p] == 0 || data[p] == 128)
    ensures Decode(data, p, end) == Err(BadRunLength)
  {
  }

  /** The loop condition is only checked between runs: a run that reads past
      the declared end is accepted. */
  lemma OvershootAccepted()
    ensures Decode([3, 0xAA, 0xBB, 0xCC], 0, 1) == Ok(Chunk([0xAA, 0xBB, 0xCC], 4))
  {
    var data: seq<byte> := [3, 0xAA, 0xBB, 0xCC];
    PeekInside(data, 1, 3);
    assert data[1..4] == [0xAA, 0xBB, 0xCC];
    assert Step(data, 0) == Ok(Chunk([0xAA, 0xBB, 0xCC], 4));
    assert Decode(data, 4, 1) == Ok(Chunk([], 4));
    assert [0xAA, 0xBB, 0xCC] + [] == [0xAA, 0xBB, 0xCC];
  }

  /** At the end of the stream the loop body as written reads the control byte
      0xFF, appends 128 bytes 0xFF and leaves the position where it was. */
  lemma StepStallsAtEnd(data: seq<byte>)
    ensures Step(data, |data|) == Ok(Chunk(Repeat(0xFF, 128), |data|))
  {
  }

  /** With the end-of-stream check, a section whose declared end lies past the
      end of the stream always fails instead of looping: a successful decode
      ends within the stream and at or past the declared end. */
  lemma TruncatedInputFails(data: seq<byte>, p: nat, end: int)
    requires p <= |data| < end
    ensures Decode(data, p, end).Err?
  {
  }
}
