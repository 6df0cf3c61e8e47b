/** SimCity2000Parser/MiscSection.cs: the MISC section, a compressed block of
    big-endian 32-bit integers (1200 of them in a well-formed save). */
module MiscSection {
  import opened StreamUtils
  import opened Failures
  import opened SectionDifference
  import opened SaveSection
  import CompressedSaveSection

  const SeaLevelIndex: nat := 912
  const RotationIndex: nat := 2

  /** The integers a MemoryStream over `raw` yields from position `p` on: four
      bytes at a time while the position is below the end, the last group padded
      with 0xFF where the bytes run out. */
  function IntsFrom(raw: seq<byte>, p: nat): seq<int>
    requires p <= |raw|
    decreases |raw| - p
  {
    if p == |raw| then []
    else [Int32BE(ByteAt(raw, p), ByteAt(raw, p + 1), ByteAt(raw, p + 2), ByteAt(raw, p + 3))] + IntsFrom(raw, Advance(raw, p, 4))
  }

  function Ints(raw: seq<byte>): seq<int> {
    IntsFrom(raw, 0)
  }

  /** Integer `k` from position `p` on is the big-endian word at `p + 4k`. */
  lemma {:induction false} IntsFromAt(raw: seq<byte>, p: nat)
    requires p <= |raw|
    ensures |IntsFrom(raw, p)| == (|raw| - p + 3) / 4
    ensures forall k :: 0 <= k < |IntsFrom(raw, p)| ==>
              var q := p + 4 * k;
              IntsFrom(raw, p)[k] == Int32BE(ByteAt(raw, q), ByteAt(raw, q + 1), ByteAt(raw, q + 2), ByteAt(raw, q + 3))
    decreases |raw| - p
  {
    if p < |raw| {
      var q := Advance(raw, p, 4);
      IntsFromAt(raw, q);
      if p + 4 <= |raw| {
        assert q == p + 4;
      } else {
        assert q == |raw|;
      }
    }
  }

  /** `Data` holds one integer per four payload bytes, rounded up, each the
      big-endian word at its place; a 4800-byte payload gives 1200 integers. */
  lemma IntsLayout(raw: seq<byte>)
    ensures |Ints(raw)| == (|raw| + 3) / 4
    ensures forall k :: 0 <= k < |raw| / 4 ==>
              Ints(raw)[k] == Int32BE(raw[4 * k], raw[4 * k + 1], raw[4 * k + 2], raw[4 * k + 3])
    ensures |raw| == 4800 ==> |Ints(raw)| == 1200
  {
    IntsFromAt(raw, 0);
  }

  lemma IntsFromUnfold(raw: seq<byte>, p: nat)
    requires p < |raw|
    ensures IntsFrom(raw, p) == [Int32BE(ByteAt(raw, p), ByteAt(raw, p + 1), ByteAt(raw, p + 2), ByteAt(raw, p + 3))] + IntsFrom(raw, Advance(raw, p, 4))
  {
  }

  /** The loop of MiscSection.ParseSection over a MemoryStream on the payload. */
  method ReadInts(raw: seq<byte>) returns (data: seq<int>)
    ensures data == Ints(raw)
  {
    var ms := new ByteStream(raw);
    data := [];
    while ms.pos < |ms.data|
      invariant ms.Valid() && ms.data == raw
      invariant Ints(raw) == data + IntsFrom(raw, ms.pos)
      decreases |ms.data| - ms.pos
    {
      ghost var p := ms.pos;
      var v := ms.Read4ByteInt();
      IntsFromUnfold(raw, p);
      assert data + IntsFrom(raw, p) == (data + [v]) + IntsFrom(raw, ms.pos);
      data := data + [v];
    }
  }

  /** A MISC section. `Name` is always "MISC". */
  class MiscSection {
    const name: string := "MISC"
    var length: int
    var rawDataFileOffset: int
    var rawData: seq<byte>
    var data: seq<int>

    constructor ()
      ensures length == 0 && rawDataFileOffset == 0 && rawData == [] && data == []
    {
      length := 0;
      rawDataFileOffset := 0;
      rawData := [];
      data := [];
    }

    function Contents(): Payload
      reads this
    {
      Payload(length, rawDataFileOffset, rawData)
    }

    /** What ParseSection leaves: the integers are those of RawData. */
    ghost predicate Decoded()
      reads this`rawData, this`data
    {
      data == Ints(rawData)
    }

    /** `SeaLevel`: integer 912; a shorter list has no such element. */
    function SeaLevel(): (r: Result<int>)
      reads this
      ensures r.Ok? <==> SeaLevelIndex < |data|
      ensures r.Ok? ==> r.value == data[SeaLevelIndex]
    {
      if SeaLevelIndex < |data| then Ok(data[SeaLevelIndex]) else Err(IndexOutOfRange)
    }

    /** `Rotation`: integer 2, the view's quarter turns. */
    function Rotation(): (r: Result<int>)
      reads this
      ensures r.Ok? <==> RotationIndex < |data|
      ensures r.Ok? ==> r.value == data[RotationIndex]
    {
      if RotationIndex < |data| then Ok(data[RotationIndex]) else Err(IndexOutOfRange)
    }

    /** MiscSection.ParseSection: decompress, then read the integers. */
    method ParseSection(file: ByteStream) returns (r: Result<()>)
      requires file.Valid()
      modifies this, file
      ensures file.Valid()
      ensures var spec := CompressedSaveSection.ParseSpec(file.data, old(file.pos));
              (r.Ok? <==> spec.Ok?) &&
              (r.Ok? ==> Contents() == spec.value.payload && file.pos == spec.value.next && data == Ints(rawData)) &&
              (r.Err? ==> r.error == spec.error)
    {
      var payload := CompressedSaveSection.ParseSection(file);
      if payload.Err? {
        return Err(payload.error);
      }
      length, rawDataFileOffset, rawData := payload.value.length, payload.value.offset, payload.value.rawData;
      data := ReadInts(rawData);
      r := Ok(());
    }

    /** MiscSection.Diff against `oldSection`. */
    method Diff(oldSection: MiscSection) returns (r: Result<seq<SectionDifference>>)
      ensures r == IntDiff(data, oldSection.data)
    {
      var diffs: seq<SectionDifference> := [];
      for i := 0 to |data|
        invariant i <= |oldSection.data|
        invariant diffs == IntEntries(data, oldSection.data, i)
      {
        if i >= |oldSection.data| {
          return Err(IndexOutOfRange);
        }
        if data[i] != oldSection.data[i] {
          diffs := diffs + [SectionDifference(DataIndex(i), Number(oldSection.data[i]), Number(data[i]))];
        }
      }
      r := Ok(diffs);
    }
  }

  /** The entry for integer `i`. */
  function IntEntry(nw: seq<int>, od: seq<int>, i: nat): SectionDifference
    requires i < |nw| && i < |od|
  {
    SectionDifference(DataIndex(i), Number(od[i]), Number(nw[i]))
  }

  /** The entries for integers `0 .. n-1` that differ. */
  function IntEntries(nw: seq<int>, od: seq<int>, n: nat): seq<SectionDifference>
    requires n <= |nw| && n <= |od|
  {
    if n == 0 then []
    else IntEntries(nw, od, n - 1) + (if nw[n - 1] != od[n - 1] then [IntEntry(nw, od, n - 1)] else [])
  }

  /** The diff of the integer lists; reading the old list past its end fails. */
  function IntDiff(nw: seq<int>, od: seq<int>): Result<seq<SectionDifference>> {
    if |od| < |nw| then Err(IndexOutOfRange) else Ok(IntEntries(nw, od, |nw|))
  }

  /** A list compared with itself has no differences. */
  lemma IntDiffSelf(nw: seq<int>)
    ensures IntDiff(nw, nw) == Ok([])
  {
    IntEntriesSelf(nw, |nw|);
  }

  lemma {:induction false} IntEntriesSelf(nw: seq<int>, n: nat)
    requires n <= |nw|
    ensures IntEntries(nw, nw, n) == []
  {
    if n > 0 {
      IntEntriesSelf(nw, n - 1);
    }
  }

  /** Two lists of one length compared either way give the same entries,
      with old and new values swapped. */
  lemma IntDiffSymmetric(nw: seq<int>, od: seq<int>)
    requires |nw| == |od|
    ensures IntDiff(nw, od).Ok? && IntDiff(od, nw).Ok?
    ensures SwapAll(IntDiff(nw, od).value) == IntDiff(od, nw).value
  {
    IntEntriesSwap(nw, od, |nw|);
  }

  lemma {:induction false} IntEntriesSwap(nw: seq<int>, od: seq<int>, n: nat)
    requires n <= |nw| && n <= |od|
    ensures SwapAll(IntEntries(nw, od, n)) == IntEntries(od, nw, n)
  {
    if n > 0 {
      IntEntriesSwap(nw, od, n - 1);
      var before, back := IntEntries(nw, od, n - 1), IntEntries(od, nw, n - 1);
      if nw[n - 1] != od[n - 1] {
        assert IntEntries(nw, od, n) == before + [IntEntry(nw, od, n - 1)];
        assert IntEntries(od, nw, n) == back + [IntEntry(od, nw, n - 1)];
        SwapAllConcat(before, [IntEntry(nw, od, n - 1)]);
      } else {
        assert IntEntries(nw, od, n) == before && IntEntries(od, nw, n) == back;
      }
    }
  }

  /** The entries are exactly those of the indices whose values differ, in
      increasing order of index. */
  lemma {:induction false} IntEntriesExact(nw: seq<int>, od: seq<int>, n: nat)
    requires n <= |nw| && n <= |od|
    ensures var r := IntEntries(nw, od, n);
            |r| <= n &&
            (forall i :: 0 <= i < n ==> (IntEntry(nw, od, i) in r <==> nw[i] != od[i])) &&
            (forall k :: 0 <= k < |r| ==> r[k].fieldName.DataIndex? && r[k].fieldName.index < n &&
                                          r[k] == IntEntry(nw, od, r[k].fieldName.index)) &&
            (forall a, b :: 0 <= a < b < |r| ==> r[a].fieldName.index < r[b].fieldName.index)
  {
    if n > 0 {
      IntEntriesExact(nw, od, n - 1);
    }
  }
}
