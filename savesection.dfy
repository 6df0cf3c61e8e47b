/** SimCity2000Parser/SaveSection.cs: a section read as a length-prefixed block
    of raw bytes, and the byte-wise diff that every section without a diff of
    its own uses. */
module SaveSection {
  import opened StreamUtils
  import opened Failures
  import opened SectionDifference

  /** The fields every section sets when it is read: `Length`,
      `RawDataFileOffset` and `RawData`. */
  datatype Payload = Payload(length: int, offset: int, rawData: seq<byte>)

  /** A payload together with the stream position after it. */
  datatype Parsed = Parsed(payload: Payload, next: nat)

  /** ParseSection from position `p`: a 4-byte length, then that many bytes into
      a zeroed buffer. A negative length cannot be allocated. */
  function RawSpec(data: seq<byte>, p: nat): (r: Result<Parsed>)
    requires p <= |data|
    ensures var length := Int32BE(ByteAt(data, p), ByteAt(data, p + 1), ByteAt(data, p + 2), ByteAt(data, p + 3));
            (r.Ok? <==> length >= 0) &&
            (r.Ok? ==> r.value.payload.length == length && |r.value.payload.rawData| == length) &&
            (r.Err? ==> r.error == NegativeLength)
    ensures r.Ok? ==>
              var q := Advance(data, p, 4);
              r.value.payload.offset == Wrap32(q) &&
              r.value.next == Min(q + r.value.payload.length, |data|) &&
              forall k :: 0 <= k < r.value.payload.length ==>
                r.value.payload.rawData[k] == (if q + k < |data| then data[q + k] else 0)
  {
    var length := Int32BE(ByteAt(data, p), ByteAt(data, p + 1), ByteAt(data, p + 2), ByteAt(data, p + 3));
    var q := Advance(data, p, 4);
    if length < 0 then Err(NegativeLength)
    else
      var n := Min(length, |data| - q);
      Ok(Parsed(Payload(length, Wrap32(q), data[q..q + n] + Zeros(length - n)), q + n))
  }

  /** A section of a kind the decoder does not know: its tag and its bytes. */
  class SaveSection {
    const name: string
    var length: int
    var rawDataFileOffset: int
    var rawData: seq<byte>

    constructor (name: string)
      ensures this.name == name && length == 0 && rawDataFileOffset == 0 && rawData == []
    {
      this.name := name;
      length := 0;
      rawDataFileOffset := 0;
      rawData := [];
    }

    function Contents(): Payload
      reads this
    {
      Payload(length, rawDataFileOffset, rawData)
    }

    /** SaveSection.ParseSection. */
    method ParseSection(file: ByteStream) returns (r: Result<()>)
      requires file.Valid()
      modifies this, file
      ensures file.Valid()
      ensures var spec := RawSpec(file.data, old(file.pos));
              (r.Ok? <==> spec.Ok?) &&
              (r.Ok? ==> Contents() == spec.value.payload && file.pos == spec.value.next) &&
              (r.Err? ==> r.error == spec.error)
    {
      length := file.Read4ByteInt();
      rawDataFileOffset := Wrap32(file.pos);
      if length < 0 {
        return Err(NegativeLength);
      }
      var buffer, _ := file.Read(length);
      rawData := buffer;
      r := Ok(());
    }
  }

  // ----- The byte-wise diff -----

  /** The old value of byte `i`: absent past the end of the old bytes. */
  function OldByte(od: Payload, i: nat): Value {
    if i < |od.rawData| then Byte(od.rawData[i]) else Absent
  }

  /** Byte `i` of the new bytes is reported: it is past the old bytes or differs. */
  predicate Differs(nw: Payload, od: Payload, i: nat)
    requires i < |nw.rawData|
  {
    i >= |od.rawData| || nw.rawData[i] != od.rawData[i]
  }

  /** The entry reported for byte `i` of the new bytes. */
  function Expected(nw: Payload, od: Payload, i: nat): SectionDifference
    requires i < |nw.rawData|
  {
    SectionDifference(FileOffset(Wrap32(i + nw.offset)), OldByte(od, i), Byte(nw.rawData[i]))
  }

  /** The entry for a byte only the old section has, at the old section's offset. */
  function OldOnly(od: Payload, i: nat): SectionDifference
    requires i < |od.rawData|
  {
    SectionDifference(FileOffset(Wrap32(i + od.offset)), Byte(od.rawData[i]), Absent)
  }

  /** The "Length" entry, present when the byte counts differ. It shows the
      declared lengths, which for a compressed section are the compressed ones. */
  function LengthEntries(nw: Payload, od: Payload): seq<SectionDifference> {
    if |nw.rawData| != |od.rawData| then [SectionDifference(LengthField, Number(od.length), Number(nw.length))] else []
  }

  /** The first loop's entries for bytes `0 .. n-1` of the new section. */
  function ByteEntries(nw: Payload, od: Payload, n: nat): seq<SectionDifference>
    requires n <= |nw.rawData|
  {
    if n == 0 then []
    else ByteEntries(nw, od, n - 1) + (if Differs(nw, od, n - 1) then [Expected(nw, od, n - 1)] else [])
  }

  /** The second loop's entries, for bytes `lo .. hi-1` of the old section. */
  function OldOnlyEntries(od: Payload, lo: nat, hi: nat): seq<SectionDifference>
    requires lo <= hi <= |od.rawData|
    decreases hi - lo
  {
    if lo == hi then [] else OldOnlyEntries(od, lo, hi - 1) + [OldOnly(od, hi - 1)]
  }

  /** SaveSection.Diff as written: the second loop starts at the old length and
      so never runs. */
  function DiffAsWritten(nw: Payload, od: Payload): seq<SectionDifference> {
    LengthEntries(nw, od) + ByteEntries(nw, od, |nw.rawData|) +
    (if |od.rawData| > |nw.rawData| then OldOnlyEntries(od, |od.rawData|, |od.rawData|) else [])
  }

  /** The diff with the second loop starting at the new length, so that bytes
      only the old section has are reported too. */
  function Diff(nw: Payload, od: Payload): seq<SectionDifference> {
    LengthEntries(nw, od) + ByteEntries(nw, od, |nw.rawData|) +
    (if |od.rawData| > |nw.rawData| then OldOnlyEntries(od, |nw.rawData|, |od.rawData|) else [])
  }

  /** SaveSection.Diff, the new section `nw` against the old section `od`. */
  method DiffBytes(nw: Payload, od: Payload) returns (diffs: seq<SectionDifference>)
    ensures diffs == Diff(nw, od)
  {
    diffs := [];
    if |nw.rawData| != |od.rawData| {
      diffs := diffs + [SectionDifference(LengthField, Number(od.length), Number(nw.length))];
    }
    ghost var head := diffs;
    for i := 0 to |nw.rawData|
      invariant diffs == head + ByteEntries(nw, od, i)
    {
      if i >= |od.rawData| {
        diffs := diffs + [SectionDifference(FileOffset(Wrap32(i + nw.offset)), Absent, Byte(nw.rawData[i]))];
      } else if nw.rawData[i] != od.rawData[i] {
        diffs := diffs + [SectionDifference(FileOffset(Wrap32(i + nw.offset)), Byte(od.rawData[i]), Byte(nw.rawData[i]))];
      }
    }
    if |od.rawData| > |nw.rawData| {
      ghost var mid := diffs;
      for i := |nw.rawData| to |od.rawData|
        invariant diffs == mid + OldOnlyEntries(od, |nw.rawData|, i)
      {
        diffs := diffs + [SectionDifference(FileOffset(Wrap32(i + od.offset)), Byte(od.rawData[i]), Absent)];
      }
    }
  }

  // ----- Properties of the diff -----

  lemma {:induction false} ByteEntriesSelf(p: Payload, n: nat)
    requires n <= |p.rawData|
    ensures ByteEntries(p, p, n) == []
  {
    if n > 0 {
      ByteEntriesSelf(p, n - 1);
    }
  }

  /** A section compared with itself has no differences. */
  lemma DiffSelfEmpty(p: Payload)
    ensures Diff(p, p) == []
  {
    ByteEntriesSelf(p, |p.rawData|);
  }

  /** Every byte entry names a file offset in `[off, off + n)`, at most one
      entry per byte, in increasing order of offset, each for a byte that
      differs, and every byte that differs has its entry. Offsets are those of a
      file smaller than 2 GiB, so the 32-bit sum needs no wrap. */
  lemma {:induction false} ByteEntriesShape(nw: Payload, od: Payload, n: nat)
    requires n <= |nw.rawData|
    requires 0 <= nw.offset && nw.offset + |nw.rawData| <= TwoTo31
    ensures var r := ByteEntries(nw, od, n);
            |r| <= n &&
            (forall k :: 0 <= k < |r| ==>
               r[k].fieldName.FileOffset? && nw.offset <= r[k].fieldName.offset < nw.offset + n) &&
            (forall a, b :: 0 <= a < b < |r| ==> r[a].fieldName.offset < r[b].fieldName.offset) &&
            (forall e :: e in r ==> exists i :: 0 <= i < n && Differs(nw, od, i) && e == Expected(nw, od, i)) &&
            (forall i :: 0 <= i < n && Differs(nw, od, i) ==> Expected(nw, od, i) in r)
  {
    if n > 0 {
      ByteEntriesShape(nw, od, n - 1);
      var r := ByteEntries(nw, od, n);
      var r0 := ByteEntries(nw, od, n - 1);
      assert Wrap32(n - 1 + nw.offset) == n - 1 + nw.offset;
      if Differs(nw, od, n - 1) {
        assert r == r0 + [Expected(nw, od, n - 1)];
        forall e | e in r
          ensures exists i :: 0 <= i < n && Differs(nw, od, i) && e == Expected(nw, od, i)
        {
          if e !in r0 {
            assert e == Expected(nw, od, n - 1);
          }
        }
      } else {
        assert r == r0;
      }
    }
  }

  /** Every byte entry names a file offset. */
  lemma {:induction false} ByteEntriesAreOffsets(nw: Payload, od: Payload, n: nat)
    requires n <= |nw.rawData|
    ensures forall e :: e in ByteEntries(nw, od, n) ==> e.fieldName.FileOffset?
  {
    if n > 0 {
      ByteEntriesAreOffsets(nw, od, n - 1);
    }
  }

  /** The "Length" entry comes first when, and only when, the byte counts differ. */
  lemma DiffLengthEntry(nw: Payload, od: Payload)
    ensures var r := Diff(nw, od);
            (|nw.rawData| != |od.rawData|) <==>
            (|r| > 0 && r[0] == SectionDifference(LengthField, Number(od.length), Number(nw.length)))
  {
    ByteEntriesAreOffsets(nw, od, |nw.rawData|);
    var bytes := ByteEntries(nw, od, |nw.rawData|);
    if |nw.rawData| == |od.rawData| && |bytes| > 0 {
      assert Diff(nw, od)[0] == bytes[0];
    }
  }

  /** Past the end of `nw`, the entries of `od` against `nw` are the old-only
      entries of `od`, swapped. */
  lemma {:induction false} OldOnlySwaps(nw: Payload, od: Payload, lo: nat, hi: nat)
    requires |nw.rawData| <= lo <= hi <= |od.rawData|
    ensures ByteEntries(od, nw, hi) == ByteEntries(od, nw, lo) + SwapAll(OldOnlyEntries(od, lo, hi))
    decreases hi - lo
  {
    if lo < hi {
      OldOnlySwaps(nw, od, lo, hi - 1);
      assert Differs(od, nw, hi - 1);
      assert Swap(OldOnly(od, hi - 1)) == Expected(od, nw, hi - 1);
      SwapAllConcat(OldOnlyEntries(od, lo, hi - 1), [OldOnly(od, hi - 1)]);
    }
  }

  lemma {:induction false} ByteEntriesPrefix(nw: Payload, od: Payload, lo: nat, hi: nat)
    requires lo <= hi <= |nw.rawData|
    ensures ByteEntries(nw, od, lo) <= ByteEntries(nw, od, hi)
    decreases hi - lo
  {
    if lo < hi {
      ByteEntriesPrefix(nw, od, lo, hi - 1);
    }
  }

  /** Over the bytes both sections have, the diff one way is the other way swapped. */
  lemma {:induction false} CommonSwaps(nw: Payload, od: Payload, n: nat)
    requires n <= |nw.rawData| && n <= |od.rawData| && nw.offset == od.offset
    ensures SwapAll(ByteEntries(nw, od, n)) == ByteEntries(od, nw, n)
  {
    if n > 0 {
      CommonSwaps(nw, od, n - 1);
      if Differs(nw, od, n - 1) {
        assert Swap(Expected(nw, od, n - 1)) == Expected(od, nw, n - 1);
        assert SwapAll(ByteEntries(nw, od, n)) == SwapAll(ByteEntries(nw, od, n - 1)) + [Swap(Expected(nw, od, n - 1))];
      }
    }
  }

  /** With the second loop in place, swapping the sections swaps every byte
      entry: a byte only the old section has is reported like a byte only the
      new section has. */
  lemma DiffSymmetric(nw: Payload, od: Payload)
    requires nw.offset == od.offset
    ensures SwapAll(Diff(nw, od)) == Diff(od, nw)
  {
    if |nw.rawData| <= |od.rawData| {
      DiffSymmetricUpTo(nw, od);
    } else {
      DiffSymmetricUpTo(od, nw);
      SwapAllTwice(Diff(od, nw));
    }
  }

  /** DiffSymmetric when the new section is not the longer one. */
  lemma DiffSymmetricUpTo(nw: Payload, od: Payload)
    requires nw.offset == od.offset && |nw.rawData| <= |od.rawData|
    ensures SwapAll(Diff(nw, od)) == Diff(od, nw)
  {
    var n, m := |nw.rawData|, |od.rawData|;
    var len := LengthEntries(nw, od);
    var common := ByteEntries(nw, od, n);
    var rest := if m > n then OldOnlyEntries(od, n, m) else [];
    assert Diff(nw, od) == len + common + rest;
    assert SwapAll(len) == LengthEntries(od, nw);
    CommonSwaps(nw, od, n);
    OldOnlySwaps(nw, od, n, m);
    assert Diff(od, nw) == LengthEntries(od, nw) + ByteEntries(od, nw, m);
    SwapAllConcat(len, common);
    SwapAllConcat(len + common, rest);
  }

  /** As written, the diff is not symmetric: the byte only the old section has
      is never reported. */
  lemma AsWrittenMissesOldBytes()
    ensures DiffAsWritten(Payload(1, 0, [1]), Payload(2, 0, [1, 2])) ==
            [SectionDifference(LengthField, Number(2), Number(1))]
    ensures DiffAsWritten(Payload(2, 0, [1, 2]), Payload(1, 0, [1])) ==
            [SectionDifference(LengthField, Number(1), Number(2)), SectionDifference(FileOffset(1), Absent, Byte(2))]
  {
  }
}
