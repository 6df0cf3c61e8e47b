/** SimCity2000Parser/AltitudeSection.cs: the ALTM section, an uncompressed
    block of big-endian 16-bit cells, one per tile. */
module AltitudeSection {
  import opened StreamUtils
  import opened Failures
  import opened SectionDifference
  import opened Grid

  /** One tile's altitude cell, the value Read2ByteInt returned: the low five
      bits are the altitude in hundreds of feet, bit 0x80 marks the tile as
      under water. */
  datatype AltitudeDescriptor = AltitudeDescriptor(rawValue: int)
  {
    predicate Valid() {
      0 <= rawValue < 0x1_0000
    }

    function Altitude(): (a: int)
      requires Valid()
      ensures 0 <= a < 32
    {
      ((rawValue as bv16) & 0x1F) as int
    }

    predicate WaterCovered()
      requires Valid()
    {
      (rawValue as bv16) & 0x80 != 0
    }
  }

  /** The water flag is bit 7 of the raw value. */
  lemma WaterBit(raw: int)
    requires 0 <= raw < 0x1_0000
    ensures AltitudeDescriptor(raw).WaterCovered() <==> (raw / 0x80) % 2 == 1
  {
  }

  /** The bits the decoder does not understand, which it only reports on the
      debug output. */
  predicate UnknownBits(raw: int)
    requires 0 <= raw < 0x1_0000
  {
    (raw as bv16) & 0xFF60 != 0
  }

  /** AltitudeDescriptor.Equals: the altitude and the water flag, not the raw value. */
  predicate Equals(a: AltitudeDescriptor, b: AltitudeDescriptor)
    requires a.Valid() && b.Valid()
  {
    a.Altitude() == b.Altitude() && a.WaterCovered() == b.WaterCovered()
  }

  /** Two cells are equal exactly when they agree on the bits 0x9F. Every other
      bit is one of the unknown bits 0xFF60: setting or clearing it never
      changes what a cell decodes to. */
  lemma EqualsExactlyOnKnownBits(r1: int, r2: int)
    requires 0 <= r1 < 0x1_0000 && 0 <= r2 < 0x1_0000
    ensures Equals(AltitudeDescriptor(r1), AltitudeDescriptor(r2)) <==> (r1 as bv16) & 0x9F == (r2 as bv16) & 0x9F
    ensures (0x9F as bv16) & 0xFF60 == 0 && (0x9F as bv16) | 0xFF60 == 0xFFFF
  {
  }

  /** Two cells decoded: 0x0085 is altitude 5 under water, and 0x0020 is dry
      at altitude 0 with one of the unknown bits set, so the decoder writes its
      debug line for it. */
  lemma DecodeExamples()
    ensures AltitudeDescriptor(0x85).Altitude() == 5 && AltitudeDescriptor(0x85).WaterCovered()
    ensures !UnknownBits(0x85)
    ensures AltitudeDescriptor(0x20).Altitude() == 0 && !AltitudeDescriptor(0x20).WaterCovered()
    ensures UnknownBits(0x20)
  {
  }

  /** One pass of ParseSection's loop body, as written: a cell and the position
      after its two bytes. */
  function ReadCell(data: seq<byte>, p: nat): (AltitudeDescriptor, nat) {
    (AltitudeDescriptor(Int16BE(ByteAt(data, p), ByteAt(data, p + 1))), Advance(data, p, 2))
  }

  /** At the end of the stream the loop body reads 0xFFFF and leaves the
      position where it was. */
  lemma ReadCellStallsAtEnd(data: seq<byte>)
    ensures ReadCell(data, |data|) == (AltitudeDescriptor(0xFFFF), |data|)
    ensures AltitudeDescriptor(0xFFFF).Altitude() == 31 && AltitudeDescriptor(0xFFFF).WaterCovered()
  {
  }

  /** The cells read from `p` while the position is below `end`, failing with
      TruncatedSection where the loop as written would never end. */
  function Cells(data: seq<byte>, p: nat, end: int): (r: Result<(seq<AltitudeDescriptor>, nat)>)
    requires p <= |data|
    ensures r.Ok? ==> p <= r.value.1 <= |data| && end <= r.value.1
    ensures r.Ok? ==> forall k :: 0 <= k < |r.value.0| ==> r.value.0[k].Valid()
    decreases |data| - p
  {
    if p >= end then Ok(([], p))
    else if p == |data| then Err(TruncatedSection)
    else
      var (d, q) := ReadCell(data, p);
      PrependCells([d], Cells(data, q, end))
  }

  /** Puts `pre` in front of the cells of a successful read. */
  function PrependCells(pre: seq<AltitudeDescriptor>, r: Result<(seq<AltitudeDescriptor>, nat)>): Result<(seq<AltitudeDescriptor>, nat)> {
    match r
    case Err(e) => Err(e)
    case Ok((ds, next)) => Ok((pre + ds, next))
  }

  lemma PrependCellsTwice(a: seq<AltitudeDescriptor>, b: seq<AltitudeDescriptor>, r: Result<(seq<AltitudeDescriptor>, nat)>)
    ensures PrependCells(a, PrependCells(b, r)) == PrependCells(a + b, r)
  {
    if r.Ok? {
      assert a + (b + r.value.0) == (a + b) + r.value.0;
    }
  }

  lemma PrependNoCells(r: Result<(seq<AltitudeDescriptor>, nat)>)
    ensures PrependCells([], r) == r
  {
    if r.Ok? {
      assert [] + r.value.0 == r.value.0;
    }
  }

  /** A declared end past the end of the stream always fails: a successful
      read ends within the stream and at or past the declared end. */
  lemma TruncatedCellsFail(data: seq<byte>, p: nat, end: int)
    requires p <= |data| < end
    ensures Cells(data, p, end).Err?
  {
  }

  /** The number of cells: one per two bytes consumed, the last one counting
      when the stream ends after its first byte. The read stops within one
      byte past the declared end, so an in-stream body of `Length` bytes gives
      `Length / 2` cells, rounded up. */
  lemma {:induction false} CellsCount(data: seq<byte>, p: nat, end: int)
    requires p <= |data| && Cells(data, p, end).Ok?
    ensures var (cs, next) := Cells(data, p, end).value;
            |cs| == (next - p + 1) / 2 && (p < end ==> next <= end + 1) &&
            (p >= end ==> cs == [] && next == p)
    decreases |data| - p
  {
    if p < end {
      var q := ReadCell(data, p).1;
      CellsCount(data, q, end);
      if q >= end {
        assert Cells(data, q, end).value == ([], q);
      }
    }
  }

  /** An even number of bytes inside the stream, up to the declared end, reads
      exactly one cell per pair: a 32768-byte ALTM body gives 16384 cells. */
  lemma {:induction false} EvenLengthCells(data: seq<byte>, p: nat, n: nat)
    requires p + 2 * n <= |data|
    ensures var r := Cells(data, p, p + 2 * n);
            r.Ok? && r.value.1 == p + 2 * n && |r.value.0| == n
    decreases n
  {
    if n > 0 {
      assert ReadCell(data, p).1 == p + 2;
      EvenLengthCells(data, p + 2, n - 1);
    }
  }

  /** A cell whose second byte lies past the end of the stream holds the last
      byte as its high byte and 0xFF as its low byte. */
  lemma {:induction false} CellsOddLast(data: seq<byte>, p: nat, end: int)
    requires p <= |data| && Cells(data, p, end).Ok?
    ensures var cs := Cells(data, p, end).value.0;
            forall k :: 0 <= k < |cs| && p + 2 * k + 1 == |data| ==>
              cs[k] == AltitudeDescriptor(Int16BE(data[|data| - 1], 0xFF))
    decreases |data| - p
  {
    if p < end {
      var q := ReadCell(data, p).1;
      CellsOddLast(data, q, end);
      if p + 1 < |data| {
        assert q == p + 2;
      } else {
        assert q == |data|;
        CellsCount(data, q, end);
      }
    }
  }

  /** Within the stream, the `k`-th cell is the big-endian pair at `p + 2k`. */
  lemma {:induction false} CellsAt(data: seq<byte>, p: nat, end: int)
    requires p <= |data| && Cells(data, p, end).Ok?
    ensures var cs := Cells(data, p, end).value.0;
            forall k :: 0 <= k < |cs| && p + 2 * k + 1 < |data| ==>
              cs[k] == AltitudeDescriptor(Int16BE(data[p + 2 * k], data[p + 2 * k + 1]))
    decreases |data| - p
  {
    if p < end {
      var q := ReadCell(data, p).1;
      CellsAt(data, q, end);
      if p + 1 < |data| {
        assert q == p + 2;
      }
    }
  }

  /** The loop of AltitudeSection.ParseSection: cells while the position is
      below `end`. */
  method ReadCells(file: ByteStream, end: int) returns (r: Result<seq<AltitudeDescriptor>>)
    requires file.Valid()
    modifies file
    ensures file.Valid()
    ensures var spec := Cells(file.data, old(file.pos), end);
            (r.Ok? <==> spec.Ok?) &&
            (r.Ok? ==> r.value == spec.value.0 && file.pos == spec.value.1) &&
            (r.Err? ==> r.error == spec.error)
  {
    ghost var start := file.pos;
    var data: seq<AltitudeDescriptor> := [];
    PrependNoCells(Cells(file.data, start, end));
    while file.pos < end
      invariant file.Valid() && start <= file.pos
      invariant Cells(file.data, start, end) == PrependCells(data, Cells(file.data, file.pos, end))
      decreases |file.data| - file.pos
    {
      if file.pos == |file.data| {
        // The source keeps reading 0xFFFF cells here and never leaves the loop.
        return Err(TruncatedSection);
      }
      ghost var p := file.pos;
      var raw := file.Read2ByteInt();
      assert ReadCell(file.data, p) == (AltitudeDescriptor(raw), file.pos);
      PrependCellsTwice(data, [AltitudeDescriptor(raw)], Cells(file.data, file.pos, end));
      data := data + [AltitudeDescriptor(raw)];
    }
    r := Ok(data);
  }

  /** The declared length, the offset after it, the cells and the position after them. */
  datatype Parsed = Parsed(length: int, offset: int, cells: seq<AltitudeDescriptor>, next: nat)

  /** ParseSection from position `p`, up to the grid fill. */
  function ParseSpec(data: seq<byte>, p: nat): (r: Result<Parsed>)
    requires p <= |data|
    ensures r.Ok? ==> Advance(data, p, 4) <= r.value.next <= |data|
  {
    var length := Int32BE(ByteAt(data, p), ByteAt(data, p + 1), ByteAt(data, p + 2), ByteAt(data, p + 3));
    var q := Advance(data, p, 4);
    var offset := Wrap32(q);
    match Cells(data, q, Wrap32(offset + length))
    case Err(e) => Err(e)
    case Ok((cells, next)) => Ok(Parsed(length, offset, cells, next))
  }

  /** A body that declares 32768 bytes and lies inside a file smaller than
      2 GiB gives exactly one cell per tile, so ParseSection succeeds on it. */
  lemma FullGridParses(data: seq<byte>, p: nat)
    requires p + 4 + 2 * Tiles <= |data| < TwoTo31
    requires Int32BE(ByteAt(data, p), ByteAt(data, p + 1), ByteAt(data, p + 2), ByteAt(data, p + 3)) == 2 * Tiles
    ensures var r := ParseSpec(data, p);
            r.Ok? && r.value.length == 2 * Tiles && r.value.offset == p + 4 &&
            |r.value.cells| == Tiles && r.value.next == p + 4 + 2 * Tiles
  {
    assert Advance(data, p, 4) == p + 4;
    EvenLengthCells(data, p + 4, Tiles);
  }

  /** The ALTM section. */
  class AltitudeSection {
    const name: string := "ALTM"
    var length: int
    var rawDataFileOffset: int
    var altitudeData: array2<AltitudeDescriptor>

    ghost predicate Valid()
      reads this, altitudeData
    {
      altitudeData.Length0 == Size && altitudeData.Length1 == Size &&
      forall x, y :: InGrid(x, y) ==> altitudeData[x, y].Valid()
    }

    constructor ()
      ensures length == 0 && rawDataFileOffset == 0
    {
      length := 0;
      rawDataFileOffset := 0;
      altitudeData := new AltitudeDescriptor[0, 0];
    }

    /** What ParseSection leaves: the grid holds `cells`, flipped. */
    ghost predicate Decoded(cells: seq<AltitudeDescriptor>)
      reads this, altitudeData
    {
      Valid() && |cells| >= Tiles && Filled(altitudeData, cells)
    }

    /** AltitudeSection.ParseSection. */
    method ParseSection(file: ByteStream) returns (r: Result<()>)
      requires file.Valid()
      modifies this, file
      ensures file.Valid()
      ensures var spec := ParseSpec(file.data, old(file.pos));
              (r.Ok? <==> spec.Ok? && |spec.value.cells| >= Tiles) &&
              (r.Err? && spec.Err? ==> r.error == spec.error) &&
              (r.Err? && spec.Ok? ==> r.error == IndexOutOfRange) &&
              (r.Ok? ==> Valid() && fresh(altitudeData) &&
                         length == spec.value.length && rawDataFileOffset == spec.value.offset &&
                         file.pos == spec.value.next && Filled(altitudeData, spec.value.cells))
    {
      length := file.Read4ByteInt();
      rawDataFileOffset := Wrap32(file.pos);
      var data := ReadCells(file, Wrap32(rawDataFileOffset + length));
      if data.Err? {
        return Err(data.error);
      }
      if |data.value| < Tiles {
        return Err(IndexOutOfRange);
      }
      altitudeData := new AltitudeDescriptor[128, 128]((i, j) => data.value[0]);
      Fill(altitudeData, data.value);
      FlipBijective();
      r := Ok(());
    }

    /** The entries of row `i` of AltitudeSection.Diff, in column order. */
    method DiffRow(oldSection: AltitudeSection, i: nat) returns (row: seq<SectionDifference>)
      requires Valid() && oldSection.Valid() && i < Size
      ensures row == RowEntries(Rows(altitudeData), Rows(oldSection.altitudeData), i, Size)
    {
      ghost var nw, od := Rows(altitudeData), Rows(oldSection.altitudeData);
      row := [];
      for j := 0 to 128
        invariant row == RowEntries(nw, od, i, j)
      {
        var o, n := oldSection.altitudeData[i, j], altitudeData[i, j];
        if !Equals(o, n) {
          row := row + [SectionDifference(Tile(j, i), AltitudeValue(o.Altitude(), o.WaterCovered()), AltitudeValue(n.Altitude(), n.WaterCovered()))];
        }
      }
    }

    /** AltitudeSection.Diff against `oldSection`, row by row. */
    method Diff(oldSection: AltitudeSection) returns (diffs: seq<SectionDifference>)
      requires Valid() && oldSection.Valid()
      ensures diffs == GridEntries(Rows(altitudeData), Rows(oldSection.altitudeData), Size)
    {
      ghost var nw, od := Rows(altitudeData), Rows(oldSection.altitudeData);
      diffs := [];
      for i := 0 to 128
        invariant diffs == GridEntries(nw, od, i)
      {
        var row := DiffRow(oldSection, i);
        diffs := diffs + row;
      }
    }
  }

  // ----- The diff over two grids given as rows -----

  predicate IsGrid(g: seq<seq<AltitudeDescriptor>>) {
    |g| == Size && forall x :: 0 <= x < Size ==> |g[x]| == Size && forall y :: 0 <= y < Size ==> g[x][y].Valid()
  }

  /** The entry for tile `[i, j]`, named "j, i" as the decoder writes it. */
  function TileEntry(nw: seq<seq<AltitudeDescriptor>>, od: seq<seq<AltitudeDescriptor>>, i: nat, j: nat): SectionDifference
    requires IsGrid(nw) && IsGrid(od) && InGrid(i, j)
  {
    SectionDifference(Tile(j, i), AltitudeValue(od[i][j].Altitude(), od[i][j].WaterCovered()),
                      AltitudeValue(nw[i][j].Altitude(), nw[i][j].WaterCovered()))
  }

  /** The entries for tiles `[i, 0 .. j-1]`. */
  function RowEntries(nw: seq<seq<AltitudeDescriptor>>, od: seq<seq<AltitudeDescriptor>>, i: nat, j: nat): seq<SectionDifference>
    requires IsGrid(nw) && IsGrid(od) && i < Size && j <= Size
  {
    if j == 0 then []
    else RowEntries(nw, od, i, j - 1) + (if !Equals(od[i][j - 1], nw[i][j - 1]) then [TileEntry(nw, od, i, j - 1)] else [])
  }

  /** The entries for rows `0 .. i-1`. */
  function GridEntries(nw: seq<seq<AltitudeDescriptor>>, od: seq<seq<AltitudeDescriptor>>, i: nat): seq<SectionDifference>
    requires IsGrid(nw) && IsGrid(od) && i <= Size
  {
    if i == 0 then [] else GridEntries(nw, od, i - 1) + RowEntries(nw, od, i - 1, Size)
  }

  /** Tile `[i, j]` differs when its (altitude, water) pair does. */
  predicate TileDiffers(nw: seq<seq<AltitudeDescriptor>>, od: seq<seq<AltitudeDescriptor>>, i: nat, j: nat)
    requires IsGrid(nw) && IsGrid(od) && InGrid(i, j)
  {
    !Equals(od[i][j], nw[i][j])
  }

  lemma {:induction false} RowEntriesSelf(g: seq<seq<AltitudeDescriptor>>, i: nat, j: nat)
    requires IsGrid(g) && i < Size && j <= Size
    ensures RowEntries(g, g, i, j) == []
  {
    if j > 0 {
      RowEntriesSelf(g, i, j - 1);
    }
  }

  lemma {:induction false} GridEntriesSelf(g: seq<seq<AltitudeDescriptor>>, i: nat)
    requires IsGrid(g) && i <= Size
    ensures GridEntries(g, g, i) == []
  {
    if i > 0 {
      GridEntriesSelf(g, i - 1);
      RowEntriesSelf(g, i - 1, Size);
    }
  }

  /** A grid compared with itself has no differences. */
  lemma DiffSelfEmpty(g: seq<seq<AltitudeDescriptor>>)
    requires IsGrid(g)
    ensures GridEntries(g, g, Size) == []
  {
    GridEntriesSelf(g, Size);
  }

  lemma {:induction false} RowEntriesExact(nw: seq<seq<AltitudeDescriptor>>, od: seq<seq<AltitudeDescriptor>>, i: nat, j: nat)
    requires IsGrid(nw) && IsGrid(od) && i < Size && j <= Size
    ensures forall e :: e in RowEntries(nw, od, i, j) ==>
              exists y :: 0 <= y < j && TileDiffers(nw, od, i, y) && e == TileEntry(nw, od, i, y)
    ensures forall y :: 0 <= y < j && TileDiffers(nw, od, i, y) ==> TileEntry(nw, od, i, y) in RowEntries(nw, od, i, j)
  {
    if j > 0 {
      RowEntriesExact(nw, od, i, j - 1);
    }
  }

  lemma {:induction false} GridEntriesSound(nw: seq<seq<AltitudeDescriptor>>, od: seq<seq<AltitudeDescriptor>>, i: nat)
    requires IsGrid(nw) && IsGrid(od) && i <= Size
    ensures forall e :: e in GridEntries(nw, od, i) ==>
              exists x, y :: 0 <= x < i && 0 <= y < Size && TileDiffers(nw, od, x, y) && e == TileEntry(nw, od, x, y)
  {
    if i > 0 {
      GridEntriesSound(nw, od, i - 1);
      RowEntriesExact(nw, od, i - 1, Size);
      var before, row := GridEntries(nw, od, i - 1), RowEntries(nw, od, i - 1, Size);
      assert GridEntries(nw, od, i) == before + row;
      forall e | e in before + row
        ensures exists x, y :: 0 <= x < i && 0 <= y < Size && TileDiffers(nw, od, x, y) && e == TileEntry(nw, od, x, y)
      {
        if e !in before {
          var y :| 0 <= y < Size && TileDiffers(nw, od, i - 1, y) && e == TileEntry(nw, od, i - 1, y);
        }
      }
    }
  }

  lemma {:induction false} GridEntriesComplete(nw: seq<seq<AltitudeDescriptor>>, od: seq<seq<AltitudeDescriptor>>, i: nat)
    requires IsGrid(nw) && IsGrid(od) && i <= Size
    ensures forall x, y :: 0 <= x < i && 0 <= y < Size && TileDiffers(nw, od, x, y) ==> TileEntry(nw, od, x, y) in GridEntries(nw, od, i)
  {
    if i > 0 {
      GridEntriesComplete(nw, od, i - 1);
      RowEntriesExact(nw, od, i - 1, Size);
      var before, row := GridEntries(nw, od, i - 1), RowEntries(nw, od, i - 1, Size);
      assert GridEntries(nw, od, i) == before + row;
      forall x, y | 0 <= x < i && 0 <= y < Size && TileDiffers(nw, od, x, y)
        ensures TileEntry(nw, od, x, y) in before + row
      {
        if x < i - 1 {
          assert TileEntry(nw, od, x, y) in before;
        } else {
          assert TileEntry(nw, od, x, y) in row;
        }
      }
    }
  }

  lemma {:induction false} RowEntriesSwap(nw: seq<seq<AltitudeDescriptor>>, od: seq<seq<AltitudeDescriptor>>, i: nat, j: nat)
    requires IsGrid(nw) && IsGrid(od) && i < Size && j <= Size
    ensures SwapAll(RowEntries(nw, od, i, j)) == RowEntries(od, nw, i, j)
  {
    if j > 0 {
      RowEntriesSwap(nw, od, i, j - 1);
      var last := if !Equals(od[i][j - 1], nw[i][j - 1]) then [TileEntry(nw, od, i, j - 1)] else [];
      SwapAllConcat(RowEntries(nw, od, i, j - 1), last);
      assert SwapAll(last) == (if !Equals(nw[i][j - 1], od[i][j - 1]) then [TileEntry(od, nw, i, j - 1)] else []);
    }
  }

  /** Two grids compared either way give the same tiles, in the same order,
      with old and new pairs swapped. */
  lemma {:induction false} GridEntriesSymmetric(nw: seq<seq<AltitudeDescriptor>>, od: seq<seq<AltitudeDescriptor>>, i: nat)
    requires IsGrid(nw) && IsGrid(od) && i <= Size
    ensures SwapAll(GridEntries(nw, od, i)) == GridEntries(od, nw, i)
  {
    if i > 0 {
      GridEntriesSymmetric(nw, od, i - 1);
      RowEntriesSwap(nw, od, i - 1, Size);
      SwapAllJoin(GridEntries(nw, od, i - 1), RowEntries(nw, od, i - 1, Size),
                  GridEntries(od, nw, i - 1), RowEntries(od, nw, i - 1, Size));
    }
  }

  /** A tile is reported, with its old pair before its new pair, exactly when
      its (altitude, water) pair differs; nothing else is reported. */
  lemma DiffReportsExactlyChangedTiles(nw: seq<seq<AltitudeDescriptor>>, od: seq<seq<AltitudeDescriptor>>)
    requires IsGrid(nw) && IsGrid(od)
    ensures forall x, y :: InGrid(x, y) ==>
              (TileEntry(nw, od, x, y) in GridEntries(nw, od, Size) <==> TileDiffers(nw, od, x, y))
    ensures forall e :: e in GridEntries(nw, od, Size) ==>
              e.fieldName.Tile? && InGrid(e.fieldName.y, e.fieldName.x) && TileDiffers(nw, od, e.fieldName.y, e.fieldName.x)
  {
    GridEntriesSound(nw, od, Size);
    GridEntriesComplete(nw, od, Size);
  }
}
