/** The XZON section of SimCity2000Parser/ZoneSection.cs: one zone byte per
    tile, described with the view rotation of the MISC section read before it,
    flipped into a 128 x 128 grid, then linked into multi-tile footprints. */
module ZoneSection {
  import opened StreamUtils
  import opened Failures
  import opened Grid
  import opened SaveSection
  import opened ZoneDescriptor
  import opened ZoneTopology
  import CompressedSaveSection
  import MiscSection

  /** The descriptors of the payload bytes, in order. Every byte is read with
      the same rotation, so the loop fails exactly when the rotation is missing
      and some byte has a corner bit. */
  function Descriptors(rotation: Result<int>, raw: seq<byte>): (r: Result<seq<ZoneDescriptor>>)
    ensures r.Err? <==> rotation.Err? && exists k :: 0 <= k < |raw| && raw[k] >= 0x10
    ensures r.Err? ==> r.error == rotation.error
    ensures r.Ok? ==> |r.value| == |raw| &&
                      forall k :: 0 <= k < |raw| ==> Describe(rotation, raw[k]) == Ok(r.value[k])
    decreases |raw|
  {
    if raw == [] then Ok([])
    else
      match Describe(rotation, raw[0])
      case Err(e) => assert 0 <= 0 < |raw| && raw[0] >= 0x10; Err(e)
      case Ok(d) =>
        match Descriptors(rotation, raw[1..])
        case Err(e) =>
          assert exists k :: 0 <= k < |raw| && raw[k] >= 0x10 by {
            var k :| 0 <= k < |raw[1..]| && raw[1..][k] >= 0x10;
            assert 0 <= k + 1 < |raw| && raw[k + 1] >= 0x10;
          }
          Err(e)
        case Ok(ds) =>
          assert forall k :: 0 <= k < |raw| ==> Describe(rotation, raw[k]) == Ok(([d] + ds)[k]) by {
            forall k | 0 <= k < |raw|
              ensures Describe(rotation, raw[k]) == Ok(([d] + ds)[k])
            {
              if k > 0 {
                assert raw[k] == raw[1..][k - 1];
              }
            }
          }
          Ok([d] + ds)
  }

  /** The descriptor loop of ZoneSection.ParseSection over a MemoryStream on
      the payload. */
  method ReadZones(raw: seq<byte>, rotation: Result<int>) returns (r: Result<seq<ZoneDescriptor>>)
    ensures r == Descriptors(rotation, raw)
  {
    var ms := new ByteStream(raw);
    var ds: seq<ZoneDescriptor> := [];
    while ms.pos < |ms.data|
      invariant ms.Valid() && ms.data == raw && |ds| == ms.pos
      invariant forall k :: 0 <= k < |ds| ==> Describe(rotation, raw[k]) == Ok(ds[k])
      decreases |ms.data| - ms.pos
    {
      ghost var p := ms.pos;
      var b := ms.ReadByte();
      var d := Describe(rotation, b);
      if d.Err? {
        assert 0 <= p < |raw| && raw[p] >= 0x10;
        return Err(d.error);
      }
      ds := ds + [d.value];
    }
    var spec := Descriptors(rotation, raw);
    assert spec.Ok? ==> spec.value == ds;
    r := Ok(ds);
  }

  /** The grid the section ends up with, or the error that stops it: the
      descriptor loop, the fill (which needs 16384 cells) and the footprint pass. */
  function Zones(rotation: Result<int>, raw: seq<byte>): (r: Result<ZoneGrid>)
    ensures r.Ok? ==> IsGrid(r.value)
  {
    match Descriptors(rotation, raw)
    case Err(e) => Err(e)
    case Ok(ds) =>
      if |ds| < Tiles then Err(IndexOutOfRange)
      else Topology(Flipped(ds))
  }

  /** Everything ZoneSection.ParseSection does after decompressing: the
      descriptor loop, the fill and the footprint pass. */
  method DecodeZones(zone: array2<ZoneDescriptor>, raw: seq<byte>, rotation: Result<int>) returns (r: Result<()>)
    requires zone.Length0 == Size && zone.Length1 == Size
    modifies zone
    ensures var z := Zones(rotation, raw);
            (r.Ok? <==> z.Ok?) && (r.Err? ==> r.error == z.error) &&
            (r.Ok? ==> forall x, y :: InGrid(x, y) ==> zone[x, y] == z.value[x][y])
  {
    var descriptors := ReadZones(raw, rotation);
    if descriptors.Err? {
      return Err(descriptors.error);
    }
    if |descriptors.value| < Tiles {
      return Err(IndexOutOfRange);
    }
    Fill(zone, descriptors.value);
    FilledRows(zone, descriptors.value);
    r := LinkFootprints(zone);
  }

  /** A tile before the pass: no footprint. */
  const Blank: ZoneDescriptor := ZoneDescriptor(0, {}, 0, 0, false, 0, 0)

  /** The XZON section. `miscSection` is the MISC section the factory links in
      before parsing and the save file links again after reading all sections. */
  class ZoneSection {
    const name: string := "XZON"
    var length: int
    var rawDataFileOffset: int
    var rawData: seq<byte>
    var zone: array2<ZoneDescriptor>
    var miscSection: MiscSection.MiscSection?

    ghost predicate Valid()
      reads this`zone
    {
      zone.Length0 == Size && zone.Length1 == Size
    }

    constructor ()
      ensures Valid() && fresh(zone) && miscSection == null
      ensures length == 0 && rawDataFileOffset == 0 && rawData == []
    {
      length := 0;
      rawDataFileOffset := 0;
      rawData := [];
      zone := new ZoneDescriptor[128, 128]((i, j) => Blank);
      miscSection := null;
    }

    function Contents(): Payload
      reads this`length, this`rawDataFileOffset, this`rawData
    {
      Payload(length, rawDataFileOffset, rawData)
    }

    /** What ParseSection leaves with the view rotation `rotation`: the grid
        Zones gives for RawData. */
    ghost predicate Decoded(rotation: Result<int>)
      reads this`rawData, this`zone, zone
    {
      Valid() && Zones(rotation, rawData).Ok? &&
      forall x, y :: InGrid(x, y) ==> zone[x, y] == Zones(rotation, rawData).value[x][y]
    }

    /** ZoneSection.ParseSection: decompress, describe each byte with the
        MISC rotation, fill the grid, link the footprints. */
    method ParseSection(file: ByteStream) returns (r: Result<()>)
      requires file.Valid() && Valid() && miscSection != null
      modifies this, file, zone
      ensures file.Valid() && Valid() && zone == old(zone) && miscSection == old(miscSection)
      ensures var spec := CompressedSaveSection.ParseSpec(file.data, old(file.pos));
              (spec.Err? ==> r == Err(spec.error)) &&
              (spec.Ok? ==>
                 Contents() == spec.value.payload && file.pos == spec.value.next &&
                 var z := Zones(miscSection.Rotation(), rawData);
                 (r.Ok? <==> z.Ok?) && (r.Err? ==> r.error == z.error) &&
                 (r.Ok? ==> forall x, y :: InGrid(x, y) ==> zone[x, y] == z.value[x][y]))
    {
      var payload := CompressedSaveSection.ParseSection(file);
      if payload.Err? {
        return Err(payload.error);
      }
      length, rawDataFileOffset, rawData := payload.value.length, payload.value.offset, payload.value.rawData;
      r := DecodeZones(zone, rawData, miscSection.Rotation());
    }
  }

  /** What a parsed tile holds: the kind of zone of its byte, and either no
      footprint or the footprint of a building that starts at a top-left tile
      of the grid, holds the tile and stays inside the grid. */
  lemma ZoneTiles(rotation: Result<int>, raw: seq<byte>, x: int, y: int)
    requires Zones(rotation, raw).Ok? && InGrid(x, y)
    ensures |raw| >= Tiles
    ensures var d := Zones(rotation, raw).value[x][y];
            d.zoneType == raw[SourceIndex(x, y)] % 0x10 &&
            (d.isMultiTile ==>
               InGrid(d.originX, d.originY) &&
               d.originX <= x < d.originX + d.lengthX && d.originY <= y < d.originY + d.lengthY &&
               d.originX + d.lengthX <= Size && d.originY + d.lengthY <= Size)
  {
    var ds := Descriptors(rotation, raw).value;
    var g := Flipped(ds);
    FlipBijective();
    var k := SourceIndex(x, y);
    assert g[x][y] == ds[k];
    assert Describe(rotation, raw[k]) == Ok(ds[k]);
    DescribeNeedsRotationForCorners(rotation, raw[k]);
    TopologyCells(g, x, y);
  }
}
