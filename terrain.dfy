/** SimCity2000Parser/TerrainSection.cs: the XTER section, one compressed byte
    per tile giving the kind of terrain and its slope. */
module TerrainSection {
  import opened StreamUtils
  import opened Failures
  import opened Grid
  import opened SaveSection
  import CompressedSaveSection

  datatype TerrainType =
    | DryLand | Submerged | PartiallySubmerged | SurfaceWater | Waterfall
    | CanalEastWest | CanalNorthSouth | BaySouth | BayEast | BayNorth | BayWest

  /** Slopes seen from the high ground towards the low ground. */
  datatype TerrainSlope =
    | LowFlat | South | West | North | East
    | SouthWest | NorthWest | NorthEast | SouthEast
    | SouthWestTerrace | NorthWestTerrace | NorthEastTerrace | SouthEastTerrace
    | HighFlat

  /** The position of a slope in its enumeration. */
  function SlopeOrdinal(s: TerrainSlope): (k: nat)
    ensures k < 14
  {
    match s
    case LowFlat => 0 case South => 1 case West => 2 case North => 3 case East => 4
    case SouthWest => 5 case NorthWest => 6 case NorthEast => 7 case SouthEast => 8
    case SouthWestTerrace => 9 case NorthWestTerrace => 10 case NorthEastTerrace => 11
    case SouthEastTerrace => 12 case HighFlat => 13
  }

  /** The switch on the slope code; a code it does not list leaves the slope at
      the enumeration's default, LowFlat. */
  function SlopeOf(code: byte): TerrainSlope {
    match code
    case 1 => South case 2 => West case 3 => North case 4 => East
    case 5 => SouthWest case 6 => NorthWest case 7 => NorthEast case 8 => SouthEast
    case 9 => SouthWestTerrace case 10 => NorthWestTerrace case 11 => NorthEastTerrace
    case 12 => SouthEastTerrace case 13 => HighFlat
    case _ => LowFlat
  }

  /** Slope code `k` in 0..13 is the `k`-th slope, and every slope has a code. */
  lemma SlopeCodesAreOrdinals()
    ensures forall k: byte :: k < 14 ==> SlopeOrdinal(SlopeOf(k)) == k
    ensures forall s :: SlopeOf(SlopeOrdinal(s)) == s
    ensures forall k: byte :: k >= 14 ==> SlopeOf(k) == LowFlat
  {
  }

  datatype TerrainDescriptor = TerrainDescriptor(terrainType: TerrainType, slope: TerrainSlope, data: byte)

  /** The kind of terrain of a byte, as the if/else chain of the
      TerrainDescriptor constructor assigns it; an unlisted byte leaves the
      enumeration's default, DryLand. */
  function TypeOf(data: byte): TerrainType {
    if data <= 0xD then DryLand
    else if 0x10 <= data <= 0x1D then Submerged
    else if 0x20 <= data <= 0x2D then PartiallySubmerged
    else if 0x30 <= data <= 0x3D then SurfaceWater
    else if data == 0x3E then Waterfall
    else if data == 0x40 then CanalEastWest
    else if data == 0x41 then CanalNorthSouth
    else if data == 0x42 then BaySouth
    else if data == 0x43 then BayEast
    else if data == 0x44 then BayNorth
    else if data == 0x45 then BayWest
    else DryLand
  }

  /** The slope code: the byte itself for dry land, its low nibble (`& 0xF`) for
      the three water ranges, 0 otherwise. */
  function SlopeCode(data: byte): byte {
    if data <= 0xD then data
    else if 0x10 <= data <= 0x1D || 0x20 <= data <= 0x2D || 0x30 <= data <= 0x3D then data % 0x10
    else 0
  }

  /** The TerrainDescriptor constructor on the byte it reads. */
  function Describe(data: byte): TerrainDescriptor {
    TerrainDescriptor(TypeOf(data), SlopeOf(SlopeCode(data)), data)
  }

  /** The decoding table: the four ranges of sloped terrain, the special bytes
      with a flat slope, and every other byte as flat dry land. */
  lemma DescribeTable(b: byte)
    ensures b <= 0xD ==> Describe(b).terrainType == DryLand && Describe(b).slope == SlopeOf(b)
    ensures 0x10 <= b <= 0x1D ==> Describe(b).terrainType == Submerged && Describe(b).slope == SlopeOf(b - 0x10)
    ensures 0x20 <= b <= 0x2D ==> Describe(b).terrainType == PartiallySubmerged && Describe(b).slope == SlopeOf(b - 0x20)
    ensures 0x30 <= b <= 0x3D ==> Describe(b).terrainType == SurfaceWater && Describe(b).slope == SlopeOf(b - 0x30)
    ensures b == 0x3E ==> Describe(b).terrainType == Waterfall
    ensures b == 0x40 ==> Describe(b).terrainType == CanalEastWest
    ensures b == 0x41 ==> Describe(b).terrainType == CanalNorthSouth
    ensures b == 0x42 ==> Describe(b).terrainType == BaySouth
    ensures b == 0x43 ==> Describe(b).terrainType == BayEast
    ensures b == 0x44 ==> Describe(b).terrainType == BayNorth
    ensures b == 0x45 ==> Describe(b).terrainType == BayWest
    ensures (0x3E <= b <= 0x45 && b != 0x3F) ==> Describe(b).slope == LowFlat
    ensures (b == 0xE || b == 0xF || b == 0x1E || b == 0x1F || b == 0x2E || b == 0x2F || b == 0x3F || b >= 0x46) ==>
              Describe(b) == TerrainDescriptor(DryLand, LowFlat, b)
  {
    if b < 0x10 {
    } else if b < 0x20 {
      assert b <= 0x1D ==> SlopeCode(b) == b - 0x10;
    } else if b < 0x30 {
      assert b <= 0x2D ==> SlopeCode(b) == b - 0x20;
    } else if b < 0x40 {
      assert b <= 0x3D ==> SlopeCode(b) == b - 0x30;
    } else {
    }
  }

  /** Every byte has a slope code in 0..13, so the switch always picks a slope. */
  lemma SlopeCodeInRange(b: byte)
    ensures SlopeCode(b) < 14
    ensures SlopeOrdinal(Describe(b).slope) == SlopeCode(b)
  {
    SlopeCodesAreOrdinals();
  }

  /** The XTER section. */
  class TerrainSection {
    const name: string := "XTER"
    var length: int
    var rawDataFileOffset: int
    var rawData: seq<byte>
    var terrain: array2<TerrainDescriptor>

    ghost predicate Valid()
      reads this
    {
      terrain.Length0 == Size && terrain.Length1 == Size
    }

    constructor ()
      ensures Valid() && fresh(terrain) && length == 0 && rawDataFileOffset == 0 && rawData == []
    {
      length := 0;
      rawDataFileOffset := 0;
      rawData := [];
      terrain := new TerrainDescriptor[128, 128]((i, j) => Describe(0));
    }

    function Contents(): Payload
      reads this
    {
      Payload(length, rawDataFileOffset, rawData)
    }

    /** What ParseSection leaves: every tile describes its flipped byte. */
    ghost predicate Decoded()
      reads this, terrain
    {
      Valid() && |rawData| >= Tiles &&
      forall x, y :: InGrid(x, y) ==> terrain[x, y] == Describe(rawData[SourceIndex(x, y)])
    }

    /** TerrainSection.ParseSection: decompress, describe each byte, fill the
        grid. Fewer than 16384 bytes fail with an index out of range. */
    method ParseSection(file: ByteStream) returns (r: Result<()>)
      requires file.Valid() && Valid()
      modifies this, file, terrain
      ensures file.Valid() && Valid() && terrain == old(terrain)
      ensures var spec := CompressedSaveSection.ParseSpec(file.data, old(file.pos));
              (r.Ok? <==> spec.Ok? && |spec.value.payload.rawData| >= Tiles) &&
              (r.Err? && spec.Err? ==> r.error == spec.error) &&
              (r.Err? && spec.Ok? ==> r.error == IndexOutOfRange) &&
              (r.Ok? ==> Contents() == spec.value.payload && file.pos == spec.value.next &&
                         forall x, y :: InGrid(x, y) ==> terrain[x, y] == Describe(rawData[SourceIndex(x, y)]))
    {
      var payload := CompressedSaveSection.ParseSection(file);
      if payload.Err? {
        return Err(payload.error);
      }
      length, rawDataFileOffset, rawData := payload.value.length, payload.value.offset, payload.value.rawData;
      var descriptors := ReadEach(rawData, Describe);
      if |descriptors| < Tiles {
        return Err(IndexOutOfRange);
      }
      Fill(terrain, descriptors);
      r := Ok(());
    }
  }
}
