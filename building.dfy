/** The XBLD section of SimCity2000Parser/BuildingSection.cs: one building
    byte per tile, and the multi-tile queries it answers from the XZON section
    the save file links to it. */
module BuildingSection {
  import opened StreamUtils
  import opened Failures
  import opened Grid
  import opened SaveSection
  import CompressedSaveSection
  import ZoneSection

  /** A BuildingDescriptor: the BuildingType code of the tile, kept as the byte
      it is cast from. */
  datatype BuildingDescriptor = BuildingDescriptor(buildingType: byte)

  function Describe(b: byte): BuildingDescriptor {
    BuildingDescriptor(b)
  }

  /** The XBLD section. */
  class BuildingSection {
    const name: string := "XBLD"
    var length: int
    var rawDataFileOffset: int
    var rawData: seq<byte>
    var buildings: array2<BuildingDescriptor>
    var zoneSection: ZoneSection.ZoneSection?

    ghost predicate Valid()
      reads this`buildings
    {
      buildings.Length0 == Size && buildings.Length1 == Size
    }

    constructor ()
      ensures Valid() && fresh(buildings) && zoneSection == null
      ensures length == 0 && rawDataFileOffset == 0 && rawData == []
    {
      length := 0;
      rawDataFileOffset := 0;
      rawData := [];
      buildings := new BuildingDescriptor[128, 128]((i, j) => Describe(0));
      zoneSection := null;
    }

    function Contents(): Payload
      reads this`length, this`rawDataFileOffset, this`rawData
    {
      Payload(length, rawDataFileOffset, rawData)
    }

    method SetZoneSection(section: ZoneSection.ZoneSection?)
      modifies this`zoneSection
      ensures zoneSection == section
    {
      zoneSection := section;
    }

    /** What ParseSection leaves: every tile's building type is its flipped byte. */
    ghost predicate Decoded()
      reads this`rawData, this`buildings, buildings
    {
      Valid() && |rawData| >= Tiles &&
      forall x, y :: InGrid(x, y) ==> buildings[x, y].buildingType == rawData[SourceIndex(x, y)]
    }

    /** BuildingSection.ParseSection: decompress, one descriptor per byte, fill
        the grid. Fewer than 16384 bytes fail with an index out of range. */
    method ParseSection(file: ByteStream) returns (r: Result<()>)
      requires file.Valid() && Valid()
      modifies this, file, buildings
      ensures file.Valid() && Valid() && buildings == old(buildings) && zoneSection == old(zoneSection)
      ensures var spec := CompressedSaveSection.ParseSpec(file.data, old(file.pos));
              (r.Ok? <==> spec.Ok? && |spec.value.payload.rawData| >= Tiles) &&
              (r.Err? && spec.Err? ==> r.error == spec.error) &&
              (r.Err? && spec.Ok? ==> r.error == IndexOutOfRange) &&
              (r.Ok? ==> Contents() == spec.value.payload && file.pos == spec.value.next &&
                         forall x, y :: InGrid(x, y) ==> buildings[x, y].buildingType == rawData[SourceIndex(x, y)])
    {
      var payload := CompressedSaveSection.ParseSection(file);
      if payload.Err? {
        return Err(payload.error);
      }
      length, rawDataFileOffset, rawData := payload.value.length, payload.value.offset, payload.value.rawData;
      var descriptors := ReadEach(rawData, Describe);
      if |descriptors| < Tiles {
        return Err(IndexOutOfRange);
      }
      Fill(buildings, descriptors);
      r := Ok(());
    }

    /** IsMultiTileBuilding. Like the other queries it reads the zone tile, so
        a coordinate off the grid is an index out of range. */
    function IsMultiTileBuilding(tileX: int, tileY: int): (r: Result<bool>)
      requires zoneSection != null && zoneSection.Valid()
      reads this, zoneSection, zoneSection.zone
      ensures r.Ok? <==> InGrid(tileX, tileY)
      ensures r.Err? ==> r.error == IndexOutOfRange
      ensures r.Ok? ==> r.value == zoneSection.zone[tileX, tileY].isMultiTile
    {
      if InGrid(tileX, tileY) then Ok(zoneSection.zone[tileX, tileY].isMultiTile) else Err(IndexOutOfRange)
    }

    function BuildingSizeX(tileX: int, tileY: int): (r: Result<int>)
      requires zoneSection != null && zoneSection.Valid()
      reads this, zoneSection, zoneSection.zone
      ensures r.Ok? <==> InGrid(tileX, tileY)
      ensures r.Ok? ==> r.value == zoneSection.zone[tileX, tileY].lengthX
    {
      if InGrid(tileX, tileY) then Ok(zoneSection.zone[tileX, tileY].lengthX) else Err(IndexOutOfRange)
    }

    function BuildingSizeY(tileX: int, tileY: int): (r: Result<int>)
      requires zoneSection != null && zoneSection.Valid()
      reads this, zoneSection, zoneSection.zone
      ensures r.Ok? <==> InGrid(tileX, tileY)
      ensures r.Ok? ==> r.value == zoneSection.zone[tileX, tileY].lengthY
    {
      if InGrid(tileX, tileY) then Ok(zoneSection.zone[tileX, tileY].lengthY) else Err(IndexOutOfRange)
    }

    /** GetMultiTileBuildingOffset: `(0, 0)` for a tile of no multi-tile
        building, otherwise the tile's distance from the building's origin. */
    function GetMultiTileBuildingOffset(tileX: int, tileY: int): (r: Result<(int, int)>)
      requires zoneSection != null && zoneSection.Valid()
      reads this, zoneSection, zoneSection.zone
      ensures r.Ok? <==> InGrid(tileX, tileY)
      ensures r.Ok? && !IsMultiTileBuilding(tileX, tileY).value ==> r.value == (0, 0)
      ensures r.Ok? && IsMultiTileBuilding(tileX, tileY).value ==>
                var d := zoneSection.zone[tileX, tileY];
                r.value == (tileX - d.originX, tileY - d.originY)
    {
      if !InGrid(tileX, tileY) then Err(IndexOutOfRange)
      else
        var d := zoneSection.zone[tileX, tileY];
        if !d.isMultiTile then Ok((0, 0)) else Ok((tileX - d.originX, tileY - d.originY))
    }

    /** Once the linked zone section holds a parsed grid, the offset of every
        tile of a multi-tile building lies inside the building's size, and the
        building's origin and far corner lie on the grid. */
    lemma OffsetWithinBuilding(rotation: Result<int>, raw: seq<byte>, tileX: int, tileY: int)
      requires zoneSection != null && zoneSection.Valid() && InGrid(tileX, tileY)
      requires ZoneSection.Zones(rotation, raw).Ok?
      requires forall x, y :: InGrid(x, y) ==> zoneSection.zone[x, y] == ZoneSection.Zones(rotation, raw).value[x][y]
      ensures var offset := GetMultiTileBuildingOffset(tileX, tileY).value;
              var sizeX, sizeY := BuildingSizeX(tileX, tileY).value, BuildingSizeY(tileX, tileY).value;
              IsMultiTileBuilding(tileX, tileY).value ==>
                0 <= offset.0 < sizeX && 0 <= offset.1 < sizeY &&
                InGrid(tileX - offset.0, tileY - offset.1) &&
                tileX - offset.0 + sizeX <= Size && tileY - offset.1 + sizeY <= Size
    {
      ZoneSection.ZoneTiles(rotation, raw, tileX, tileY);
    }
  }
}
