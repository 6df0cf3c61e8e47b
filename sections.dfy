/** The sections a save file holds, the lookup by name of
    SimCity2000Parser/SimCity2000Save.cs, and SaveSection.Diff with the
    overrides of MiscSection and AltitudeSection. */
module Sections {
  import opened StreamUtils
  import opened Failures
  import opened SectionDifference
  import opened Grid
  import SaveSection
  import MiscSection
  import AltitudeSection
  import TerrainSection
  import BuildingSection
  import ZoneSection

  /** The names the factory gives a class of its own. */
  const KnownNames: set<string> := {"MISC", "ALTM", "XTER", "XBLD", "XZON"}

  /** A parsed section: one of the five decoded kinds, or a raw SaveSection. */
  datatype Section =
    | Misc(misc: MiscSection.MiscSection)
    | Altitude(altitude: AltitudeSection.AltitudeSection)
    | Terrain(terrain: TerrainSection.TerrainSection)
    | Building(building: BuildingSection.BuildingSection)
    | Zone(zone: ZoneSection.ZoneSection)
    | Raw(raw: SaveSection.SaveSection)
  {
    function Name(): string {
      match this
      case Misc(s) => s.name
      case Altitude(s) => s.name
      case Terrain(s) => s.name
      case Building(s) => s.name
      case Zone(s) => s.name
      case Raw(s) => s.name
    }

    /** The kind of the section is the one its name selects. */
    predicate WellTagged() {
      Raw? ==> Name() !in KnownNames
    }

    /** The objects the section's state lives in. */
    ghost function Repr(): set<object>
      reads Ref()
    {
      match this
      case Altitude(s) => {s, s.altitudeData}
      case Terrain(s) => {s, s.terrain}
      case Building(s) => {s, s.buildings}
      case Zone(s) => {s, s.zone}
      case _ => {Ref()}
    }

    /** The grids of the section have their 128 x 128 shape. */
    ghost predicate Valid()
      reads Repr()
    {
      match this
      case Altitude(s) => s.Valid()
      case Terrain(s) => s.Valid()
      case Building(s) => s.Valid()
      case Zone(s) => s.Valid()
      case _ => true
    }

    /** The section object. */
    function Ref(): object {
      match this
      case Misc(s) => s
      case Altitude(s) => s
      case Terrain(s) => s
      case Building(s) => s
      case Zone(s) => s
      case Raw(s) => s
    }

    /** What the section's ParseSection left when it read the body at `p`,
        after the sections `before`: the MISC integers of RawData, the ALTM
        cells read there, the XTER and XBLD tiles from their flipped bytes, and
        the XZON grid with the rotation of the first MISC section before it. */
    ghost predicate Decoded(data: seq<byte>, p: nat, before: seq<Section>)
      requires p <= |data|
      reads Ref(), Repr(), MiscOf(before)
    {
      match this
      case Misc(s) => s.Decoded()
      case Altitude(s) =>
        var spec := AltitudeSection.ParseSpec(data, p);
        spec.Ok? && s.Decoded(spec.value.cells)
      case Terrain(s) => s.Decoded()
      case Building(s) => s.Decoded()
      case Zone(s) => FindMisc(before).Ok? && s.Decoded(FindMisc(before).value.Rotation())
      case Raw(_) => true
    }

    /** Length, file offset and RawData; an ALTM section keeps no RawData. */
    function Contents(): SaveSection.Payload
      reads Ref()
    {
      match this
      case Misc(s) => s.Contents()
      case Altitude(s) => SaveSection.Payload(s.length, s.rawDataFileOffset, [])
      case Terrain(s) => s.Contents()
      case Building(s) => s.Contents()
      case Zone(s) => s.Contents()
      case Raw(s) => s.Contents()
    }
  }

  /** GetSection: the first section of that name. */
  function Find(sections: seq<Section>, name: string): (r: Result<Section>)
    ensures r.Err? ==> r.error == SectionNotFound(name)
    ensures r.Ok? ==> r.value in sections && r.value.Name() == name
  {
    if sections == [] then Err(SectionNotFound(name))
    else if sections[0].Name() == name then Ok(sections[0])
    else Find(sections[1..], name)
  }

  /** Find returns the first section of the name, and fails exactly when there is none. */
  lemma {:induction false} FindFirst(sections: seq<Section>, name: string)
    ensures Find(sections, name).Err? <==> forall k :: 0 <= k < |sections| ==> sections[k].Name() != name
    ensures Find(sections, name).Ok? ==>
              exists k :: 0 <= k < |sections| && sections[k] == Find(sections, name).value &&
                          forall k' :: 0 <= k' < k ==> sections[k'].Name() != name
  {
    if sections != [] && sections[0].Name() != name {
      FindFirst(sections[1..], name);
      if Find(sections, name).Ok? {
        var k :| 0 <= k < |sections[1..]| && sections[1..][k] == Find(sections, name).value &&
                 forall k' :: 0 <= k' < k ==> sections[1..][k'].Name() != name;
        assert sections[k + 1] == Find(sections, name).value;
        forall k' | 0 <= k' < k + 1
          ensures sections[k'].Name() != name
        {
          if k' > 0 {
            assert sections[k'] == sections[1..][k' - 1];
          }
        }
      } else {
        forall k | 0 <= k < |sections|
          ensures sections[k].Name() != name
        {
          if k > 0 {
            assert sections[k] == sections[1..][k - 1];
          }
        }
      }
    } else if sections != [] {
      assert sections[0] == Find(sections, name).value;
    }
  }

  /** SimCity2000Save.GetSection. */
  method GetSection(sections: seq<Section>, name: string) returns (r: Result<Section>)
    ensures r == Find(sections, name)
  {
    for i := 0 to |sections|
      invariant Find(sections, name) == Find(sections[i..], name)
    {
      assert sections[i..][1..] == sections[i + 1..];
      if name == sections[i].Name() {
        return Ok(sections[i]);
      }
    }
    r := Err(SectionNotFound(name));
  }

  /** The typed accessors (`GetSection("MISC") as MiscSection` and so on). */
  function FindMisc(sections: seq<Section>): (r: Result<MiscSection.MiscSection>)
    ensures r.Ok? ==> Misc(r.value) in sections
  {
    match Find(sections, "MISC")
    case Ok(Misc(s)) => Ok(s)
    case _ => Err(SectionNotFound("MISC"))
  }

  function FindBuilding(sections: seq<Section>): (r: Result<BuildingSection.BuildingSection>)
    ensures r.Ok? ==> Building(r.value) in sections
  {
    match Find(sections, "XBLD")
    case Ok(Building(s)) => Ok(s)
    case _ => Err(SectionNotFound("XBLD"))
  }

  function FindZone(sections: seq<Section>): (r: Result<ZoneSection.ZoneSection>)
    ensures r.Ok? ==> Zone(r.value) in sections
  {
    match Find(sections, "XZON")
    case Ok(Zone(s)) => Ok(s)
    case _ => Err(SectionNotFound("XZON"))
  }

  function FindTerrain(sections: seq<Section>): (r: Result<TerrainSection.TerrainSection>)
    ensures r.Ok? ==> Terrain(r.value) in sections
  {
    match Find(sections, "XTER")
    case Ok(Terrain(s)) => Ok(s)
    case _ => Err(SectionNotFound("XTER"))
  }

  function FindAltitude(sections: seq<Section>): (r: Result<AltitudeSection.AltitudeSection>)
    ensures r.Ok? ==> Altitude(r.value) in sections
  {
    match Find(sections, "ALTM")
    case Ok(Altitude(s)) => Ok(s)
    case _ => Err(SectionNotFound("ALTM"))
  }

  /** The MISC section an XZON section read after `before` takes its rotation from. */
  function MiscOf(before: seq<Section>): set<object> {
    if FindMisc(before).Ok? then {FindMisc(before).value} else {}
  }

  /** Each decoded kind carries the name that selects it, whatever it has read. */
  lemma KindNames(s: Section)
    ensures s.Misc? <==> s.Name() == "MISC" && s.WellTagged() && !s.Raw?
    ensures s.Altitude? ==> s.Name() == "ALTM"
    ensures s.Terrain? ==> s.Name() == "XTER"
    ensures s.Building? ==> s.Name() == "XBLD"
    ensures s.Zone? ==> s.Name() == "XZON"
  {
  }

  predicate AllWellTagged(sections: seq<Section>) {
    forall k :: 0 <= k < |sections| ==> sections[k].WellTagged()
  }

  /** Among well-tagged sections an accessor fails exactly when no section has its name. */
  lemma MiscFoundByName(sections: seq<Section>)
    requires AllWellTagged(sections)
    ensures FindMisc(sections).Ok? <==> exists k :: 0 <= k < |sections| && sections[k].Name() == "MISC"
  {
    FindFirst(sections, "MISC");
  }

  lemma BuildingFoundByName(sections: seq<Section>)
    requires AllWellTagged(sections)
    ensures FindBuilding(sections).Ok? <==> exists k :: 0 <= k < |sections| && sections[k].Name() == "XBLD"
  {
    FindFirst(sections, "XBLD");
  }

  lemma ZoneFoundByName(sections: seq<Section>)
    requires AllWellTagged(sections)
    ensures FindZone(sections).Ok? <==> exists k :: 0 <= k < |sections| && sections[k].Name() == "XZON"
  {
    FindFirst(sections, "XZON");
  }

  lemma TerrainFoundByName(sections: seq<Section>)
    requires AllWellTagged(sections)
    ensures FindTerrain(sections).Ok? <==> exists k :: 0 <= k < |sections| && sections[k].Name() == "XTER"
  {
    FindFirst(sections, "XTER");
  }

  lemma AltitudeFoundByName(sections: seq<Section>)
    requires AllWellTagged(sections)
    ensures FindAltitude(sections).Ok? <==> exists k :: 0 <= k < |sections| && sections[k].Name() == "ALTM"
  {
    FindFirst(sections, "ALTM");
  }

  /** What `section.Diff(oldSection)` yields for two sections of one name:
      the MISC and ALTM overrides, or SaveSection.Diff on the raw bytes. */
  ghost function DiffSpec(nw: Section, od: Section): Result<seq<SectionDifference>>
    requires nw.Valid() && od.Valid()
    reads *
  {
    match (nw, od)
    case (Misc(a), Misc(b)) => MiscSection.IntDiff(a.data, b.data)
    case (Altitude(a), Altitude(b)) =>
      Ok(AltitudeSection.GridEntries(Rows(a.altitudeData), Rows(b.altitudeData), Size))
    case _ => Ok(SaveSection.Diff(nw.Contents(), od.Contents()))
  }

  /** The virtual call `section.Diff(oldSection)`. */
  method DiffSection(nw: Section, od: Section) returns (r: Result<seq<SectionDifference>>)
    requires nw.Valid() && od.Valid()
    ensures r == DiffSpec(nw, od)
  {
    match (nw, od)
    case (Misc(a), Misc(b)) =>
      r := a.Diff(b);
    case (Altitude(a), Altitude(b)) =>
      var d := a.Diff(b);
      r := Ok(d);
    case _ =>
      var d := SaveSection.DiffBytes(nw.Contents(), od.Contents());
      r := Ok(d);
  }

  /** Two sections that are one object have no differences. */
  lemma DiffSpecSelf(s: Section)
    requires s.Valid()
    ensures DiffSpec(s, s) == Ok([])
  {
    match s
    case Misc(a) => MiscSection.IntDiffSelf(a.data);
    case Altitude(a) => AltitudeSection.DiffSelfEmpty(Rows(a.altitudeData));
    case _ => SaveSection.DiffSelfEmpty(s.Contents());
  }

  /** Comparing two sections either way gives the same entries with old and
      new values swapped, when two MISC sections hold as many integers and two
      sections compared byte by byte sit at one file offset. */
  lemma DiffSpecSymmetric(nw: Section, od: Section)
    requires nw.Valid() && od.Valid()
    requires nw.Misc? && od.Misc? ==> |nw.misc.data| == |od.misc.data|
    requires !(nw.Misc? && od.Misc?) && !(nw.Altitude? && od.Altitude?) ==>
               nw.Contents().offset == od.Contents().offset
    ensures DiffSpec(nw, od).Ok? && DiffSpec(od, nw).Ok?
    ensures SwapAll(DiffSpec(nw, od).value) == DiffSpec(od, nw).value
  {
    match (nw, od)
    case (Misc(a), Misc(b)) => MiscSection.IntDiffSymmetric(a.data, b.data);
    case (Altitude(a), Altitude(b)) =>
      AltitudeSection.GridEntriesSymmetric(Rows(a.altitudeData), Rows(b.altitudeData), Size);
    case _ => SaveSection.DiffSymmetric(nw.Contents(), od.Contents());
  }
}
