/** SimCity2000Parser/SimCity2000Save.cs: the IFF header of a save file, the
    sections after it, the links between the XBLD, XZON and MISC sections, and
    the comparison of two saves section by section. */
module SimCity2000Save {
  import opened StreamUtils
  import opened Failures
  import opened SectionDifference
  import opened Sections
  import opened SectionFactory
  import SaveSection
  import MiscSection
  import BuildingSection
  import ZoneSection

  /** The IFF group identifier "FORM" and the form type "SCDH". */
  const FormMagic: seq<byte> := [0x46, 0x4F, 0x52, 0x4D]
  const ScdhMagic: seq<byte> := [0x53, 0x43, 0x44, 0x48]

  /** The sections lie back to back: section k starts at `starts[k]`, carries
      the name read there, and its body ends where section k + 1 starts. */
  ghost predicate Framed(data: seq<byte>, starts: seq<nat>, sections: seq<Section>) {
    |starts| == |sections| + 1 &&
    forall k :: 0 <= k < |sections| ==>
      starts[k] < |data| &&
      TagEnd(data, starts[k]) <= |data| &&
      sections[k].Name() == TagAt(data, starts[k]) &&
      starts[k + 1] == BodyEnd(sections[k].Name(), data, TagEnd(data, starts[k]))
  }

  /** A section that is well formed and holds `payload`. */
  ghost predicate Holds(s: Section, payload: SaveSection.Payload)
    reads s.Ref(), s.Repr()
  {
    s.WellTagged() && s.Valid() && s.Contents() == payload
  }

  /** The payloads the framed bodies decode to. */
  ghost predicate PayloadsOf(data: seq<byte>, starts: seq<nat>, sections: seq<Section>, payloads: seq<SaveSection.Payload>)
    requires Framed(data, starts, sections)
  {
    |payloads| == |sections| &&
    forall k :: 0 <= k < |sections| ==> payloads[k] == BodyPayload(sections[k].Name(), data, TagEnd(data, starts[k]))
  }

  /** One more section read where the last one ended extends the framing. */
  lemma FramedSnoc(data: seq<byte>, starts: seq<nat>, sections: seq<Section>, s: Section, q: nat)
    requires Framed(data, starts, sections) && starts[|starts| - 1] < |data|
    requires s.Name() == TagAt(data, starts[|starts| - 1])
    requires q == BodyEnd(s.Name(), data, TagEnd(data, starts[|starts| - 1]))
    ensures Framed(data, starts + [q], sections + [s])
  {
    var starts', sections' := starts + [q], sections + [s];
    forall k | 0 <= k < |sections'|
      ensures starts'[k] < |data| && TagEnd(data, starts'[k]) <= |data| &&
              sections'[k].Name() == TagAt(data, starts'[k]) &&
              starts'[k + 1] == BodyEnd(sections'[k].Name(), data, TagEnd(data, starts'[k]))
    {
      if k < |sections| {
        assert starts'[k] == starts[k] && starts'[k + 1] == starts[k + 1] && sections'[k] == sections[k];
      }
    }
  }

  lemma PayloadsSnoc(data: seq<byte>, starts: seq<nat>, sections: seq<Section>, payloads: seq<SaveSection.Payload>,
                     s: Section, q: nat)
    requires Framed(data, starts, sections) && PayloadsOf(data, starts, sections, payloads)
    requires starts[|starts| - 1] < |data|
    requires s.Name() == TagAt(data, starts[|starts| - 1])
    requires q == BodyEnd(s.Name(), data, TagEnd(data, starts[|starts| - 1]))
    ensures Framed(data, starts + [q], sections + [s])
    ensures PayloadsOf(data, starts + [q], sections + [s],
                       payloads + [BodyPayload(s.Name(), data, TagEnd(data, starts[|starts| - 1]))])
  {
    FramedSnoc(data, starts, sections, s, q);
    var starts', sections' := starts + [q], sections + [s];
    var payloads' := payloads + [BodyPayload(s.Name(), data, TagEnd(data, starts[|starts| - 1]))];
    forall k | 0 <= k < |sections'|
      ensures payloads'[k] == BodyPayload(sections'[k].Name(), data, TagEnd(data, starts'[k]))
    {
      if k < |sections| {
        assert starts'[k] == starts[k] && sections'[k] == sections[k] && payloads'[k] == payloads[k];
      }
    }
  }

  /** Every framed section holds the decoded state of its body. */
  ghost predicate AllDecoded(data: seq<byte>, starts: seq<nat>, sections: seq<Section>)
    requires Framed(data, starts, sections)
    reads *
  {
    forall k :: 0 <= k < |sections| ==> sections[k].Decoded(data, TagEnd(data, starts[k]), sections[..k])
  }

  /** One more section that holds the decoded state of its body keeps every
      framed section decoded. */
  lemma DecodedSnoc(data: seq<byte>, starts: seq<nat>, sections: seq<Section>, s: Section, q: nat)
    requires Framed(data, starts, sections) && starts[|starts| - 1] < |data|
    requires s.Name() == TagAt(data, starts[|starts| - 1])
    requires q == BodyEnd(s.Name(), data, TagEnd(data, starts[|starts| - 1]))
    requires AllDecoded(data, starts, sections)
    requires s.Decoded(data, TagEnd(data, starts[|starts| - 1]), sections)
    ensures Framed(data, starts + [q], sections + [s])
    ensures AllDecoded(data, starts + [q], sections + [s])
  {
    FramedSnoc(data, starts, sections, s, q);
    var starts', sections' := starts + [q], sections + [s];
    forall k | 0 <= k < |sections'|
      ensures sections'[k].Decoded(data, TagEnd(data, starts'[k]), sections'[..k])
    {
      if k < |sections| {
        assert sections'[..k] == sections[..k] && sections'[k] == sections[k] && starts'[k] == starts[k];
      } else {
        assert sections'[..k] == sections;
      }
    }
  }

  /** A framing ends strictly later than it starts whenever it has a section. */
  lemma {:induction false} FramedAdvances(data: seq<byte>, starts: seq<nat>, sections: seq<Section>)
    requires Framed(data, starts, sections)
    ensures forall k :: 0 <= k < |sections| ==> starts[k] < starts[k + 1]
  {
    forall k | 0 <= k < |sections|
      ensures starts[k] < starts[k + 1]
    {
      BodyEndAfterStart(sections[k].Name(), data, TagEnd(data, starts[k]));
    }
  }

  /** A parsed save file. */
  class SimCity2000Save {
    var sections: seq<Section>
    var length: int

    constructor (sections: seq<Section>, length: int)
      ensures this.sections == sections && this.length == length
    {
      this.sections := sections;
      this.length := length;
    }

    /** DiffSections: each section against the old save's section of its
        name, in order; the sections with differences are reported. */
    method DiffSections(oldSave: SimCity2000Save) returns (r: Result<seq<Report>>)
      requires AllValid(sections) && AllValid(oldSave.sections)
      ensures r == Reports(sections, oldSave.sections)
    {
      var reports: seq<Report> := [];
      for i := 0 to |sections|
        invariant Reports(sections[..i], oldSave.sections) == Ok(reports)
      {
        var section := sections[i];
        var od := GetSection(oldSave.sections, section.Name());
        ReportsNext(sections, oldSave.sections, i);
        if od.Err? {
          ReportsErrPersists(sections, oldSave.sections, i + 1);
          return Err(od.error);
        }
        var diffs := DiffSection(section, od.value);
        if diffs.Err? {
          ReportsErrPersists(sections, oldSave.sections, i + 1);
          return Err(diffs.error);
        }
        if |diffs.value| > 0 {
          reports := reports + [Report(section.Name(), diffs.value)];
        }
      }
      assert sections[..|sections|] == sections;
      r := Ok(reports);
    }

  }

  /** The section objects. */
  ghost function Refs(sections: seq<Section>): (r: set<object>)
    ensures forall s :: s in sections ==> s.Ref() in r
  {
    set k | 0 <= k < |sections| :: sections[k].Ref()
  }

  /** The XBLD section whose link to the XZON section Link sets, if any. */
  ghost function BuildingOf(sections: seq<Section>): set<BuildingSection.BuildingSection> {
    if FindBuilding(sections).Ok? then {FindBuilding(sections).value} else {}
  }

  /** The XZON section whose link to the MISC section Link sets, if any. */
  ghost function ZoneOf(sections: seq<Section>): set<ZoneSection.ZoneSection> {
    if FindZone(sections).Ok? then {FindZone(sections).value} else {}
  }

  /** Sections made since the old state have their link fields there too. */
  twostate lemma LinkFrameFresh(new sections: seq<Section>)
    requires forall k :: 0 <= k < |sections| ==> fresh(sections[k].Ref())
    ensures forall o | o in BuildingOf(sections) :: fresh(o)
    ensures forall o | o in ZoneOf(sections) :: fresh(o)
  {
    forall o | o in BuildingOf(sections)
      ensures fresh(o)
    {
      var k :| 0 <= k < |sections| && sections[k] == Building(o);
      assert sections[k].Ref() == o;
    }
    forall o | o in ZoneOf(sections)
      ensures fresh(o)
    {
      var k :| 0 <= k < |sections| && sections[k] == Zone(o);
      assert sections[k].Ref() == o;
    }
  }

  /** The links ParseSaveFile makes once every section is read. */
  ghost predicate Linked(sections: seq<Section>)
    reads Refs(sections)
  {
    FindBuilding(sections).Ok? && FindZone(sections).Ok? && FindMisc(sections).Ok? &&
    FindBuilding(sections).value.zoneSection == FindZone(sections).value &&
    FindZone(sections).value.miscSection == FindMisc(sections).value
  }

  /** The lines DiffSections writes for one section: its name, then its differences. */
  datatype Report = Report(name: string, diffs: seq<SectionDifference>)

  ghost predicate AllValid(sections: seq<Section>)
    reads *
  {
    forall k :: 0 <= k < |sections| ==> sections[k].Valid()
  }

  /** What DiffSections reports for the sections `ss` against the old save's
      `olds`: the first missing name or failing diff stops it; otherwise every
      section with differences gets a report, in order. */
  ghost function Reports(ss: seq<Section>, olds: seq<Section>): (r: Result<seq<Report>>)
    requires AllValid(ss) && AllValid(olds)
    reads *
    ensures r.Ok? ==> |r.value| <= |ss| && forall j :: 0 <= j < |r.value| ==> r.value[j].diffs != []
    decreases |ss|
  {
    if ss == [] then Ok([])
    else
      var last := ss[|ss| - 1];
      match Reports(ss[..|ss| - 1], olds)
      case Err(e) => Err(e)
      case Ok(prefix) =>
        match Find(olds, last.Name())
        case Err(e) => Err(e)
        case Ok(od) =>
          match DiffSpec(last, od)
          case Err(e) => Err(e)
          case Ok(d) => if d == [] then Ok(prefix) else Ok(prefix + [Report(last.Name(), d)])
  }

  /** One more section: its lookup and its diff decide the next prefix. */
  lemma ReportsNext(ss: seq<Section>, olds: seq<Section>, i: nat)
    requires AllValid(ss) && AllValid(olds) && i < |ss|
    requires Reports(ss[..i], olds).Ok?
    ensures var f := Find(olds, ss[i].Name());
            var prefix := Reports(ss[..i], olds).value;
            if f.Err? then Reports(ss[..i + 1], olds) == Err(f.error)
            else
              var d := DiffSpec(ss[i], f.value);
              if d.Err? then Reports(ss[..i + 1], olds) == Err(d.error)
              else if d.value == [] then Reports(ss[..i + 1], olds) == Ok(prefix)
              else Reports(ss[..i + 1], olds) == Ok(prefix + [Report(ss[i].Name(), d.value)])
  {
    assert ss[..i + 1][..i] == ss[..i];
  }

  /** Once a prefix fails, every longer prefix fails with the same error. */
  lemma {:induction false} ReportsErrPersists(ss: seq<Section>, olds: seq<Section>, n: nat)
    requires AllValid(ss) && AllValid(olds) && 0 < n <= |ss|
    requires Reports(ss[..n], olds).Err?
    ensures Reports(ss, olds) == Reports(ss[..n], olds)
    decreases |ss| - n
  {
    if n < |ss| {
      assert ss[..n + 1][..n] == ss[..n];
      ReportsErrPersists(ss, olds, n + 1);
    } else {
      assert ss[..n] == ss;
    }
  }

  /** A section whose name the old save lacks makes the comparison fail. */
  lemma {:induction false} ReportsNeedEveryName(ss: seq<Section>, olds: seq<Section>, k: nat)
    requires AllValid(ss) && AllValid(olds) && k < |ss|
    requires forall j :: 0 <= j < |olds| ==> olds[j].Name() != ss[k].Name()
    ensures Reports(ss, olds).Err?
    decreases |ss|
  {
    FindFirst(olds, ss[k].Name());
    var init := ss[..|ss| - 1];
    if k < |ss| - 1 {
      assert init[k] == ss[k];
      ReportsNeedEveryName(init, olds, k);
    }
  }

  /** A save compared with itself reports nothing when its section names are
      distinct, as they are in a file the game wrote. */
  lemma {:induction false} ReportsSelf(ss: seq<Section>, all: seq<Section>, n: nat)
    requires AllValid(all) && n <= |all| && ss == all[..n]
    requires forall i, j :: 0 <= i < j < |all| ==> all[i].Name() != all[j].Name()
    ensures Reports(ss, all) == Ok([])
    decreases n
  {
    if n > 0 {
      var last := ss[n - 1];
      assert all[..n - 1] == ss[..n - 1];
      ReportsSelf(ss[..n - 1], all, n - 1);
      FindFirst(all, last.Name());
      assert Find(all, last.Name()) == Ok(last) by {
        var k :| 0 <= k < |all| && all[k] == Find(all, last.Name()).value &&
                 forall k' :: 0 <= k' < k ==> all[k'].Name() != last.Name();
        assert all[n - 1] == last;
      }
      DiffSpecSelf(last);
    }
  }

  /** SimCity2000Save.ParseSaveFile over the bytes of the file. `starts` are
      the positions the sections are read from and `done` the sections read.
      Past a good header the parse fails exactly when some section's body
      does not parse, or when XBLD, XZON or MISC is missing. */
  method ParseSaveFile(data: seq<byte>)
    returns (r: Result<SimCity2000Save>, ghost starts: seq<nat>, ghost payloads: seq<SaveSection.Payload>,
             ghost done: seq<Section>)
    ensures HeaderError(data).Some? ==> r == Err(HeaderError(data).value)
    ensures r.Err? && HeaderError(data) == None ==>
              Framed(data, starts, done) && starts[0] == 12 &&
              var p := starts[|starts| - 1];
              (p < |data| && !Parses(TagAt(data, p), data, TagEnd(data, p), done)) ||
              (p == |data| && !(FindBuilding(done).Ok? && FindZone(done).Ok? && FindMisc(done).Ok?) &&
               r.error == (if FindBuilding(done).Err? then SectionNotFound("XBLD")
                           else if FindZone(done).Err? then SectionNotFound("XZON")
                           else SectionNotFound("MISC")))
    ensures r.Ok? ==>
              HeaderError(data) == None &&
              r.value.length == Int32BE(data[4], data[5], data[6], data[7]) &&
              Framed(data, starts, r.value.sections) && starts[0] == 12 && starts[|starts| - 1] == |data| &&
              PayloadsOf(data, starts, r.value.sections, payloads) &&
              (forall k :: 0 <= k < |r.value.sections| ==> Holds(r.value.sections[k], payloads[k])) &&
              AllDecoded(data, starts, r.value.sections) &&
              Linked(r.value.sections) && fresh(r.value) && done == r.value.sections
  {
    starts, payloads, done := [], [], [];
    var reader := new ByteStream(data);
    var length := ReadHeader(reader);
    if length.Err? {
      return Err(length.error), starts, payloads, done;
    }
    var sections;
    sections, starts, payloads, done := ReadSections(reader);
    if sections.Err? {
      return Err(sections.error), starts, payloads, done;
    }
    r := LinkedSave(sections.value, length.value, data, starts, payloads);
  }

  /** The end of ParseSaveFile: the sections are linked and the save object
      made, or the first missing link section is reported. */
  method LinkedSave(sections: seq<Section>, length: int, ghost data: seq<byte>, ghost starts: seq<nat>,
                    ghost payloads: seq<SaveSection.Payload>) returns (r: Result<SimCity2000Save>)
    requires |payloads| == |sections| && forall k :: 0 <= k < |sections| ==> Holds(sections[k], payloads[k])
    requires Framed(data, starts, sections) && AllDecoded(data, starts, sections)
    modifies BuildingOf(sections)`zoneSection, ZoneOf(sections)`miscSection
    ensures r.Ok? <==> FindBuilding(sections).Ok? && FindZone(sections).Ok? && FindMisc(sections).Ok?
    ensures r.Err? ==> r.error == (if FindBuilding(sections).Err? then SectionNotFound("XBLD")
                                   else if FindZone(sections).Err? then SectionNotFound("XZON")
                                   else SectionNotFound("MISC"))
    ensures r.Ok? ==>
              r.value.sections == sections && r.value.length == length &&
              (forall k :: 0 <= k < |sections| ==> Holds(sections[k], payloads[k])) &&
              AllDecoded(data, starts, sections) && Linked(sections) && fresh(r.value)
  {
    var linked := Link(sections, data, starts, payloads);
    if linked.Err? {
      return Err(linked.error);
    }
    var save := NewSave(sections, length, data, starts, payloads);
    r := Ok(save);
  }

  /** The save object; making it changes no section. */
  method NewSave(sections: seq<Section>, length: int, ghost data: seq<byte>, ghost starts: seq<nat>,
                 ghost payloads: seq<SaveSection.Payload>) returns (save: SimCity2000Save)
    requires |payloads| == |sections| && forall k :: 0 <= k < |sections| ==> Holds(sections[k], payloads[k])
    requires Framed(data, starts, sections) && AllDecoded(data, starts, sections)
    ensures fresh(save) && save.sections == sections && save.length == length
    ensures forall k :: 0 <= k < |sections| ==> Holds(sections[k], payloads[k])
    ensures AllDecoded(data, starts, sections)
  {
    save := new SimCity2000Save(sections, length);
  }

  /** The first failing header check of ParseSaveFile, if any. */
  function HeaderError(data: seq<byte>): (e: Option<ParseError>)
  {
    if |data| < 8 then Some(FormatError("Unexpectedly short file length"))
    else if data[..4] != FormMagic then Some(FormatError("Invalid magic file identifier bytes"))
    else if |data| < 12 || data[8..12] != ScdhMagic then Some(FormatError("Not a Sim City save file"))
    else None
  }

  /** The header checks of ParseSaveFile: the file length, "FORM", the 32-bit
      length that follows it, and "SCDH". The first Read cannot come up short
      once the length check has passed, so its own check is not modelled. */
  method ReadHeader(reader: ByteStream) returns (r: Result<int>)
    requires reader.Valid() && reader.pos == 0
    modifies reader
    ensures reader.Valid()
    ensures r.Err? <==> HeaderError(reader.data).Some?
    ensures r.Err? ==> r.error == HeaderError(reader.data).value
    ensures r.Ok? ==>
              reader.pos == 12 &&
              r.value == Int32BE(reader.data[4], reader.data[5], reader.data[6], reader.data[7])
  {
    if |reader.data| < 8 {
      return Err(FormatError("Unexpectedly short file length"));
    }
    var fileMagic, _ := reader.Read(4);
    if fileMagic != FormMagic {
      assert reader.data[..4] == fileMagic;
      return Err(FormatError("Invalid magic file identifier bytes"));
    }
    var length := reader.Read4ByteInt();
    var scdhHeader, n := reader.Read(4);
    if n != 4 || scdhHeader != ScdhMagic {
      assert n == 4 ==> reader.data[8..12] == scdhHeader;
      return Err(FormatError("Not a Sim City save file"));
    }
    assert reader.data[..4] == fileMagic && reader.data[8..12] == scdhHeader;
    r := Ok(length);
  }

  /** Section k + 1 of the file: read at `old(reader.pos)`, it is read exactly
      when its body parses, holds what its body decodes to and leaves the
      reader where the body ends. */
  method ReadSection(reader: ByteStream, sections: seq<Section>, ghost payloads: seq<SaveSection.Payload>)
    returns (r: Result<Section>)
    requires reader.Valid() && |payloads| == |sections|
    requires forall k :: 0 <= k < |sections| ==> Holds(sections[k], payloads[k])
    modifies reader
    ensures reader.Valid()
    ensures forall k :: 0 <= k < |sections| ==> Holds(sections[k], payloads[k])
    ensures r.Ok? <==> Parses(TagAt(reader.data, old(reader.pos)), reader.data, TagEnd(reader.data, old(reader.pos)), sections)
    ensures r.Ok? ==>
              var tag := TagAt(reader.data, old(reader.pos));
              var q := TagEnd(reader.data, old(reader.pos));
              r.value.Name() == tag && reader.pos == BodyEnd(tag, reader.data, q) &&
              Holds(r.value, BodyPayload(tag, reader.data, q)) && r.value.Decoded(reader.data, q, sections)
    ensures r.Ok? ==> fresh(r.value.Ref())
  {
    r := ParseSaveSection(reader, sections);
  }

  /** The loop of ParseSaveFile: sections are read until the end of the file.
      `done` are the sections read, back to back from the start; the loop
      fails exactly when the section after them does not parse before the end
      of the file. */
  method ReadSections(reader: ByteStream)
    returns (r: Result<seq<Section>>, ghost starts: seq<nat>, ghost payloads: seq<SaveSection.Payload>,
             ghost done: seq<Section>)
    requires reader.Valid()
    modifies reader
    ensures reader.Valid()
    ensures Framed(reader.data, starts, done) && starts[0] == old(reader.pos) &&
            PayloadsOf(reader.data, starts, done, payloads) &&
            (forall k :: 0 <= k < |done| ==> Holds(done[k], payloads[k])) &&
            AllDecoded(reader.data, starts, done)
    ensures r.Ok? ==> r.value == done && starts[|starts| - 1] == |reader.data|
    ensures r.Err? ==>
              var p := starts[|starts| - 1];
              p < |reader.data| && !Parses(TagAt(reader.data, p), reader.data, TagEnd(reader.data, p), done)
    ensures forall k :: 0 <= k < |done| ==> fresh(done[k].Ref())
    ensures forall o | o in BuildingOf(done) :: fresh(o)
    ensures forall o | o in ZoneOf(done) :: fresh(o)
  {
    starts := [reader.pos];
    var sections: seq<Section> := [];
    payloads := [];
    while reader.pos < |reader.data|
      invariant reader.Valid()
      invariant Framed(reader.data, starts, sections) && starts[0] == old(reader.pos) && starts[|starts| - 1] == reader.pos
      invariant PayloadsOf(reader.data, starts, sections, payloads)
      invariant forall k :: 0 <= k < |sections| ==> Holds(sections[k], payloads[k])
      invariant AllDecoded(reader.data, starts, sections)
      invariant forall k :: 0 <= k < |sections| ==> fresh(sections[k].Ref())
      decreases |reader.data| - reader.pos
    {
      var section;
      ghost var payload;
      section, payload := ReadNext(reader, sections, starts, payloads);
      if section.Err? {
        LinkFrameFresh(sections);
        return Err(section.error), starts, payloads, sections;
      }
      payloads := payloads + [payload];
      sections := sections + [section.value];
      starts := starts + [reader.pos];
    }
    LinkFrameFresh(sections);
    r, done := Ok(sections), sections;
  }

  /** One turn of ReadSections: the section after the framed `sections`,
      which extends the framing by one, or the failure of its body. */
  method ReadNext(reader: ByteStream, sections: seq<Section>, ghost starts: seq<nat>,
                  ghost payloads: seq<SaveSection.Payload>)
    returns (r: Result<Section>, ghost payload: SaveSection.Payload)
    requires reader.Valid() && reader.pos < |reader.data|
    requires Framed(reader.data, starts, sections) && starts[|starts| - 1] == reader.pos
    requires PayloadsOf(reader.data, starts, sections, payloads)
    requires forall k :: 0 <= k < |sections| ==> Holds(sections[k], payloads[k])
    requires AllDecoded(reader.data, starts, sections)
    modifies reader
    ensures reader.Valid()
    ensures forall k :: 0 <= k < |sections| ==> Holds(sections[k], payloads[k])
    ensures AllDecoded(reader.data, starts, sections)
    ensures r.Ok? ==> old(reader.pos) < reader.pos
    ensures r.Err? ==>
              !Parses(TagAt(reader.data, old(reader.pos)), reader.data, TagEnd(reader.data, old(reader.pos)), sections)
    ensures r.Ok? ==>
              Framed(reader.data, starts + [reader.pos], sections + [r.value]) &&
              PayloadsOf(reader.data, starts + [reader.pos], sections + [r.value], payloads + [payload]) &&
              Holds(r.value, payload) && AllDecoded(reader.data, starts + [reader.pos], sections + [r.value])
    ensures r.Ok? ==> fresh(r.value.Ref())
  {
    ghost var p := reader.pos;
    r := ReadSection(reader, sections, payloads);
    forall k | 0 <= k < |sections|
      ensures Holds(sections[k], payloads[k])
      ensures sections[k].Decoded(reader.data, TagEnd(reader.data, starts[k]), sections[..k])
    {
      assert old(Holds(sections[k], payloads[k]));
      assert old(sections[k].Decoded(reader.data, TagEnd(reader.data, starts[k]), sections[..k]));
    }
    payload := SaveSection.Payload(0, 0, []);
    if r.Ok? {
      BodyEndAfterStart(r.value.Name(), reader.data, TagEnd(reader.data, p));
      FramedSnoc(reader.data, starts, sections, r.value, reader.pos);
      PayloadsSnoc(reader.data, starts, sections, payloads, r.value, reader.pos);
      DecodedSnoc(reader.data, starts, sections, r.value, reader.pos);
      payload := BodyPayload(r.value.Name(), reader.data, TagEnd(reader.data, p));
    }
  }

  /** The links made after the loop: the XBLD section gets the XZON section,
      and the XZON section the MISC section. */
  method Link(sections: seq<Section>, ghost data: seq<byte>, ghost starts: seq<nat>,
              ghost payloads: seq<SaveSection.Payload>) returns (r: Result<()>)
    requires |payloads| == |sections| && forall k :: 0 <= k < |sections| ==> Holds(sections[k], payloads[k])
    requires Framed(data, starts, sections) && AllDecoded(data, starts, sections)
    modifies BuildingOf(sections)`zoneSection, ZoneOf(sections)`miscSection
    ensures r.Ok? <==> FindBuilding(sections).Ok? && FindZone(sections).Ok? && FindMisc(sections).Ok?
    ensures r.Err? ==> r.error == (if FindBuilding(sections).Err? then SectionNotFound("XBLD")
                                   else if FindZone(sections).Err? then SectionNotFound("XZON")
                                   else SectionNotFound("MISC"))
    ensures r.Ok? ==> Linked(sections)
    ensures forall k :: 0 <= k < |sections| ==> Holds(sections[k], payloads[k])
    ensures AllDecoded(data, starts, sections)
  {
    var building := FindBuilding(sections);
    if building.Err? {
      return Err(building.error);
    }
    var zone := FindZone(sections);
    if zone.Err? {
      return Err(zone.error);
    }
    LinkBuilding(building.value, zone.value, sections, data, starts, payloads);
    var misc := FindMisc(sections);
    if misc.Err? {
      return Err(misc.error);
    }
    LinkZone(zone.value, misc.value, sections, data, starts, payloads);
    r := Ok(());
  }

  /** `BuildingSection.SetZoneSection(ZoneSection)`; it touches no section's contents. */
  method LinkBuilding(building: BuildingSection.BuildingSection, zone: ZoneSection.ZoneSection,
                      sections: seq<Section>, ghost data: seq<byte>, ghost starts: seq<nat>,
                      ghost payloads: seq<SaveSection.Payload>)
    requires |payloads| == |sections| && forall k :: 0 <= k < |sections| ==> Holds(sections[k], payloads[k])
    requires Framed(data, starts, sections) && AllDecoded(data, starts, sections)
    modifies building`zoneSection
    ensures building.zoneSection == zone
    ensures forall k :: 0 <= k < |sections| ==> Holds(sections[k], payloads[k])
    ensures AllDecoded(data, starts, sections)
  {
    building.SetZoneSection(zone);
    forall k | 0 <= k < |sections|
      ensures Holds(sections[k], payloads[k])
      ensures sections[k].Decoded(data, TagEnd(data, starts[k]), sections[..k])
    {
      assert old(Holds(sections[k], payloads[k]));
      assert old(sections[k].Decoded(data, TagEnd(data, starts[k]), sections[..k]));
    }
  }

  /** `ZoneSection.MiscSection = MiscSection`; it touches no section's contents. */
  method LinkZone(zone: ZoneSection.ZoneSection, misc: MiscSection.MiscSection,
                  sections: seq<Section>, ghost data: seq<byte>, ghost starts: seq<nat>,
                  ghost payloads: seq<SaveSection.Payload>)
    requires |payloads| == |sections| && forall k :: 0 <= k < |sections| ==> Holds(sections[k], payloads[k])
    requires Framed(data, starts, sections) && AllDecoded(data, starts, sections)
    modifies zone`miscSection
    ensures zone.miscSection == misc
    ensures forall k :: 0 <= k < |sections| ==> Holds(sections[k], payloads[k])
    ensures AllDecoded(data, starts, sections)
  {
    zone.miscSection := misc;
    forall k | 0 <= k < |sections|
      ensures Holds(sections[k], payloads[k])
      ensures sections[k].Decoded(data, TagEnd(data, starts[k]), sections[..k])
    {
      assert old(Holds(sections[k], payloads[k]));
      assert old(sections[k].Decoded(data, TagEnd(data, starts[k]), sections[..k]));
    }
  }
}
