/** SimCity2000Parser/SectionFactory.cs: read a section's four-byte tag,
    build the section class the tag names and let it parse its body. */
module SectionFactory {
  import opened StreamUtils
  import opened Failures
  import opened Sections
  import SaveSection
  import CompressedSaveSection
  import MiscSection
  import AltitudeSection
  import TerrainSection
  import BuildingSection
  import ZoneSection

  /** BytesToString: each byte becomes the character with that code, in order. */
  function Chars(bytes: seq<byte>): (r: string)
    ensures |r| == |bytes| && forall k :: 0 <= k < |bytes| ==> r[k] as int == bytes[k]
  {
    seq(|bytes|, k requires 0 <= k < |bytes| => bytes[k] as char)
  }

  /** Different bytes never give the same string. */
  lemma CharsInjective(a: seq<byte>, b: seq<byte>)
    requires Chars(a) == Chars(b)
    ensures a == b
  {
    assert |a| == |Chars(a)| == |b|;
    forall k | 0 <= k < |a|
      ensures a[k] == b[k]
    {
      assert Chars(a)[k] == Chars(b)[k];
    }
  }

  method BytesToString(bytes: seq<byte>) returns (s: string)
    ensures s == Chars(bytes)
  {
    s := "";
    for i := 0 to |bytes|
      invariant s == Chars(bytes[..i])
    {
      s := s + [bytes[i] as char];
      assert s == Chars(bytes[..i + 1]);
    }
    assert bytes[..|bytes|] == bytes;
  }

  /** The buffer `stream.Read(name, 0, 4)` fills at position `p`: the next four
      bytes, zero past the end of the stream. */
  function TagBytes(data: seq<byte>, p: nat): (r: seq<byte>)
    requires p <= |data|
    ensures |r| == 4
  {
    var n := Min(4, |data| - p);
    data[p..p + n] + Zeros(4 - n)
  }

  /** The section name read at `p`, and the position after it. */
  function TagAt(data: seq<byte>, p: nat): string
    requires p <= |data|
  {
    Chars(TagBytes(data, p))
  }

  function TagEnd(data: seq<byte>, p: nat): (q: nat)
    requires p <= |data|
    ensures p <= q <= |data| && (p < |data| ==> p < q)
  {
    p + Min(4, |data| - p)
  }

  /** The names whose sections are RLE-compressed. */
  const CompressedNames: set<string> := {"MISC", "XTER", "XBLD", "XZON"}

  /** The body of a section named `tag` that starts at `p` parses, given the
      sections read before it. */
  ghost predicate Parses(tag: string, data: seq<byte>, p: nat, sections: seq<Section>)
    requires p <= |data|
    reads *
  {
    if tag == "ALTM" then
      var s := AltitudeSection.ParseSpec(data, p);
      s.Ok? && |s.value.cells| >= Grid.Tiles
    else if tag == "MISC" then
      CompressedSaveSection.ParseSpec(data, p).Ok?
    else if tag == "XTER" || tag == "XBLD" then
      var s := CompressedSaveSection.ParseSpec(data, p);
      s.Ok? && |s.value.payload.rawData| >= Grid.Tiles
    else if tag == "XZON" then
      var s := CompressedSaveSection.ParseSpec(data, p);
      FindMisc(sections).Ok? && s.Ok? &&
      ZoneSection.Zones(FindMisc(sections).value.Rotation(), s.value.payload.rawData).Ok?
    else
      SaveSection.RawSpec(data, p).Ok?
  }

  /** The position where the body of a section named `tag` that starts at `p`
      ends, when it parses. */
  ghost function BodyEnd(tag: string, data: seq<byte>, p: nat): (q: nat)
    requires p <= |data|
    ensures q <= |data|
  {
    if tag == "ALTM" then
      var s := AltitudeSection.ParseSpec(data, p);
      if s.Ok? then s.value.next else p
    else if tag in CompressedNames then
      var s := CompressedSaveSection.ParseSpec(data, p);
      if s.Ok? then s.value.next else p
    else
      var s := SaveSection.RawSpec(data, p);
      if s.Ok? then s.value.next else p
  }

  /** Length, file offset and RawData of a body that parses; an ALTM
      section keeps no RawData. */
  ghost function BodyPayload(tag: string, data: seq<byte>, p: nat): SaveSection.Payload
    requires p <= |data|
  {
    if tag == "ALTM" then
      var s := AltitudeSection.ParseSpec(data, p);
      if s.Ok? then SaveSection.Payload(s.value.length, s.value.offset, []) else SaveSection.Payload(0, 0, [])
    else if tag in CompressedNames then
      var s := CompressedSaveSection.ParseSpec(data, p);
      if s.Ok? then s.value.payload else SaveSection.Payload(0, 0, [])
    else
      var s := SaveSection.RawSpec(data, p);
      if s.Ok? then s.value.payload else SaveSection.Payload(0, 0, [])
  }

  /** A body that parses ends at or after the position it starts at. */
  lemma BodyEndAfterStart(tag: string, data: seq<byte>, p: nat)
    requires p <= |data|
    ensures p <= BodyEnd(tag, data, p)
  {
  }

  /** What parsing the body of a section named `tag` from `p` promises: it
      succeeds exactly when the body parses, and then the section holds the
      payload and the decoded state of that body and the stream is where the
      body ends. */
  ghost predicate ParsedAs(r: Result<Section>, tag: string, data: seq<byte>, p: nat, q: nat, sections: seq<Section>)
    requires p <= |data|
    reads *
  {
    (r.Ok? <==> Parses(tag, data, p, sections)) &&
    (r.Ok? ==> r.value.Name() == tag && r.value.WellTagged() && r.value.Valid() &&
                r.value.Contents() == BodyPayload(tag, data, p) && q == BodyEnd(tag, data, p) &&
                r.value.Decoded(data, p, sections))
  }

  method ParseMisc(stream: ByteStream, ghost tag: string, ghost sections: seq<Section>) returns (r: Result<Section>)
    requires stream.Valid() && tag == "MISC"
    modifies stream
    ensures stream.Valid() && ParsedAs(r, tag, stream.data, old(stream.pos), stream.pos, sections)
    ensures r.Ok? ==> fresh(r.value.Ref())
  {
    var s := new MiscSection.MiscSection();
    var res := s.ParseSection(stream);
    if res.Err? {
      return Err(res.error);
    }
    r := Ok(Misc(s));
  }

  method ParseAltitude(stream: ByteStream, ghost tag: string, ghost sections: seq<Section>) returns (r: Result<Section>)
    requires stream.Valid() && tag == "ALTM"
    modifies stream
    ensures stream.Valid() && ParsedAs(r, tag, stream.data, old(stream.pos), stream.pos, sections)
    ensures r.Ok? ==> fresh(r.value.Ref())
  {
    var s := new AltitudeSection.AltitudeSection();
    var res := s.ParseSection(stream);
    if res.Err? {
      return Err(res.error);
    }
    r := Ok(Altitude(s));
  }

  method ParseTerrain(stream: ByteStream, ghost tag: string, ghost sections: seq<Section>) returns (r: Result<Section>)
    requires stream.Valid() && tag == "XTER"
    modifies stream
    ensures stream.Valid() && ParsedAs(r, tag, stream.data, old(stream.pos), stream.pos, sections)
    ensures r.Ok? ==> fresh(r.value.Ref())
  {
    var s := new TerrainSection.TerrainSection();
    var res := s.ParseSection(stream);
    if res.Err? {
      return Err(res.error);
    }
    r := Ok(Terrain(s));
  }

  method ParseBuilding(stream: ByteStream, ghost tag: string, ghost sections: seq<Section>) returns (r: Result<Section>)
    requires stream.Valid() && tag == "XBLD"
    modifies stream
    ensures stream.Valid() && ParsedAs(r, tag, stream.data, old(stream.pos), stream.pos, sections)
    ensures r.Ok? ==> fresh(r.value.Ref())
  {
    var s := new BuildingSection.BuildingSection();
    var res := s.ParseSection(stream);
    if res.Err? {
      return Err(res.error);
    }
    r := Ok(Building(s));
  }

  /** The XZON case: the MISC section is looked up before the body is read. */
  method ParseZone(stream: ByteStream, ghost tag: string, sections: seq<Section>) returns (r: Result<Section>)
    requires stream.Valid() && tag == "XZON"
    modifies stream
    ensures stream.Valid() && ParsedAs(r, tag, stream.data, old(stream.pos), stream.pos, sections)
    ensures FindMisc(sections).Err? ==> r == Err(SectionNotFound("MISC"))
    ensures r.Ok? ==> fresh(r.value.Ref()) && r.value.Zone? && r.value.zone.miscSection == FindMisc(sections).value
  {
    var misc := FindMisc(sections);
    if misc.Err? {
      return Err(misc.error);
    }
    r := ParseZoneWith(stream, tag, misc.value, sections);
  }

  /** The XZON body, read with the MISC section `misc` linked in. */
  method ParseZoneWith(stream: ByteStream, ghost tag: string, misc: MiscSection.MiscSection, ghost sections: seq<Section>)
    returns (r: Result<Section>)
    requires stream.Valid() && tag == "XZON" && FindMisc(sections) == Ok(misc)
    modifies stream
    ensures stream.Valid() && ParsedAs(r, tag, stream.data, old(stream.pos), stream.pos, sections)
    ensures r.Ok? ==> fresh(r.value.Ref()) && r.value.Zone? && r.value.zone.miscSection == misc
  {
    var s := new ZoneSection.ZoneSection();
    s.miscSection := misc;
    var res := s.ParseSection(stream);
    if res.Err? {
      return Err(res.error);
    }
    r := Ok(Zone(s));
  }

  method ParseRaw(stream: ByteStream, tag: string, ghost sections: seq<Section>) returns (r: Result<Section>)
    requires stream.Valid() && tag !in KnownNames
    modifies stream
    ensures stream.Valid() && ParsedAs(r, tag, stream.data, old(stream.pos), stream.pos, sections)
    ensures r.Ok? ==> fresh(r.value.Ref())
  {
    var s := new SaveSection.SaveSection(tag);
    var res := s.ParseSection(stream);
    if res.Err? {
      return Err(res.error);
    }
    r := Ok(Raw(s));
  }

  /** SectionFactory.ParseSaveSection, with the sections read so far standing
      for the save object it is given. */
  method ParseSaveSection(stream: ByteStream, sections: seq<Section>) returns (r: Result<Section>)
    requires stream.Valid()
    modifies stream
    ensures stream.Valid()
    ensures ParsedAs(r, TagAt(stream.data, old(stream.pos)), stream.data, TagEnd(stream.data, old(stream.pos)), stream.pos, sections)
    ensures r.Ok? ==> fresh(r.value.Ref())
  {
    ghost var p0 := stream.pos;
    var name, n := stream.Read(4);
    var tag := BytesToString(name);
    assert tag == TagAt(stream.data, p0) && stream.pos == TagEnd(stream.data, p0);
    if tag == "MISC" {
      r := ParseMisc(stream, tag, sections);
    } else if tag == "ALTM" {
      r := ParseAltitude(stream, tag, sections);
    } else if tag == "XTER" {
      r := ParseTerrain(stream, tag, sections);
    } else if tag == "XBLD" {
      r := ParseBuilding(stream, tag, sections);
    } else if tag == "XZON" {
      r := ParseZone(stream, tag, sections);
    } else {
      r := ParseRaw(stream, tag, sections);
    }
  }
}
