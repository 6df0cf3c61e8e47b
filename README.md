# SimCity 2000 save-file decoder, modelled in Dafny

This project models the decoder of SimCity 2000 `.sc2` save files in the
`SimCity2000Parser` library, and proves properties of the model.

A save file is an IFF container. It starts with the group identifier "FORM",
a 32-bit big-endian length and the form type "SCDH". Sections follow back to
back. Each section has a four-character tag, a 32-bit big-endian length and a
body.

The decoder reads the sections listed below. Every grid section is filled into
a 128 x 128 grid with the same flip: the cell at file index `i * 128 + j` goes
to tile `[i, 127 - j]`.

- **MISC**: run-length compressed 32-bit integers. The model reads the sea
  level at index 912 and the view rotation at index 2.
- **ALTM**: uncompressed 16-bit altitude cells. Each cell holds a 5-bit
  altitude and a water bit.
- **XTER**: one compressed byte per tile, naming a kind of terrain and a slope.
- **XZON**: one compressed byte per tile. The low nibble is the kind of zone.
  The high nibble holds corner flags, which are turned to the view rotation.
  A pass then links multi-tile buildings into footprints.
- **XBLD**: one compressed building-type byte per tile. It answers footprint
  queries from the XZON section.
- **Any other tag**: kept as raw bytes.

Two saves can be compared section by section.

The input file is a byte sequence read through a cursor (`StreamUtils.ByteStream`).
End-of-stream behaviour follows the .NET streams:

- `ReadByte` past the end returns -1. The `(byte)` cast turns that into 0xFF,
  and the position stays where it was.
- `Read` fills a zeroed buffer with the bytes that remain.

Arithmetic on C# `int` follows 32-bit rules:

- `b0 << 24` wraps to a negative value.
- `RawDataFileOffset + Length` wraps.
- `StreamUtils.Wrap32` models both.

Exceptions become the `Err` cases of `Failures.Result`, as follows:

| source behaviour | model error |
|---|---|
| thrown parse exceptions, with their messages | `FormatError` |
| "Bad run-length encoding" | `BadRunLength` |
| array bounds | `IndexOutOfRange` |
| "Section not found", and the accessors' `as`-cast returning `null` | `SectionNotFound(name)` |
| a negative array size | `NegativeLength` |

Classes whose fields the source sets in place are Dafny classes with those
fields:

- `SaveSection`, `MiscSection`, `AltitudeSection`, `TerrainSection`,
  `ZoneSection` and `BuildingSection`;
- `SimCity2000Save`;
- the stream.

The four grids are `array2` values, filled by one shared loop (`Grid.Fill`).

The zone footprint pass works in place on the zone grid (`ZoneTopology.LinkFootprints`). It is proved against a
pure definition of the pass (`ZoneTopology.Topology`), whose properties are
proved separately. Sections are held in the `Sections.Section` datatype,
which has one case per class the factory can build.

Three behaviours of the decoder are easy to miss, and the model keeps each
of them:

- **More compressed bytes than declared.** When a run reads past the declared
  end of a compressed section, the decoder accepts it. See
  `CompressedSaveSection.OvershootAccepted`.
- **MISC length.** MISC is not required to hold exactly 1200 integers. The
  decoder reads one integer per four bytes, whatever there are.
- **Zone scan running off the grid.** A zone scan that runs off the grid fails
  with an index out of range. It is not clamped to the edge.

## Model

| member | source | states |
|---|---|---|
| StreamUtils.Int16BE | SimCity2000Parser/StreamUtils.cs:34-35 | the 2-byte value lies in [0, 65535], its high byte is the first byte read and its low byte the second |
| StreamUtils.ByteStream.Read2ByteInt | SimCity2000Parser/StreamUtils.cs:28-38 | reads the next two bytes (0xFF past the end), moves the cursor by two (less only at the end of the stream) and returns them big-endian |
| StreamUtils.ByteStream.Read4ByteInt | SimCity2000Parser/StreamUtils.cs:12-26 | reads the next four bytes (0xFF past the end), moves the cursor by four (less only at the end of the stream) and returns them combined big-endian in a 32-bit int |
| StreamUtils.Int32BETwosComplement | SimCity2000Parser/StreamUtils.cs:20-23 | the 4-byte value is the unsigned big-endian value when b0 < 0x80 and that value less 2^32 otherwise; it is negative exactly when b0 >= 0x80 and always within the 32-bit range |
| StreamUtils.Int16RoundTrip | SimCity2000Parser/StreamUtils.cs:28-38 | the 2-byte reader and the 2-byte encoder are inverse to each other in both directions |
| StreamUtils.Int32RoundTrip | SimCity2000Parser/StreamUtils.cs:12-26 | the 4-byte reader and the 4-byte encoder are inverse to each other in both directions on the 32-bit range |
| StreamUtils.Wrap32 | SimCity2000Parser/CompressedSaveSection.cs:29 | the 32-bit int result of a sum: in [-2^31, 2^31), congruent to the sum modulo 2^32, and the sum itself when no overflow occurs |
| StreamUtils.ByteStream.ReadByte | SimCity2000Parser/StreamUtils.cs:15-18 | `(byte)ReadByte()`: the byte under the cursor and a step of one, or 0xFF and no step at the end of the stream |
| StreamUtils.ByteStream.Read | SimCity2000Parser/SaveSection.cs:39-40 | a `count`-byte buffer holding the bytes that remain (at most `count`) followed by zeros; the cursor moves past the bytes read |
| CompressedSaveSection.Repeat | SimCity2000Parser/CompressedSaveSection.cs:46-49 | `n` copies of the byte, nothing else |
| CompressedSaveSection.Step | SimCity2000Parser/CompressedSaveSection.cs:33-54 | one run: it fails exactly when the control byte is 0 or 128; otherwise it yields `b` bytes for `b < 128` and `b - 127` for `b > 128`, and moves forward within the stream |
| CompressedSaveSection.ReadRun | SimCity2000Parser/CompressedSaveSection.cs:33-54 | the loop body reads exactly the run Step defines, with the same error and the same new position |
| CompressedSaveSection.Decode | SimCity2000Parser/CompressedSaveSection.cs:29-55 | a successful decode stops at or past the declared end, within the stream, having made progress whenever there was input before the end |
| CompressedSaveSection.ParseSpec | SimCity2000Parser/CompressedSaveSection.cs:25-29 | `Length` is the 4-byte prefix, `RawDataFileOffset` is the 32-bit cursor position right after it, and the section ends within the stream after the prefix |
| CompressedSaveSection.ParseSection | SimCity2000Parser/CompressedSaveSection.cs:22-58 | the decompression loop succeeds exactly when ParseSpec does, with the same payload, new position and error |
| CompressedSaveSection.StepEncodeRun | SimCity2000Parser/CompressedSaveSection.cs:35-50 | an encoded literal run of 1..127 bytes or repeat run of 2..128 copies decodes to its expansion and stops right after its encoding |
| CompressedSaveSection.DecodeEncode | SimCity2000Parser/CompressedSaveSection.cs:28-57 | the decompressor inverts the run encoder: the encoding of any well-formed runs, with the declared end right after it, decodes to the runs' expansions in order and stops exactly at that end |
| CompressedSaveSection.DecodeExample | SimCity2000Parser/CompressedSaveSection.cs:28-57 | `[3, AA, BB, CC, 130, DD]` decodes to `[AA, BB, CC, DD, DD, DD]` |
| CompressedSaveSection.BadControlByteRejected | SimCity2000Parser/CompressedSaveSection.cs:51-54 | a control byte of 0 or 128 before the declared end fails with BadRunLength |
| CompressedSaveSection.OvershootAccepted | SimCity2000Parser/CompressedSaveSection.cs:29 | the end is only compared between runs: a run that reads past the declared end is accepted |
| CompressedSaveSection.StepStallsAtEnd | SimCity2000Parser/CompressedSaveSection.cs:29-50 | at the end of the stream the loop body as written yields 128 bytes 0xFF and does not move, so the loop cannot end |
| CompressedSaveSection.TruncatedInputFails | SimCity2000Parser/CompressedSaveSection.cs:29-55 | with the end-of-stream check, a declared end past the end of the stream always fails |
| SaveSection.RawSpec | SimCity2000Parser/SaveSection.cs:35-41 | the raw read succeeds exactly when the 4-byte length is non-negative, sets `Length` to it, records the offset after it, and holds exactly `Length` bytes: those of the stream, then zeros once it runs out |
| SaveSection.SaveSection.ParseSection | SimCity2000Parser/SaveSection.cs:35-41 | the raw section's fields and the new position are those RawSpec gives, or its error |
| SaveSection.DiffBytes | SimCity2000Parser/SaveSection.cs:50-82 | the byte-wise diff loop produces the corrected Diff, with the old-only bytes reported |
| SaveSection.DiffSelfEmpty | SimCity2000Parser/SaveSection.cs:50-82 | a section compared with itself has no differences |
| SaveSection.DiffLengthEntry | SimCity2000Parser/SaveSection.cs:54-57 | the first entry is ("Length", old length, new length) exactly when the byte counts differ |
| SaveSection.ByteEntriesShape | SimCity2000Parser/SaveSection.cs:59-70 | the byte entries have strictly increasing offsets within the section, number at most the new byte count, are each for a byte that is new or differs (old value first, empty when past the old bytes), and cover every such byte |
| SaveSection.DiffSymmetric | SimCity2000Parser/SaveSection.cs:59-79 | for sections at the same offset, the corrected diff one way is the other way with old and new values swapped |
| SaveSection.AsWrittenMissesOldBytes | SimCity2000Parser/SaveSection.cs:73-79 | as written, the old-is-longer loop never runs: a byte only the old section has is not reported, while the same byte in the new section is |
| MiscSection.ReadInts | SimCity2000Parser/MiscSection.cs:52-58 | the MemoryStream loop yields the integer list Ints defines |
| MiscSection.IntsLayout | SimCity2000Parser/MiscSection.cs:52-58 | the payload gives one integer per four bytes, rounded up; each whole group is the big-endian word at its place; 4800 bytes give exactly 1200 integers |
| MiscSection.IntsFromAt | SimCity2000Parser/MiscSection.cs:54-57 | integer k read from position p is the big-endian word at p + 4k, with 0xFF padding past the end |
| MiscSection.MiscSection.SeaLevel | SimCity2000Parser/MiscSection.cs:30-36 | the sea level is integer 912, and fails exactly when the list is shorter |
| MiscSection.MiscSection.Rotation | SimCity2000Parser/MiscSection.cs:38-44 | the rotation is integer 2, and fails exactly when the list is shorter |
| MiscSection.MiscSection.ParseSection | SimCity2000Parser/MiscSection.cs:46-59 | after decompression, exactly as ParseSpec says, `Data` is the integer list of the payload |
| MiscSection.MiscSection.Diff | SimCity2000Parser/MiscSection.cs:74-88 | the loop yields IntDiff: an index out of range when the old list is shorter, else the entries of the differing indices |
| MiscSection.IntEntriesExact | SimCity2000Parser/MiscSection.cs:79-85 | an entry (i, old[i], new[i]) is reported exactly for the indices whose values differ, in increasing order of index, and nothing else |
| MiscSection.IntDiffSelf | SimCity2000Parser/MiscSection.cs:74-88 | a MISC list compared with itself has no differences |
| MiscSection.IntDiffSymmetric | SimCity2000Parser/MiscSection.cs:74-88 | two MISC lists of one length compared either way both succeed, and give the same entries with old and new values swapped |
| Sections.KindNames | SimCity2000Parser/MiscSection.cs:19-25 | a MISC section is always named "MISC" and each other decoded kind carries its own tag |
| AltitudeSection.AltitudeDescriptor.Altitude | SimCity2000Parser/AltitudeSection.cs:89 | the altitude is the low five bits, so it lies in 0..31 |
| AltitudeSection.WaterBit | SimCity2000Parser/AltitudeSection.cs:90 | the water flag is set exactly when bit 0x80 of the raw value is |
| AltitudeSection.EqualsExactlyOnKnownBits | SimCity2000Parser/AltitudeSection.cs:92-109 | two cells are Equal exactly when they agree on bits 0x9F; the unknown bits 0xFF60 are the complement, so they never change the decoded fields |
| AltitudeSection.DecodeExamples | SimCity2000Parser/AltitudeSection.cs:85-96 | 0x0085 decodes to altitude 5 under water with no unknown bit; 0x0020 decodes to altitude 0, dry, with an unknown bit set, so the debug line is written for it |
| AltitudeSection.Cells | SimCity2000Parser/AltitudeSection.cs:22-25 | a successful read of cells ends at or past the declared end, within the stream, and every cell is a 16-bit value |
| AltitudeSection.CellsAt | SimCity2000Parser/AltitudeSection.cs:18-25 | cell k is the big-endian pair of bytes at p + 2k |
| AltitudeSection.CellsCount | SimCity2000Parser/AltitudeSection.cs:22-25 | one cell per two bytes consumed, rounded up, and the read stops at most one byte past the declared end, so a body of `Length` bytes inside the stream gives `Length / 2` cells, rounded up |
| AltitudeSection.EvenLengthCells | SimCity2000Parser/AltitudeSection.cs:22-25 | `2n` bytes inside the stream up to the declared end read without error as exactly `n` cells, ending exactly at that end |
| AltitudeSection.CellsOddLast | SimCity2000Parser/AltitudeSection.cs:24 | a cell whose second byte lies past the end of the stream is the last byte followed by 0xFF |
| AltitudeSection.FullGridParses | SimCity2000Parser/AltitudeSection.cs:18-27 | a body declaring 32768 bytes that lies inside the file gives exactly 16384 cells, with `Length` and the offset set and the cursor right after the body, so the grid fill can take place |
| AltitudeSection.ReadCells | SimCity2000Parser/AltitudeSection.cs:22-25 | the cell loop yields what Cells defines, with the same error and new position |
| AltitudeSection.ReadCellStallsAtEnd | SimCity2000Parser/AltitudeSection.cs:22-25 | at the end of the stream the loop body as written reads 0xFFFF and does not move, so the loop cannot end |
| AltitudeSection.TruncatedCellsFail | SimCity2000Parser/AltitudeSection.cs:22-25 | with the end-of-stream check, a declared end past the end of the stream always fails |
| AltitudeSection.ParseSpec | SimCity2000Parser/AltitudeSection.cs:18-25 | the cells end within the stream, after the length prefix |
| AltitudeSection.AltitudeSection.ParseSection | SimCity2000Parser/AltitudeSection.cs:16-35 | the ALTM section succeeds exactly when its cells are read and number at least 16384; `Length` and the offset are set; the grid holds the cells flipped |
| AltitudeSection.AltitudeSection.DiffRow | SimCity2000Parser/AltitudeSection.cs:44-51 | one row of the nested diff loop yields that row's entries |
| AltitudeSection.AltitudeSection.Diff | SimCity2000Parser/AltitudeSection.cs:37-54 | the nested loop yields the entries of all rows, in row order |
| AltitudeSection.DiffReportsExactlyChangedTiles | SimCity2000Parser/AltitudeSection.cs:37-54 | a tile is reported, named by its coordinates with its old (altitude, water) pair before its new one, exactly when that pair differs, and nothing else is reported |
| AltitudeSection.DiffSelfEmpty | SimCity2000Parser/AltitudeSection.cs:37-54 | an altitude grid compared with itself has no differences |
| AltitudeSection.GridEntriesSymmetric | SimCity2000Parser/AltitudeSection.cs:37-54 | two altitude grids compared either way give the same tiles in the same order, with old and new (altitude, water) pairs swapped |
| Grid.FlipBijective | SimCity2000Parser/TerrainSection.cs:34-40 | the map from file index `i * 128 + j` to tile `[i, 127 - j]` is a bijection between the first 16384 indices and the tiles |
| Grid.Fill | SimCity2000Parser/TerrainSection.cs:34-40 | after the nested loop, `grid[i, 127 - j]` is cell `i * 128 + j` for every i, j, so every tile holds its flipped cell |
| Grid.ReadEach | SimCity2000Parser/BuildingSection.cs:30-37 | the descriptor loop yields one descriptor per payload byte, in order |
| TerrainSection.DescribeTable | SimCity2000Parser/TerrainSection.cs:68-121 | bytes 0x00-0x0D are dry land with slope code the byte; 0x10-0x1D, 0x20-0x2D and 0x30-0x3D are submerged, partly submerged and surface water with the low nibble as slope code; 0x3E-0x45 (not 0x3F) are the waterfall, canals and bays with a flat slope; every other byte is flat dry land |
| TerrainSection.SlopeCodesAreOrdinals | SimCity2000Parser/TerrainSection.cs:122-167 | slope code k in 0..13 is the k-th slope, every slope has its code, and a code of 14 or more leaves LowFlat |
| TerrainSection.SlopeCodeInRange | SimCity2000Parser/TerrainSection.cs:72-92 | every byte's slope code is in 0..13 and is the ordinal of the slope it decodes to |
| TerrainSection.TerrainSection.ParseSection | SimCity2000Parser/TerrainSection.cs:19-41 | the XTER section succeeds exactly when decompression does and yields at least 16384 bytes; every tile holds the description of its flipped byte |
| ZoneDescriptor.Describe | SimCity2000Parser/ZoneSection.cs:187-213 | a zone byte fails to decode exactly when MISC has no rotation and the byte has a corner bit; the kind of zone is below 16 and the tile starts as no multi-tile building |
| ZoneDescriptor.DescribeNeedsRotationForCorners | SimCity2000Parser/ZoneSection.cs:189-211 | a byte without corner bits has no corners; otherwise the corners are the rotated bits; the kind of zone is `byte & 0xF` |
| ZoneDescriptor.CornerInfoIsImage | SimCity2000Parser/ZoneSection.cs:191-209 | the accumulated flags are the stored corner bits (0x80 TopLeft, 0x40 BottomLeft, 0x20 BottomRight, 0x10 TopRight), each transposed |
| ZoneDescriptor.TransposeIdentity | SimCity2000Parser/ZoneSection.cs:215-260 | TransposeCorner leaves every corner alone for a rotation other than 1, 2 and 3 |
| ZoneDescriptor.TransposeBijective | SimCity2000Parser/ZoneSection.cs:217-258 | for every rotation, the table is a permutation of the four corners, undone by the inverse rotation |
| ZoneDescriptor.TransposeCyclic | SimCity2000Parser/ZoneSection.cs:217-258 | rotation 2 is rotation 1 twice, rotation 3 is the inverse of rotation 1, and a lone TopLeft bit yields TopLeft, BottomLeft, BottomRight, TopRight for rotations 0..3 |
| ZoneDescriptor.CornerCount | SimCity2000Parser/ZoneSection.cs:191-258 | for every rotation, a tile has as many corner flags as its byte has corner bits |
| ZoneTopology.ScanBottomLeft | SimCity2000Parser/ZoneSection.cs:62-68 | the first scan finds the first bottom-left tile at or after the start in its column, or 128 when there is none |
| ZoneTopology.ScanBottomRight | SimCity2000Parser/ZoneSection.cs:71-77 | the second scan finds the first bottom-right tile at or after the start in that row, or 128 when there is none |
| ZoneTopology.FindBottomLeft | SimCity2000Parser/ZoneSection.cs:62-68 | the scan loop with its break stops where ScanBottomLeft says |
| ZoneTopology.FindBottomRight | SimCity2000Parser/ZoneSection.cs:71-77 | the scan loop with its break stops where ScanBottomRight says |
| ZoneTopology.Footprint | SimCity2000Parser/ZoneSection.cs:58-89 | a start's far corner lies on the grid, at or past the start, on a bottom-left tile in the start's column and a bottom-right tile in its row; a missing marker is an index out of range |
| ZoneTopology.FootprintFirst | SimCity2000Parser/ZoneSection.cs:62-77 | the far corner is the first bottom-left and then the first bottom-right marker, and the extent fails exactly when one of the two is missing before the edge |
| ZoneTopology.FootprintExample | SimCity2000Parser/ZoneSection.cs:52-90 | TopLeft at [0, 0], BottomLeft at [1, 0] and BottomRight at [1, 1] give a 2 x 2 footprint |
| ZoneTopology.StampFacts | SimCity2000Parser/ZoneSection.cs:84-88 | a stamp keeps the kind of zone and the corners, and a later stamp replaces an earlier one |
| ZoneTopology.Topology | SimCity2000Parser/ZoneSection.cs:48-93 | the pass can fail only with an index out of range |
| ZoneTopology.PassFails | SimCity2000Parser/ZoneSection.cs:48-93 | the pass fails exactly when some start's extent cannot be found |
| ZoneTopology.PassCells | SimCity2000Parser/ZoneSection.cs:48-93 | after the steps, each tile holds the stamp of the last building covering it, or is as filled |
| ZoneTopology.PassKeepsCorners | SimCity2000Parser/ZoneSection.cs:80-90 | no step changes a tile's corners or kind of zone, so the scans see the corners as filled |
| ZoneTopology.TopologyCells | SimCity2000Parser/ZoneSection.cs:80-90 | a tile is multi-tile exactly when some footprint covers it, then with an origin that starts a building, inside the recorded size and within the grid; an uncovered tile is unchanged |
| ZoneTopology.PaintRect | SimCity2000Parser/ZoneSection.cs:80-90 | the fill loop stamps exactly the rectangle's tiles with origin and size and leaves every other tile alone |
| ZoneTopology.LinkStep | SimCity2000Parser/ZoneSection.cs:52-91 | one tile of the pass in place advances the grid by one step of Pass, or fails and then so does the whole pass |
| ZoneTopology.LinkRow | SimCity2000Parser/ZoneSection.cs:50-92 | one row of the pass in place advances the grid by 128 steps of Pass, or fails and then so does the whole pass |
| ZoneTopology.LinkFootprints | SimCity2000Parser/ZoneSection.cs:48-93 | the pass in place succeeds exactly when Topology does, and then leaves the grid Topology defines |
| ZoneSection.Descriptors | SimCity2000Parser/ZoneSection.cs:26-33 | one descriptor per payload byte, in order; it fails, with the rotation's error, exactly when MISC has no rotation and some byte has a corner bit |
| ZoneSection.ReadZones | SimCity2000Parser/ZoneSection.cs:26-33 | the MemoryStream loop yields what Descriptors defines |
| ZoneSection.DecodeZones | SimCity2000Parser/ZoneSection.cs:24-93 | the descriptor loop, the fill and the pass succeed exactly when Zones does and leave its grid |
| ZoneSection.ZoneSection.ParseSection | SimCity2000Parser/ZoneSection.cs:20-94 | the XZON section decompresses as ParseSpec says, then holds the grid Zones defines for the payload and the linked MISC rotation, or fails with Zones' error |
| ZoneSection.ZoneTiles | SimCity2000Parser/ZoneSection.cs:35-41 | a parsed tile's kind of zone is the low nibble of its flipped byte, and a multi-tile tile lies inside its footprint, which lies inside the grid |
| BuildingSection.BuildingSection.ParseSection | SimCity2000Parser/BuildingSection.cs:24-46 | the XBLD section succeeds exactly when decompression does and yields at least 16384 bytes; every tile's type is its flipped byte, and bytes past 16384 are ignored |
| BuildingSection.BuildingSection.SetZoneSection | SimCity2000Parser/BuildingSection.cs:19-22 | the zone section is linked in, and nothing else changes |
| BuildingSection.BuildingSection.IsMultiTileBuilding | SimCity2000Parser/BuildingSection.cs:61-64 | the zone tile's multi-tile flag at the same coordinate; an index out of range off the grid |
| BuildingSection.BuildingSection.BuildingSizeX | SimCity2000Parser/BuildingSection.cs:66-69 | the zone tile's LengthX at the same coordinate; fails off the grid |
| BuildingSection.BuildingSection.BuildingSizeY | SimCity2000Parser/BuildingSection.cs:71-74 | the zone tile's LengthY at the same coordinate; fails off the grid |
| BuildingSection.BuildingSection.GetMultiTileBuildingOffset | SimCity2000Parser/BuildingSection.cs:48-59 | (0, 0) for a tile of no multi-tile building, else the tile's distance from the building's origin; fails off the grid |
| BuildingSection.BuildingSection.OffsetWithinBuilding | SimCity2000Parser/BuildingSection.cs:57-58 | once the zone section holds a parsed grid, a multi-tile tile's offset lies in [0, LengthX) x [0, LengthY), and the building lies inside the grid |
| SectionFactory.Chars | SimCity2000Parser/SectionFactory.cs:53-62 | the string has one character per byte, each with that byte's code |
| SectionFactory.CharsInjective | SimCity2000Parser/SectionFactory.cs:53-62 | different tags read give different names |
| SectionFactory.BytesToString | SimCity2000Parser/SectionFactory.cs:53-62 | the concatenation loop yields Chars of the bytes |
| SectionFactory.TagBytes | SimCity2000Parser/SectionFactory.cs:19-21 | the tag is always four bytes, zero past the end of the stream |
| SectionFactory.TagEnd | SimCity2000Parser/SectionFactory.cs:21 | reading the tag moves the cursor forward within the stream, and strictly forward before the end |
| SectionFactory.ParseSaveSection | SimCity2000Parser/SectionFactory.cs:17-51 | the tag selects the decoder; the section succeeds exactly when its body parses, carries the tag as its name, is well tagged, holds the payload its body decodes to, leaves the cursor where the body ends, and holds its body's decoded state: MISC `Data` is the integer list of the payload, the ALTM grid holds the cells flipped, every XTER tile is the description of its flipped byte, every XBLD tile's type is its flipped byte, and the XZON grid is the one Zones defines for the payload and the rotation of the MISC section read before it |
| SectionFactory.ParseMisc | SimCity2000Parser/SectionFactory.cs:28-30 | a MISC tag builds a fresh MISC section that parses as its body says, whose `Data` is the integer list of the decompressed payload |
| SectionFactory.ParseAltitude | SimCity2000Parser/SectionFactory.cs:31-33 | an ALTM tag builds a fresh ALTM section that parses as its body says, whose grid holds the cells of the body flipped |
| SectionFactory.ParseTerrain | SimCity2000Parser/SectionFactory.cs:34-36 | an XTER tag builds a fresh XTER section that parses as its body says, every tile holding the description of its flipped byte |
| SectionFactory.ParseBuilding | SimCity2000Parser/SectionFactory.cs:37-39 | an XBLD tag builds a fresh XBLD section that parses as its body says, every tile's building type being its flipped byte |
| SectionFactory.ParseZone | SimCity2000Parser/SectionFactory.cs:40-43 | an XZON tag looks up MISC first and fails with "MISC" not found without it; otherwise the fresh zone section is linked to that MISC section and its grid is the one Zones defines for the payload and that section's rotation |
| SectionFactory.ParseZoneWith | SimCity2000Parser/SectionFactory.cs:41-49 | the zone section is parsed with the MISC section linked in; it parses as its body says, and its grid is the one Zones defines for the payload and that MISC section's rotation |
| SectionFactory.ParseRaw | SimCity2000Parser/SectionFactory.cs:44-49 | any other tag gives a fresh raw section named by the tag that holds the next `Length` bytes |
| Sections.Find | SimCity2000Parser/SimCity2000Save.cs:92-101 | a section that is found is in the list with the name looked for; otherwise the error is that name not found |
| Sections.FindFirst | SimCity2000Parser/SimCity2000Save.cs:92-101 | the lookup fails exactly when no section has the name, and otherwise returns the first one that has it |
| Sections.GetSection | SimCity2000Parser/SimCity2000Save.cs:92-101 | the linear search loop returns what Find defines |
| Sections.FindMisc | SimCity2000Parser/SimCity2000Save.cs:138-144 | the MISC accessor returns a MISC section of the list |
| Sections.FindTerrain | SimCity2000Parser/SimCity2000Save.cs:146-152 | the XTER accessor returns an XTER section of the list |
| Sections.FindAltitude | SimCity2000Parser/SimCity2000Save.cs:154-160 | the ALTM accessor returns an ALTM section of the list |
| Sections.FindBuilding | SimCity2000Parser/SimCity2000Save.cs:162-168 | the XBLD accessor returns an XBLD section of the list |
| Sections.FindZone | SimCity2000Parser/SimCity2000Save.cs:170-176 | the XZON accessor returns an XZON section of the list |
| Sections.MiscFoundByName | SimCity2000Parser/SimCity2000Save.cs:138-144 | among well-tagged sections the MISC accessor succeeds exactly when some section is named "MISC" |
| Sections.TerrainFoundByName | SimCity2000Parser/SimCity2000Save.cs:146-152 | the same for "XTER" |
| Sections.AltitudeFoundByName | SimCity2000Parser/SimCity2000Save.cs:154-160 | the same for "ALTM" |
| Sections.BuildingFoundByName | SimCity2000Parser/SimCity2000Save.cs:162-168 | the same for "XBLD" |
| Sections.ZoneFoundByName | SimCity2000Parser/SimCity2000Save.cs:170-176 | the same for "XZON" |
| Sections.DiffSection | SimCity2000Parser/SimCity2000Save.cs:78 | the virtual diff call dispatches to the MISC and ALTM overrides, or to the byte-wise diff |
| Sections.DiffSpecSelf | SimCity2000Parser/SimCity2000Save.cs:78 | any section compared with itself has no differences |
| Sections.DiffSpecSymmetric | SimCity2000Parser/SimCity2000Save.cs:78 | for two MISC sections holding as many integers, for any two ALTM sections, and for other sections at one file offset, comparing either way succeeds and gives the same entries with old and new values swapped |
| SimCity2000Save.ReadHeader | SimCity2000Parser/SimCity2000Save.cs:27-59 | the header fails exactly when the file is shorter than 8 bytes, does not start with "FORM", or has no "SCDH" at bytes 8-11, with the source's message for the first such check; otherwise it returns the unchecked big-endian length at bytes 4-7 and leaves the cursor at 12 |
| SimCity2000Save.ReadSection | SimCity2000Parser/SimCity2000Save.cs:64 | the section read next is read exactly when its body parses; it is named by its tag, holds the payload its body decodes to and its body's decoded state (the per-kind grids and integers stated for ParseSaveSection), leaves the cursor where the body ends and disturbs none of the sections before it |
| SimCity2000Save.ReadSections | SimCity2000Parser/SimCity2000Save.cs:62-65 | the sections read lie back to back in stream order from the first start, each holding the payload its body decodes to and its body's decoded state (AllDecoded); the loop succeeds when they reach the end of the file, and fails exactly when the next section's body, before the end of the file, does not parse |
| SimCity2000Save.ReadNext | SimCity2000Parser/SimCity2000Save.cs:62-65 | one turn of the loop: the next section either extends the back-to-back framing by one section holding the payload and decoded state of its body, keeping those of the sections before it, with the cursor strictly further on, or fails exactly when its body does not parse |
| SimCity2000Save.FramedAdvances | SimCity2000Parser/SimCity2000Save.cs:62-65 | each section starts strictly after the one before it |
| SimCity2000Save.Link | SimCity2000Parser/SimCity2000Save.cs:69-70 | post-linking succeeds exactly when XBLD, XZON and MISC are all present, failing with the first missing one in the source's order; XBLD then points to XZON and XZON to MISC; only those two link fields may change, so every section keeps its payload and its decoded state |
| SimCity2000Save.LinkBuilding | SimCity2000Parser/SimCity2000Save.cs:69 | XBLD is linked to XZON; only that link field changes, and every section keeps its payload and decoded state |
| SimCity2000Save.LinkedSave | SimCity2000Parser/SimCity2000Save.cs:69-71 | the end of the parse succeeds exactly when XBLD, XZON and MISC are all present, failing with the first missing one; the save object returned is new, holds the sections and the length, and the sections are linked and keep their payloads and decoded state |
| SimCity2000Save.DecodedSnoc | SimCity2000Parser/SimCity2000Save.cs:62-65 | appending a section that holds its body's decoded state to framed decoded sections keeps all of them decoded, the new one judged against the sections before it |
| SimCity2000Save.LinkZone | SimCity2000Parser/SimCity2000Save.cs:70 | XZON is linked to MISC; only that link field changes, and every section keeps its payload and decoded state |
| SimCity2000Save.ParseSaveFile | SimCity2000Parser/SimCity2000Save.cs:21-72 | a bad header gives its error; past a good header, the parse fails exactly when a section's body does not parse or, once every section is read, XBLD, XZON or MISC is missing (reported in that order); a parsed save has the length from bytes 4-7, sections framed back to back from byte 12 to the end, each holding the payload and the decoded state of its body, and XBLD, XZON and MISC linked |
| SimCity2000Save.SimCity2000Save.DiffSections | SimCity2000Parser/SimCity2000Save.cs:74-90 | the walk over the sections yields Reports: each section against the old save's section of its name, in order, stopping at the first failure |
| SimCity2000Save.Reports | SimCity2000Parser/SimCity2000Save.cs:74-90 | at most one report per section, and only sections with differences are reported |
| SimCity2000Save.ReportsErrPersists | SimCity2000Parser/SimCity2000Save.cs:74-79 | once a section fails, the whole comparison fails with that error |
| SimCity2000Save.ReportsNeedEveryName | SimCity2000Parser/SimCity2000Save.cs:78 | a section whose name the old save lacks makes the comparison fail |
| SimCity2000Save.ReportsSelf | SimCity2000Parser/SimCity2000Save.cs:74-90 | a save with distinct section names compared with itself reports nothing |

## Left out

- File I/O: `File.Open`, `FileStream` and `MemoryStream` become a byte sequence with a cursor. Closing the reader is not modelled.
- `Debug.WriteLine` for unknown altitude bits is not modelled. `AltitudeSection.UnknownBits` names the condition, and `AltitudeSection.EqualsExactlyOnKnownBits` shows that the bits have no effect.
- Every `ToString`, `CornerInfoToString` and `PrintSections` is text rendering only, so none is modelled.
- `SimCity2000Save.SimCity2000Save.DiffSections`: the console lines are not modelled. It returns `Report`s holding the same names and entries instead. Lines printed before a failure are not modelled either.
- The hexadecimal and decimal text of diff entries is not modelled. Field names and values are kept as the numbers they are rendered from (`SectionDifference.FieldName`, `SectionDifference.Value`).
- The `BuildingType` catalog is not modelled. A building keeps the byte the enum is cast from.
- The `ZoneType` names are not modelled. The kind of zone is the integer `byte & 0xF`.
- Descriptors are values, not objects. A tile of the zone grid is replaced by a stamped copy instead of having its fields set in place; both give the same observable result.
- The zone grid starts as blank tiles rather than nulls. Every tile is filled before it is read.
- `AltitudeSection` keeps no `RawData`, since the source never sets it. The MISC payload backing array is the sequence `rawData`.
- The first `Read` check in `ParseSaveFile` ("Not a valid Sim City save file") is not modelled. It cannot fail once the length check has passed.
- `ZoneSection.ZoneSection.ParseSection` requires a linked MISC section. The factory always links one; a missing MISC fails earlier with "MISC" not found.
- The `BuildingSection` queries require a linked zone section, because the source dereferences it. `SimCity2000Save.ParseSaveFile` always links one.
- `Sections.DiffSection`: the cast of the old section in the MISC and ALTM overrides is not modelled. Two sections of one name are of one kind among well-tagged sections, so the cast cannot fail.
- `SimCity2000Save.ParseSaveFile`: its failure cases are stated for the sections read before the failure, which it returns as a ghost value. The error value of a failing section body is not stated.
- `SaveSection.DiffSymmetric` holds only for two sections at the same file offset. Each byte entry names its file offset from the `RawDataFileOffset` of the section that holds the byte (SimCity2000Parser/SaveSection.cs:63-77). So for sections at different offsets, swapping the two also changes these names.
- `Sections.DiffSpecSymmetric` holds for sections compared byte by byte only when they sit at one file offset, as `SaveSection.DiffSymmetric` does; MISC and ALTM pairs need no such condition. Two MISC sections need as many integers in each: when the old list is shorter, the MISC diff reads past its end and fails with an index out of range (SimCity2000Parser/MiscSection.cs:78-84), so only one of the two directions succeeds.
- `ZoneTopology.LinkFootprints`: after a failed pass the tiles are left unspecified. The source has already stamped part of the rectangle when the exception is thrown.
- `SaveSection.ByteEntriesShape` assumes that the section's file offset plus its length fits in 31 bits. Any file smaller than 2 GiB meets this, so the entry offsets need no wrapping.
- `SimCity2000Save.ReportsSelf` assumes the section names are distinct. With a repeated name, GetSection always returns the first section of that name.

## Findings

| source | as written | input that shows it | evidently intended | confidence | as-written member | corrected member |
|---|---|---|---|---|---|---|
| SimCity2000Parser/CompressedSaveSection.cs:29-55 | the loop runs while the position is below the declared end; at the end of the stream ReadByte returns -1, which reads as control byte 0xFF, and the position no longer moves | a compressed section whose declared length runs past the end of the file, e.g. tag "MISC", length 10, then 2 bytes | fail with a truncated-section error | high, not executed | CompressedSaveSection.StepStallsAtEnd | CompressedSaveSection.TruncatedInputFails |
| SimCity2000Parser/AltitudeSection.cs:22-25 | the cell loop runs while the position is below the declared end; at the end of the stream Read2ByteInt yields 0xFFFF and the position no longer moves | an ALTM section whose declared length runs past the end of the file | fail with a truncated-section error | high, not executed | AltitudeSection.ReadCellStallsAtEnd | AltitudeSection.TruncatedCellsFail |
| SimCity2000Parser/SaveSection.cs:73-79 | the loop for the bytes only the old section has starts at the old length, so it never runs | old bytes [1, 2], new bytes [1]: only the "Length" entry is reported, while swapping the two sections also reports the byte 2 | report every old-only byte with an empty new value, starting at the new length | high, not executed | SaveSection.AsWrittenMissesOldBytes | SaveSection.DiffSymmetric |
