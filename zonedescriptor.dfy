/** The ZoneDescriptor of SimCity2000Parser/ZoneSection.cs: one XZON byte per
    tile. The low nibble is the kind of zone; the high nibble marks which
    corners of a multi-tile building the tile is, in the map's stored
    orientation, and is turned to the view's rotation. */
module ZoneDescriptor {
  import opened StreamUtils
  import opened Failures

  /** The flags of ZoneCorners (TopLeft = 1, BottomLeft = 2, BottomRight = 4,
      TopRight = 8); a set of them is a ZoneCorners value. */
  datatype Corner = TopLeft | BottomLeft | BottomRight | TopRight

  /** The bit of the XZON byte that marks each corner. */
  function CornerMask(c: Corner): (m: byte)
    ensures m in {0x10, 0x20, 0x40, 0x80}
  {
    match c
    case TopLeft => 0x80
    case BottomLeft => 0x40
    case BottomRight => 0x20
    case TopRight => 0x10
  }

  /** `(data & mask) != 0` for a one-bit mask. */
  predicate HasBit(data: byte, mask: byte)
    requires mask in {0x10, 0x20, 0x40, 0x80}
  {
    (data / mask) % 2 == 1
  }

  /** TransposeCorner for the view rotation taken from MISC: rotations 1, 2 and
      3 move each corner on, any other value leaves it alone. */
  function Transpose(rotation: int, c: Corner): Corner {
    if rotation == 1 then
      match c
      case BottomLeft => BottomRight
      case BottomRight => TopRight
      case TopLeft => BottomLeft
      case TopRight => TopLeft
    else if rotation == 2 then
      match c
      case BottomLeft => TopRight
      case BottomRight => TopLeft
      case TopLeft => BottomRight
      case TopRight => BottomLeft
    else if rotation == 3 then
      match c
      case BottomLeft => TopLeft
      case BottomRight => BottomLeft
      case TopLeft => TopRight
      case TopRight => BottomRight
    else c
  }

  /** The corners of the byte as stored, before any rotation. */
  function StoredCorners(data: byte): set<Corner> {
    Flags(HasBit(data, 0x80), HasBit(data, 0x40), HasBit(data, 0x20), HasBit(data, 0x10))
  }

  /** The set of corners whose flags are given. */
  function Flags(tl: bool, bl: bool, br: bool, tr: bool): set<Corner> {
    (if tl then {TopLeft} else {}) + (if bl then {BottomLeft} else {}) +
    (if br then {BottomRight} else {}) + (if tr then {TopRight} else {})
  }

  /** Each flag given adds one corner. */
  lemma FlagsCount(tl: bool, bl: bool, br: bool, tr: bool)
    ensures |Flags(tl, bl, br, tr)| ==
            (if tl then 1 else 0) + (if bl then 1 else 0) + (if br then 1 else 0) + (if tr then 1 else 0)
  {
    var s0: set<Corner> := if tl then {TopLeft} else {};
    var s1 := s0 + (if bl then {BottomLeft} else {});
    var s2 := s1 + (if br then {BottomRight} else {});
    var s3 := s2 + (if tr then {TopRight} else {});
    assert s0 <= {TopLeft};
    assert s1 <= {TopLeft, BottomLeft};
    assert s2 <= {TopLeft, BottomLeft, BottomRight};
    assert |s1| == |s0| + (if bl then 1 else 0) by {
      if bl { assert BottomLeft !in s0; }
    }
    assert |s2| == |s1| + (if br then 1 else 0) by {
      if br { assert BottomRight !in s1; }
    }
    assert |s3| == |s2| + (if tr then 1 else 0) by {
      if tr { assert TopRight !in s2; }
    }
  }

  /** The constructor's `CornerInfo |= TransposeCorner(...)` for each of the
      four bits, in the order TopLeft, BottomLeft, BottomRight, TopRight. */
  function CornerInfo(rotation: int, data: byte): set<Corner> {
    (if HasBit(data, 0x80) then {Transpose(rotation, TopLeft)} else {}) +
    (if HasBit(data, 0x40) then {Transpose(rotation, BottomLeft)} else {}) +
    (if HasBit(data, 0x20) then {Transpose(rotation, BottomRight)} else {}) +
    (if HasBit(data, 0x10) then {Transpose(rotation, TopRight)} else {})
  }

  /** A tile's zone: the kind of zone (ZoneType, 0 to 15; the decoder names
      0 to 9), its corners, and the footprint fields the topology pass sets. */
  datatype ZoneDescriptor = ZoneDescriptor(
    zoneType: int, cornerInfo: set<Corner>,
    originX: int, originY: int, isMultiTile: bool, lengthX: int, lengthY: int)
  {
    predicate IsTopLeft() { TopLeft in cornerInfo }
    predicate IsTopRight() { TopRight in cornerInfo }
    predicate IsBottomLeft() { BottomLeft in cornerInfo }
    predicate IsBottomRight() { BottomRight in cornerInfo }
  }

  /** The ZoneDescriptor constructor on the byte it reads, given MISC's
      Rotation. The rotation is only looked up when a corner bit is set, so a
      MISC list too short to hold it fails only then. */
  function Describe(rotation: Result<int>, data: byte): (r: Result<ZoneDescriptor>)
    ensures r.Err? <==> rotation.Err? && data >= 0x10
    ensures r.Ok? ==> 0 <= r.value.zoneType < 0x10 && !r.value.isMultiTile
  {
    if HasBit(data, 0x80) || HasBit(data, 0x40) || HasBit(data, 0x20) || HasBit(data, 0x10) then
      match rotation
      case Err(e) => Err(e)
      case Ok(rot) =>
        Ok(ZoneDescriptor(data % 0x10, CornerInfo(rot, data), 0, 0, false, 0, 0))
    else
      Ok(ZoneDescriptor(data % 0x10, {}, 0, 0, false, 0, 0))
  }

  /** TransposeCorner is the identity for any rotation other than 1, 2 and 3. */
  lemma TransposeIdentity(rotation: int, c: Corner)
    requires rotation != 1 && rotation != 2 && rotation != 3
    ensures Transpose(rotation, c) == c
  {
  }

  /** The rotation that undoes `rotation`. */
  function InverseRotation(rotation: int): int {
    if rotation == 1 then 3 else if rotation == 3 then 1 else rotation
  }

  /** For every rotation the table is a permutation of the four corners: the
      inverse rotation undoes it on either side. */
  lemma TransposeBijective(rotation: int)
    ensures forall c :: Transpose(InverseRotation(rotation), Transpose(rotation, c)) == c
    ensures forall d :: Transpose(rotation, Transpose(InverseRotation(rotation), d)) == d
    ensures forall c1, c2 :: Transpose(rotation, c1) == Transpose(rotation, c2) ==> c1 == c2
  {
    if rotation == 1 {
    } else if rotation == 2 {
    } else if rotation == 3 {
    } else {
    }
  }

  /** The table is a quarter turn: rotation 2 is rotation 1 twice, rotation 3
      undoes rotation 1, and the lone TopLeft bit turns TopLeft, BottomLeft,
      BottomRight, TopRight for rotations 0 to 3. */
  lemma TransposeCyclic(c: Corner)
    ensures Transpose(2, c) == Transpose(1, Transpose(1, c))
    ensures Transpose(3, Transpose(1, c)) == c && Transpose(1, Transpose(3, c)) == c
    ensures CornerInfo(0, 0x80) == {TopLeft} && CornerInfo(1, 0x80) == {BottomLeft}
    ensures CornerInfo(2, 0x80) == {BottomRight} && CornerInfo(3, 0x80) == {TopRight}
  {
  }

  /** The accumulated flags are the stored corners, each turned by the rotation. */
  lemma CornerInfoIsImage(rotation: int, data: byte)
    ensures CornerInfo(rotation, data) == set c | c in StoredCorners(data) :: Transpose(rotation, c)
  {
    var image := set c | c in StoredCorners(data) :: Transpose(rotation, c);
    forall d | d in image
      ensures d in CornerInfo(rotation, data)
    {
      var c :| c in StoredCorners(data) && Transpose(rotation, c) == d;
      assert c in {TopLeft, BottomLeft, BottomRight, TopRight};
    }
    forall d | d in CornerInfo(rotation, data)
      ensures d in image
    {
      if HasBit(data, 0x80) && d == Transpose(rotation, TopLeft) {
        assert TopLeft in StoredCorners(data);
      } else if HasBit(data, 0x40) && d == Transpose(rotation, BottomLeft) {
        assert BottomLeft in StoredCorners(data);
      } else if HasBit(data, 0x20) && d == Transpose(rotation, BottomRight) {
        assert BottomRight in StoredCorners(data);
      } else {
        assert TopRight in StoredCorners(data);
      }
    }
  }

  /** An injective map keeps the size of a set of corners. */
  lemma {:induction false} TransposeKeepsSize(rotation: int, s: set<Corner>)
    ensures |set c | c in s :: Transpose(rotation, c)| == |s|
    decreases |s|
  {
    if s != {} {
      var x :| x in s;
      var rest := s - {x};
      TransposeKeepsSize(rotation, rest);
      TransposeBijective(rotation);
      var image := set c | c in s :: Transpose(rotation, c);
      var restImage := set c | c in rest :: Transpose(rotation, c);
      assert image == restImage + {Transpose(rotation, x)};
      assert Transpose(rotation, x) !in restImage;
    }
  }

  /** The number of corner bits set in the high nibble. */
  function HighBitCount(data: byte): nat {
    (if HasBit(data, 0x80) then 1 else 0) + (if HasBit(data, 0x40) then 1 else 0) +
    (if HasBit(data, 0x20) then 1 else 0) + (if HasBit(data, 0x10) then 1 else 0)
  }

  /** The number of corner flags a tile ends up with is the number of corner
      bits of its byte, whatever the rotation. */
  lemma CornerCount(rotation: int, data: byte)
    ensures |CornerInfo(rotation, data)| == HighBitCount(data)
  {
    CornerInfoIsImage(rotation, data);
    TransposeKeepsSize(rotation, StoredCorners(data));
    StoredCornersCount(data);
  }

  lemma StoredCornersCount(data: byte)
    ensures |StoredCorners(data)| == HighBitCount(data)
  {
    FlagsCount(HasBit(data, 0x80), HasBit(data, 0x40), HasBit(data, 0x20), HasBit(data, 0x10));
  }

  /** A byte whose high nibble is clear has no corners, whatever the rotation;
      one with a corner bit needs the rotation. */
  lemma DescribeNeedsRotationForCorners(rotation: Result<int>, data: byte)
    ensures data < 0x10 ==> Describe(rotation, data).Ok? && Describe(rotation, data).value.cornerInfo == {}
    ensures data >= 0x10 && rotation.Ok? ==> Describe(rotation, data).value.cornerInfo == CornerInfo(rotation.value, data)
    ensures Describe(rotation, data).Ok? ==> Describe(rotation, data).value.zoneType == data % 0x10
  {
  }
}
