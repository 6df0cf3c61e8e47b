/** The second half of ZoneSection.ParseSection (SimCity2000Parser/ZoneSection.cs):
    the pass that finds each multi-tile building and writes its origin and size
    into every tile it covers.

    Tiles are visited in the order `[0, 0], [0, 1], ..., [127, 127]`; step `k`
    is tile `[k / 128, k % 128]`. A tile that is a top-left corner but not a
    bottom-right one starts a building. Its extent is found by two scans: down
    the first coordinate for the first bottom-left tile, then along the second
    coordinate of that row for the first bottom-right tile. A scan that runs
    off the grid makes the next array access fail. Every tile of the rectangle
    is then stamped with the start's footprint, so a later start overwrites an
    earlier one. The pass only reads corners and only writes footprints, so the
    scans see the corners of the grid as filled. */
module ZoneTopology {
  import opened Failures
  import opened Grid
  import opened ZoneDescriptor

  type ZoneGrid = seq<seq<ZoneDescriptor>>

  predicate IsGrid(g: ZoneGrid) {
    |g| == Size && forall x :: 0 <= x < Size ==> |g[x]| == Size
  }

  /** The tile of step `k`. */
  function Row(k: nat): nat { k / Size }
  function Col(k: nat): nat { k % Size }

  lemma StepTile(i: nat, j: nat)
    requires j < Size
    ensures Row(i * Size + j) == i && Col(i * Size + j) == j
  {
  }

  /** The tile starts a building: top-left and not bottom-right. */
  predicate IsStart(g: ZoneGrid, i: nat, j: nat)
    requires IsGrid(g) && InGrid(i, j)
  {
    g[i][j].IsTopLeft() && !g[i][j].IsBottomRight()
  }

  /** The first scan: the first `x' >= x` with a bottom-left tile in column `j`,
      or 128 when there is none. */
  function ScanBottomLeft(g: ZoneGrid, x: nat, j: nat): (r: nat)
    requires IsGrid(g) && x <= Size && j < Size
    ensures x <= r <= Size
    ensures r < Size ==> g[r][j].IsBottomLeft()
    ensures forall x' :: x <= x' < r ==> !g[x'][j].IsBottomLeft()
    decreases Size - x
  {
    if x == Size then Size
    else if g[x][j].IsBottomLeft() then x
    else ScanBottomLeft(g, x + 1, j)
  }

  /** The second scan: the first `y' >= y` with a bottom-right tile in row `x`,
      or 128 when there is none. */
  function ScanBottomRight(g: ZoneGrid, x: nat, y: nat): (r: nat)
    requires IsGrid(g) && x < Size && y <= Size
    ensures y <= r <= Size
    ensures r < Size ==> g[x][r].IsBottomRight()
    ensures forall y' :: y <= y' < r ==> !g[x][y'].IsBottomRight()
    decreases Size - y
  {
    if y == Size then Size
    else if g[x][y].IsBottomRight() then y
    else ScanBottomRight(g, x, y + 1)
  }

  /** The far corner `(bottomLeftX, bottomRightY)` of the building that starts
      at `[i, j]`. A first scan that finds nothing leaves 128, which the second
      scan uses as an index; a second scan that finds nothing leaves 128, which
      the fill uses as an index. Both fail. */
  function Footprint(g: ZoneGrid, i: nat, j: nat): (r: Result<(nat, nat)>)
    requires IsGrid(g) && InGrid(i, j)
    ensures r.Err? ==> r.error == IndexOutOfRange
    ensures r.Ok? ==> i <= r.value.0 < Size && j <= r.value.1 < Size &&
                      g[r.value.0][j].IsBottomLeft() && g[r.value.0][r.value.1].IsBottomRight()
  {
    var x := ScanBottomLeft(g, i, j);
    if x == Size then Err(IndexOutOfRange)
    else
      var y := ScanBottomRight(g, x, j);
      if y == Size then Err(IndexOutOfRange) else Ok((x, y))
  }

  /** The far corner is the first bottom-left tile below the start and the
      first bottom-right tile after it in that row; the extent cannot be found
      exactly when one of the two is missing. */
  lemma FootprintFirst(g: ZoneGrid, i: nat, j: nat)
    requires IsGrid(g) && InGrid(i, j)
    ensures var r := Footprint(g, i, j);
            r.Ok? ==> (forall x :: i <= x < r.value.0 ==> !g[x][j].IsBottomLeft()) &&
                      (forall y :: j <= y < r.value.1 ==> !g[r.value.0][y].IsBottomRight())
    ensures Footprint(g, i, j).Err? <==>
              (forall x :: i <= x < Size ==> !g[x][j].IsBottomLeft()) ||
              (var x := ScanBottomLeft(g, i, j);
               x < Size && forall y :: j <= y < Size ==> !g[x][y].IsBottomRight())
  {
  }

  /** A top-left tile at `[0, 0]`, a bottom-left tile at `[1, 0]` and a
      bottom-right tile at `[1, 1]` make a building of 2 x 2 tiles. */
  lemma FootprintExample(g: ZoneGrid)
    requires IsGrid(g)
    requires g[0][0].IsTopLeft() && !g[0][0].IsBottomLeft() && !g[0][0].IsBottomRight()
    requires g[1][0].IsBottomLeft() && !g[1][0].IsBottomRight() && g[1][1].IsBottomRight()
    ensures IsStart(g, 0, 0) && Footprint(g, 0, 0) == Ok((1, 1))
    ensures var d := Stamp(g[0][0], 0, 0, 1, 1); d.lengthX == 2 && d.lengthY == 2
  {
    assert ScanBottomLeft(g, 0, 0) == 1;
    assert ScanBottomRight(g, 1, 0) == 1;
  }

  predicate InRect(x: int, y: int, i: int, j: int, xEnd: int, yEnd: int) {
    i <= x <= xEnd && j <= y <= yEnd
  }

  /** The five assignments of the fill loop. */
  function Stamp(d: ZoneDescriptor, i: int, j: int, xEnd: int, yEnd: int): ZoneDescriptor {
    d.(isMultiTile := true, originX := i, originY := j,
       lengthX := xEnd - i + 1, lengthY := yEnd - j + 1)
  }

  /** A stamp keeps the kind of zone and the corners, and a second stamp
      replaces the first. */
  lemma StampFacts(d: ZoneDescriptor, i: int, j: int, xEnd: int, yEnd: int, i': int, j': int, xEnd': int, yEnd': int)
    ensures Stamp(d, i, j, xEnd, yEnd).zoneType == d.zoneType
    ensures Stamp(d, i, j, xEnd, yEnd).cornerInfo == d.cornerInfo
    ensures Stamp(Stamp(d, i, j, xEnd, yEnd), i', j', xEnd', yEnd') == Stamp(d, i', j', xEnd', yEnd')
  {
  }

  /** The grid after the fill loop for the rectangle `[i..xEnd, j..yEnd]`. */
  function Paint(h: ZoneGrid, i: int, j: int, xEnd: int, yEnd: int): (r: ZoneGrid)
    requires IsGrid(h)
    ensures IsGrid(r)
    ensures forall x, y :: InGrid(x, y) ==>
              r[x][y] == if InRect(x, y, i, j, xEnd, yEnd) then Stamp(h[x][y], i, j, xEnd, yEnd) else h[x][y]
  {
    seq(Size, x requires 0 <= x < Size =>
      seq(Size, y requires 0 <= y < Size =>
        if InRect(x, y, i, j, xEnd, yEnd) then Stamp(h[x][y], i, j, xEnd, yEnd) else h[x][y]))
  }

  /** One step of the pass at tile `[i, j]`, on the grid `h` the earlier steps
      left. The scans read the corners of `g`, which no step changes. */
  function StepAt(g: ZoneGrid, h: ZoneGrid, i: nat, j: nat): (r: Result<ZoneGrid>)
    requires IsGrid(g) && IsGrid(h) && InGrid(i, j)
    ensures r.Ok? ==> IsGrid(r.value)
  {
    if IsStart(g, i, j) then
      match Footprint(g, i, j)
      case Err(e) => Err(e)
      case Ok((x, y)) => Ok(Paint(h, i, j, x, y))
    else Ok(h)
  }

  /** The grid after the first `k` steps. */
  function Pass(g: ZoneGrid, k: nat): (r: Result<ZoneGrid>)
    requires IsGrid(g) && k <= Tiles
    ensures r.Ok? ==> IsGrid(r.value)
  {
    if k == 0 then Ok(g)
    else
      match Pass(g, k - 1)
      case Err(e) => Err(e)
      case Ok(h) => StepAt(g, h, Row(k - 1), Col(k - 1))
  }

  /** The whole pass. */
  function Topology(g: ZoneGrid): (r: Result<ZoneGrid>)
    requires IsGrid(g)
    ensures r.Err? ==> r.error == IndexOutOfRange
  {
    PassFails(g, Tiles);
    Pass(g, Tiles)
  }

  /** Step `k` starts a building whose extent the scans cannot find. */
  predicate Fails(g: ZoneGrid, k: nat)
    requires IsGrid(g) && k < Tiles
  {
    IsStart(g, Row(k), Col(k)) && Footprint(g, Row(k), Col(k)).Err?
  }

  /** Step `k` starts a building whose rectangle holds `[x, y]`. */
  predicate Covers(g: ZoneGrid, k: nat, x: int, y: int)
    requires IsGrid(g) && k < Tiles
  {
    IsStart(g, Row(k), Col(k)) && Footprint(g, Row(k), Col(k)).Ok? &&
    InRect(x, y, Row(k), Col(k), Footprint(g, Row(k), Col(k)).value.0, Footprint(g, Row(k), Col(k)).value.1)
  }

  /** The stamp that step `k` writes. */
  function StampOf(g: ZoneGrid, k: nat, d: ZoneDescriptor): ZoneDescriptor
    requires IsGrid(g) && k < Tiles && IsStart(g, Row(k), Col(k)) && Footprint(g, Row(k), Col(k)).Ok?
  {
    var f := Footprint(g, Row(k), Col(k)).value;
    Stamp(d, Row(k), Col(k), f.0, f.1)
  }

  /** The last of the first `k` steps whose rectangle holds `[x, y]`, or -1. */
  function LastCover(g: ZoneGrid, x: int, y: int, k: nat): (r: int)
    requires IsGrid(g) && k <= Tiles
    ensures -1 <= r < k
    ensures r >= 0 ==> Covers(g, r, x, y)
  {
    if k == 0 then -1
    else if Covers(g, k - 1, x, y) then k - 1
    else LastCover(g, x, y, k - 1)
  }

  /** No later step covers the tile than the one LastCover names. */
  lemma {:induction false} LastCoverIsLast(g: ZoneGrid, x: int, y: int, k: nat)
    requires IsGrid(g) && k <= Tiles
    ensures forall k' :: LastCover(g, x, y, k) < k' < k ==> !Covers(g, k', x, y)
  {
    if k > 0 && !Covers(g, k - 1, x, y) {
      LastCoverIsLast(g, x, y, k - 1);
      var c := LastCover(g, x, y, k - 1);
      assert LastCover(g, x, y, k) == c;
      forall k' | c < k' < k
        ensures !Covers(g, k', x, y)
      {
        if k' < k - 1 {
          assert c < k' < k - 1;
        }
      }
    }
  }

  /** What the first `k` steps leave on tile `[x, y]`: the stamp of the last
      building that covers it, or the tile as filled. */
  function Covered(g: ZoneGrid, x: int, y: int, k: nat): ZoneDescriptor
    requires IsGrid(g) && InGrid(x, y) && k <= Tiles
  {
    var c := LastCover(g, x, y, k);
    if c < 0 then g[x][y] else StampOf(g, c, g[x][y])
  }

  /** The pass fails exactly when some start's extent cannot be found, and
      then with an index out of range. */
  lemma {:induction false} PassFails(g: ZoneGrid, k: nat)
    requires IsGrid(g) && k <= Tiles
    ensures Pass(g, k).Err? <==> exists k' :: 0 <= k' < k && Fails(g, k')
    ensures Pass(g, k).Err? ==> Pass(g, k).error == IndexOutOfRange
  {
    if k > 0 {
      PassFails(g, k - 1);
      if Pass(g, k - 1).Err? {
        var k' :| 0 <= k' < k - 1 && Fails(g, k');
        assert 0 <= k' < k && Fails(g, k');
      } else if Fails(g, k - 1) {
        assert 0 <= k - 1 < k && Fails(g, k - 1);
      } else {
        assert Pass(g, k).Ok?;
        forall k' | 0 <= k' < k
          ensures !Fails(g, k')
        {
          if k' < k - 1 {
            assert !(0 <= k' < k - 1 && Fails(g, k'));
          }
        }
      }
    }
  }

  /** An error stays an error. */
  lemma {:induction false} PassErrPersists(g: ZoneGrid, k: nat)
    requires IsGrid(g) && k <= Tiles && Pass(g, k).Err?
    ensures Topology(g).Err?
  {
    PassFails(g, k);
    var k' :| 0 <= k' < k && Fails(g, k');
    PassFails(g, Tiles);
    assert 0 <= k' < Tiles && Fails(g, k');
  }

  /** After `k` steps without failure, each tile holds the stamp of the last
      building that covers it, or is as filled. */
  lemma {:induction false} PassCells(g: ZoneGrid, k: nat)
    requires IsGrid(g) && k <= Tiles && Pass(g, k).Ok?
    ensures forall x, y :: InGrid(x, y) ==> Pass(g, k).value[x][y] == Covered(g, x, y, k)
  {
    if k > 0 {
      PassCells(g, k - 1);
      var h := Pass(g, k - 1).value;
      var i, j := Row(k - 1), Col(k - 1);
      forall x, y | InGrid(x, y)
        ensures Pass(g, k).value[x][y] == Covered(g, x, y, k)
      {
        if Covers(g, k - 1, x, y) {
          var f := Footprint(g, i, j).value;
          assert Pass(g, k).value == Paint(h, i, j, f.0, f.1);
          StampFacts(g[x][y], -1, -1, -1, -1, i, j, f.0, f.1);
          var c := LastCover(g, x, y, k - 1);
          if c >= 0 {
            var f' := Footprint(g, Row(c), Col(c)).value;
            StampFacts(g[x][y], Row(c), Col(c), f'.0, f'.1, i, j, f.0, f.1);
          }
        } else if IsStart(g, i, j) {
          var f := Footprint(g, i, j).value;
          assert Pass(g, k).value == Paint(h, i, j, f.0, f.1);
        }
      }
    }
  }

  /** What the pass leaves on a tile: its kind of zone and corners as filled;
      a footprint exactly when some building's rectangle holds it, written
      by the last such building; the tile is then inside that rectangle and
      the origin is a start. */
  lemma TopologyCells(g: ZoneGrid, x: int, y: int)
    requires IsGrid(g) && InGrid(x, y) && Topology(g).Ok?
    requires !g[x][y].isMultiTile
    ensures var d := Topology(g).value[x][y];
            d.zoneType == g[x][y].zoneType && d.cornerInfo == g[x][y].cornerInfo &&
            (d.isMultiTile <==> exists k :: 0 <= k < Tiles && Covers(g, k, x, y)) &&
            (!d.isMultiTile ==> d == g[x][y]) &&
            (d.isMultiTile ==>
               InGrid(d.originX, d.originY) && IsStart(g, d.originX, d.originY) &&
               d.originX <= x < d.originX + d.lengthX && d.originY <= y < d.originY + d.lengthY &&
               d.originX + d.lengthX <= Size && d.originY + d.lengthY <= Size)
  {
    PassCells(g, Tiles);
    LastCoverIsLast(g, x, y, Tiles);
    var c := LastCover(g, x, y, Tiles);
    if c >= 0 {
      var f := Footprint(g, Row(c), Col(c)).value;
      StampFacts(g[x][y], Row(c), Col(c), f.0, f.1, 0, 0, 0, 0);
      assert 0 <= c < Tiles && Covers(g, c, x, y);
    }
  }

  /** The corners of the array are those of `g`. */
  ghost predicate SameCorners(zone: array2<ZoneDescriptor>, g: ZoneGrid)
    requires zone.Length0 == Size && zone.Length1 == Size && IsGrid(g)
    reads zone
  {
    forall x, y :: InGrid(x, y) ==> zone[x, y].cornerInfo == g[x][y].cornerInfo
  }

  /** The first scan loop, with its `break`. */
  method FindBottomLeft(zone: array2<ZoneDescriptor>, ghost g: ZoneGrid, i: nat, j: nat) returns (x: nat)
    requires zone.Length0 == Size && zone.Length1 == Size && IsGrid(g) && InGrid(i, j)
    requires SameCorners(zone, g)
    ensures x == ScanBottomLeft(g, i, j)
  {
    x := i;
    while x < Size
      invariant i <= x <= Size && ScanBottomLeft(g, x, j) == ScanBottomLeft(g, i, j)
      decreases Size - x
    {
      if zone[x, j].IsBottomLeft() {
        break;
      }
      x := x + 1;
    }
  }

  /** The second scan loop, along row `x`. */
  method FindBottomRight(zone: array2<ZoneDescriptor>, ghost g: ZoneGrid, x: nat, j: nat) returns (y: nat)
    requires zone.Length0 == Size && zone.Length1 == Size && IsGrid(g) && InGrid(x, j)
    requires SameCorners(zone, g)
    ensures y == ScanBottomRight(g, x, j)
  {
    y := j;
    while y < Size
      invariant j <= y <= Size && ScanBottomRight(g, x, y) == ScanBottomRight(g, x, j)
      decreases Size - y
    {
      if zone[x, y].IsBottomRight() {
        break;
      }
      y := y + 1;
    }
  }

  /** No step changes a corner or a kind of zone. */
  lemma PassKeepsCorners(g: ZoneGrid, k: nat)
    requires IsGrid(g) && k <= Tiles && Pass(g, k).Ok?
    ensures forall x, y :: InGrid(x, y) ==>
              Pass(g, k).value[x][y].cornerInfo == g[x][y].cornerInfo &&
              Pass(g, k).value[x][y].zoneType == g[x][y].zoneType
  {
    PassCells(g, k);
    forall x, y | InGrid(x, y)
      ensures Covered(g, x, y, k).cornerInfo == g[x][y].cornerInfo && Covered(g, x, y, k).zoneType == g[x][y].zoneType
    {
      var c := LastCover(g, x, y, k);
      if c >= 0 {
        var f := Footprint(g, Row(c), Col(c)).value;
        StampFacts(g[x][y], Row(c), Col(c), f.0, f.1, 0, 0, 0, 0);
      }
    }
  }

  /** The fill loop: stamp every tile of `[i..xEnd, j..yEnd]` of the grid
      `h` the array holds. */
  method PaintRect(zone: array2<ZoneDescriptor>, ghost h: ZoneGrid, i: nat, j: nat, xEnd: nat, yEnd: nat)
    requires zone.Length0 == Size && zone.Length1 == Size && IsGrid(h) && Holds(zone, h)
    requires i <= xEnd < Size && j <= yEnd < Size
    modifies zone
    ensures Holds(zone, Paint(h, i, j, xEnd, yEnd))
  {
    for x := i to xEnd + 1
      invariant forall x', y :: InGrid(x', y) ==>
                  zone[x', y] == if i <= x' < x && j <= y <= yEnd then Stamp(h[x'][y], i, j, xEnd, yEnd) else h[x'][y]
    {
      for y := j to yEnd + 1
        invariant forall x', y' :: InGrid(x', y') ==>
                    zone[x', y'] == if (i <= x' < x && j <= y' <= yEnd) || (x' == x && j <= y' < y)
                                    then Stamp(h[x'][y'], i, j, xEnd, yEnd) else h[x'][y']
      {
        zone[x, y] := Stamp(zone[x, y], i, j, xEnd, yEnd);
      }
    }
  }

  /** The array holds the grid `h`. */
  ghost predicate Holds(zone: array2<ZoneDescriptor>, h: ZoneGrid)
    requires zone.Length0 == Size && zone.Length1 == Size && IsGrid(h)
    reads zone
  {
    forall x, y :: InGrid(x, y) ==> zone[x, y] == h[x][y]
  }

  /** Step `k` at a tile that starts no building changes nothing. */
  lemma StepSkips(g: ZoneGrid, k: nat)
    requires IsGrid(g) && k < Tiles && Pass(g, k).Ok? && !IsStart(g, Row(k), Col(k))
    ensures Pass(g, k + 1) == Pass(g, k)
  {
  }

  /** Step `k` at a start whose extent is found paints it. */
  lemma StepPaints(g: ZoneGrid, k: nat, x: nat, y: nat)
    requires IsGrid(g) && k < Tiles && Pass(g, k).Ok? && IsStart(g, Row(k), Col(k))
    requires Footprint(g, Row(k), Col(k)) == Ok((x, y))
    ensures Pass(g, k + 1) == Ok(Paint(Pass(g, k).value, Row(k), Col(k), x, y))
  {
  }

  /** Step `k` at a start whose extent is not found fails the pass. */
  lemma StepFails(g: ZoneGrid, k: nat)
    requires IsGrid(g) && k < Tiles && Pass(g, k).Ok? && IsStart(g, Row(k), Col(k))
    requires Footprint(g, Row(k), Col(k)).Err?
    ensures Topology(g).Err?
  {
    assert Pass(g, k + 1).Err?;
    PassErrPersists(g, k + 1);
  }

  /** The body of the pass at tile `[i, j]`, which is step `k`. */
  method LinkStep(zone: array2<ZoneDescriptor>, ghost g: ZoneGrid, i: nat, j: nat, ghost k: nat) returns (r: Result<()>)
    requires zone.Length0 == Size && zone.Length1 == Size && IsGrid(g) && InGrid(i, j) && k == i * Size + j
    requires Pass(g, k).Ok? && Holds(zone, Pass(g, k).value)
    modifies zone
    ensures r.Ok? ==> Pass(g, k + 1).Ok? && Holds(zone, Pass(g, k + 1).value)
    ensures r.Err? ==> r.error == IndexOutOfRange && Topology(g).Err?
  {
    ghost var h := Pass(g, k).value;
    StepTile(i, j);
    PassKeepsCorners(g, k);
    assert SameCorners(zone, g);
    if zone[i, j].IsTopLeft() && !zone[i, j].IsBottomRight() {
      var x := FindBottomLeft(zone, g, i, j);
      if x == Size {
        StepFails(g, k);
        return Err(IndexOutOfRange);
      }
      var y := FindBottomRight(zone, g, x, j);
      if y == Size {
        StepFails(g, k);
        return Err(IndexOutOfRange);
      }
      PaintRect(zone, h, i, j, x, y);
      StepPaints(g, k, x, y);
    } else {
      StepSkips(g, k);
    }
    r := Ok(());
  }

  /** The pass over the grid in place. It stops at the first start whose
      extent cannot be found; the tiles are then left unspecified. */
  method LinkFootprints(zone: array2<ZoneDescriptor>) returns (r: Result<()>)
    requires zone.Length0 == Size && zone.Length1 == Size
    modifies zone
    ensures r.Ok? <==> Topology(old(Rows(zone))).Ok?
    ensures r.Err? ==> r.error == IndexOutOfRange
    ensures r.Ok? ==> forall x, y :: InGrid(x, y) ==> zone[x, y] == Topology(old(Rows(zone))).value[x][y]
  {
    ghost var g := Rows(zone);
    assert Holds(zone, Pass(g, 0).value);
    ghost var k := 0;
    for i := 0 to Size
      invariant k == i * Size
      invariant Pass(g, k).Ok? && Holds(zone, Pass(g, k).value)
    {
      r := LinkRow(zone, g, i, k);
      if r.Err? {
        return;
      }
      k := k + Size;
    }
    r := Ok(());
  }

  /** One turn of the outer loop: steps `i * 128` to `i * 128 + 127`. */
  method LinkRow(zone: array2<ZoneDescriptor>, ghost g: ZoneGrid, i: nat, ghost k: nat) returns (r: Result<()>)
    requires zone.Length0 == Size && zone.Length1 == Size && IsGrid(g) && i < Size && k == i * Size
    requires Pass(g, k).Ok? && Holds(zone, Pass(g, k).value)
    modifies zone
    ensures r.Ok? ==> Pass(g, k + Size).Ok? && Holds(zone, Pass(g, k + Size).value)
    ensures r.Err? ==> r.error == IndexOutOfRange && Topology(g).Err?
  {
    for j := 0 to Size
      invariant Pass(g, k + j).Ok? && Holds(zone, Pass(g, k + j).value)
    {
      r := LinkStep(zone, g, i, j, k + j);
      if r.Err? {
        return;
      }
    }
    r := Ok(());
  }
}
