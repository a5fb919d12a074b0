/** The lane map generator (class LOLMapGenerator of Assets/MapGenerator2.cs):
    a width x height grid of walkable cells carved out of solid wall by
    circular brushes along three jittered lanes, the list of floor cells
    rebuilt from the grid, and the random choice of a spawn cell and of two
    clear, far-apart object cells. Random draws are parameters (oracles). */
module MapGenerator {
  import opened Cells

  /** Clearance radius PlaceObjects asks of both object cells. */
  const ObjectClearance: int := 2

  /** What PlaceObjects does: nothing (for one of three logged reasons) or
      place the two objects. */
  datatype Placement =
    | NoFloorCells
    | NoClearArea
    | NoFarArea(pos1: Cell)
    | Placed(pos1: Cell, pos2: Cell)

  /** One of the three lanes Start carves, by its end points. */
  datatype Lane = Lane(from: Cell, to: Cell)

  /** Mathf.RoundToInt(m / 3f) for m >= 0: the fractional part of m/3 is 0,
      1/3 or 2/3, never one half, so the nearest integer is unambiguous. */
  function RoundThird(m: nat): (r: nat)
    ensures 3 * r - 1 <= m <= 3 * r + 1
  {
    (m + 1) / 3
  }

  class LolMapGenerator {
    // Inspector parameters.
    const mapWidth: nat
    const mapHeight: nat
    const minPathWidth: int
    const maxPathWidth: int
    const pathSegmentCount: int

    /** The map: grid[x, y] is true when cell (x, y) is walkable. */
    var grid: array2<bool>
    /** The walkable cells, as last listed by UpdateFloorCells. */
    var floorCells: seq<Cell>

    ghost predicate Valid()
      reads this
    {
      grid.Length0 == mapWidth && grid.Length1 == mapHeight
    }

    /** A generator with the given inspector parameters; Start builds its map. */
    constructor (mapWidth: nat, mapHeight: nat, minPathWidth: int, maxPathWidth: int, pathSegmentCount: int)
      ensures this.mapWidth == mapWidth && this.mapHeight == mapHeight
      ensures this.minPathWidth == minPathWidth && this.maxPathWidth == maxPathWidth
      ensures this.pathSegmentCount == pathSegmentCount
      ensures Valid() && floorCells == []
    {
      this.mapWidth := mapWidth;
      this.mapHeight := mapHeight;
      this.minPathWidth := minPathWidth;
      this.maxPathWidth := maxPathWidth;
      this.pathSegmentCount := pathSegmentCount;
      // The source leaves the map unallocated until Start; this grid only
      // establishes Valid(), and Start replaces it.
      grid := new bool[mapWidth, mapHeight];
      floorCells := [];
    }

    /** The generator with the inspector's default values. */
    constructor Default()
      ensures mapWidth == 50 && mapHeight == 50
      ensures minPathWidth == 3 && maxPathWidth == 5 && pathSegmentCount == 20
      ensures Valid() && floorCells == []
    {
      mapWidth, mapHeight := 50, 50;
      minPathWidth, maxPathWidth, pathSegmentCount := 3, 5, 20;
      // Placeholder grid, replaced by Start (see the constructor above).
      grid := new bool[50, 50];
      floorCells := [];
    }

    predicate InBounds(x: int, y: int)
    {
      0 <= x < mapWidth && 0 <= y < mapHeight
    }

    // -------------------------------------------------------------------
    // The map

    /** Allocates the map and fills it with wall. */
    method InitMap()
      modifies this`grid
      ensures Valid() && fresh(grid)
      ensures forall x, y :: InBounds(x, y) ==> !grid[x, y]
    {
      grid := new bool[mapWidth, mapHeight];
      var x := 0;
      while x < mapWidth
        invariant 0 <= x <= mapWidth
        invariant Valid() && fresh(grid)
        invariant forall i, j :: 0 <= i < x && 0 <= j < mapHeight ==> !grid[i, j]
      {
        var y := 0;
        while y < mapHeight
          invariant 0 <= y <= mapHeight
          invariant Valid() && fresh(grid)
          invariant forall i, j :: 0 <= i < x && 0 <= j < mapHeight ==> !grid[i, j]
          invariant forall j :: 0 <= j < y ==> !grid[x, j]
        {
          grid[x, y] := false;
          y := y + 1;
        }
        x := x + 1;
      }
    }

    /** Stamps the circular brush: exactly the in-bounds cells of the disk of
        radius `radius` around `center` become walkable; nothing else changes,
        and no cell becomes wall. */
    method CarveCircle(center: Cell, radius: int)
      requires Valid()
      modifies grid
      ensures forall x, y :: InBounds(x, y) ==>
        grid[x, y] == (old(grid[x, y]) || InDisk(center, radius, x, y))
    {
      var dx := -radius;
      while dx <= radius
        invariant -radius <= dx
        invariant forall x, y :: InBounds(x, y) ==>
          grid[x, y] == (old(grid[x, y]) || (InDisk(center, radius, x, y) && x - center.x < dx))
      {
        var dy := -radius;
        while dy <= radius
          invariant -radius <= dy
          invariant forall x, y :: InBounds(x, y) ==>
            grid[x, y] == (old(grid[x, y]) ||
              (InDisk(center, radius, x, y) &&
               (x - center.x < dx || (x - center.x == dx && y - center.y < dy))))
        {
          var px, py := center.x + dx, center.y + dy;
          if 0 <= px < mapWidth && 0 <= py < mapHeight {
            if dx * dx + dy * dy <= radius * radius {
              grid[px, py] := true;
            }
          }
          dy := dy + 1;
        }
        dx := dx + 1;
      }
    }

    /** Stamps a brush of radius `width` at every step centre of one segment:
        the cells that become walkable are exactly the in-bounds cells covered
        by one of those brushes. */
    method CarveCorridor(centres: seq<Cell>, width: int)
      requires Valid()
      modifies grid
      ensures forall x, y :: InBounds(x, y) ==>
        grid[x, y] == (old(grid[x, y]) || CoveredBy(centres, width, x, y))
    {
      var i := 0;
      while i < |centres|
        invariant 0 <= i <= |centres|
        invariant forall x, y :: InBounds(x, y) ==>
          grid[x, y] == (old(grid[x, y]) || CoveredBy(centres[..i], width, x, y))
      {
        CarveCircle(centres[i], width);
        forall x, y | InBounds(x, y)
          ensures CoveredBy(centres[..i + 1], width, x, y) <==>
                  CoveredBy(centres[..i], width, x, y) || InDisk(centres[i], width, x, y)
        {
          if InDisk(centres[i], width, x, y) {
            assert centres[..i + 1][i] == centres[i];
          }
        }
        i := i + 1;
      }
      assert centres[..|centres|] == centres;
    }

    // -------------------------------------------------------------------
    // Lanes

    /** Number of polyline segments CarvePath carves. */
    function SegmentCount(): (n: int)
      ensures n >= 1 && (pathSegmentCount >= 1 ==> n == pathSegmentCount)
      ensures pathSegmentCount < 1 ==> n == 1
    {
      if pathSegmentCount >= 1 then pathSegmentCount else 1
    }

    /** The draws fit the lane from `start` to `end`: one rounded jittered
        vertex for each i in [1, pathSegmentCount), one width in
        [minPathWidth, maxPathWidth] and one run of step centres per segment,
        each run going from the segment's first vertex to its last. */
    ghost predicate DrawsFit(start: Cell, end: Cell, d: LaneDraws)
    {
      && |d.inner| == SegmentCount() - 1
      && |d.widths| == SegmentCount()
      && |d.steps| == SegmentCount()
      && (forall s :: 0 <= s < |d.widths| ==> minPathWidth <= d.widths[s] <= maxPathWidth)
      && (forall s :: 0 <= s < |d.steps| ==>
            |d.steps[s]| >= 1 &&
            d.steps[s][0] == Polyline(start, end, d.inner)[s] &&
            d.steps[s][|d.steps[s]| - 1] == Polyline(start, end, d.inner)[s + 1])
    }

    /** Builds the lane's polyline: the start, the pathSegmentCount - 1 inner
        vertices, the end; pathSegmentCount + 1 points in all, or 2 when
        pathSegmentCount is below 1. */
    method PolylinePoints(start: Cell, end: Cell, inner: seq<Cell>) returns (points: seq<Cell>)
      requires |inner| == SegmentCount() - 1
      ensures |points| == SegmentCount() + 1
      ensures points == Polyline(start, end, inner)
    {
      points := [start];
      var i := 1;
      while i < pathSegmentCount
        invariant 1 <= i <= |inner| + 1
        invariant pathSegmentCount >= 1 ==> i <= pathSegmentCount
        invariant points == [start] + inner[..i - 1]
      {
        points := points + [inner[i - 1]];
        i := i + 1;
      }
      assert inner[..i - 1] == inner;
      points := points + [end];
    }

    /** Carves one lane: for each polyline segment, a corridor of the drawn
        width. The cells that become walkable are exactly those some segment's
        brushes cover. */
    method CarvePath(start: Cell, end: Cell, draws: LaneDraws)
      requires Valid()
      requires DrawsFit(start, end, draws)
      modifies grid
      ensures forall x, y :: InBounds(x, y) ==>
        grid[x, y] == (old(grid[x, y]) || LaneCovers(draws, x, y))
    {
      var points := PolylinePoints(start, end, draws.inner);
      var i := 0;
      while i < |points| - 1
        invariant 0 <= i <= |points| - 1
        invariant forall x, y :: InBounds(x, y) ==>
          grid[x, y] == (old(grid[x, y]) || LaneCoversUpTo(draws, i, x, y))
      {
        var pathWidth := draws.widths[i];
        CarveCorridor(draws.steps[i], pathWidth);
        forall x, y | InBounds(x, y)
          ensures LaneCoversUpTo(draws, i + 1, x, y) <==>
                  LaneCoversUpTo(draws, i, x, y) || CoveredBy(draws.steps[i], pathWidth, x, y)
        {
        }
        i := i + 1;
      }
    }

    /** With nonnegative widths every vertex of the polyline, the lane's two
        end points included, is the centre of some brush of the lane. */
    lemma LaneVerticesCovered(start: Cell, end: Cell, d: LaneDraws)
      requires DrawsFit(start, end, d) && minPathWidth >= 0
      ensures forall i :: 0 <= i < |Polyline(start, end, d.inner)| ==>
        LaneCovers(d, Polyline(start, end, d.inner)[i].x, Polyline(start, end, d.inner)[i].y)
    {
      var pts := Polyline(start, end, d.inner);
      forall i | 0 <= i < |pts|
        ensures LaneCovers(d, pts[i].x, pts[i].y)
      {
        var s := if i < |d.steps| then i else i - 1;
        var k := if i < |d.steps| then 0 else |d.steps[s]| - 1;
        assert d.steps[s][k] == pts[i];
        CentreStamped(pts[i], d.widths[s]);
        assert CoveredBy(d.steps[s], d.widths[s], pts[i].x, pts[i].y);
      }
    }

    /** The three lanes of Start: top, middle and bottom. */
    function Lanes(): (r: seq<Lane>)
      ensures |r| == 3
      ensures 3 * r[0].to.y - 1 <= 2 * mapHeight <= 3 * r[0].to.y + 1
      ensures 3 * r[2].to.y - 1 <= mapHeight <= 3 * r[2].to.y + 1
    {
      [ Lane(Cell(0, mapHeight - 1), Cell(mapWidth - 1, RoundThird(mapHeight * 2))),
        Lane(Cell(mapWidth / 4, 0), Cell(mapWidth / 2, mapHeight - 1)),
        Lane(Cell(mapWidth - 1, 0), Cell(mapWidth / 4, RoundThird(mapHeight))) ]
    }

    /** On a map at least one cell wide and two cells high all six lane end
        points lie on the map; a one-cell-high map puts the top lane's end,
        at row round(2/3) = 1, off the map. */
    lemma LaneEndsInBounds()
      ensures mapWidth >= 1 && mapHeight >= 2 ==> forall i :: 0 <= i < 3 ==>
        InBounds(Lanes()[i].from.x, Lanes()[i].from.y) && InBounds(Lanes()[i].to.x, Lanes()[i].to.y)
      ensures mapWidth >= 1 && mapHeight == 1 ==> !InBounds(Lanes()[0].to.x, Lanes()[0].to.y)
    {
      var l := Lanes();
      if mapHeight >= 2 {
        assert l[0].to.y <= mapHeight - 1;
        assert l[2].to.y <= mapHeight - 1;
      }
    }

    // -------------------------------------------------------------------
    // The floor list

    /** The floor list holds exactly the walkable cells, in x-major order. */
    ghost predicate FloorInSync()
      reads this, grid
      requires Valid()
    {
      && (forall c :: c in floorCells <==> InBounds(c.x, c.y) && grid[c.x, c.y])
      && Sorted(floorCells)
    }

    /** Rebuilds the floor list from the map, discarding what it held. */
    method UpdateFloorCells()
      requires Valid()
      modifies this`floorCells
      ensures FloorInSync()
    {
      floorCells := [];
      var x := 0;
      while x < mapWidth
        invariant 0 <= x <= mapWidth
        invariant forall c :: c in floorCells <==> InBounds(c.x, c.y) && c.x < x && grid[c.x, c.y]
        invariant Sorted(floorCells)
        invariant forall c :: c in floorCells ==> c.x < x
      {
        var y := 0;
        while y < mapHeight
          invariant 0 <= y <= mapHeight
          invariant forall c :: c in floorCells <==>
            InBounds(c.x, c.y) && (c.x < x || (c.x == x && c.y < y)) && grid[c.x, c.y]
          invariant Sorted(floorCells)
          invariant forall c :: c in floorCells ==> Before(c, Cell(x, y))
        {
          if grid[x, y] {
            floorCells := floorCells + [Cell(x, y)];
          }
          y := y + 1;
        }
        x := x + 1;
      }
    }

    /** Start: a solid map, the three lanes carved, the floor list rebuilt.
        The map is then exactly the union of the three lanes' brushes. */
    method Start(draws: seq<LaneDraws>)
      requires |draws| == 3
      requires forall i :: 0 <= i < 3 ==> DrawsFit(Lanes()[i].from, Lanes()[i].to, draws[i])
      modifies this
      ensures Valid() && fresh(grid)
      ensures forall x, y :: InBounds(x, y) ==>
        (grid[x, y] <==> exists i :: 0 <= i < 3 && LaneCovers(draws[i], x, y))
      ensures FloorInSync()
      ensures minPathWidth >= 0 ==> forall i :: 0 <= i < 3 ==>
        var l := Lanes()[i];
        (InBounds(l.from.x, l.from.y) ==> grid[l.from.x, l.from.y]) &&
        (InBounds(l.to.x, l.to.y) ==> grid[l.to.x, l.to.y])
    {
      InitMap();
      var lanes := Lanes();
      CarvePath(lanes[0].from, lanes[0].to, draws[0]);
      CarvePath(lanes[1].from, lanes[1].to, draws[1]);
      CarvePath(lanes[2].from, lanes[2].to, draws[2]);
      forall x, y | InBounds(x, y)
        ensures (grid[x, y] <==> exists i :: 0 <= i < 3 && LaneCovers(draws[i], x, y))
      {
        if grid[x, y] {
          var i :| 0 <= i < 3 && LaneCovers(draws[i], x, y);
        }
      }
      UpdateFloorCells();
      if minPathWidth >= 0 {
        forall i | 0 <= i < 3
          ensures var l := Lanes()[i];
            (InBounds(l.from.x, l.from.y) ==> grid[l.from.x, l.from.y]) &&
            (InBounds(l.to.x, l.to.y) ==> grid[l.to.x, l.to.y])
        {
          var l := lanes[i];
          LaneVerticesCovered(l.from, l.to, draws[i]);
          var pts := Polyline(l.from, l.to, draws[i].inner);
          assert pts[0] == l.from && pts[|pts| - 1] == l.to;
        }
      }
    }

    // -------------------------------------------------------------------
    // Spawning and placement

    /** The character goes to the floor cell the draw picks; with an empty
        floor list nothing is spawned. */
    method SpawnCharacter(pick: int) returns (spawn: Option<Cell>)
      requires Valid()
      requires |floorCells| > 0 ==> 0 <= pick < |floorCells|
      ensures spawn.None? <==> |floorCells| == 0
      ensures spawn.Some? ==> spawn.value == floorCells[pick]
      ensures spawn.Some? && FloorInSync() ==>
        InBounds(spawn.value.x, spawn.value.y) && grid[spawn.value.x, spawn.value.y]
    {
      if |floorCells| > 0 {
        spawn := Some(floorCells[pick]);
      } else {
        spawn := None;
      }
    }

    /** Every cell of the (2r+1)-square around c is in bounds and walkable. */
    ghost predicate ClearArea(c: Cell, r: int)
      reads this, grid
      requires Valid()
    {
      forall x, y :: c.x - r <= x <= c.x + r && c.y - r <= y <= c.y + r ==>
        InBounds(x, y) && grid[x, y]
    }

    /** A clear square of nonnegative radius r lies inside the map: its centre
        is walkable and at least r cells away from every edge. */
    lemma ClearAreaInside(c: Cell, r: int)
      requires Valid() && r >= 0 && ClearArea(c, r)
      ensures r <= c.x < mapWidth - r && r <= c.y < mapHeight - r
      ensures grid[c.x, c.y]
    {
      assert InBounds(c.x - r, c.y - r);
      assert InBounds(c.x + r, c.y + r);
      assert InBounds(c.x, c.y) && grid[c.x, c.y];
    }

    /** Scans the square row by row and fails at the first cell that is out
        of bounds or wall. */
    method IsClearArea(cell: Cell, radius: int) returns (clear: bool)
      requires Valid()
      ensures clear <==> ClearArea(cell, radius)
    {
      var dx := -radius;
      while dx <= radius
        invariant -radius <= dx
        invariant forall x, y :: cell.x - radius <= x < cell.x + dx && cell.y - radius <= y <= cell.y + radius ==>
          InBounds(x, y) && grid[x, y]
      {
        var px := cell.x + dx;
        var dy := -radius;
        while dy <= radius
          invariant -radius <= dy
          invariant forall x, y :: cell.x - radius <= x < cell.x + dx && cell.y - radius <= y <= cell.y + radius ==>
            InBounds(x, y) && grid[x, y]
          invariant forall y :: cell.y - radius <= y < cell.y + dy ==> InBounds(px, y) && grid[px, y]
        {
          var py := cell.y + dy;
          if !InBounds(px, py) {
            return false;
          }
          if !grid[px, py] {
            return false;
          }
          dy := dy + 1;
        }
        dx := dx + 1;
      }
      return true;
    }

    /** A cell an object may take: clear around it and, for the second object,
        far from the first. */
    ghost predicate Suitable(c: Cell, first: Option<Cell>)
      reads this, grid
      requires Valid()
    {
      ClearArea(c, ObjectClearance) && (first.Some? ==> FarApart(c, first.value))
    }

    /** First-fit: the index of the first suitable cell of s, or |s| if none. */
    ghost function FirstSuitable(s: seq<Cell>, first: Option<Cell>): (k: nat)
      reads this, grid
      requires Valid()
      ensures k <= |s|
      ensures k < |s| ==> Suitable(s[k], first)
      ensures forall i :: 0 <= i < k ==> !Suitable(s[i], first)
      decreases |s|
    {
      if s == [] then 0
      else if Suitable(s[0], first) then 0
      else 1 + FirstSuitable(s[1..], first)
    }

    /** What PlaceObjects decides, given the floor list and the swap draws. */
    ghost function PlacementOf(floor: seq<Cell>, swaps: seq<int>): Placement
      reads this, grid
      requires Valid() && SwapDraws(swaps, |floor|)
    {
      if floor == [] then NoFloorCells
      else
        var sh := Shuffled(floor, swaps);
        var k1 := FirstSuitable(sh, None);
        if k1 == |sh| then NoClearArea
        else
          var k2 := FirstSuitable(sh, Some(sh[k1]));
          if k2 == |sh| then NoFarArea(sh[k1])
          else Placed(sh[k1], sh[k2])
    }

    /** Two placed objects sit on distinct floor cells, each with a clear
        5x5 square around it, more than 10 cells apart. */
    lemma PlacementSound(floor: seq<Cell>, swaps: seq<int>)
      requires Valid() && SwapDraws(swaps, |floor|)
      ensures var p := PlacementOf(floor, swaps);
        p.Placed? ==>
          p.pos1 in floor && p.pos2 in floor && p.pos1 != p.pos2 &&
          ClearArea(p.pos1, ObjectClearance) && ClearArea(p.pos2, ObjectClearance) &&
          FarApart(p.pos1, p.pos2)
    {
      var p := PlacementOf(floor, swaps);
      if p.Placed? {
        ShuffledSameCells(floor, swaps);
        FarApartDistinct(p.pos2, p.pos1);
      }
    }

    /** The first search fails exactly when no floor cell has a clear square
        around it, whatever the shuffle. */
    lemma NoClearAreaIff(floor: seq<Cell>, swaps: seq<int>)
      requires Valid() && SwapDraws(swaps, |floor|)
      ensures PlacementOf(floor, swaps) == NoClearArea <==>
        floor != [] && forall c :: c in floor ==> !ClearArea(c, ObjectClearance)
    {
      if floor != [] {
        var sh := Shuffled(floor, swaps);
        ShuffledSameCells(floor, swaps);
        var k1 := FirstSuitable(sh, None);
        if k1 == |sh| {
          forall c | c in floor
            ensures !ClearArea(c, ObjectClearance)
          {
            assert c in sh;
            var i :| 0 <= i < |sh| && sh[i] == c;
            assert !Suitable(sh[i], None);
          }
        } else {
          assert sh[k1] in floor && ClearArea(sh[k1], ObjectClearance);
        }
      }
    }

    /** On a map too small to hold two clear squares more than 10 cells
        apart, the objects are never placed. */
    lemma SmallMapPlacesNothing(floor: seq<Cell>, swaps: seq<int>)
      requires Valid() && SwapDraws(swaps, |floor|)
      requires mapWidth < 5 || mapHeight < 5 ||
               Sq(mapWidth - 5) + Sq(mapHeight - 5) <= MinSeparationSq
      ensures !PlacementOf(floor, swaps).Placed?
    {
      var p := PlacementOf(floor, swaps);
      if p.Placed? {
        PlacementSound(floor, swaps);
        ClearAreaInside(p.pos1, ObjectClearance);
        ClearAreaInside(p.pos2, ObjectClearance);
        SqWithin(p.pos1.x - p.pos2.x, mapWidth - 5);
        SqWithin(p.pos1.y - p.pos2.y, mapHeight - 5);
      }
    }

    /** The shuffle of PlaceObjects: a copy of the floor list on which the
        i-th draw swaps position i with a position at or after it. */
    method ShuffledFloor(swaps: seq<int>) returns (shuffled: seq<Cell>)
      requires SwapDraws(swaps, |floorCells|)
      ensures shuffled == Shuffled(floorCells, swaps)
      ensures multiset(shuffled) == multiset(floorCells)
    {
      shuffled := floorCells;
      var i := 0;
      while i < |shuffled|
        invariant 0 <= i <= |floorCells| == |shuffled|
        invariant shuffled == ShufflePrefix(floorCells, swaps, i)
      {
        ghost var before := shuffled;
        var temp := shuffled[i];
        var j := swaps[i];
        shuffled := shuffled[i := shuffled[j]];
        shuffled := shuffled[j := temp];
        assert shuffled == Swap(before, i, j);
        i := i + 1;
      }
      assert i == |floorCells|;
      ShufflePrefixKeepsCells(floorCells, swaps, i);
    }

    /** One search of PlaceObjects: the first cell of `shuffled` with a clear
        square around it and, when `first` is given, more than 10 cells from
        it. */
    method FindSuitable(shuffled: seq<Cell>, first: Option<Cell>) returns (found: bool, pos: Cell)
      requires Valid()
      ensures found <==> FirstSuitable(shuffled, first) < |shuffled|
      ensures found ==> pos == shuffled[FirstSuitable(shuffled, first)]
    {
      found := false;
      pos := Cell(0, 0);
      var k := 0;
      while k < |shuffled|
        invariant 0 <= k <= |shuffled|
        invariant !found
        invariant forall m :: 0 <= m < k ==> !Suitable(shuffled[m], first)
      {
        var cell := shuffled[k];
        var clear := IsClearArea(cell, ObjectClearance);
        if clear && (first.Some? ==> FarApart(cell, first.value)) {
          pos := cell;
          found := true;
          break;
        }
        k := k + 1;
      }
    }

    /** PlaceObjects: shuffle a copy of the floor list with the swap draws,
        take the first cell with a clear square around it, then the first
        such cell more than 10 cells from it. */
    method PlaceObjects(swaps: seq<int>) returns (outcome: Placement)
      requires Valid()
      requires SwapDraws(swaps, |floorCells|)
      ensures outcome == PlacementOf(floorCells, swaps)
      ensures outcome.Placed? ==>
        outcome.pos1 in floorCells && outcome.pos2 in floorCells && outcome.pos1 != outcome.pos2 &&
        ClearArea(outcome.pos1, ObjectClearance) && ClearArea(outcome.pos2, ObjectClearance) &&
        FarApart(outcome.pos1, outcome.pos2)
    {
      if |floorCells| == 0 {
        return NoFloorCells;
      }
      var shuffled := ShuffledFloor(swaps);
      var foundPos1, pos1 := FindSuitable(shuffled, None);
      if !foundPos1 {
        return NoClearArea;
      }
      var foundPos2, pos2 := FindSuitable(shuffled, Some(pos1));
      if !foundPos2 {
        return NoFarArea(pos1);
      }
      outcome := Placed(pos1, pos2);
      PlacementSound(floorCells, swaps);
    }
  }

  /** |a| <= b gives a*a <= b*b. */
  lemma SqWithin(a: int, b: int)
    requires -b <= a <= b
    ensures Sq(a) <= Sq(b)
  {
    var m := if a < 0 then -a else a;
    assert Sq(m) == Sq(a);
    if m < b { SquareBelow(m, b); }
  }
}
