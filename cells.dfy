/** Integer grid cells (Unity's Vector2Int) and the value-level notions the
    map generator is specified with: the circular brush, the separation test,
    the x-major order of the floor list, the Fisher-Yates swaps and the random
    draws that shape one lane. Nothing here touches the heap. */
module Cells {

  datatype Option<T> = None | Some(value: T)

  /** One grid coordinate. */
  datatype Cell = Cell(x: int, y: int)

  // ---------------------------------------------------------------------
  // The circular brush of CarveCircle

  /** Offset (dx, dy) is stamped by a brush of radius r: it is inside the
      (2r+1)-square that the brush's two loops enumerate, and its squared
      length is at most r*r (boundary included). */
  predicate DiskOffset(dx: int, dy: int, r: int)
  {
    -r <= dx <= r && -r <= dy <= r && dx * dx + dy * dy <= r * r
  }

  /** Cell (x, y) is stamped by a brush of radius r centred on `center`. */
  predicate InDisk(center: Cell, r: int, x: int, y: int)
  {
    DiskOffset(x - center.x, y - center.y, r)
  }

  function Sq(n: int): int { n * n }

  /** A nonnegative number below b has a square below b's square. */
  lemma {:induction false} SquareBelow(a: int, b: int)
    requires 0 <= a < b
    ensures Sq(a) < Sq(b)
  {
    assert a * a <= a * b;
    assert a * b < b * b;
  }

  /** The square loops of the brush only enumerate: a cell is stamped exactly
      when r is nonnegative and its squared distance to the centre is at most
      r*r. A negative radius stamps nothing. */
  lemma DiskRule(center: Cell, r: int, x: int, y: int)
    ensures InDisk(center, r, x, y) <==>
            r >= 0 && Sq(x - center.x) + Sq(y - center.y) <= Sq(r)
  {
    var dx, dy := x - center.x, y - center.y;
    var ax := if dx < 0 then -dx else dx;
    var ay := if dy < 0 then -dy else dy;
    assert Sq(ax) == Sq(dx) && Sq(ay) == Sq(dy);
    if r >= 0 && Sq(dx) + Sq(dy) <= Sq(r) {
      assert Sq(dx) >= 0 && Sq(dy) >= 0;
      if ax > r { SquareBelow(r, ax); }
      if ay > r { SquareBelow(r, ay); }
    }
  }

  /** A brush of nonnegative radius always stamps its own centre. */
  lemma CentreStamped(center: Cell, r: int)
    requires r >= 0
    ensures InDisk(center, r, center.x, center.y)
  {
    assert 0 <= r * r;
  }

  /** Cell (x, y) is stamped by one of the brushes placed at `centres`. */
  ghost predicate CoveredBy(centres: seq<Cell>, r: int, x: int, y: int)
  {
    exists k :: 0 <= k < |centres| && InDisk(centres[k], r, x, y)
  }

  // ---------------------------------------------------------------------
  // The separation test of PlaceObjects

  function DistSq(a: Cell, b: Cell): int
  {
    Sq(a.x - b.x) + Sq(a.y - b.y)
  }

  /** Vector2.Distance(a, b) > 10 on integer cells: the distance is the square
      root of an integer, so it exceeds 10 exactly when that integer exceeds 100. */
  const MinSeparationSq: int := 100

  predicate FarApart(a: Cell, b: Cell)
  {
    DistSq(a, b) > MinSeparationSq
  }

  lemma FarApartDistinct(a: Cell, b: Cell)
    requires FarApart(a, b)
    ensures a != b
  {
  }

  // ---------------------------------------------------------------------
  // The order in which UpdateFloorCells lists the floor: x-major, then y

  predicate Before(a: Cell, b: Cell)
  {
    a.x < b.x || (a.x == b.x && a.y < b.y)
  }

  /** Strictly increasing in the x-major order, hence without duplicates. */
  ghost predicate Sorted(s: seq<Cell>)
  {
    forall i, j :: 0 <= i < j < |s| ==> Before(s[i], s[j])
  }

  lemma SortedDistinct(s: seq<Cell>)
    requires Sorted(s)
    ensures forall i, j :: 0 <= i < j < |s| ==> s[i] != s[j]
  {
  }

  /** A strictly sorted list is determined by the set of cells it holds: the
      floor list is a function of the walkable set alone, whatever the list
      held before it was rebuilt. */
  lemma {:induction false} SortedUnique(a: seq<Cell>, b: seq<Cell>)
    requires Sorted(a) && Sorted(b)
    requires forall c :: c in a <==> c in b
    ensures a == b
  {
    SameCellsBothEmpty(a, b);
    if a != [] {
      HeadFirst(b, a[0]);
      HeadFirst(a, b[0]);
      assert a[0] == b[0];
      forall c
        ensures c in a[1..] <==> c in b[1..]
      {
        if c in a[1..] {
          var k :| 1 <= k < |a| && a[k] == c;
          assert Before(a[0], c);
          assert c in b;
          assert c != b[0];
        }
        if c in b[1..] {
          var k :| 1 <= k < |b| && b[k] == c;
          assert Before(b[0], c);
          assert c in a;
          assert c != a[0];
        }
      }
      SortedUnique(a[1..], b[1..]);
      assert a == [a[0]] + a[1..] && b == [b[0]] + b[1..];
    }
  }

  /** The head of a sorted list comes before every other cell of it. */
  lemma HeadFirst(s: seq<Cell>, c: Cell)
    requires Sorted(s) && c in s
    ensures c == s[0] || Before(s[0], c)
  {
  }

  lemma SameCellsBothEmpty(a: seq<Cell>, b: seq<Cell>)
    requires forall c :: c in a <==> c in b
    ensures a == [] <==> b == []
  {
    if a != [] { assert a[0] in a; }
    if b != [] { assert b[0] in b; }
  }

  // ---------------------------------------------------------------------
  // The Fisher-Yates shuffle of PlaceObjects

  /** Swap draws for a list of n cells: the i-th draw is Random.Range(i, n). */
  predicate SwapDraws(swaps: seq<int>, n: nat)
  {
    |swaps| == n && forall i :: 0 <= i < n ==> i <= swaps[i] < n
  }

  /** Exchange positions i and j, as the shuffle's three assignments do. */
  function Swap(s: seq<Cell>, i: nat, j: nat): (r: seq<Cell>)
    requires i < |s| && j < |s|
    ensures |r| == |s|
  {
    seq(|s|, k requires 0 <= k < |s| => if k == i then s[j] else if k == j then s[i] else s[k])
  }

  /** A swap only reorders: it keeps every cell as often as before. */
  lemma SwapKeepsCells(s: seq<Cell>, i: nat, j: nat)
    requires i < |s| && j < |s|
    ensures multiset(Swap(s, i, j)) == multiset(s)
  {
    assert Swap(s, i, j) == s[i := s[j]][j := s[i]];
  }

  /** The list after the first k iterations of the shuffle loop. */
  function ShufflePrefix(s: seq<Cell>, swaps: seq<int>, k: nat): (r: seq<Cell>)
    requires SwapDraws(swaps, |s|) && k <= |s|
    ensures |r| == |s|
  {
    if k == 0 then s
    else Swap(ShufflePrefix(s, swaps, k - 1), k - 1, swaps[k - 1])
  }

  /** Every prefix of the shuffle is a reordering of the list. */
  lemma {:induction false} ShufflePrefixKeepsCells(s: seq<Cell>, swaps: seq<int>, k: nat)
    requires SwapDraws(swaps, |s|) && k <= |s|
    ensures multiset(ShufflePrefix(s, swaps, k)) == multiset(s)
  {
    if k > 0 {
      ShufflePrefixKeepsCells(s, swaps, k - 1);
      SwapKeepsCells(ShufflePrefix(s, swaps, k - 1), k - 1, swaps[k - 1]);
    }
  }

  /** The list after the whole shuffle loop. */
  function Shuffled(s: seq<Cell>, swaps: seq<int>): (r: seq<Cell>)
    requires SwapDraws(swaps, |s|)
  {
    ShufflePrefix(s, swaps, |s|)
  }

  /** The shuffle only reorders: each cell occurs in the shuffled list as often
      as in the floor list, so the two lists hold the same cells. */
  lemma ShuffledSameCells(s: seq<Cell>, swaps: seq<int>)
    requires SwapDraws(swaps, |s|)
    ensures |Shuffled(s, swaps)| == |s|
    ensures forall c :: c in Shuffled(s, swaps) <==> c in s
  {
    var r := Shuffled(s, swaps);
    ShufflePrefixKeepsCells(s, swaps, |s|);
    forall c
      ensures c in r <==> c in s
    {
      assert c in r <==> c in multiset(r);
      assert c in s <==> c in multiset(s);
    }
  }

  // ---------------------------------------------------------------------
  // The random draws that shape one lane of CarvePath

  /** `inner` holds the jittered intermediate vertices of the polyline,
      rounded to cells; `widths[s]` is the brush radius drawn for segment s;
      `steps[s]` are the rounded step centres CarveCorridor visits along
      segment s, from its first vertex to its last. */
  datatype LaneDraws = LaneDraws(inner: seq<Cell>, widths: seq<int>, steps: seq<seq<Cell>>)

  /** The polyline of a lane: the start, the inner vertices, the end. */
  function Polyline(start: Cell, end: Cell, inner: seq<Cell>): (p: seq<Cell>)
    ensures |p| == |inner| + 2 && p[0] == start && p[|p| - 1] == end
    ensures forall i :: 0 <= i < |inner| ==> p[i + 1] == inner[i]
  {
    [start] + inner + [end]
  }

  /** Cell (x, y) is stamped while one of the first n segments is carved. */
  ghost predicate LaneCoversUpTo(d: LaneDraws, n: nat, x: int, y: int)
  {
    exists s :: 0 <= s < n && s < |d.steps| && s < |d.widths| &&
      CoveredBy(d.steps[s], d.widths[s], x, y)
  }

  /** Cell (x, y) is stamped by some segment of the lane. */
  ghost predicate LaneCovers(d: LaneDraws, x: int, y: int)
  {
    LaneCoversUpTo(d, |d.steps|, x, y)
  }
}
