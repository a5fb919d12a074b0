# Lane map generator — a Dafny model

This project models the grid map generator of `Assets/MapGenerator2.cs`, the
Unity behaviour `LOLMapGenerator`. The map is a `mapWidth x mapHeight` grid of
booleans, where `true` means walkable floor. The generator works in four stages:

- It starts with solid wall.
- It carves three lanes (top, middle, bottom). Each lane is a jittered polyline of
  `pathSegmentCount` segments. Along each segment a corridor is carved by stamping
  circular brushes of a randomly drawn radius.
- It rebuilds the list of floor cells from the grid.
- It uses that list to spawn the character on a random floor cell, and to place
  two objects. Each object needs a clear 5x5 square around it, and the two
  must be more than 10 cells apart.

The model keeps the source's imperative form:

- `MapGenerator.LolMapGenerator` is a class. It holds the map as an `array2<bool>`
  (field `grid`) and the floor list as a `seq<Cell>` field.
- Its methods work with nested loops, as the source does. Each one is proved
  against a specification stated over the grid.
- `InitMap` fills the map. `CarveCircle`, `CarveCorridor` and `CarvePath` stamp
  brushes into it.
- `UpdateFloorCells` rebuilds the floor list and `IsClearArea` queries a square.
- `PlaceObjects` is split into its three phases: `ShuffledFloor` is the
  Fisher-Yates loop and `FindSuitable` is one first-fit search.

Module `Cells` holds the value-level notions these methods are specified with:

- the brush disk;
- the separation test;
- the x-major order of the floor list;
- the shuffle's swaps;
- the random draws that shape a lane.

Random draws are parameters of the methods that consume them:

- `Random.Range(i, Count)` of the shuffle becomes a sequence `swaps` with
  `i <= swaps[i] < n` (`Cells.SwapDraws`).
- The spawn pick becomes an index `pick`.
- For each lane, `Cells.LaneDraws` holds:
  - the rounded jittered inner vertices;
  - the drawn width of each segment;
  - the rounded step centres `CarveCorridor` visits along each segment.

  `MapGenerator.LolMapGenerator.DrawsFit` says what such draws look like:
  - there is one width per segment, in `[minPathWidth, maxPathWidth]`;
  - each segment's steps start at its first vertex and end at its last.

Facts about the source that shape the model:

- The floor list is not kept in sync on every change to the map. It is rebuilt
  only by `UpdateFloorCells`, which `Start` calls once, after carving
  (`Assets/MapGenerator2.cs:53`).
- The two objects must be strictly more than 10 cells apart: the test is
  `> 10f` (`Assets/MapGenerator2.cs:239`).
- A lane has `max(pathSegmentCount, 1)` segments, i.e. `pathSegmentCount + 1`
  points, or 2 points when `pathSegmentCount < 1` (`Assets/MapGenerator2.cs:75-87`).
- `RoundToInt(h * 2f / 3f)` and `RoundToInt(h / 3f)` never meet a tie, because
  the fraction is 0, 1/3 or 2/3. They are modelled exactly as `(m + 1) / 3`.

## Model

| member | source | states |
|---|---|---|
| Cells.DiskRule | Assets/MapGenerator2.cs:116-132 | the brush's two-part test (inside the (2r+1)-square its loops enumerate, and dx²+dy² ≤ r²) holds exactly when r ≥ 0 and the squared distance to the centre is at most r²; a negative radius stamps nothing |
| Cells.CentreStamped | Assets/MapGenerator2.cs:116-132 | a brush of nonnegative radius always stamps its own centre |
| Cells.FarApartDistinct | Assets/MapGenerator2.cs:239 | two cells whose squared distance exceeds 100 are different cells |
| Cells.SortedDistinct | Assets/MapGenerator2.cs:137-150 | a list strictly increasing in x-major order has no duplicates |
| Cells.SortedUnique | Assets/MapGenerator2.cs:137-150 | two strictly x-major-sorted lists holding the same cells are equal, so the rebuilt floor list depends only on the walkable set, never on what the list held before |
| Cells.SwapKeepsCells | Assets/MapGenerator2.cs:210-213 | the three-assignment swap keeps every cell with its multiplicity |
| Cells.ShufflePrefixKeepsCells | Assets/MapGenerator2.cs:207-214 | after any number of iterations of the shuffle loop the list is a permutation of the floor list |
| Cells.ShuffledSameCells | Assets/MapGenerator2.cs:207-214 | the shuffled copy has the floor list's length and holds exactly its cells |
| Cells.Polyline | Assets/MapGenerator2.cs:71-84 | the lane polyline starts at `start`, ends at `end` and has the inner vertices in order between them |
| MapGenerator.RoundThird | Assets/MapGenerator2.cs:48-50 | the result is the integer nearest to m/3 (within one third) |
| MapGenerator.LolMapGenerator.constructor | Assets/MapGenerator2.cs:7-29 | the inspector parameters are stored and the floor list is empty; the grid it allocates only gives the class its invariant, since `Start` allocates the real map |
| MapGenerator.LolMapGenerator.Default | Assets/MapGenerator2.cs:7-29 | the inspector defaults: a 50x50 map, widths 3 to 5, 20 segments |
| MapGenerator.LolMapGenerator.InitMap | Assets/MapGenerator2.cs:34-41 | a fresh mapWidth x mapHeight grid in which every cell is wall |
| MapGenerator.LolMapGenerator.CarveCircle | Assets/MapGenerator2.cs:116-132 | a cell becomes walkable exactly when it is in bounds and in the brush's disk; every other cell keeps its value and no cell becomes wall |
| MapGenerator.LolMapGenerator.CarveCorridor | Assets/MapGenerator2.cs:99-111 | the cells that become walkable are exactly the in-bounds cells covered by the brush at one of the step centres, all of radius `width`; nothing becomes wall |
| MapGenerator.LolMapGenerator.SegmentCount | Assets/MapGenerator2.cs:75-87 | a lane has pathSegmentCount segments, or one segment when pathSegmentCount < 1 |
| MapGenerator.LolMapGenerator.PolylinePoints | Assets/MapGenerator2.cs:71-84 | the loop builds SegmentCount()+1 points: start, the inner vertices in order, end |
| MapGenerator.LolMapGenerator.CarvePath | Assets/MapGenerator2.cs:69-94 | the cells that become walkable are exactly those covered by some segment's corridor; nothing becomes wall |
| MapGenerator.LolMapGenerator.LaneVerticesCovered | Assets/MapGenerator2.cs:87-110 | with nonnegative widths every polyline vertex, both lane ends included, is the centre of one of the lane's brushes |
| MapGenerator.LolMapGenerator.Lanes | Assets/MapGenerator2.cs:48-50 | three lanes; the top lane ends at the row nearest 2/3 of the height, the bottom lane at the row nearest 1/3 |
| MapGenerator.LolMapGenerator.LaneEndsInBounds | Assets/MapGenerator2.cs:48-50 | on a map at least 1 wide and 2 high all six lane ends are on the map; at height 1 the top lane ends off the map |
| MapGenerator.LolMapGenerator.UpdateFloorCells | Assets/MapGenerator2.cs:137-150 | the floor list holds exactly the walkable cells, strictly in x-major then y order (so without duplicates), whatever it held before |
| MapGenerator.LolMapGenerator.Start | Assets/MapGenerator2.cs:31-53 | the map is a fresh grid whose walkable cells are exactly the union of the three lanes' brushes; the floor list matches it; with nonnegative widths every on-map lane end is walkable |
| MapGenerator.LolMapGenerator.SpawnCharacter | Assets/MapGenerator2.cs:173-193 | nothing is spawned exactly when the floor list is empty; otherwise the picked cell is spawned and, with the list in sync, it is walkable |
| MapGenerator.LolMapGenerator.ClearAreaInside | Assets/MapGenerator2.cs:261-275 | a clear square of radius r ≥ 0 has a walkable centre at least r cells from every edge |
| MapGenerator.LolMapGenerator.IsClearArea | Assets/MapGenerator2.cs:261-275 | true exactly when every cell of the (2r+1)-square around the cell is on the map and walkable |
| MapGenerator.LolMapGenerator.FirstSuitable | Assets/MapGenerator2.cs:219-244 | first fit: the index is of a suitable cell and every earlier cell is unsuitable, or no cell is suitable |
| MapGenerator.LolMapGenerator.ShuffledFloor | Assets/MapGenerator2.cs:207-214 | the swap loop yields the specified shuffle of the floor list, a permutation of it |
| MapGenerator.LolMapGenerator.FindSuitable | Assets/MapGenerator2.cs:217-245 | the search succeeds exactly when some cell is suitable, and then returns the first one |
| MapGenerator.LolMapGenerator.PlaceObjects | Assets/MapGenerator2.cs:198-256 | the outcome is the specified one: nothing without floor cells, nothing when no cell is clear, nothing when no clear cell is more than 10 from the first, else the two first-fit cells; placed objects are on distinct floor cells, each with a clear 5x5 square, more than 10 apart |
| MapGenerator.LolMapGenerator.PlacementSound | Assets/MapGenerator2.cs:198-256 | for every floor list and swap draws, two placed objects lie on distinct floor cells with clear squares and squared distance above 100 |
| MapGenerator.LolMapGenerator.NoClearAreaIff | Assets/MapGenerator2.cs:216-232 | the first search fails exactly when the floor list is nonempty and none of its cells has a clear square, whatever the shuffle |
| MapGenerator.LolMapGenerator.SmallMapPlacesNothing | Assets/MapGenerator2.cs:216-250 | on a map narrower or lower than 5, or whose inner (w-5)x(h-5) box has squared diagonal at most 100, the two objects are never placed |

## Left out

- InstantiateWalls, prefab instantiation, `GameObject.FindWithTag`, moving an existing player and `Debug.LogWarning` are Unity scene effects. The model keeps only which cells are chosen and why nothing is placed (`Placement`).
- The floating-point geometry of a lane is not modelled. This covers `Mathf.Lerp`, the float jitter `Random.Range(-randomOffset, randomOffset)`, `Vector2.Distance`, `CeilToInt` and `RoundToInt` of the step centres, and the `0/0` step when a segment has length 0. The rounded vertices and step centres are inputs (`Cells.LaneDraws`). Only their shape is constrained: one run per segment, from its first vertex to its last.
- MapGenerator.LolMapGenerator.DrawsFit: a zero-length segment is assumed to stamp its vertex. The source computes `t = 0/0f` there and stamps at `RoundToInt(NaN)` (`Assets/MapGenerator2.cs:105-108`). `LaneVerticesCovered` relies on this assumption.
- MapGenerator.LolMapGenerator.DrawsFit: each width is assumed drawn in `[minPathWidth, maxPathWidth]`. What `Random.Range` returns when `maxPathWidth < minPathWidth` is not modelled.
- The distribution of the random draws, e.g. the uniformity of the shuffle, is not modelled. Only the range of each draw is.
- Integers are unbounded. The 32-bit overflow of `center.x + x` or `x * x + y * y` for radii or coordinates near `int.MaxValue` is not modelled.
- Negative map sizes are not modelled (`mapWidth` and `mapHeight` are `nat`). The source would fail allocating the array.
- MapGenerator.LolMapGenerator.Start: it covers the grid initialisation, the three lanes and the floor rebuild. The calls to InstantiateWalls, SpawnCharacter and PlaceObjects that follow are the separate methods of the same names. Their draws depend on the floor list that Start builds.
- The other scripts of the repository (`Assets/Script/MapGenerator.cs`, `Assets/AI.cs`, the player, camera, projectile and spawner scripts) are not part of this model. They are physics and per-frame glue.
