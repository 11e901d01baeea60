# Ripple chart and file table of bundle-buddy, modelled in Dafny

bundle-buddy shows how the files of a JavaScript bundle depend on each other.
This project models two of its views.

The **ripple chart** (`src/bundle/RippleChart.tsx`) lays out several rings around a selected file:

- an inward ring of the files it requires;
- an outward ring of the files that require it;
- further outward rings, one per level of a breadth-first walk along the edges of the dependency graph. The walk places every not-yet-placed target at radial offset `100·(level+2)`.

The chart also collects the edges to draw and the registry of placed nodes (`usedNodes`). It sizes the viewport from the extents of the rings. On hover it picks the edges that touch the hovered file and an anchor for each of their endpoints.

The **file table** (`src/bundle/FileDetails.tsx`) computes:

- the per-column maxima that scale its bars;
- the bar width and the cell label;
- a case-insensitive substring filter;
- the count of node_modules files against own files;
- the page size.

Modules, one file each:

- `Graph` (graph.dfy): nodes, edges, `find` and the id filter.
- `SizeOrder` (size_order.dfy): the stable size-descending sort of a ring's files.
- `RingLayout` (ring_layout.dfy): `mapLocation`. It assigns slots and offsets, places the nodes and tracks three extent maxima.
- `LevelExpansion` and `LevelExpansionProperties` (level_expansion.dfy): `getNextLevel`.
  - The recursive closure is a recursive method (`GetNextLevel`) that threads the registry and the three positions, proved equal to a reference function (`Expansion`).
  - The walk's properties are proved on the reference function.
- `RippleChart` (ripple_chart.dfy): the component body. It covers the guard, the direct rings, the seeding of edges and registry, the expansion and the `selectedXPos` rule.
- `Highlight` (highlight.dfy): `showEdges` and the `showNodes` anchor map.
- `FileDetails` (file_details.dfy): the table's aggregation passes and cell rules.

The floating-point geometry is not modelled. The square-root radius scale is the parameter `radius: nat -> real`. It is assumed to be `0` at `0` and strictly increasing only where a lemma says so (`IncreasingFromZero`). The arc radius, the angle scale and the sine/cosine position of one node are the parameter `place`.

## Model

| member | source | states |
|---|---|---|
| Graph.FindNode | src/bundle/RippleChart.tsx:153 | `None` exactly when no node has the id; otherwise the first node with that id |
| Graph.FilterListed | src/bundle/RippleChart.tsx:187-196 | the nodes whose id is listed, each as often as in `nodes`, and no others; never longer than `nodes` |
| Graph.FilterListedAppend | src/bundle/RippleChart.tsx:187-196 | the filter keeps `nodes` order: filtering a concatenation filters each part |
| Graph.FilterListedNone | src/bundle/RippleChart.tsx:195 | an empty id list keeps no node |
| Graph.FilterListedIds | src/bundle/RippleChart.tsx:187-196 | every id the filter keeps is in the list |
| SizeOrder.InsertPermutes | src/bundle/RippleChart.tsx:41-42 | inserting one node adds exactly that node |
| SizeOrder.InsertSorted | src/bundle/RippleChart.tsx:41-42 | inserting into a size-descending list keeps it size-descending |
| SizeOrder.InsertStable | src/bundle/RippleChart.tsx:41-42 | an inserted node goes in front of the nodes of its own size that come after it in the input |
| SizeOrder.SortProperties | src/bundle/RippleChart.tsx:41-42 | the sort keeps the length and is a permutation, larger sizes come first, and nodes of equal size keep their input order |
| RingLayout.SpanAppend | src/bundle/RippleChart.tsx:52 | the total spacing of a concatenation is the sum of the parts' totals |
| RingLayout.SpanNonNegative | src/bundle/RippleChart.tsx:44 | every spacing is `max(2r, 0)`, so the total is never negative |
| RingLayout.SpanInsert | src/bundle/RippleChart.tsx:41-52 | inserting a node into the sort adds exactly its spacing to the total |
| RingLayout.SpanOfSorted | src/bundle/RippleChart.tsx:41-52 | sorting does not change the total spacing |
| RingLayout.SpanSplit | src/bundle/RippleChart.tsx:49-52 | the running total is additive over prefixes and never decreases |
| RingLayout.SlotsFromAt | src/bundle/RippleChart.tsx:43-55 | slot `i` of the first pass holds node `i`, its radius, its spacing, and the running total before it plus half its spacing |
| RingLayout.PlacedAt | src/bundle/RippleChart.tsx:79-95 | the second pass keeps the slot order and places slot `i` from its own offset and the ring total |
| RingLayout.ExtentAppend | src/bundle/RippleChart.tsx:89-91 | the extent over a concatenation is the extent over the second part, started from the extent over the first |
| RingLayout.ExtentIsMax | src/bundle/RippleChart.tsx:89-91 | an extent is at least its start and every node's candidate, and it equals the start or one of the candidates |
| RingLayout.MaxFromIsMax | src/bundle/RippleChart.tsx:240-242 | a running `Math.max` is at least its start and every value, and it equals the start or one of the values |
| RingLayout.MaxFromAppend | src/bundle/RippleChart.tsx:240-242 | one more value replaces the running maximum exactly when it is larger |
| RingLayout.AssignSlots | src/bundle/RippleChart.tsx:40-55 | the first loop yields the slots of the reference first pass, and `total` is the sum of all spacings |
| RingLayout.PlaceNodes | src/bundle/RippleChart.tsx:79-95 | the second loop yields the reference placement, with `translateX`, `translateY` and `maxX` the three extents over it from 0, 150 and 0 |
| RingLayout.MapLocation | src/bundle/RippleChart.tsx:29-98 | `mapLocation` returns the reference ring of its input |
| RingLayout.RingAt | src/bundle/RippleChart.tsx:41-55 | node `i` of a ring is node `i` of the sorted input, with its radius, its spacing and its offset |
| RingLayout.RingIsSortedPermutation | src/bundle/RippleChart.tsx:41-43 | a ring holds exactly its input nodes, larger sizes first and ties in input order |
| RingLayout.OffsetWithin | src/bundle/RippleChart.tsx:44-52 | each offset lies between 0 and the total spacing |
| RingLayout.OffsetsApart | src/bundle/RippleChart.tsx:44-52 | two slots' offsets are at least half of both their spacings apart |
| RingLayout.RingSlots | src/bundle/RippleChart.tsx:40-55 | every spacing is `max(2r, 0) >= 0` with `r` the node's radius, and every offset is the spacing before it plus half its own; offsets lie in `[0, total]`, increase along the ring without overlap, and the total is the sum of the input's spacings |
| RingLayout.LargerFirst | src/bundle/RippleChart.tsx:41-49 | with an increasing radius scale, a strictly larger node sits strictly nearer the start of the arc |
| RingLayout.RingExtents | src/bundle/RippleChart.tsx:35-38 | `x >= 0`, `y >= 150` and `maxX >= 0`; each bounds its per-node candidate (`-(x+r)`, `y`, `x`) and equals its start value or one of the candidates |
| RingLayout.RingStarts | src/bundle/RippleChart.tsx:89-91 | a ring's extents never fall below 0, 150 and 0 |
| RingLayout.EmptyRing | src/bundle/RippleChart.tsx:97 | an empty input places nothing and reports `(0, 150, 0)` |
| LevelExpansion.EdgesFromCounts | src/bundle/RippleChart.tsx:216-218 | a level's edges are the global edges whose source is in the frontier, each as often as in `edges`, whatever its target |
| LevelExpansion.EdgesFromAppend | src/bundle/RippleChart.tsx:216-218 | the edge filter keeps order: filtering a concatenation filters each part |
| LevelExpansion.UnplacedCounts | src/bundle/RippleChart.tsx:223-225 | the matching nodes are exactly the targeted nodes not yet registered, each as often as in `nodes` |
| LevelExpansion.UnplacedAppend | src/bundle/RippleChart.tsx:223-225 | the matching filter keeps `nodes` order: filtering a concatenation filters each part |
| LevelExpansion.Register | src/bundle/RippleChart.tsx:235-236 | registering nodes adds exactly their ids to the registry's keys |
| LevelExpansion.RegisterKeeps | src/bundle/RippleChart.tsx:235-236 | registering does not touch an id none of the nodes has |
| LevelExpansion.RegisterLastWins | src/bundle/RippleChart.tsx:206-208 | an id is registered with the last node that has it |
| LevelExpansion.RingIds | src/bundle/RippleChart.tsx:228-233 | a ring places exactly the ids of its input |
| LevelExpansion.UnplacedIds | src/bundle/RippleChart.tsx:223-225 | the matching nodes are graph nodes with unregistered ids |
| LevelExpansion.RegistryGrows | src/bundle/RippleChart.tsx:227-238 | a placing level places only unregistered graph ids, and the count of unregistered graph ids strictly drops |
| LevelExpansion.ExpansionStops | src/bundle/RippleChart.tsx:216-227 | a level whose targets are all registered ends the walk, keeping its edges and the registry as it was |
| LevelExpansion.ExpansionUnfolds | src/bundle/RippleChart.tsx:227-247 | a placing level at `level` is the ring of the matching nodes at offset `100·(level+2)`, followed by the walk from its ids with the grown registry |
| LevelExpansion.LevelExtentsAppend | src/bundle/RippleChart.tsx:240-242 | adding a level appends its three extents to the lists the maxima run over |
| LevelExpansion.RegisterAll | src/bundle/RippleChart.tsx:235-236 | the `forEach` registration loop gives the reference registry |
| LevelExpansion.NextLevel | src/bundle/RippleChart.tsx:216-238 | one call computes the frontier's edges and places exactly when some target is unregistered; then it gives the placed level at offset `100·(level+2)` and the grown registry, and otherwise leaves the registry unchanged |
| LevelExpansion.ReachSnoc | src/bundle/RippleChart.tsx:240-242 | one `Math.max` update per position folds one more level's extent into the running maximum |
| LevelExpansion.ReachCons | src/bundle/RippleChart.tsx:240-246 | folding a first level and then the rest gives the running maximum over all the levels, as the recursive call sees it |
| LevelExpansion.ReachIsMaxFrom | src/bundle/RippleChart.tsx:240-242 | each running position is the maximum of its start and that extent of every level |
| LevelExpansion.GetNextLevel | src/bundle/RippleChart.tsx:215-248 | the recursion yields the reference walk from the frontier, with each of the three positions the running maximum of its start and all the placed levels' extents |
| LevelExpansionProperties.ExpansionLevels | src/bundle/RippleChart.tsx:227-247 | level `L` has radial offset `100·(L+level+2)`, places a non-empty node list, and is the outward ring of that list |
| LevelExpansionProperties.ExpansionWithin | src/bundle/RippleChart.tsx:223-225 | every level places only graph ids that were not registered when the walk began |
| LevelExpansionProperties.ExpansionDisjoint | src/bundle/RippleChart.tsx:223-238 | no id is placed by two levels |
| LevelExpansionProperties.ExpansionRegistry | src/bundle/RippleChart.tsx:235-236 | the final registry holds the initial ids plus exactly the ids the levels placed |
| LevelExpansionProperties.ExpansionKeeps | src/bundle/RippleChart.tsx:224 | an id registered before the walk keeps its entry |
| LevelExpansionProperties.ExpansionBound | src/bundle/RippleChart.tsx:227-247 | there are at most as many levels as unregistered graph ids, so the walk ends on cyclic graphs |
| LevelExpansionProperties.ExpansionEdges | src/bundle/RippleChart.tsx:216-219 | the appended edges are, frontier by frontier (the start, then each level's ids), every edge leaving that frontier |
| LevelExpansionProperties.EdgesFromNone | src/bundle/RippleChart.tsx:216-218 | no edge leaves an empty frontier |
| LevelExpansionProperties.UnplacedNone | src/bundle/RippleChart.tsx:223-225 | with no target, no node matches |
| LevelExpansionProperties.ExpansionFromNothing | src/bundle/RippleChart.tsx:215-250 | from an empty frontier the walk collects no edge, places no level and leaves the registry as it was |
| LevelExpansionProperties.ExpansionPlacesTarget | src/bundle/RippleChart.tsx:216-238 | an unregistered node that an edge from the frontier leads to is placed on the very next level, at offset `100·(level+2)` |
| RippleChart.Chart | src/bundle/RippleChart.tsx:153-159 | the component body gives the reference layout, or none where it returns null |
| RippleChart.Seeding | src/bundle/RippleChart.tsx:186-209 | the direct rings are the inward and outward rings of the listed nodes at offset 100, the seeded edges are the direct edges in list order, and the registry is the reduce over both rings |
| RippleChart.LayDown | src/bundle/RippleChart.tsx:186-257 | the `if (count)` branch gives the reference layout of the selected node |
| RippleChart.NoLayout | src/bundle/RippleChart.tsx:159 | there is no layout exactly when no node has the selected id, or `max` is absent or 0 |
| RippleChart.DirectRings | src/bundle/RippleChart.tsx:187-196 | the requires ring is the inward ring of the listed required nodes at offset 100, and the requiredBy ring is the outward ring of the listed requiring nodes; each holds exactly its listed nodes |
| RippleChart.LayoutEdges | src/bundle/RippleChart.tsx:198-201 | the edge list starts with `(r, selected)` per `requires` entry, then `(selected, b)` per `requiredBy` entry, in list order, followed by each frontier's outgoing edges |
| RippleChart.DirectEdges | src/bundle/RippleChart.tsx:198-201 | the seeded edge list is `(r, selected)` per required id, then `(selected, b)` per requiring id, and the later pushes follow them unchanged |
| RippleChart.PositionsFrom | src/bundle/RippleChart.tsx:211-257 | the three positions are the running `Math.max` of the direct rings' extents and then each level's, with the 150 rule applied to `selectedXPos` |
| RippleChart.LayoutLevels | src/bundle/RippleChart.tsx:223-247 | level `L` is at offset `100·(L+2)` and is a non-empty outward ring; it places only graph ids outside both direct rings; no two levels share an id; the level count is bounded; the registry is the direct ids plus the level ids |
| RippleChart.LaterRingWins | src/bundle/RippleChart.tsx:203-209 | in the seeding reduce, the last requiredBy entry with an id wins |
| RippleChart.EarlierRingKept | src/bundle/RippleChart.tsx:203-209 | an id absent from the requiredBy ring keeps its last requires entry |
| RippleChart.SeedLastWins | src/bundle/RippleChart.tsx:203-209 | the seed registers exactly the ids of both direct rings; a node in both rings keeps its requiredBy entry |
| RippleChart.SeedKept | src/bundle/RippleChart.tsx:223-238 | the expansion never overwrites a seeded entry |
| RippleChart.SeedIds | src/bundle/RippleChart.tsx:186-209 | the seeding registers only ids listed in the selected node's `requires` or `requiredBy` |
| RippleChart.SelectedPlacedFirst | src/bundle/RippleChart.tsx:186-238 | a selected node that does not list itself, with an edge back to it from a node that requires it, is placed on the first level, at offset 200 |
| RippleChart.SelectedListsItself | src/bundle/RippleChart.tsx:186-209 | a selected node that lists itself is registered by the seeding and stays registered |
| RippleChart.NoRequiredBy | src/bundle/RippleChart.tsx:186-257 | with an empty `requiredBy` there are no levels, the requiredBy ring is empty, the edges are the `requires` edges alone, and the positions are the requires ring's (`selectedXPos` with the 150 rule) |
| RippleChart.NoLevelPositions | src/bundle/RippleChart.tsx:211-257 | with no level and an empty requiredBy ring, the three positions are the requires ring's extents, with the 150 rule on `selectedXPos` |
| RippleChart.SelectedReplaced | src/bundle/RippleChart.tsx:203-238 | an example: selected `a`, required by `b`, with an edge from `b` to `a`, has the single level `[a]` at offset 200 |
| RippleChart.MaxOfAll | src/bundle/RippleChart.tsx:211-213 | the running maximum of two extents and a list is one of them and at least each |
| RippleChart.ViewportRule | src/bundle/RippleChart.tsx:253-257 | `selectedXPos` is 150 when nothing is required, and otherwise 150 more than the largest x extent; `selectedYPos` is at least 150 and every `y`; `maxXPos >= 0` |
| RippleChart.Viewport | src/bundle/RippleChart.tsx:211-257 | the viewport rule over the layout's own rings and levels |
| Highlight.Touching | src/bundle/RippleChart.tsx:265-267 | the edges with source or target equal to the id, each as often as in the input, and no others |
| Highlight.TouchingAppend | src/bundle/RippleChart.tsx:265-267 | the filter keeps order: filtering a concatenation filters each part |
| Highlight.ShowEdges | src/bundle/RippleChart.tsx:262-267 | no hover id (or `""`) shows no edge; otherwise exactly the accumulated edges that touch the hover id |
| Highlight.AnchorsOf | src/bundle/RippleChart.tsx:269-289 | the anchor map's ids are exactly the endpoints of the shown edges |
| Highlight.LastTouchExists | src/bundle/RippleChart.tsx:270-288 | every endpoint has a last shown edge touching it |
| Highlight.LastWriteWins | src/bundle/RippleChart.tsx:280-284 | an id's anchor is `End` when its last touching edge leaves it for the selected node and is not a loop, and `Start` otherwise |
| Highlight.AnchorEnd | src/bundle/RippleChart.tsx:280-284 | an anchor is `End` if and only if the id's last touching edge goes from it to the selected node and is not a loop |
| Highlight.ResolveAnchors | src/bundle/RippleChart.tsx:270-288 | the reduce writing into one map gives the reference anchor map |
| Highlight.Highlight | src/bundle/RippleChart.tsx:262-290 | both outputs are empty without a hover id; the anchor ids are the endpoints of the shown edges |
| Highlight.HighlightNeighbours | src/bundle/RippleChart.tsx:264-289 | every highlighted id is the hovered one or is joined to it by an accumulated edge |
| FileDetails.MaxOfBounds | src/bundle/FileDetails.tsx:27-43 | a column maximum is at least every row's value, and it is 0 or some row's value |
| FileDetails.MaxOfSnoc | src/bundle/FileDetails.tsx:28-42 | one more row raises a column maximum to that row's value when larger |
| FileDetails.ColumnMaxes | src/bundle/FileDetails.tsx:18-43 | the `forEach` pass sets each of the six fields to its column maximum; list columns use list lengths |
| FileDetails.FieldOfMaxes | src/bundle/FileDetails.tsx:56 | looking up `maxes[id]` gives that column's maximum |
| FileDetails.EmptyMaxes | src/bundle/FileDetails.tsx:18-25 | an empty table has all maxima 0 |
| FileDetails.BarOf | src/bundle/FileDetails.tsx:56-59 | the width is `"0px"` exactly when the value is 0, otherwise `value` out of `maxes[id]`; the left offset is `maxes[id] - value` out of `maxes[id]` |
| FileDetails.BarWithinColumn | src/bundle/FileDetails.tsx:56-59 | for a row of the table, a drawn bar's part lies in `(0, max]` and the left offset in `[0, max]` |
| FileDetails.CellLabel | src/bundle/FileDetails.tsx:135 | a column with a label formatter uses it; otherwise a falsy value shows `"--"` and any other value shows itself |
| FileDetails.LowerChar | src/bundle/FileDetails.tsx:159-160 | `A`–`Z` map to `a`–`z`; every other character is kept |
| FileDetails.Lower | src/bundle/FileDetails.tsx:159-160 | lower-casing keeps the length and maps each character |
| FileDetails.LowerIdempotent | src/bundle/FileDetails.tsx:159-160 | lower-casing twice is lower-casing once |
| FileDetails.IndexFrom | src/bundle/FileDetails.tsx:160 | the search returns -1 or a position in range |
| FileDetails.IndexFromFirst | src/bundle/FileDetails.tsx:160 | `indexOf` returns the first occurrence, and -1 exactly when there is none |
| FileDetails.MatchesIff | src/bundle/FileDetails.tsx:155-162 | a row matches if and only if the lower-cased filter is a substring of the lower-cased cell text |
| FileDetails.EmptyFilterMatches | src/bundle/FileDetails.tsx:155-162 | the empty filter matches every row |
| FileDetails.MatchesIgnoresCase | src/bundle/FileDetails.tsx:155-162 | lower-casing the filter or the cell text does not change the outcome |
| FileDetails.CountInNodeModules | src/bundle/FileDetails.tsx:190-193 | the node_modules count never exceeds the row count |
| FileDetails.CountAppend | src/bundle/FileDetails.tsx:190-193 | the count over a concatenation is the sum of the parts' counts |
| FileDetails.CountAll | src/bundle/FileDetails.tsx:190-193 | the count is the row count exactly when every id contains `node_modules` |
| FileDetails.CountNone | src/bundle/FileDetails.tsx:190-193 | the count is 0 exactly when no id contains `node_modules` |
| FileDetails.CountNodeModules | src/bundle/FileDetails.tsx:187-193 | `withNodeModules` counts the ids containing `node_modules`, and `withNodeModules + withoutNodeModules` is the row count |
| FileDetails.PageSize | src/bundle/FileDetails.tsx:231-232 | the page size is the row count, or 25 for an empty table; it is positive and fits every row |

## Left out

- Floating-point geometry is not modelled: the d3 square-root radius scale (lines 178-180 of RippleChart.tsx), the arc radius `rSize`/`minR`, the angle scale and the sine/cosine positions (lines 57-87). Each is the abstract parameter `radius` or `place`, and `degrees` comes from `place`.
- RingLayout.LargerFirst: holds only for a radius scale that is 0 at 0 and strictly increasing (`IncreasingFromZero`). d3's `scaleSqrt` over `[0, max]` meets this for a positive `max`; the model does not derive it from d3.
- `files.sort` sorts in place. The model sorts a sequence, since every array it sorts is a fresh `filter` result that nothing else can see.
- Rendering is not modelled: all JSX, `placeCircles` and its draw-order sort, the legend, the buttons and the `viz-annotation` arrow path. The hover lookups of edge endpoints in `usedNodes` at drawing time are also left out.
- React state (`useState`, `useMemo`) is not modelled. Hover, selection and `max` are plain inputs, and `nextLevelNodes` is kept as the list of levels rather than flattened.
- The key order of `Object.values` is not modelled: `showNodes` is a map from id to anchor.
- `max` is modelled as an optional real. A `NaN` maximum (also falsy in JavaScript) is not represented.
- The `if (count)` test is always taken, because a node's `count` is a required record here (FileDetails.tsx dereferences it unguarded).
- Table library configuration is not modelled: react-table, its sorting, pagination, row click handler, and the `Name` column's own cell.
- `getPercent` and `getFileSize` live in a file that is not part of this model. Widths are kept as (part, whole) pairs, and formatted labels as `Label(metric, value)`.
- `toLowerCase` is modelled on ASCII letters only. JavaScript lower-cases all of Unicode.
- The expansion keeps the code's behaviour where a prose description would suggest otherwise:
  - the selected node is not registered unless it lists itself, so an edge back to it places it again on the first outer ring (`RippleChart.SelectedPlacedFirst`, `RippleChart.SelectedListsItself`);
  - a node listed in both `requires` and `requiredBy` appears in both direct rings and is registered with its requiredBy entry (`RippleChart.SeedLastWins`).
- Rounding of double arithmetic is not modelled. Spacings, offsets, totals and extent candidates (RippleChart.tsx:44-52 and the candidate `-(node.x + node.r)` at line 89) are exact reals. So `RingLayout.SpanOfSorted` and the total conjunct of `RingLayout.RingSlots` hold in exact arithmetic only: a double sum in sorted order can differ in its last bits from the sum in input order.
- The `showNodes` reduce (RippleChart.tsx:269-289) also writes into a plain object. An edge endpoint with id `__proto__` sets the accumulator's prototype and creates no own key, so `Object.values` gives no anchor for it. `Highlight.AnchorsOf` always has that key.
- `usedNodes` is a plain JavaScript object, and the model reads it as a map. Two effects are not captured. `!usedNodes[d.id]` (RippleChart.tsx:224) also finds inherited properties, so a node whose id is `constructor`, `toString` or `hasOwnProperty` counts as registered and is never placed. And writing under the key `__proto__` (line 207, line 236) creates no entry.
- FileDetails.Matches: models string cells only. On the numeric columns (FileDetails.tsx:74-117) the value is a number, so the `.toLowerCase()` call of `filterMethod` (lines 155-162) would throw; that failure is not modelled.
- src/App.tsx (routing and lazy loading) has no logic that belongs in this model.
