# Campus wayfinding: graphs and route search

This project models the route-planning engine of a campus wayfinding backend
in Dafny, and proves properties of that model. The engine has four parts.

- **Campus building graph** (`GrafoPredios`, `backend/grafo_predios.py`):
  - buildings come from GeoJSON features and are keyed by their lower-cased
    `ref`, with spaces turned into `_`;
  - each building sits at the centroid of its outline;
  - every unordered pair of buildings whose centroids are close enough gets
    an edge, and manual edges can be added;
  - free-text building references are resolved to ids;
  - an A* search with a binary heap of `(f, counter, id)` entries returns a
    route.
- **Floor navigation graph** (`GrafoNavegacao`,
  `backend/criar_grafo_navegacao.py`):
  - typed nodes for corridors, doors, exits and room centres, built from
    the elements found in a floor plan;
  - edges chosen by type-pair rules with distance thresholds;
  - manual edges;
  - validation statistics.
- **Floor route search** (`backend/pathfinding_interno.py`):
  - a room endpoint is replaced by the room's nearest door, or else by the
    room's centre node; the door lookup derives the room number exactly as
    the code writes it, so a room-centre id `Centro_Room_<n>` finds no door
    and is kept as it is (see "## Findings");
  - a second A* variant keeps an open set and never re-pushes an open node;
  - the length of the returned route is summed step by step.
- **Floor-plan element extraction** (`backend/extrair_salas_svg.py`):
  - bounding boxes of `path`, `rect`, `circle` and `polygon` elements, and
    their centres;
  - a loop that sorts identified elements by id prefix into rooms, doors,
    exits/entrances, corridor nodes and other features.

## Modules

| file | module | contents |
|---|---|---|
| `wrappers.dfy` | `Wrappers` | `Option` (Python's `None`) |
| `text.dfy` | `Text` | the Python string methods the code uses: `lower`, `strip`, `startswith`, `in`, `replace`, `split` |
| `pair_scan.dfy` | `PairScan` | the `for i, a in enumerate(ids): for b in ids[i+1:]` pair enumeration that both graph builders share |
| `dict.dfy` | `Dict` | a Python dict with string keys, filled by a sequence of assignments: the map, the insertion order of its keys, and the lists reset beside it |
| `edge_list.dfy` | `EdgeList` | an edge list with mirrored neighbour lists, and the handshake count |
| `search.dfy` | `Search` | walks, walk costs, metrics, the heap order, path reconstruction and the invariants of the campus A* |
| `svg_extract.dfy` | `SvgExtract` | bounding boxes, centres, id parsing, the classification loop |
| `building_graph.dfy` | `BuildingGraph` | class `CampusGraph` and its A* (`ShortestRoute`) |
| `floor_graph.dfy` | `FloorGraph` | class `NavigationGraph` |
| `floor_path.dfy` | `FloorPath` | nearest door, endpoint substitution, the floor A* (`AStar`) and the route summary |

**Python state.**
- Dictionaries become Dafny `map`s. Where the code depends on a dict's
  iteration order, an `order` sequence of keys in insertion order is kept
  beside the map.
- A node's `conexoes` list becomes a separate `map<string, seq<string>>`
  named `conexoes` beside the node map `nos`.
- The heap is a sequence of entries. A pop removes the least entry in
  `(f, counter)` order, so the binary heap's layout is abstracted away.
- Default arguments become explicit parameters. The defaults are the
  constants `FloorGraph.DefaultMaxDistance` (150.0) and
  `FloorGraph.DefaultLinkRooms` (true) of `conectar_nos_proximos`, and
  `BuildingGraph.DefaultMaxDistance` (200.0) of `criar_conexoes_automaticas`.

**Distances.**
- Great-circle distance (`_distancia_haversine`) and Euclidean distance
  (`calcular_distancia`, `calcular_heuristica`) are abstract functions `H`
  and `D` over reals, passed as parameters or stored as class fields.
- The optimality of the campus route is proved only when `H` is a metric
  (`Search.Metric`): non-negative, symmetric, and obeying the triangle
  inequality. The source uses the same function as edge weight and as
  heuristic.

## Model

| member | source | states |
|---|---|---|
| `SvgExtract.EveryOther` | backend/extrair_salas_svg.py:27-28 | the slice `nums[0::2]` has ceil(n/2) elements, and element k is `nums[2k]` |
| `SvgExtract.Min` | backend/extrair_salas_svg.py:30-31 | `min` of a non-empty list is one of its elements and is at most every element |
| `SvgExtract.Max` | backend/extrair_salas_svg.py:30-31 | `max` of a non-empty list is one of its elements and is at least every element |
| `SvgExtract.EveryOtherSpans` | backend/extrair_salas_svg.py:27-31 | the min and max of the even (odd) positions bound every even (odd) number, and both occur there |
| `SvgExtract.PathBBox` | backend/extrair_salas_svg.py:12-38 | `None` exactly when there are fewer than 4 numbers; otherwise width and height are non-negative, and the box spans exactly the x values (even positions) and the y values (odd positions) |
| `SvgExtract.ElementBBox` | backend/extrair_salas_svg.py:40-102 | a rect has a box iff all four attributes are present, and the box is those attributes; a circle has a box iff cx, cy and r are present, and the box is 2r wide and high and centred on (cx, cy); a path (polygon) has a box iff its `d` (`points`) data holds at least 4 numbers, and the box is `PathBBox` of those numbers; any other tag gives `None` |
| `SvgExtract.Centre` | backend/extrair_salas_svg.py:104-114 | `None` iff the box is `None`; otherwise the centre is equidistant from the box's two x edges and from its two y edges |
| `SvgExtract.RoomNumber` | backend/extrair_salas_svg.py:148 | removing `Room_` never lengthens the id, and an id without `Room_` is its own `numero` |
| `SvgExtract.RoomNumberOfRoomId` | backend/extrair_salas_svg.py:148 | for a room id `Room_<n>`, where n does not contain `Room_`, the `numero` is n |
| `SvgExtract.DoorRoom` | backend/extrair_salas_svg.py:160-161 | a door's `sala_relacionada`, when present, contains no `_` |
| `SvgExtract.DoorRoomOfDoorId` | backend/extrair_salas_svg.py:160-161 | every `Door_<rest>` id has a room, and it is the first `_`-separated field of rest |
| `SvgExtract.FirstField` | backend/extrair_salas_svg.py:160 | the first field of `split` is a prefix of the string, ending at its end or just before a separator |
| `SvgExtract.RuleOf` | backend/extrair_salas_svg.py:142-212 | an id takes the first matching rule in the order `Room_`, `Door_`, `Exit_`/`Entrance_`, `Node_`, then keyword; each rule holds iff its prefix test holds and the earlier tests fail |
| `SvgExtract.Classify` | backend/extrair_salas_svg.py:141-221 | a room item, door item, exit item or other item is produced iff its rule applies; a corridor node is produced iff the `Node_` rule applies and the element has a position (cx and cy for a circle, a box centre otherwise); a circle node sits at (cx, cy), any other node at its box centre; a room carries `numero`, a door its room, an exit its kind (`Exit_` gives `saida`); every record carries the element's tag, and rooms, doors, exits and other features carry the element's box and its centre |
| `SvgExtract.ExtractElements` | backend/extrair_salas_svg.py:116-230 | the loop appends every element's item to its list, giving the same lists as the fold `Collect`, and counts exactly the elements that have a non-empty id |
| `SvgExtract.CollectCounts` | backend/extrair_salas_svg.py:136-221 | each element lands in at most one list; the room, door, exit and other lists have exactly as many entries as elements with that rule; corridor nodes are at most the `Node_` elements |
| `SvgExtract.CollectSorted` | backend/extrair_salas_svg.py:142-221 | every entry of every list has the rule of its list and the derived fields (`numero`, `sala_relacionada`, exit kind) of its id |
| `BuildingGraph.Centroid` | backend/grafo_predios.py:62-73 | an empty outline gives (0, 0); otherwise the centroid's longitude (latitude) times the number of vertices is the sum of the vertices' longitudes (latitudes) |
| `BuildingGraph.QuotientBetween` | backend/grafo_predios.py:73 | a mean lies between the least and greatest value averaged |
| `BuildingGraph.Lons` | backend/grafo_predios.py:70 | the list of longitudes has one entry per vertex, in order |
| `BuildingGraph.Lats` | backend/grafo_predios.py:71 | the list of latitudes has one entry per vertex, in order |
| `BuildingGraph.CentroidWithin` | backend/grafo_predios.py:62-73 | the centroid of a non-empty outline lies inside the outline's bounding box |
| `BuildingGraph.CentroidOfPoint` | backend/grafo_predios.py:62-73 | the centroid of a one-vertex outline is that vertex |
| `BuildingGraph.BuildingId` | backend/grafo_predios.py:44 | the id has the length of the ref, and each character is the ref's character lower-cased, with a space turned into `_` |
| `BuildingGraph.BuildingIdNormal` | backend/grafo_predios.py:44 | a building id has no upper-case letter and no space, and normalising it again leaves it unchanged |
| `BuildingGraph.ToBuilding` | backend/grafo_predios.py:35-52 | the id is the normalised ref; name and ref come from the feature, the name defaults to `Sem nome`, the ref defaults to the name, and the building sits at the centroid of the outline |
| `BuildingGraph.LoadedFrom` | backend/grafo_predios.py:30-54 | a building is loaded iff some feature is a `college` with `Polygon` geometry and converts to it |
| `BuildingGraph.LoadedSnoc` | backend/grafo_predios.py:30-54 | one more feature adds its building to the loaded list iff it is admitted |
| `BuildingGraph.Keyed` | backend/grafo_predios.py:46 | the assignments made by registering buildings are `(id, building)`, one per building, in order |
| `BuildingGraph.RegisteredKeys` | backend/grafo_predios.py:46 | after loading, an id is a key iff it was one before or some loaded building has it |
| `BuildingGraph.RegisteredLast` | backend/grafo_predios.py:46 | when two features give the same id, the later one wins |
| `BuildingGraph.LoadStep` | backend/grafo_predios.py:46-54 | loading one more building rebinds its id, appends the id to the key order only if it is new, and resets its neighbour list to empty |
| `BuildingGraph.CentroidsOf` | backend/grafo_predios.py:113-119 | there is a centroid for exactly the known buildings |
| `BuildingGraph.NearLinks` | backend/grafo_predios.py:112-126 | the pass adds at most one edge per examined pair |
| `BuildingGraph.NearLinksSnoc` | backend/grafo_predios.py:119-126 | examining one more pair adds the edge `(a, b, H(a, b))` iff the centroids are within the threshold, and nothing otherwise |
| `BuildingGraph.NearLinksMembership` | backend/grafo_predios.py:112-126 | an edge is added iff it joins an examined pair within the threshold and is weighted by that pair's distance |
| `BuildingGraph.NearLinksOnce` | backend/grafo_predios.py:112-126 | no unordered pair of buildings gets two automatic edges |
| `BuildingGraph.AutoNeighbours` | backend/grafo_predios.py:112-126 | after the pass, v is in u's neighbour list iff u and v are two distinct positions of the id list whose centroids are within the threshold |
| `BuildingGraph.FirstMatch` | backend/grafo_predios.py:277-283 | the result is the first building in stored order whose ref equals the text or whose name contains it; `None` iff no building matches |
| `BuildingGraph.Resolve` | backend/grafo_predios.py:266-283 | a cleaned reference that is an id resolves to itself; anything resolved is a known id |
| `BuildingGraph.ResolveFound` | backend/grafo_predios.py:266-283 | a resolved reference is a known id, and it is either the cleaned text itself or an id whose building matches the text |
| `BuildingGraph.ResolveNone` | backend/grafo_predios.py:266-283 | a reference is unresolved iff the cleaned text is not an id and no building matches it |
| `BuildingGraph.ResolveBlank` | backend/grafo_predios.py:270-281 | a blank reference resolves to the first stored building, because every name contains the empty string |
| `BuildingGraph.Listing` | backend/grafo_predios.py:217-225 | the route lists one `{id, nome, ref, coords}` record per path id, in order |
| `BuildingGraph.Ids` | backend/grafo_predios.py:217-225 | the ids of the route records, in order |
| `BuildingGraph.Coords` | backend/grafo_predios.py:238 | `coordenadas_rota` lists the coordinates of the route records, in order |
| `BuildingGraph.ShortestRoute` | backend/grafo_predios.py:178-264 | the A* search returns a path iff the destination is reachable; the path starts at the origin, ends at the destination, steps along neighbour lists and repeats no building; its distance is the destination's g-score, equal to the sum of the step distances; under a metric no walk is shorter |
| `BuildingGraph.RelaxNeighbours` | backend/grafo_predios.py:244-261 | relaxing every neighbour of the expanded building restores the search invariant: a parent tree consistent with g, a queue holding each open building's current score, every closed building's neighbours relaxed |
| `BuildingGraph.RelaxStep` | backend/grafo_predios.py:245-261 | handling one neighbour (skip if closed, skip if no better, else record the score and parent and push a new entry) keeps the search invariant for the rest of the scan |
| `BuildingGraph.RouteOf` | backend/grafo_predios.py:217-239 | the route dictionary lists the path ids in order and `num_predios` is their number |
| `BuildingGraph.RouteOfWalk` | backend/grafo_predios.py:205-239 | the route built from a simple walk with its true cost (shortest under a metric) satisfies the route description `IsRoute` |
| `BuildingGraph.RouteToSelf` | backend/grafo_predios.py:205-239 | a route from a building to itself lists that one building at distance 0 |
| `BuildingGraph.CampusGraph.constructor` | backend/grafo_predios.py:16-19 | a new graph has no buildings, no connections and no neighbour lists |
| `BuildingGraph.CampusGraph.Register` | backend/grafo_predios.py:46-54 | storing a building binds its id, keeps the key order with the id appended when new, and resets its neighbour list |
| `BuildingGraph.CampusGraph.Connect` | backend/grafo_predios.py:123-125 | recording an edge appends it to the connections and mirrors it in both neighbour lists |
| `BuildingGraph.CampusGraph.LoadOne` | backend/grafo_predios.py:30-54 | one feature is registered iff it is admitted; the state stays that of registering the loaded buildings so far, and connections are untouched |
| `BuildingGraph.CampusGraph.Load` | backend/grafo_predios.py:21-54 | the buildings, key order and neighbour lists become those of registering the filtered features in order; connections are untouched |
| `BuildingGraph.CampusGraph.CreateAutoConnections` | backend/grafo_predios.py:100-128 | the pass appends exactly the near-pair edges of all unordered pairs in key order, mirrors each in both neighbour lists, and counts them |
| `BuildingGraph.CampusGraph.ConnectRow` | backend/grafo_predios.py:115-126 | one pass of the inner loop appends the near edges of its row |
| `BuildingGraph.CampusGraph.ConnectPair` | backend/grafo_predios.py:116-126 | one pair gets an edge iff its centroids are within the threshold |
| `BuildingGraph.CampusGraph.AddManualConnection` | backend/grafo_predios.py:130-152 | returns true iff both normalised ids are buildings and the second is not yet a neighbour of the first; then exactly one mirrored edge weighted by the centroid distance is added; otherwise nothing changes |
| `BuildingGraph.CampusGraph.Normalize` | backend/grafo_predios.py:266-283 | the lookup loop returns the first match that `Resolve` describes |
| `BuildingGraph.CampusGraph.CalcRoute` | backend/grafo_predios.py:154-264 | a route is returned iff both references resolve to non-empty ids and the destination is reachable; the route is a simple walk along neighbour lists with its true length, shortest under a metric, and `num_predios` is its length |
| `PairScan.PairsMembership` | backend/grafo_predios.py:112-115 | a pair is examined iff it is (ids[a], ids[b]) for some positions a < b |
| `PairScan.PairsOnce` | backend/criar_grafo_navegacao.py:123-126 | with distinct ids, no unordered pair is examined twice and no id is paired with itself |
| `EdgeList.AttachMirrored` | backend/criar_grafo_navegacao.py:162-166 | appending edges with both neighbour lists updated keeps every neighbour list equal to the partners recorded in the edge list |
| `EdgeList.AttachOne` | backend/criar_grafo_navegacao.py:181-183 | attaching one edge appends b to a's list and then a to b's list |
| `EdgeList.PartnersSymmetric` | backend/criar_grafo_navegacao.py:164-165 | v is a partner of u iff u is a partner of v |
| `EdgeList.PartnersJoin` | backend/criar_grafo_navegacao.py:162-165 | v is a partner of u iff some edge joins them |
| `EdgeList.Handshake` | backend/criar_grafo_navegacao.py:162-166 | over distinct node ids that cover all endpoints, the partner lists add up to twice the number of edges |
| `Dict.PutSnoc` | backend/criar_grafo_navegacao.py:32-92 | one more assignment rebinds its key, appends the key to the key order only if new, and resets its list |
| `Dict.PutKeys` | backend/criar_grafo_navegacao.py:32-92 | after the assignments, a key is present iff it was before or some assignment has it |
| `Dict.PutLast` | backend/grafo_predios.py:46 | a key is bound to the value of its last assignment |
| `Search.MinIndex` | backend/pathfinding_interno.py:131 | `heappop` returns an entry no greater than any other in `(f, counter)` order |
| `Search.RemoveAt` | backend/pathfinding_interno.py:131 | the queue after a pop keeps every other entry, in order |
| `Search.LeastUnique` | backend/grafo_predios.py:188-200 | when counters are distinct, the least entry is unique, so every binary heap pops the same entry as the model |
| `Search.CountedPop` | backend/grafo_predios.py:199-200 | a pop keeps the queue's counters distinct and at most the counter |
| `Search.CountedPush` | backend/grafo_predios.py:260-261 | pushing an entry with the incremented counter keeps the counters distinct and at most the counter |
| `Search.FencedOff` | backend/grafo_predios.py:199-264 | if a set holds the origin but not the destination and is closed under neighbours, the destination is unreachable |
| `Search.TriangleAlongWalk` | backend/grafo_predios.py:181-193 | under a metric, the heuristic at a walk's start is at most the walk's cost plus the heuristic at its end (the heuristic is admissible) |
| `Search.Reconstruct` | backend/grafo_predios.py:207-214 | following `veio_de` back from the destination yields a walk from the origin with no repeated node, whose cost is the destination's g-score |
| `Search.TrailStep` | backend/grafo_predios.py:207-212 | prepending a building's recorded parent to a trail back from the destination keeps it a trail: linked steps, costs matching g-scores, no repeats |
| `Search.PoppedSettles` | backend/grafo_predios.py:199-205 | under a metric, the least queue entry that is not closed carries its node's shortest distance |
| `Search.LazyExhausted` | backend/grafo_predios.py:199-264 | when the queue empties under the search invariant, the destination is unreachable |
| `FloorGraph.CorridorEntry` | backend/criar_grafo_navegacao.py:31-40 | every corridor node becomes a `corredor` node under its own id, at its (x, y), with no room |
| `FloorGraph.DoorEntry` | backend/criar_grafo_navegacao.py:45-57 | a door becomes a node iff it has a centre; the node is a `porta` under the door's id, at the centre, carrying the door's room |
| `FloorGraph.ExitEntry` | backend/criar_grafo_navegacao.py:62-74 | an exit becomes a node iff it has a centre; the node is a `saida` under the exit's id, at the centre, with no room |
| `FloorGraph.RoomEntry` | backend/criar_grafo_navegacao.py:79-92 | a room becomes a node iff it has a centre; the node is a `sala_centro` keyed `Centro_<id>`, at the centre, carrying the room number |
| `FloorGraph.EntriesMembership` | backend/criar_grafo_navegacao.py:45-92 | a node entry is produced iff some element maps to it (elements without a centre map to nothing) |
| `FloorGraph.NodeTyping` | backend/criar_grafo_navegacao.py:31-92 | every node built from a floor plan is a corridor node at its (x, y), or a door at its centre carrying its room, or an exit at its centre, or a room centre keyed `Centro_<id>` carrying the room number |
| `FloorGraph.ClearedMirrored` | backend/criar_grafo_navegacao.py:32-92 | adding nodes to a graph without edges leaves every `conexoes` empty, so connections stay mirrored |
| `FloorGraph.ShouldConnect` | backend/criar_grafo_navegacao.py:133-159 | a pair is connected only if one node is a corridor, or room linking is on and it is a door and a room centre |
| `FloorGraph.ConnectRules` | backend/criar_grafo_navegacao.py:133-159 | a pair is connected iff it is corridor–corridor within the threshold, corridor–door within 0.8 of it, corridor–exit within it, or (with room linking on) a door and a room centre of the same room, in either order |
| `FloorGraph.ConnectSymmetric` | backend/criar_grafo_navegacao.py:133-159 | the connection rules give the same answer whichever node comes first |
| `FloorGraph.RuleLinksSnoc` | backend/criar_grafo_navegacao.py:127-166 | examining one more pair adds its D-weighted edge iff the rules connect it |
| `FloorGraph.RuleLinksMembership` | backend/criar_grafo_navegacao.py:123-166 | an edge is added iff it joins an examined pair that the rules connect, weighted by that pair's distance |
| `FloorGraph.RuleLinksOnce` | backend/criar_grafo_navegacao.py:123-166 | no unordered pair of nodes gets two edges in one pass |
| `FloorGraph.RuleNeighbours` | backend/criar_grafo_navegacao.py:123-166 | after the pass, v is in u's `conexoes` iff u and v are two distinct positions of the id list that the rules connect |
| `FloorGraph.Isolated` | backend/criar_grafo_navegacao.py:195 | a node is listed as isolated iff its `conexoes` is empty |
| `FloorGraph.CountStep` | backend/criar_grafo_navegacao.py:198-201 | counting one more node adds one to the count of its type and nothing to the others |
| `FloorGraph.Tally` | backend/criar_grafo_navegacao.py:198-201 | one pass of the counting loop keeps the per-type counts those of the nodes seen so far, with a type present iff it was counted |
| `FloorGraph.CountsAddUp` | backend/criar_grafo_navegacao.py:198-201 | the four per-type counts add up to the number of nodes |
| `FloorGraph.TotalDegreeMirrored` | backend/criar_grafo_navegacao.py:205 | with mirrored connections, the sum of `conexoes` lengths equals the partner count of the edge list |
| `FloorGraph.DegreesTwiceEdges` | backend/criar_grafo_navegacao.py:162-166 | with mirrored connections between known nodes, the sum of `conexoes` lengths is twice the number of edges |
| `FloorGraph.ValidationCounts` | backend/criar_grafo_navegacao.py:198-208 | the per-type counts of a validation report add up to `total_nos` |
| `FloorGraph.NavigationGraph.constructor` | backend/criar_grafo_navegacao.py:16-19 | a new floor graph has no nodes and no edges |
| `FloorGraph.NavigationGraph.AddNode` | backend/criar_grafo_navegacao.py:32-40 | storing a node binds its id, appends the id to the key order when new, and resets its `conexoes` |
| `FloorGraph.NavigationGraph.AddEach` | backend/criar_grafo_navegacao.py:45-57 | one loop stores the entries of its elements in order |
| `FloorGraph.NavigationGraph.AddOne` | backend/criar_grafo_navegacao.py:46-57 | one element stores its entry if it has one |
| `FloorGraph.NavigationGraph.AddElements` | backend/criar_grafo_navegacao.py:21-95 | the nodes, the key order and the `conexoes` become those of adding corridor nodes, doors, exits and room centres in that order; edges are untouched; a graph without edges keeps its connections mirrored |
| `FloorGraph.NavigationGraph.ConnectNearby` | backend/criar_grafo_navegacao.py:109-168 | the pass appends exactly the rule-connected edges of all unordered pairs in key order, mirrors each in both `conexoes`, counts them, and keeps connections mirrored |
| `FloorGraph.NavigationGraph.ConnectRow` | backend/criar_grafo_navegacao.py:126-166 | one pass of the inner loop appends the rule-connected edges of its row |
| `FloorGraph.NavigationGraph.ConnectPair` | backend/criar_grafo_navegacao.py:127-166 | one pair gets an edge iff the rules connect it |
| `FloorGraph.NavigationGraph.Connect` | backend/criar_grafo_navegacao.py:163-165 | recording an edge appends it and mirrors it in both `conexoes` |
| `FloorGraph.NavigationGraph.AddManualConnection` | backend/criar_grafo_navegacao.py:170-186 | returns true iff both ids are nodes and the second is not yet connected to the first; then exactly one D-weighted edge is appended and mirrored; otherwise nothing changes; connections stay mirrored |
| `FloorGraph.NavigationGraph.Validate` | backend/criar_grafo_navegacao.py:188-225 | counts the nodes and edges; lists the isolated nodes in order; a type is reported iff some node has it, with that count; the mean degree is 0 without nodes, and otherwise the total `conexoes` length over the node count |
| `FloorPath.Points` | backend/pathfinding_interno.py:16-17 | every node has its position |
| `FloorPath.RoomNumberAsWritten` | backend/pathfinding_interno.py:33 | the number derived as the code writes it is never longer than the id |
| `FloorPath.RoomNumberAsWrittenOfRoomId` | backend/pathfinding_interno.py:33 | for a room id `Room_<n>`, where n does not contain `Room_`, the number derived as written is n |
| `FloorPath.RoomNumber` | backend/pathfinding_interno.py:33 | the intended room number is never longer than the id, and an id that is not a room id is its own number |
| `FloorPath.CentreKeepsPrefix` | backend/pathfinding_interno.py:33 | removing `Room_` from `Centro_Room_<n>` leaves `Centro_<n>` |
| `FloorPath.RoomNumberAsWrittenKeepsCentre` | backend/pathfinding_interno.py:33 | for every room number n without `Room_`, the as-written expression maps `Centro_Room_<n>` to `Centro_<n>`, which differs from the room number n |
| `FloorPath.RoomNumberOfIds` | backend/pathfinding_interno.py:33 | both `Room_<n>` and `Centro_Room_<n>` give room number n |
| `FloorPath.Doors` | backend/pathfinding_interno.py:36-39 | a node is listed iff it is a door whose `sala` is the room number |
| `FloorPath.NearestIndex` | backend/pathfinding_interno.py:55-59 | `min` with a key returns the first door of least distance to the origin |
| `FloorPath.DoorFor` | backend/pathfinding_interno.py:35-62 | for a room number: `None` iff it has no door; a returned door is a `porta` of that number; with one door or an unknown origin it is the first door; otherwise no door of that number is closer to the origin |
| `FloorPath.NearestDoor` | backend/pathfinding_interno.py:20-62 | the door lookup with the number derived as written: `None` iff there is no door of that number, and a returned door is one of them |
| `FloorPath.NearestDoorIntended` | backend/pathfinding_interno.py:20-62 | the same lookup with the intended room number |
| `FloorPath.CentreDoorsMissed` | backend/pathfinding_interno.py:33-39 | when door rooms contain no `_` (as extraction guarantees), the lookup as written finds no door for any `Centro_Room_<n>` |
| `FloorPath.CentreDoorsIntended` | backend/pathfinding_interno.py:33-39 | with the intended number, `Centro_Room_<n>` finds a door iff room n has one, and it is a door of room n |
| `FloorPath.BuiltDoorRoomsPlain` | backend/criar_grafo_navegacao.py:45-57 | in a graph built from extracted elements no door's room contains `_` |
| `FloorPath.Resolve` | backend/pathfinding_interno.py:88-110 | an id that is not a room id is kept; an unresolved id is a room id without the `Centro_` prefix whose centre node is missing; a resolved room id becomes a door of its as-written number, itself when it is a centre, or its existing centre node; when the nearest door of the as-written number exists and has a non-empty id, that door is the result |
| `FloorPath.ResolveCentreKept` | backend/pathfinding_interno.py:88-99 | a room-centre endpoint `Centro_Room_<n>` is kept unchanged, never replaced by a door |
| `FloorPath.Endpoints` | backend/pathfinding_interno.py:79-110 | the endpoints resolve only when both ids are nodes, and then they resolve to nodes |
| `FloorPath.ResolvePlain` | backend/pathfinding_interno.py:88-110 | ids that are not room ids are kept unchanged |
| `FloorPath.ResolveRoom` | backend/pathfinding_interno.py:88-110 | a room endpoint fails iff it has no usable door (with the as-written number) and no centre node; otherwise it becomes one of those doors, or `Centro_<id>`, or stays itself when it is already a centre; whenever the room has doors and the nearest one has a non-empty id, the endpoint becomes a door: the first one when there is one door or the other endpoint is unknown, and otherwise one no farther from the other endpoint than any door of the room |
| `FloorPath.SearchClose` | backend/pathfinding_interno.py:131-158 | closing a popped node keeps the search invariant |
| `FloorPath.SearchImprove` | backend/pathfinding_interno.py:163-175 | recording a better g-score, and pushing the neighbour only if it is not open, keeps the search invariant |
| `FloorPath.SearchExhausted` | backend/pathfinding_interno.py:130-178 | when the queue empties, the destination is unreachable |
| `FloorPath.AStar` | backend/pathfinding_interno.py:114-178 | a path is returned iff the destination is reachable; it starts at the origin, ends at the destination, follows `conexoes` and repeats no node; no node is expanded twice |
| `FloorPath.ExploreStep` | backend/pathfinding_interno.py:160-175 | handling one neighbour (skip if closed, skip if no better, else record the score and parent and push it unless it is open) keeps the search invariant for the rest of the scan |
| `FloorPath.Explore` | backend/pathfinding_interno.py:157-175 | scanning the expanded node's neighbours keeps the search invariant |
| `FloorPath.FindPath` | backend/pathfinding_interno.py:64-178 | a path is returned iff both endpoints resolve and the resolved destination is reachable; it is a simple walk between the resolved endpoints |
| `FloorPath.PathDistance` | backend/pathfinding_interno.py:345-350 | the summing loop returns the cost of the path |
| `FloorPath.Details` | backend/pathfinding_interno.py:359-367 | one `{id, tipo, x, y}` record per path node, in order |
| `FloorPath.CompleteRoute` | backend/pathfinding_interno.py:337-368 | a route is returned iff a path is found; it echoes origin, destination and floor, and `num_passos` is the path length; `distancia_pixels` is the summed step distance; the details describe the path |

## Left out

- File and network I/O: reading GeoJSON, SVG and graph JSON, `salvar_grafo`, `exportar_para_visualizacao`, the `print` progress messages, and the test driver `testar_pathfinding`. The model takes pre-parsed records as input. The API server, the chatbot and the PDF and SVG rewriting tools are not part of this model.
- XML parsing and the `[\d.]+` number tokenizer of `path`/`polygon` data. A path's numbers are given as a list of reals. (The tokenizer drops minus signs; that is not modelled.)
- An attribute that is present but empty is falsy in Python; the model gives attributes as `Option<real>` and treats an empty attribute as absent.
- Floating-point arithmetic. Haversine, `sqrt` and the distances are abstract functions over reals. `round(..., 1)` and `round(..., 2)` in the route and validation reports are not modelled.
- Text.Lower, Text.Strip: `lower()` and `strip()` are modelled for ASCII only (A–Z and the ASCII whitespace characters). Python's versions are Unicode-aware, so a reference such as `PRÉDIO` lower-cases differently in the source.
- FloorGraph.NavigationGraph.AddElements: the records keep their box, centre and element tag, but the graph nodes drop their `metadata` dictionary (`tipo_elemento`, `bbox`, `tipo_saida`, `nome_sala`). Nothing in the graph or the searches reads it.
- FloorGraph.NavigationGraph.Validate: `media_conexoes_por_no` is the exact quotient, without `round(..., 2)`.
- BuildingGraph.CampusGraph.CalcRoute: `distancia_metros` is the exact g-score, without `round(..., 1)`. The check at `backend/grafo_predios.py:172` cannot fail, because a resolved reference is always a known id, so it is not a separate branch.
- FloorPath.AStar: it is proved sound and complete, but not optimal. An open node whose g-score improves keeps its old queue entry (`backend/pathfinding_interno.py:172-175`), so the first pop of the destination need not carry its shortest distance.
- The searches require a well-formed graph: every listed neighbour is a node. On other graphs the source raises `KeyError`.
- The heap is a sequence with a least-entry pop, not an array-backed binary heap. The order of pops is the same: both searches keep the entries' counters distinct (`Search.QueueCounted`, preserved by `Search.CountedPush` and `Search.CountedPop`), and then the least entry is unique (`Search.LeastUnique`).
- BuildingGraph.ToBuilding: a property that is present with the value `null` is treated like an absent one, and an empty `coordinates` list like a missing one. The source differs in three cases, each an exception. A `null` `ref` is returned by `get` as `None`, so `ref.lower()` raises `AttributeError` (`backend/grafo_predios.py:37-44`). A `null` `name` with a ref stores `nome = None`, so the name match in `_normalizar_id_predio` raises `AttributeError` (`backend/grafo_predios.py:280`). A Polygon whose `coordinates` is `[]` raises `IndexError` at `[0]` (`backend/grafo_predios.py:41`).
- `calcular_distancia` and `calcular_heuristica` are inlined as `D` applied to node positions.

## Findings

| source | as written | input that shows it | evidently intended | confidence | as-written member | corrected member |
|---|---|---|---|---|---|---|
| backend/pathfinding_interno.py:33 | `numero_sala = sala_id.replace('Room_', '').replace('Centro_Room_', '')`. The first replace already turns `Centro_Room_` into `Centro_`, so the second never matches. | `Centro_Room_1014` gives `Centro_1014` (and in general `Centro_Room_<n>` gives `Centro_<n>`), which is no door's `sala`, so a room-centre endpoint is never replaced by the room's nearest door and the search runs to or from the centre node itself | `1014`, the number shared by the room's doors | not executed | `FloorPath.CentreDoorsMissed` | `FloorPath.CentreDoorsIntended` |

The route operations (`NearestDoor`, `Resolve`, `Endpoints`, `FindPath`, `CompleteRoute`) follow the code as written, so a room-centre endpoint keeps its id (`FloorPath.ResolveCentreKept`). The intended lookup is `FloorPath.NearestDoorIntended`; `FloorPath.RoomNumberAsWrittenKeepsCentre` and `FloorPath.RoomNumberOfIds` compare the two numbers.
