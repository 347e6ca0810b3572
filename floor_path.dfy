/**
 * Route search inside one floor (`pathfinding_interno`): room ids are
 * replaced by the nearest door of the room (or the room centre), then an A*
 * search that keeps an open set runs over the `conexoes` links, and the
 * complete route adds up the straight-line distances along the path.
 */
module FloorPath {
  import opened Wrappers
  import opened Text
  import opened PairScan
  import opened Search
  import opened FloorGraph
  import SvgExtract

  /** The position of every node: what the search measures. */
  function Points(nos: map<string, Node>): (pos: map<string, SvgExtract.Point>)
    ensures pos.Keys == nos.Keys
    ensures forall k :: k in nos ==> pos[k] == nos[k].at
  {
    map k | k in nos :: nos[k].at
  }

  /**
   * The room number as `encontrar_porta_mais_proxima` derives it: every
   * `Room_` removed, then every `Centro_Room_`. The first replacement
   * already breaks the second prefix apart.
   */
  function RoomNumberAsWritten(salaId: string): (r: string)
    ensures |r| <= |salaId|
  {
    ReplaceAll(ReplaceAll(salaId, "Room_", ""), "Centro_Room_", "")
  }

  /** For a room id `Room_<n>` the expression as written gives the number n. */
  lemma RoomNumberAsWrittenOfRoomId(n: string)
    requires !Contains(n, "Room_")
    ensures RoomNumberAsWritten("Room_" + n) == n
  {
    var id, room := "Room_" + n, "Room_";
    assert id[..5] == room && id[5..] == n;
    ReplaceAllHit(id, room, "");
    assert ReplaceAll(n, room, "") == n;
    assert ReplaceAll(id, room, "") == n;
    NoRoomNoCentreRoom(n);
  }

  /** A string without `Room_` holds no `Centro_Room_` either. */
  lemma NoRoomNoCentreRoom(n: string)
    requires !Contains(n, "Room_")
    ensures !Contains(n, "Centro_Room_")
  {
    if Contains(n, "Centro_Room_") {
      var i :| 0 <= i <= |n| - 12 && OccursAt(n, "Centro_Room_", i);
      assert n[i + 7..i + 12] == "Centro_Room_"[7..12];
      assert OccursAt(n, "Room_", i + 7);
    }
  }

  /** In a room-centre id the first replacement removes only the inner `Room_`, leaving `Centro_` in front. */
  lemma CentreKeepsPrefix(n: string)
    requires !Contains(n, "Room_")
    ensures ReplaceAll("Centro_Room_" + n, "Room_", "") == "Centro_" + n
  {
    var centre, room := "Centro_", "Room_";
    assert forall i :: 0 <= i < |centre| ==> centre[i] != room[0];
    calc {
      ReplaceAll("Centro_Room_" + n, room, "");
      { assert "Centro_Room_" + n == centre + (room + n); }
      ReplaceAll(centre + (room + n), room, "");
      { ReplaceAllKeep(centre, room + n, room, ""); }
      centre + ReplaceAll(room + n, room, "");
      { ReplaceAllHit(room + n, room, ""); assert (room + n)[5..] == n; }
      centre + ("" + ReplaceAll(n, room, ""));
      { assert !Contains(n, room); }
      centre + ("" + n);
      { assert "" + n == n; }
      centre + n;
    }
  }

  /** Without `Room_` in `n`, `Centro_` followed by `n` holds no `Centro_Room_` either. */
  lemma CentreHasNoCentreRoom(n: string)
    requires !Contains(n, "Room_")
    ensures !Contains("Centro_" + n, "Centro_Room_")
  {
    var s, pat := "Centro_" + n, "Centro_Room_";
    if Contains(s, pat) {
      var i :| 0 <= i <= |s| - |pat| && OccursAt(s, pat, i);
      assert s[i + 7..i + 12] == pat[7..12] == "Room_";
      assert n[i..i + 5] == s[i + 7..i + 12];
      assert OccursAt(n, "Room_", i);
    }
  }

  /**
   * A room-centre id keeps `Centro_` in its derived number (for instance
   * `Centro_Room_1014` gives `Centro_1014`), so it never matches the number
   * its doors were registered under.
   */
  lemma RoomNumberAsWrittenKeepsCentre(n: string)
    requires !Contains(n, "Room_")
    ensures RoomNumberAsWritten("Centro_Room_" + n) == "Centro_" + n != RoomNumber("Centro_Room_" + n)
  {
    CentreKeepsPrefix(n);
    CentreHasNoCentreRoom(n);
    RoomNumberOfIds(n);
    assert |"Centro_" + n| != |n|;
  }

  /** The room number of a room id or a room-centre id: the whole prefix removed. */
  function RoomNumber(salaId: string): (r: string)
    ensures |r| <= |salaId|
    ensures !IsRoomId(salaId) ==> r == salaId
  {
    if StartsWith(salaId, "Centro_Room_") then salaId[12..]
    else if StartsWith(salaId, "Room_") then salaId[5..]
    else salaId
  }

  /** Both a room id and its room-centre id give the number the room was registered under. */
  lemma RoomNumberOfIds(n: string)
    ensures RoomNumber("Room_" + n) == n
    ensures RoomNumber("Centro_Room_" + n) == n
  {
    assert ("Room_" + n)[0] == 'R';
    assert ("Centro_Room_" + n)[..12] == "Centro_Room_";
  }

  /** The ids, in dict order, of the doors of room `number`. */
  function Doors(order: seq<string>, nos: map<string, Node>, number: string): (ds: seq<string>)
    ensures forall x :: x in ds <==> x in order && x in nos && nos[x].kind == DoorNode && nos[x].sala == Some(number)
  {
    if order == [] then []
    else
      var x := order[|order| - 1];
      Doors(order[..|order| - 1], nos, number)
        + (if x in nos && nos[x].kind == DoorNode && nos[x].sala == Some(number) then [x] else [])
  }

  /** Python's `min` with a key: the first of `ds` at the least distance from `o`. */
  function NearestIndex(ds: seq<string>, nos: map<string, Node>, D: (SvgExtract.Point, SvgExtract.Point) -> real,
                        o: SvgExtract.Point): (k: nat)
    requires |ds| > 0 && forall i :: 0 <= i < |ds| ==> ds[i] in nos
    ensures k < |ds|
    ensures forall i :: 0 <= i < |ds| ==> D(o, nos[ds[k]].at) <= D(o, nos[ds[i]].at)
    ensures forall i :: 0 <= i < k ==> D(o, nos[ds[k]].at) < D(o, nos[ds[i]].at)
  {
    if |ds| == 1 then 0
    else
      var m := NearestIndex(ds[..|ds| - 1], nos, D, o);
      if D(o, nos[ds[|ds| - 1]].at) < D(o, nos[ds[m]].at) then |ds| - 1 else m
  }

  /**
   * The door-picking part of `encontrar_porta_mais_proxima`, for a given room
   * number: no door when the room has none, the only door when it has one,
   * the first door when the origin is not a node, and otherwise the first
   * door nearest to the origin.
   */
  function DoorFor(nos: map<string, Node>, order: seq<string>, D: (SvgExtract.Point, SvgExtract.Point) -> real,
                   number: string, origemId: string): (r: Option<string>)
    ensures var ds := Doors(order, nos, number);
            && (r.None? <==> ds == [])
            && (r.Some? ==> r.value in nos && nos[r.value].kind == DoorNode && nos[r.value].sala == Some(number))
            && (r.Some? && (|ds| == 1 || origemId !in nos) ==> r.value == ds[0])
            && (r.Some? && origemId in nos ==>
                  forall d :: d in ds ==> D(nos[origemId].at, nos[r.value].at) <= D(nos[origemId].at, nos[d].at))
  {
    var ds := Doors(order, nos, number);
    if ds == [] then None
    else if |ds| == 1 then Some(ds[0])
    else if origemId !in nos then Some(ds[0])
    else Some(ds[NearestIndex(ds, nos, D, nos[origemId].at)])
  }

  /**
   * `encontrar_porta_mais_proxima` as written: the doors are looked up under
   * the number of `RoomNumberAsWritten`, which for a room-centre id still
   * carries `Centro_`.
   */
  function NearestDoor(nos: map<string, Node>, order: seq<string>, D: (SvgExtract.Point, SvgExtract.Point) -> real,
                       salaId: string, origemId: string): (r: Option<string>)
    ensures var ds := Doors(order, nos, RoomNumberAsWritten(salaId));
            && (r.None? <==> ds == [])
            && (r.Some? ==> r.value in ds && nos[r.value].sala == Some(RoomNumberAsWritten(salaId)))
  {
    DoorFor(nos, order, D, RoomNumberAsWritten(salaId), origemId)
  }

  /** The evidently intended lookup: the doors of the room number `RoomNumber` recovers from either id form. */
  function NearestDoorIntended(nos: map<string, Node>, order: seq<string>, D: (SvgExtract.Point, SvgExtract.Point) -> real,
                               salaId: string, origemId: string): (r: Option<string>)
    ensures var ds := Doors(order, nos, RoomNumber(salaId));
            && (r.None? <==> ds == [])
            && (r.Some? ==> r.value in ds && nos[r.value].sala == Some(RoomNumber(salaId)))
  {
    DoorFor(nos, order, D, RoomNumber(salaId), origemId)
  }

  /** Every door's `sala` is free of `_`, as a door id's second field always is. */
  predicate PlainDoorRooms(nos: map<string, Node>) {
    forall k :: k in nos && nos[k].kind == DoorNode && nos[k].sala.Some? ==> '_' !in nos[k].sala.value
  }

  /**
   * The as-written lookup never finds a door for a room-centre id
   * `Centro_Room_<n>`: its number `Centro_<n>` holds a `_`, which no door's
   * room does.
   */
  lemma CentreDoorsMissed(nos: map<string, Node>, order: seq<string>, D: (SvgExtract.Point, SvgExtract.Point) -> real,
                          n: string, other: string)
    requires !Contains(n, "Room_") && PlainDoorRooms(nos)
    ensures NearestDoor(nos, order, D, "Centro_Room_" + n, other).None?
  {
    RoomNumberAsWrittenKeepsCentre(n);
    var number := "Centro_" + n;
    assert number[6] == '_';
  }

  /** With the intended number, the same room-centre id finds the doors of room n whenever it has any. */
  lemma CentreDoorsIntended(nos: map<string, Node>, order: seq<string>, D: (SvgExtract.Point, SvgExtract.Point) -> real,
                            n: string, other: string)
    ensures var r := NearestDoorIntended(nos, order, D, "Centro_Room_" + n, other);
            && (r.Some? <==> Doors(order, nos, n) != [])
            && (r.Some? ==> r.value in nos && nos[r.value].kind == DoorNode && nos[r.value].sala == Some(n))
  {
    RoomNumberOfIds(n);
  }

  /** The id names a room or a room centre. */
  predicate IsRoomId(id: string) {
    StartsWith(id, "Room_") || StartsWith(id, "Centro_Room_")
  }

  /**
   * What one endpoint becomes, measured against the other endpoint `other`:
   * a room id is replaced by its nearest door (when that id is truthy),
   * else by its room centre `Centro_<id>`, which must then be a node; a
   * room-centre id without doors stays as it is.
   */
  function Resolve(nos: map<string, Node>, order: seq<string>, D: (SvgExtract.Point, SvgExtract.Point) -> real,
                   id: string, other: string): (r: Option<string>)
    ensures !IsRoomId(id) ==> r == Some(id)
    ensures r.None? ==> IsRoomId(id) && !StartsWith(id, "Centro_") && "Centro_" + id !in nos
    ensures r.Some? && IsRoomId(id) ==>
              || r.value in Doors(order, nos, RoomNumberAsWritten(id))
              || (r.value == id && StartsWith(id, "Centro_"))
              || (r.value == "Centro_" + id && r.value in nos)
    ensures var door := NearestDoor(nos, order, D, id, other);
            IsRoomId(id) && door.Some? && door.value != "" ==> r == door
  {
    if !IsRoomId(id) then Some(id)
    else
      var door := NearestDoor(nos, order, D, id, other);
      if door.Some? && door.value != "" then door
      else if StartsWith(id, "Centro_") then Some(id)
      else if "Centro_" + id in nos then Some("Centro_" + id)
      else None
  }

  /**
   * The endpoints `calcular_caminho_a_star` searches between: none when
   * either id is not a node; otherwise the destination is resolved first,
   * against the origin as given, and the origin then against the resolved
   * destination.
   */
  function Endpoints(nos: map<string, Node>, order: seq<string>, D: (SvgExtract.Point, SvgExtract.Point) -> real,
                     origem: string, destino: string): (r: Option<(string, string)>)
    ensures r.Some? ==> origem in nos && destino in nos && r.value.0 in nos && r.value.1 in nos
  {
    if origem !in nos || destino !in nos then None
    else
      match Resolve(nos, order, D, destino, origem)
      case None => None
      case Some(d) =>
        match Resolve(nos, order, D, origem, d)
        case None => None
        case Some(o) => Some((o, d))
  }

  /** An id that names no room is searched from or to as it is. */
  lemma ResolvePlain(nos: map<string, Node>, order: seq<string>, D: (SvgExtract.Point, SvgExtract.Point) -> real,
                     origem: string, destino: string)
    requires origem in nos && destino in nos && !IsRoomId(origem) && !IsRoomId(destino)
    ensures Endpoints(nos, order, D, origem, destino) == Some((origem, destino))
  {
  }

  /**
   * A room endpoint becomes a door of that room, or, when the room has no
   * door with a non-empty id, its centre: the id itself for a room-centre
   * id, `Centro_<id>` otherwise, and nothing when that node is missing.
   */
  lemma ResolveRoom(nos: map<string, Node>, order: seq<string>, D: (SvgExtract.Point, SvgExtract.Point) -> real,
                    id: string, other: string)
    requires id in nos && IsRoomId(id)
    ensures var r := Resolve(nos, order, D, id, other);
            var ds := Doors(order, nos, RoomNumberAsWritten(id));
            && (r.None? <==> (ds == [] || NearestDoor(nos, order, D, id, other) == Some("")) && !StartsWith(id, "Centro_")
                             && "Centro_" + id !in nos)
            && (r.Some? ==> r.value in nos)
            && (r.Some? && r.value in ds ==> nos[r.value].kind == DoorNode && nos[r.value].sala == Some(RoomNumberAsWritten(id)))
            && (r.Some? && r.value !in ds ==> r.value == if StartsWith(id, "Centro_") then id else "Centro_" + id)
  ensures var r := Resolve(nos, order, D, id, other);
          var ds := Doors(order, nos, RoomNumberAsWritten(id));
          ds != [] && NearestDoor(nos, order, D, id, other) != Some("") ==>
            && r.Some? && r.value in ds
            && (|ds| == 1 || other !in nos ==> r.value == ds[0])
            && (other in nos ==> forall d :: d in ds ==> D(nos[other].at, nos[r.value].at) <= D(nos[other].at, nos[d].at))
  {
    var door := NearestDoor(nos, order, D, id, other);
    if door.Some? {
      assert door.value in Doors(order, nos, RoomNumberAsWritten(id)) <==> door.value in order;
    }
  }

  /**
   * A room-centre endpoint `Centro_Room_<n>` is searched from or to as it
   * is: no door matches its as-written number, and it already starts with
   * `Centro_`.
   */
  lemma ResolveCentreKept(nos: map<string, Node>, order: seq<string>, D: (SvgExtract.Point, SvgExtract.Point) -> real,
                          n: string, other: string)
    requires !Contains(n, "Room_") && PlainDoorRooms(nos)
    ensures Resolve(nos, order, D, "Centro_Room_" + n, other) == Some("Centro_Room_" + n)
  {
    var id := "Centro_Room_" + n;
    assert id[..12] == "Centro_Room_" && id[..7] == "Centro_";
    CentreDoorsMissed(nos, order, D, n, other);
  }

  /** Door nodes built from extracted doors carry rooms without `_`. */
  lemma BuiltDoorRoomsPlain(elems: SvgExtract.Elements)
    requires forall i :: 0 <= i < |elems.doors| ==> elems.doors[i].room == SvgExtract.DoorRoom(elems.doors[i].id)
    ensures PlainDoorRooms(Built(map[], elems))
  {
    var nos := Built(map[], elems);
    forall k | k in nos && nos[k].kind == DoorNode && nos[k].sala.Some?
      ensures '_' !in nos[k].sala.value
    {
      NodeTyping(elems, k);
    }
  }

  /** An entry for `id` is in the queue. */
  ghost predicate Queued(heap: seq<Entry>, id: string) {
    exists e :: e in heap && e.id == id
  }

  /** The open set is the scored nodes not yet closed, and each of them is queued. */
  ghost predicate Frontier(heap: seq<Entry>, open: set<string>, g: map<string, real>, closed: set<string>) {
    && open == g.Keys - closed
    && (forall i :: 0 <= i < |heap| ==> heap[i].id in g)
    && (forall v :: v in open ==> Queued(heap, v))
  }

  /**
   * What holds between two pops of the floor search: the search tree of
   * `veio_de`, the destination still open, the open set, the start state
   * before the first expansion, and `expanded` listing each closed node once
   * in closing order.
   */
  ghost predicate SearchCore(pos: map<string, SvgExtract.Point>, adj: map<string, seq<string>>,
                             D: (SvgExtract.Point, SvgExtract.Point) -> real, origin: string, dest: string,
                             heap: seq<Entry>, open: set<string>, g: map<string, real>, cameFrom: map<string, string>,
                             closed: set<string>, rank: map<string, nat>, expanded: seq<string>) {
    && Tree(pos, adj, D, origin, g, cameFrom, closed, rank)
    && dest !in closed
    && Frontier(heap, open, g, closed)
    && (closed == {} ==> heap == [Entry(0.0, 0, origin)])
    && (closed != {} ==> origin in closed)
    && Distinct(expanded) && (forall x :: x in expanded <==> x in closed)
  }

  /** The loop invariant of `calcular_caminho_a_star`: every open neighbour of a closed node has a score. */
  ghost predicate Searching(pos: map<string, SvgExtract.Point>, adj: map<string, seq<string>>,
                            D: (SvgExtract.Point, SvgExtract.Point) -> real, origin: string, dest: string,
                            heap: seq<Entry>, open: set<string>, g: map<string, real>, cameFrom: map<string, string>,
                            closed: set<string>, rank: map<string, nat>, expanded: seq<string>) {
    && SearchCore(pos, adj, D, origin, dest, heap, open, g, cameFrom, closed, rank, expanded)
    && Reached(adj, g, closed)
  }

  /** While the neighbours `nbrs` of `current` are explored: the first `j` of them are scored unless closed. */
  ghost predicate Expanding(pos: map<string, SvgExtract.Point>, adj: map<string, seq<string>>,
                            D: (SvgExtract.Point, SvgExtract.Point) -> real, origin: string, dest: string,
                            heap: seq<Entry>, open: set<string>, g: map<string, real>, cameFrom: map<string, string>,
                            closed: set<string>, rank: map<string, nat>, expanded: seq<string>,
                            current: string, nbrs: seq<string>, j: nat) {
    && SearchCore(pos, adj, D, origin, dest, heap, open, g, cameFrom, closed, rank, expanded)
    && current in closed && current in adj && nbrs == adj[current] && j <= |nbrs|
    && (forall c, v :: c in closed && c != current && Linked(adj, c, v) && v !in closed ==> v in g)
    && (forall t :: 0 <= t < j && nbrs[t] !in closed ==> nbrs[t] in g)
  }

  /** The state before the loop: the origin alone, queued with priority 0 and counter 0. */
  lemma SearchStart(pos: map<string, SvgExtract.Point>, adj: map<string, seq<string>>,
                    D: (SvgExtract.Point, SvgExtract.Point) -> real, origin: string, dest: string)
    requires origin in pos
    ensures Searching(pos, adj, D, origin, dest, [Entry(0.0, 0, origin)], {origin}, map[origin := 0.0], map[], {}, map[], [])
  {
    assert Queued([Entry(0.0, 0, origin)], origin);
  }

  /** Popping the entry of a node already closed (`continue`) keeps the invariant. */
  lemma SearchSkip(pos: map<string, SvgExtract.Point>, adj: map<string, seq<string>>,
                   D: (SvgExtract.Point, SvgExtract.Point) -> real, origin: string, dest: string,
                   heap: seq<Entry>, open: set<string>, g: map<string, real>, cameFrom: map<string, string>,
                   closed: set<string>, rank: map<string, nat>, expanded: seq<string>, k: nat)
    requires Searching(pos, adj, D, origin, dest, heap, open, g, cameFrom, closed, rank, expanded)
    requires k < |heap| && heap[k].id in closed
    ensures Searching(pos, adj, D, origin, dest, RemoveAt(heap, k), open, g, cameFrom, closed, rank, expanded)
  {
    var rest := RemoveAt(heap, k);
    forall v | v in open
      ensures Queued(rest, v)
    {
      var e :| e in heap && e.id == v;
      assert e != heap[k];
    }
  }

  /** Closing the popped node `current`, which is not the destination, starts the exploration of its neighbours. */
  lemma SearchClose(pos: map<string, SvgExtract.Point>, adj: map<string, seq<string>>,
                    D: (SvgExtract.Point, SvgExtract.Point) -> real, origin: string, dest: string,
                    heap: seq<Entry>, open: set<string>, g: map<string, real>, cameFrom: map<string, string>,
                    closed: set<string>, rank: map<string, nat>, expanded: seq<string>, k: nat)
    requires WellFormed(pos, adj)
    requires Searching(pos, adj, D, origin, dest, heap, open, g, cameFrom, closed, rank, expanded)
    requires k < |heap| && heap[k].id !in closed && heap[k].id != dest
    ensures heap[k].id in pos
    ensures var current := heap[k].id;
            Expanding(pos, adj, D, origin, dest, RemoveAt(heap, k), open - {current}, g, cameFrom,
                      closed + {current}, rank[current := |closed|], expanded + [current], current, adj[current], 0)
  {
    var current := heap[k].id;
    TreeClose(pos, adj, D, origin, g, cameFrom, closed, rank, current);
    FrontierClose(heap, open, g, closed, k);
    ListedClose(expanded, closed, current);
  }

  /** Popping the entry of an open node and closing that node keeps the frontier. */
  lemma FrontierClose(heap: seq<Entry>, open: set<string>, g: map<string, real>, closed: set<string>, k: nat)
    requires Frontier(heap, open, g, closed) && k < |heap|
    ensures Frontier(RemoveAt(heap, k), open - {heap[k].id}, g, closed + {heap[k].id})
  {
    var current, rest := heap[k].id, RemoveAt(heap, k);
    forall v | v in open - {current}
      ensures Queued(rest, v)
    {
      var e :| e in heap && e.id == v;
      assert e != heap[k];
    }
  }

  /** Appending the node just closed keeps `expanded` listing each closed node once. */
  lemma ListedClose(expanded: seq<string>, closed: set<string>, current: string)
    requires Distinct(expanded) && (forall x :: x in expanded <==> x in closed) && current !in closed
    ensures Distinct(expanded + [current]) && forall x :: x in expanded + [current] <==> x in closed + {current}
  {
    var expanded' := expanded + [current];
    assert forall i :: 0 <= i < |expanded| ==> expanded'[i] == expanded[i];
  }

  /** The node being expanded is scored and placed, and so is each of its neighbours. */
  lemma ExpandingFacts(pos: map<string, SvgExtract.Point>, adj: map<string, seq<string>>,
                       D: (SvgExtract.Point, SvgExtract.Point) -> real, origin: string, dest: string,
                       heap: seq<Entry>, open: set<string>, g: map<string, real>, cameFrom: map<string, string>,
                       closed: set<string>, rank: map<string, nat>, expanded: seq<string>,
                       current: string, nbrs: seq<string>, j: nat)
    requires WellFormed(pos, adj)
    requires Expanding(pos, adj, D, origin, dest, heap, open, g, cameFrom, closed, rank, expanded, current, nbrs, j)
    requires j < |nbrs| && nbrs[j] !in closed
    ensures current in g && current in pos && nbrs[j] in pos
  {
    assert Linked(adj, current, nbrs[j]);
    TreeExtend(pos, adj, D, origin, g, cameFrom, closed, rank, current, nbrs[j]);
  }

  /**
   * Scoring the open neighbour `nbrs[j]` through `current` (`g2` and
   * `cameFrom2`), and queueing it when it was not open (`heap2`, `open2`),
   * keeps the invariant.
   */
  lemma SearchImprove(pos: map<string, SvgExtract.Point>, adj: map<string, seq<string>>,
                      D: (SvgExtract.Point, SvgExtract.Point) -> real, origin: string, dest: string,
                      heap: seq<Entry>, open: set<string>, g: map<string, real>, cameFrom: map<string, string>,
                      closed: set<string>, rank: map<string, nat>, expanded: seq<string>,
                      current: string, nbrs: seq<string>, j: nat, heap2: seq<Entry>, open2: set<string>,
                      g2: map<string, real>, cameFrom2: map<string, string>, f: real, c: nat)
    requires WellFormed(pos, adj)
    requires Expanding(pos, adj, D, origin, dest, heap, open, g, cameFrom, closed, rank, expanded, current, nbrs, j)
    requires j < |nbrs| && nbrs[j] !in closed && current in g && current in pos && nbrs[j] in pos
    requires nbrs[j] in open ==> heap2 == heap && open2 == open
    requires nbrs[j] !in open ==> heap2 == heap + [Entry(f, c, nbrs[j])] && open2 == open + {nbrs[j]}
    requires g2 == g[nbrs[j] := g[current] + D(pos[current], pos[nbrs[j]])]
    requires cameFrom2 == cameFrom[nbrs[j] := current]
    ensures Expanding(pos, adj, D, origin, dest, heap2, open2, g2, cameFrom2, closed, rank, expanded, current, nbrs, j + 1)
  {
    var v := nbrs[j];
    assert Linked(adj, current, v);
    TreeExtend(pos, adj, D, origin, g, cameFrom, closed, rank, current, v);
    FrontierScore(heap, open, g, closed, v, heap2, open2, g2[v], f, c);
    assert SearchCore(pos, adj, D, origin, dest, heap2, open2, g2, cameFrom2, closed, rank, expanded);
  }

  /** Scoring the open node `v`, and queueing it when it was not open, keeps the frontier. */
  lemma FrontierScore(heap: seq<Entry>, open: set<string>, g: map<string, real>, closed: set<string>, v: string,
                      heap2: seq<Entry>, open2: set<string>, score: real, f: real, c: nat)
    requires Frontier(heap, open, g, closed) && v !in closed
    requires v in open ==> heap2 == heap && open2 == open
    requires v !in open ==> heap2 == heap + [Entry(f, c, v)] && open2 == open + {v}
    ensures Frontier(heap2, open2, g[v := score], closed)
  {
    forall u | u in open2
      ensures Queued(heap2, u)
    {
      if u in open {
        var e :| e in heap && e.id == u;
        assert e in heap2;
      } else {
        assert heap2[|heap|] in heap2;
      }
    }
  }

  /** A closed neighbour, or one whose score does not improve, leaves everything as it is. */
  lemma SearchKeep(pos: map<string, SvgExtract.Point>, adj: map<string, seq<string>>,
                   D: (SvgExtract.Point, SvgExtract.Point) -> real, origin: string, dest: string,
                   heap: seq<Entry>, open: set<string>, g: map<string, real>, cameFrom: map<string, string>,
                   closed: set<string>, rank: map<string, nat>, expanded: seq<string>,
                   current: string, nbrs: seq<string>, j: nat)
    requires Expanding(pos, adj, D, origin, dest, heap, open, g, cameFrom, closed, rank, expanded, current, nbrs, j)
    requires j < |nbrs| && (nbrs[j] in closed || nbrs[j] in g)
    ensures Expanding(pos, adj, D, origin, dest, heap, open, g, cameFrom, closed, rank, expanded, current, nbrs, j + 1)
  {
  }

  /** Once every neighbour of `current` is explored, the loop invariant holds again. */
  lemma SearchFinish(pos: map<string, SvgExtract.Point>, adj: map<string, seq<string>>,
                     D: (SvgExtract.Point, SvgExtract.Point) -> real, origin: string, dest: string,
                     heap: seq<Entry>, open: set<string>, g: map<string, real>, cameFrom: map<string, string>,
                     closed: set<string>, rank: map<string, nat>, expanded: seq<string>,
                     current: string, nbrs: seq<string>)
    requires Expanding(pos, adj, D, origin, dest, heap, open, g, cameFrom, closed, rank, expanded, current, nbrs, |nbrs|)
    ensures Searching(pos, adj, D, origin, dest, heap, open, g, cameFrom, closed, rank, expanded)
  {
    forall c, v | c in closed && Linked(adj, c, v) && v !in closed
      ensures v in g
    {
      if c == current {
        var t :| 0 <= t < |nbrs| && nbrs[t] == v;
      }
    }
  }

  /**
   * An empty queue means an empty open set, so every neighbour of a closed
   * node is closed: the closed nodes hold the origin and fence the
   * destination off.
   */
  lemma SearchExhausted(pos: map<string, SvgExtract.Point>, adj: map<string, seq<string>>,
                        D: (SvgExtract.Point, SvgExtract.Point) -> real, origin: string, dest: string,
                        open: set<string>, g: map<string, real>, cameFrom: map<string, string>,
                        closed: set<string>, rank: map<string, nat>, expanded: seq<string>)
    requires Searching(pos, adj, D, origin, dest, [], open, g, cameFrom, closed, rank, expanded)
    ensures !Reachable(pos, adj, origin, dest)
  {
    assert SearchCore(pos, adj, D, origin, dest, [], open, g, cameFrom, closed, rank, expanded);
    assert Frontier([], open, g, closed);
    assert forall v :: !Queued([], v);
    assert forall v :: v !in open;
    assert forall x :: x in g ==> x in closed || x in open;
    assert g.Keys <= closed;
    assert forall x, y :: x in closed && Linked(adj, x, y) && y in pos ==> y in closed;
    FencedOff(pos, adj, closed, origin, dest);
  }

  /** Every expanded node is a node of the floor, and none is expanded twice. */
  lemma ExpandedPlaced(pos: map<string, SvgExtract.Point>, adj: map<string, seq<string>>,
                       D: (SvgExtract.Point, SvgExtract.Point) -> real, origin: string, dest: string,
                       heap: seq<Entry>, open: set<string>, g: map<string, real>, cameFrom: map<string, string>,
                       closed: set<string>, rank: map<string, nat>, expanded: seq<string>)
    requires Searching(pos, adj, D, origin, dest, heap, open, g, cameFrom, closed, rank, expanded)
    ensures Distinct(expanded) && forall i :: 0 <= i < |expanded| ==> expanded[i] in pos
  {
    assert SearchCore(pos, adj, D, origin, dest, heap, open, g, cameFrom, closed, rank, expanded);
    assert Tree(pos, adj, D, origin, g, cameFrom, closed, rank);
    forall i | 0 <= i < |expanded|
      ensures expanded[i] in pos
    {
      assert expanded[i] in closed;
    }
  }

  /**
   * The search loop of `calcular_caminho_a_star` between two nodes: it
   * returns a path exactly when the destination can be reached, and that
   * path is a simple walk along `conexoes` links. No node is expanded twice.
   */
  method AStar(pos: map<string, SvgExtract.Point>, adj: map<string, seq<string>>, D: (SvgExtract.Point, SvgExtract.Point) -> real,
               origin: string, dest: string) returns (path: Option<seq<string>>, ghost expanded: seq<string>)
    requires WellFormed(pos, adj) && origin in pos && dest in pos
    ensures path.Some? <==> Reachable(pos, adj, origin, dest)
    ensures path.Some? ==> Walk(pos, adj, path.value, origin, dest) && Simple(path.value)
    ensures Distinct(expanded) && forall i :: 0 <= i < |expanded| ==> expanded[i] in pos
  {
    var counter: nat := 0;
    var heap := [Entry(0.0, counter, origin)];
    var open := {origin};
    var closed: set<string> := {};
    var g := map[origin := 0.0];
    var fScore := map[origin := D(pos[origin], pos[dest])];
    var cameFrom: map<string, string> := map[];
    ghost var rank: map<string, nat> := map[];
    expanded := [];
    SearchStart(pos, adj, D, origin, dest);
    while heap != []
      invariant Searching(pos, adj, D, origin, dest, heap, open, g, cameFrom, closed, rank, expanded)
      invariant QueueCounted(heap, counter)
      decreases |pos.Keys - closed|, |heap|
    {
      var k := MinIndex(heap);
      var current := heap[k].id;
      CountedPop(heap, counter, k);
      if current in closed {
        SearchSkip(pos, adj, D, origin, dest, heap, open, g, cameFrom, closed, rank, expanded, k);
        heap := RemoveAt(heap, k);
        continue;
      }
      if current == dest {
        ExpandedPlaced(pos, adj, D, origin, dest, heap, open, g, cameFrom, closed, rank, expanded);
        var p := Reconstruct(pos, adj, D, origin, dest, g, cameFrom, closed, rank);
        return Some(p), expanded;
      }
      SearchClose(pos, adj, D, origin, dest, heap, open, g, cameFrom, closed, rank, expanded, k);
      CloseShrinks(pos.Keys, closed, current);
      heap := RemoveAt(heap, k);
      rank := rank[current := |closed|];
      closed := closed + {current};
      open := open - {current};
      expanded := expanded + [current];
      heap, open, g, fScore, cameFrom, counter :=
        Explore(pos, adj, D, origin, dest, current, heap, open, g, fScore, cameFrom, counter, closed, rank, expanded);
    }
    SearchExhausted(pos, adj, D, origin, dest, open, g, cameFrom, closed, rank, expanded);
    ExpandedPlaced(pos, adj, D, origin, dest, heap, open, g, cameFrom, closed, rank, expanded);
    return None, expanded;
  }

  /**
   * The inner loop of `calcular_caminho_a_star`: every open neighbour of
   * the node just closed is rescored through it when that is cheaper, and
   * pushed only when it is not already in the open set.
   */
  method Explore(pos: map<string, SvgExtract.Point>, adj: map<string, seq<string>>, D: (SvgExtract.Point, SvgExtract.Point) -> real,
                 origin: string, dest: string, current: string, heap: seq<Entry>, open: set<string>, g: map<string, real>,
                 fScore: map<string, real>, cameFrom: map<string, string>, counter: nat, closed: set<string>,
                 ghost rank: map<string, nat>, ghost expanded: seq<string>)
      returns (heap': seq<Entry>, open': set<string>, g': map<string, real>, fScore': map<string, real>,
               cameFrom': map<string, string>, counter': nat)
    requires WellFormed(pos, adj) && dest in pos && current in adj
    requires Expanding(pos, adj, D, origin, dest, heap, open, g, cameFrom, closed, rank, expanded, current, adj[current], 0)
    requires QueueCounted(heap, counter)
    ensures Searching(pos, adj, D, origin, dest, heap', open', g', cameFrom', closed, rank, expanded)
    ensures QueueCounted(heap', counter')
  {
    heap', open', g', fScore', cameFrom', counter' := heap, open, g, fScore, cameFrom, counter;
    var nbrs := adj[current];
    var j := 0;
    while j < |nbrs|
      invariant Expanding(pos, adj, D, origin, dest, heap', open', g', cameFrom', closed, rank, expanded, current, nbrs, j)
      invariant QueueCounted(heap', counter')
    {
      heap', open', g', fScore', cameFrom', counter', j :=
        ExploreStep(pos, adj, D, origin, dest, current, nbrs, j, heap', open', g', fScore', cameFrom', counter', closed, rank, expanded);
    }
    SearchFinish(pos, adj, D, origin, dest, heap', open', g', cameFrom', closed, rank, expanded, current, nbrs);
  }

  /**
   * One neighbour `nbrs[j]` of the inner loop: skipped when closed; otherwise
   * rescored through `current` when it has no score or a worse one, and
   * pushed with the next counter when it is not open.
   */
  method ExploreStep(pos: map<string, SvgExtract.Point>, adj: map<string, seq<string>>,
                     D: (SvgExtract.Point, SvgExtract.Point) -> real, origin: string, dest: string,
                     current: string, nbrs: seq<string>, j: nat, heap: seq<Entry>, open: set<string>, g: map<string, real>,
                     fScore: map<string, real>, cameFrom: map<string, string>, counter: nat, closed: set<string>,
                     ghost rank: map<string, nat>, ghost expanded: seq<string>)
      returns (heap': seq<Entry>, open': set<string>, g': map<string, real>, fScore': map<string, real>,
               cameFrom': map<string, string>, counter': nat, next: nat)
    requires WellFormed(pos, adj) && dest in pos && j < |nbrs|
    requires Expanding(pos, adj, D, origin, dest, heap, open, g, cameFrom, closed, rank, expanded, current, nbrs, j)
    requires QueueCounted(heap, counter)
    ensures next == j + 1
    ensures Expanding(pos, adj, D, origin, dest, heap', open', g', cameFrom', closed, rank, expanded, current, nbrs, next)
    ensures QueueCounted(heap', counter')
  {
    next := j + 1;
    heap', open', g', fScore', cameFrom', counter' := heap, open, g, fScore, cameFrom, counter;
    var v := nbrs[j];
    if v in closed {
      SearchKeep(pos, adj, D, origin, dest, heap, open, g, cameFrom, closed, rank, expanded, current, nbrs, j);
      return;
    }
    ExpandingFacts(pos, adj, D, origin, dest, heap, open, g, cameFrom, closed, rank, expanded, current, nbrs, j);
    var tentative := g[current] + D(pos[current], pos[v]);
    if v in g && tentative >= g[v] {
      SearchKeep(pos, adj, D, origin, dest, heap, open, g, cameFrom, closed, rank, expanded, current, nbrs, j);
      return;
    }
    var f := tentative + D(pos[v], pos[dest]);
    if v !in open {
      CountedPush(heap, counter, Entry(f, counter + 1, v));
      heap', open', counter' := heap + [Entry(f, counter + 1, v)], open + {v}, counter + 1;
    }
    cameFrom' := cameFrom[v := current];
    g' := g[v := tentative];
    fScore' := fScore[v := f];
    SearchImprove(pos, adj, D, origin, dest, heap, open, g, cameFrom, closed, rank, expanded, current, nbrs, j,
                  heap', open', g', cameFrom', f, counter + 1);
  }

  /**
   * `calcular_caminho_a_star` on a floor graph: the endpoints are resolved as
   * `Endpoints` says, then searched between. A path comes back exactly when
   * both endpoints resolve and the destination can be reached, and it is a
   * simple walk from the resolved origin to the resolved destination.
   */
  method FindPath(nos: map<string, Node>, order: seq<string>, adj: map<string, seq<string>>,
                  D: (SvgExtract.Point, SvgExtract.Point) -> real, origem: string, destino: string)
      returns (path: Option<seq<string>>)
    requires WellFormed(Points(nos), adj)
    ensures var ends := Endpoints(nos, order, D, origem, destino);
            && (path.Some? <==> ends.Some? && Reachable(Points(nos), adj, ends.value.0, ends.value.1))
            && (path.Some? ==> Walk(Points(nos), adj, path.value, ends.value.0, ends.value.1) && Simple(path.value))
  {
    if origem !in nos || destino !in nos {
      return None;
    }
    var d := Resolve(nos, order, D, destino, origem);
    if d.None? {
      return None;
    }
    var o := Resolve(nos, order, D, origem, d.value);
    if o.None? {
      return None;
    }
    ghost var expanded;
    path, expanded := AStar(Points(nos), adj, D, o.value, d.value);
  }

  /** The loop of `calcular_rota_completa` that adds up the distance between consecutive nodes of the path. */
  method PathDistance(pos: map<string, SvgExtract.Point>, D: (SvgExtract.Point, SvgExtract.Point) -> real, path: seq<string>)
      returns (total: real)
    requires forall i :: 0 <= i < |path| ==> path[i] in pos
    ensures total == Cost(pos, D, path)
  {
    total := 0.0;
    if path == [] {
      return;
    }
    var i := 0;
    while i < |path| - 1
      invariant 0 <= i <= |path| - 1
      invariant total == Cost(pos, D, path[..i + 1])
    {
      CostSnoc(pos, D, path[..i + 1], path[i + 1]);
      assert path[..i + 2] == path[..i + 1] + [path[i + 1]];
      total := total + D(pos[path[i]], pos[path[i + 1]]);
      i := i + 1;
    }
    assert path[..i + 1] == path;
  }

  /** One entry of `nos_detalhados`. */
  datatype Detail = Detail(id: string, kind: NodeType, at: SvgExtract.Point)

  /** The route `calcular_rota_completa` returns. */
  datatype FloorRoute = FloorRoute(origem: string, destino: string, andar: string, caminho: seq<string>,
                                   numPassos: nat, distancia: real, detalhes: seq<Detail>)

  /** The type and position of every node of the path, in path order. */
  function Details(nos: map<string, Node>, path: seq<string>): (ds: seq<Detail>)
    requires forall i :: 0 <= i < |path| ==> path[i] in nos
    ensures |ds| == |path|
    ensures forall i :: 0 <= i < |path| ==> ds[i].id == path[i] && ds[i].kind == nos[path[i]].kind && ds[i].at == nos[path[i]].at
  {
    seq(|path|, i requires 0 <= i < |path| => Detail(path[i], nos[path[i]].kind, nos[path[i]].at))
  }

  /**
   * `calcular_rota_completa` on a loaded floor graph: the path of
   * `calcular_caminho_a_star`, its number of nodes, the sum of the distances
   * along it and the details of its nodes.
   */
  method CompleteRoute(nos: map<string, Node>, order: seq<string>, adj: map<string, seq<string>>,
                       D: (SvgExtract.Point, SvgExtract.Point) -> real, origem: string, destino: string, andar: string)
      returns (r: Option<FloorRoute>)
    requires WellFormed(Points(nos), adj)
    ensures var ends := Endpoints(nos, order, D, origem, destino);
            && (r.Some? <==> ends.Some? && Reachable(Points(nos), adj, ends.value.0, ends.value.1))
            && (r.Some? ==> var route := r.value;
                  && Walk(Points(nos), adj, route.caminho, ends.value.0, ends.value.1) && Simple(route.caminho)
                  && route.origem == origem && route.destino == destino && route.andar == andar
                  && route.numPassos == |route.caminho|
                  && route.distancia == Cost(Points(nos), D, route.caminho)
                  && route.detalhes == Details(nos, route.caminho))
  {
    var path := FindPath(nos, order, adj, D, origem, destino);
    if path.None? {
      return None;
    }
    var caminho := path.value;
    var total := PathDistance(Points(nos), D, caminho);
    r := Some(FloorRoute(origem, destino, andar, caminho, |caminho|, total, Details(nos, caminho)));
  }
}
