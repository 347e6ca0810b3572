/**
 * The navigation graph of one floor (`GrafoNavegacao`): corridor nodes,
 * doors, exits and room centres taken from the classified SVG elements,
 * joined by type-pair rules when close enough, plus manual connections and
 * the statistics `validar_grafo` reports.
 */
module FloorGraph {
  import opened Wrappers
  import opened PairScan
  import opened Dict
  import opened EdgeList
  import opened Search
  import SvgExtract

  /** The `tipo` of a node: `corredor`, `porta`, `saida` or `sala_centro`. */
  datatype NodeType = Corridor | DoorNode | ExitNode | RoomCentre

  /** One entry of `nos` without its `conexoes` list: position, type and, for doors and room centres, the room (`sala`). */
  datatype Node = Node(at: SvgExtract.Point, kind: NodeType, sala: Option<string>)

  /** A corridor node always becomes a `corredor` node at its own coordinates. */
  function CorridorEntry(c: SvgExtract.CorridorNode): (e: Option<(string, Node)>)
    ensures e.Some? && e.value.0 == c.id
    ensures e.value.1.kind == Corridor && e.value.1.at == SvgExtract.Point(c.x, c.y) && e.value.1.sala.None?
  {
    Some((c.id, Node(SvgExtract.Point(c.x, c.y), Corridor, None)))
  }

  /** A door with a centre becomes a `porta` node whose room is the door's `sala_relacionada`. */
  function DoorEntry(d: SvgExtract.Door): (e: Option<(string, Node)>)
    ensures e.Some? <==> d.centre.Some?
    ensures e.Some? ==> e.value.0 == d.id && e.value.1.kind == DoorNode && e.value.1.at == d.centre.value && e.value.1.sala == d.room
  {
    if d.centre.Some? then Some((d.id, Node(d.centre.value, DoorNode, d.room))) else None
  }

  /** An exit with a centre becomes a `saida` node. */
  function ExitEntry(x: SvgExtract.ExitPoint): (e: Option<(string, Node)>)
    ensures e.Some? <==> x.centre.Some?
    ensures e.Some? ==> e.value.0 == x.id && e.value.1.kind == ExitNode && e.value.1.at == x.centre.value && e.value.1.sala.None?
  {
    if x.centre.Some? then Some((x.id, Node(x.centre.value, ExitNode, None))) else None
  }

  /** A room with a centre becomes a `sala_centro` node keyed `Centro_<id>` whose room is the room number. */
  function RoomEntry(r: SvgExtract.Room): (e: Option<(string, Node)>)
    ensures e.Some? <==> r.centre.Some?
    ensures e.Some? ==> e.value.0 == "Centro_" + r.id && e.value.1.kind == RoomCentre && e.value.1.at == r.centre.value
                        && e.value.1.sala == Some(r.number)
  {
    if r.centre.Some? then Some(("Centro_" + r.id, Node(r.centre.value, RoomCentre, Some(r.number)))) else None
  }

  /** The `(id, node)` assignments one of the four loops of `adicionar_elementos_svg` makes, in order. */
  function Entries<X>(xs: seq<X>, f: X -> Option<(string, Node)>): (es: seq<(string, Node)>)
    ensures |es| <= |xs|
  {
    if xs == [] then []
    else
      var x := xs[|xs| - 1];
      Entries(xs[..|xs| - 1], f) + (if f(x).Some? then [f(x).value] else [])
  }

  /** An assignment is made exactly when some element yields it. */
  lemma {:induction false} EntriesMembership<X>(xs: seq<X>, f: X -> Option<(string, Node)>, e: (string, Node))
    ensures e in Entries(xs, f) <==> exists i :: 0 <= i < |xs| && f(xs[i]) == Some(e)
  {
    if xs != [] {
      var init := xs[..|xs| - 1];
      EntriesMembership(init, f, e);
      assert forall i :: 0 <= i < |init| ==> init[i] == xs[i];
      if exists i :: 0 <= i < |xs| && f(xs[i]) == Some(e) {
        var i :| 0 <= i < |xs| && f(xs[i]) == Some(e);
        if i < |init| {
          assert f(init[i]) == Some(e);
        }
      }
    }
  }

  lemma EntriesSnoc<X>(xs: seq<X>, x: X, f: X -> Option<(string, Node)>)
    ensures Entries(xs + [x], f) == Entries(xs, f) + (if f(x).Some? then [f(x).value] else [])
  {
    assert (xs + [x])[..|xs|] == xs;
  }

  /**
   * `nos` after `adicionar_elementos_svg` on `elems` over the nodes `m`:
   * corridor nodes, then doors, exits and room centres.
   */
  function Built(m: map<string, Node>, elems: SvgExtract.Elements): map<string, Node> {
    Put(Put(Put(Put(m, Entries(elems.corridorNodes, CorridorEntry)),
                    Entries(elems.doors, DoorEntry)),
                Entries(elems.exits, ExitEntry)),
            Entries(elems.rooms, RoomEntry))
  }

  /** The key order of `nos` after the four loops of `adicionar_elementos_svg`. */
  function BuiltOrder(order: seq<string>, elems: SvgExtract.Elements): seq<string> {
    KeyOrder(KeyOrder(KeyOrder(KeyOrder(order, Entries(elems.corridorNodes, CorridorEntry)),
                               Entries(elems.doors, DoorEntry)),
                      Entries(elems.exits, ExitEntry)),
             Entries(elems.rooms, RoomEntry))
  }

  /** The `conexoes` lists after the four loops: every added node's list emptied. */
  function BuiltCleared(adj: map<string, seq<string>>, elems: SvgExtract.Elements): map<string, seq<string>> {
    Cleared(Cleared(Cleared(Cleared(adj, Entries(elems.corridorNodes, CorridorEntry)),
                            Entries(elems.doors, DoorEntry)),
                    Entries(elems.exits, ExitEntry)),
            Entries(elems.rooms, RoomEntry))
  }

  /** Emptying lists keeps every list empty when there are no edges. */
  lemma {:induction false} ClearedMirrored(adj: map<string, seq<string>>, es: seq<(string, Node)>)
    requires Mirrored(adj, [])
    ensures Mirrored(Cleared(adj, es), [])
  {
    if es != [] {
      ClearedMirrored(adj, es[..|es| - 1]);
    }
  }

  /**
   * What each node of a floor built from no nodes is: a corridor node at its
   * own coordinates, a door that has a centre (carrying its room), an exit
   * that has a centre, or the centre `Centro_<id>` of a room that has one
   * (carrying the room number).
   */
  lemma NodeTyping(elems: SvgExtract.Elements, k: string)
    requires k in Built(map[], elems)
    ensures var n := Built(map[], elems)[k];
      || (exists i :: 0 <= i < |elems.corridorNodes| && elems.corridorNodes[i].id == k
                      && n == Node(SvgExtract.Point(elems.corridorNodes[i].x, elems.corridorNodes[i].y), Corridor, None))
      || (exists i :: 0 <= i < |elems.doors| && elems.doors[i].id == k && elems.doors[i].centre.Some?
                      && n == Node(elems.doors[i].centre.value, DoorNode, elems.doors[i].room))
      || (exists i :: 0 <= i < |elems.exits| && elems.exits[i].id == k && elems.exits[i].centre.Some?
                      && n == Node(elems.exits[i].centre.value, ExitNode, None))
      || (exists i :: 0 <= i < |elems.rooms| && k == "Centro_" + elems.rooms[i].id && elems.rooms[i].centre.Some?
                      && n == Node(elems.rooms[i].centre.value, RoomCentre, Some(elems.rooms[i].number)))
  {
    var c, d, x, r := Entries(elems.corridorNodes, CorridorEntry), Entries(elems.doors, DoorEntry),
                      Entries(elems.exits, ExitEntry), Entries(elems.rooms, RoomEntry);
    var m1 := Put(map[], c);
    var m2 := Put(m1, d);
    var m3 := Put(m2, x);
    var n := Put(m3, r)[k];
    PutOrigin(m3, r, k);
    if exists i :: 0 <= i < |r| && r[i] == (k, n) {
      var i :| 0 <= i < |r| && r[i] == (k, n);
      EntriesMembership(elems.rooms, RoomEntry, r[i]);
    } else {
      PutOrigin(m2, x, k);
      if exists i :: 0 <= i < |x| && x[i] == (k, n) {
        var i :| 0 <= i < |x| && x[i] == (k, n);
        EntriesMembership(elems.exits, ExitEntry, x[i]);
      } else {
        PutOrigin(m1, d, k);
        if exists i :: 0 <= i < |d| && d[i] == (k, n) {
          var i :| 0 <= i < |d| && d[i] == (k, n);
          EntriesMembership(elems.doors, DoorEntry, d[i]);
        } else {
          PutOrigin(map[], c, k);
          var i :| 0 <= i < |c| && c[i] == (k, n);
          EntriesMembership(elems.corridorNodes, CorridorEntry, c[i]);
        }
      }
    }
  }

  /** `n1` and `n2` are of types `a` and `b`, in either order. */
  predicate Joined(n1: Node, n2: Node, a: NodeType, b: NodeType) {
    (n1.kind == a && n2.kind == b) || (n1.kind == b && n2.kind == a)
  }

  /**
   * `deve_conectar` of `conectar_nos_proximos`, case by case in the order the
   * source tests them: corridor-corridor, corridor-door (within 0.8 of the
   * threshold), corridor-exit, and, when `linkRooms` is set, a door and a
   * room centre with the same room whatever their distance.
   */
  predicate ShouldConnect(n1: Node, n2: Node, dist: real, max: real, linkRooms: bool)
    ensures ShouldConnect(n1, n2, dist, max, linkRooms) ==>
              n1.kind == Corridor || n2.kind == Corridor || (linkRooms && Joined(n1, n2, DoorNode, RoomCentre))
  {
    if n1.kind == Corridor && n2.kind == Corridor then dist <= max
    else if (n1.kind == Corridor && n2.kind == DoorNode) || (n1.kind == DoorNode && n2.kind == Corridor) then dist <= max * 0.8
    else if (n1.kind == Corridor && n2.kind == ExitNode) || (n1.kind == ExitNode && n2.kind == Corridor) then dist <= max
    else if linkRooms then
      if n1.kind == DoorNode && n2.kind == RoomCentre then n1.sala == n2.sala
      else if n2.kind == DoorNode && n1.kind == RoomCentre then n2.sala == n1.sala
      else false
    else false
  }

  /**
   * The four connection rules, stated independently of the order in which
   * the source tests them: no other pair of types is ever connected.
   */
  lemma ConnectRules(n1: Node, n2: Node, dist: real, max: real, linkRooms: bool)
    ensures ShouldConnect(n1, n2, dist, max, linkRooms) <==>
            || (Joined(n1, n2, Corridor, Corridor) && dist <= max)
            || (Joined(n1, n2, Corridor, DoorNode) && dist <= max * 0.8)
            || (Joined(n1, n2, Corridor, ExitNode) && dist <= max)
            || (linkRooms && Joined(n1, n2, DoorNode, RoomCentre) && n1.sala == n2.sala)
  {
  }

  /** The rules do not depend on which node of a pair comes first. */
  lemma ConnectSymmetric(n1: Node, n2: Node, dist: real, max: real, linkRooms: bool)
    ensures ShouldConnect(n1, n2, dist, max, linkRooms) == ShouldConnect(n2, n1, dist, max, linkRooms)
  {
  }

  /** The pair `(a, b)` names two nodes that the rules connect at distance `D` between them. */
  predicate Connects(nos: map<string, Node>, D: (SvgExtract.Point, SvgExtract.Point) -> real, max: real, linkRooms: bool,
                     a: string, b: string) {
    a in nos && b in nos && ShouldConnect(nos[a], nos[b], D(nos[a].at, nos[b].at), max, linkRooms)
  }

  /** The edges `conectar_nos_proximos` records while visiting the pairs `ps`, in visiting order. */
  function RuleLinks(ps: seq<(string, string)>, nos: map<string, Node>, D: (SvgExtract.Point, SvgExtract.Point) -> real,
                     max: real, linkRooms: bool): (es: seq<Edge>)
    ensures |es| <= |ps|
  {
    if ps == [] then []
    else
      var p := ps[|ps| - 1];
      RuleLinks(ps[..|ps| - 1], nos, D, max, linkRooms)
        + (if Connects(nos, D, max, linkRooms, p.0, p.1) then [Edge(p.0, p.1, D(nos[p.0].at, nos[p.1].at))] else [])
  }

  lemma RuleLinksSnoc(ps: seq<(string, string)>, p: (string, string), nos: map<string, Node>,
                      D: (SvgExtract.Point, SvgExtract.Point) -> real, max: real, linkRooms: bool)
    ensures RuleLinks(ps + [p], nos, D, max, linkRooms)
            == RuleLinks(ps, nos, D, max, linkRooms)
               + (if Connects(nos, D, max, linkRooms, p.0, p.1) then [Edge(p.0, p.1, D(nos[p.0].at, nos[p.1].at))] else [])
  {
    assert (ps + [p])[..|ps|] == ps;
  }

  /** Visiting one more pair, seen from the edge list and the neighbour lists it is appended to. */
  lemma RuleLinksStep(seen: seq<(string, string)>, a: string, b: string, nos: map<string, Node>,
                      D: (SvgExtract.Point, SvgExtract.Point) -> real, max: real, linkRooms: bool,
                      es0: seq<Edge>, adj0: map<string, seq<string>>)
    requires a in nos && b in nos
    ensures var links, e := RuleLinks(seen, nos, D, max, linkRooms), Edge(a, b, D(nos[a].at, nos[b].at));
            Connects(nos, D, max, linkRooms, a, b) ==>
              && RuleLinks(seen + [(a, b)], nos, D, max, linkRooms) == links + [e]
              && es0 + (links + [e]) == es0 + links + [e]
              && Attach(adj0, links + [e]) == Attach(Attach(adj0, links), [e])
    ensures !Connects(nos, D, max, linkRooms, a, b) ==>
              RuleLinks(seen + [(a, b)], nos, D, max, linkRooms) == RuleLinks(seen, nos, D, max, linkRooms)
  {
    RuleLinksSnoc(seen, (a, b), nos, D, max, linkRooms);
    AttachAppend(adj0, RuleLinks(seen, nos, D, max, linkRooms), [Edge(a, b, D(nos[a].at, nos[b].at))]);
  }

  /** The recorded edges are exactly the visited pairs the rules connect, each weighted by its distance. */
  lemma {:induction false} RuleLinksMembership(ps: seq<(string, string)>, nos: map<string, Node>,
                                               D: (SvgExtract.Point, SvgExtract.Point) -> real, max: real, linkRooms: bool, e: Edge)
    ensures e in RuleLinks(ps, nos, D, max, linkRooms) <==>
            exists m :: 0 <= m < |ps| && Connects(nos, D, max, linkRooms, ps[m].0, ps[m].1)
                        && e == Edge(ps[m].0, ps[m].1, D(nos[ps[m].0].at, nos[ps[m].1].at))
  {
    if ps != [] {
      var init := ps[..|ps| - 1];
      RuleLinksMembership(init, nos, D, max, linkRooms, e);
      assert forall m :: 0 <= m < |init| ==> init[m] == ps[m];
      if exists m :: 0 <= m < |ps| && Connects(nos, D, max, linkRooms, ps[m].0, ps[m].1)
                     && e == Edge(ps[m].0, ps[m].1, D(nos[ps[m].0].at, nos[ps[m].1].at)) {
        var m :| 0 <= m < |ps| && Connects(nos, D, max, linkRooms, ps[m].0, ps[m].1)
                 && e == Edge(ps[m].0, ps[m].1, D(nos[ps[m].0].at, nos[ps[m].1].at));
        if m < |init| {
          assert Connects(nos, D, max, linkRooms, init[m].0, init[m].1)
                 && e == Edge(init[m].0, init[m].1, D(nos[init[m].0].at, nos[init[m].1].at));
        }
      }
    }
  }

  /** When the visited pairs are all different, no edge is a loop and no pair of nodes is joined twice. */
  lemma {:induction false} RuleLinksOnce(ps: seq<(string, string)>, nos: map<string, Node>,
                                         D: (SvgExtract.Point, SvgExtract.Point) -> real, max: real, linkRooms: bool)
    requires OncePerPair(ps)
    ensures OncePerPair(Ends(RuleLinks(ps, nos, D, max, linkRooms)))
  {
    if ps != [] {
      var init, p := ps[..|ps| - 1], ps[|ps| - 1];
      assert forall m :: 0 <= m < |init| ==> init[m] == ps[m];
      RuleLinksOnce(init, nos, D, max, linkRooms);
      var before := Ends(RuleLinks(init, nos, D, max, linkRooms));
      var after := Ends(RuleLinks(ps, nos, D, max, linkRooms));
      if Connects(nos, D, max, linkRooms, p.0, p.1) {
        assert after == before + [p];
        forall m | 0 <= m < |before|
          ensures before[m] != p && before[m] != (p.1, p.0)
        {
          var e := RuleLinks(init, nos, D, max, linkRooms)[m];
          RuleLinksMembership(init, nos, D, max, linkRooms, e);
          var n :| 0 <= n < |init| && Connects(nos, D, max, linkRooms, init[n].0, init[n].1)
                   && e == Edge(init[n].0, init[n].1, D(nos[init[n].0].at, nos[init[n].1].at));
          assert before[m] == ps[n];
        }
      } else {
        assert after == before;
      }
    }
  }

  /**
   * After one pass over the ids, `v` is in the `conexoes` of `u` exactly
   * when some pair of positions `a < b` holds the two and the rules connect
   * `ids[a]` to `ids[b]`.
   */
  lemma RuleNeighbours(ids: seq<string>, nos: map<string, Node>, D: (SvgExtract.Point, SvgExtract.Point) -> real,
                       max: real, linkRooms: bool, u: string, v: string)
    ensures v in Partners(RuleLinks(Pairs(ids), nos, D, max, linkRooms), u) <==>
            exists a, b :: 0 <= a < b < |ids| && Connects(nos, D, max, linkRooms, ids[a], ids[b])
                           && ((ids[a] == u && ids[b] == v) || (ids[a] == v && ids[b] == u))
  {
    var ps := Pairs(ids);
    var es := RuleLinks(ps, nos, D, max, linkRooms);
    PartnersJoin(es, u, v);
    if v in Partners(es, u) {
      var i :| 0 <= i < |es| && Joins(es[i], u, v);
      RuleLinksMembership(ps, nos, D, max, linkRooms, es[i]);
      var m :| 0 <= m < |ps| && Connects(nos, D, max, linkRooms, ps[m].0, ps[m].1)
               && es[i] == Edge(ps[m].0, ps[m].1, D(nos[ps[m].0].at, nos[ps[m].1].at));
      PairsMembership(ids, ps[m]);
      var a, b :| PairAt(ids, ps[m], a, b);
      assert Connects(nos, D, max, linkRooms, ids[a], ids[b]);
    }
    if exists a, b :: 0 <= a < b < |ids| && Connects(nos, D, max, linkRooms, ids[a], ids[b])
                      && ((ids[a] == u && ids[b] == v) || (ids[a] == v && ids[b] == u)) {
      var a, b :| 0 <= a < b < |ids| && Connects(nos, D, max, linkRooms, ids[a], ids[b])
                  && ((ids[a] == u && ids[b] == v) || (ids[a] == v && ids[b] == u));
      var p := (ids[a], ids[b]);
      PairsMembership(ids, p);
      assert PairAt(ids, p, a, b);
      var e := Edge(p.0, p.1, D(nos[p.0].at, nos[p.1].at));
      RuleLinksMembership(ps, nos, D, max, linkRooms, e);
      var i :| 0 <= i < |es| && es[i] == e;
      assert Joins(es[i], u, v);
    }
  }

  /** `nos_isolados`: the nodes with an empty `conexoes` list, in dict order. */
  function Isolated(ids: seq<string>, adj: map<string, seq<string>>): (r: seq<string>)
    ensures forall x :: x in r <==> x in ids && x in adj && adj[x] == []
  {
    if ids == [] then []
    else
      var x := ids[|ids| - 1];
      Isolated(ids[..|ids| - 1], adj) + (if x in adj && adj[x] == [] then [x] else [])
  }

  /** How many of `ids` are nodes of type `t`. */
  function Count(ids: seq<string>, nos: map<string, Node>, t: NodeType): nat {
    if ids == [] then 0
    else Count(ids[..|ids| - 1], nos, t) + (var x := ids[|ids| - 1]; if x in nos && nos[x].kind == t then 1 else 0)
  }

  /** Every node has exactly one type, so the counts per type add up to the number of nodes. */
  lemma {:induction false} CountsAddUp(ids: seq<string>, nos: map<string, Node>)
    requires forall i :: 0 <= i < |ids| ==> ids[i] in nos
    ensures Count(ids, nos, Corridor) + Count(ids, nos, DoorNode) + Count(ids, nos, ExitNode) + Count(ids, nos, RoomCentre) == |ids|
  {
    if ids != [] {
      CountsAddUp(ids[..|ids| - 1], nos);
    }
  }

  /** The sum of the lengths of the `conexoes` lists of `ids`. */
  function TotalDegree(ids: seq<string>, adj: map<string, seq<string>>): nat {
    if ids == [] then 0 else (if ids[0] in adj then |adj[ids[0]]| else 0) + TotalDegree(ids[1..], adj)
  }

  /** Lists that mirror the edges add up to the degree sum of the edges. */
  lemma {:induction false} TotalDegreeMirrored(ids: seq<string>, adj: map<string, seq<string>>, es: seq<Edge>)
    requires Mirrored(adj, es) && forall i :: 0 <= i < |ids| ==> ids[i] in adj
    ensures TotalDegree(ids, adj) == DegreeSum(ids, es)
  {
    if ids != [] {
      TotalDegreeMirrored(ids[1..], adj, es);
    }
  }

  /**
   * When every `conexoes` list mirrors the recorded edges, the lists
   * together are twice as long as `arestas`: the mean that `validar_grafo`
   * reports is `2 * len(arestas) / len(nos)`.
   */
  lemma DegreesTwiceEdges(ids: seq<string>, adj: map<string, seq<string>>, es: seq<Edge>)
    requires Distinct(ids) && Mirrored(adj, es)
    requires forall i :: 0 <= i < |ids| ==> ids[i] in adj
    requires forall i :: 0 <= i < |es| ==> es[i].a in ids && es[i].b in ids
    ensures TotalDegree(ids, adj) == 2 * |es|
  {
    TotalDegreeMirrored(ids, adj, es);
    Handshake(ids, es);
  }

  /** Distinct ids are as many as the set they form. */
  lemma {:induction false} DistinctCard(ids: seq<string>)
    requires Distinct(ids)
    ensures |set x | x in ids| == |ids|
  {
    if ids != [] {
      var init := ids[..|ids| - 1];
      DistinctCard(init);
      assert (set x | x in ids) == (set x | x in init) + {ids[|ids| - 1]};
      assert ids[|ids| - 1] !in init;
    }
  }

  /** The statistics `validar_grafo` returns. */
  datatype Validation = Validation(total: nat, edges: nat, isolated: nat, isolatedList: seq<string>,
                                   perType: map<NodeType, nat>, meanDegree: real)

  /** The default arguments of `conectar_nos_proximos`, for a caller of `ConnectNearby`. */
  const DefaultMaxDistance: real := 150.0
  const DefaultLinkRooms: bool := true

  /**
   * `GrafoNavegacao`: the nodes by id (with their dict order), the
   * `conexoes` list of every node (kept beside the node), and the recorded
   * edges. The Euclidean distance between two positions is `D`.
   */
  class NavigationGraph {
    const andar: string
    const D: (SvgExtract.Point, SvgExtract.Point) -> real
    var nos: map<string, Node>
    var order: seq<string>
    var conexoes: map<string, seq<string>>
    var arestas: seq<Edge>

    /** Every node has a `conexoes` list, and edges and lists stay among the nodes. */
    ghost predicate Valid()
      reads this
    {
      && Distinct(order)
      && (forall k :: k in nos <==> k in order)
      && conexoes.Keys == nos.Keys
      && (forall i :: 0 <= i < |arestas| ==> arestas[i].a in nos && arestas[i].b in nos)
      && (forall a, b :: Linked(conexoes, a, b) ==> b in nos)
    }

    /** `GrafoNavegacao(andar)`: no nodes and no edges. */
    constructor(floor: string, distance: (SvgExtract.Point, SvgExtract.Point) -> real)
      ensures Valid() && andar == floor && D == distance
      ensures nos == map[] && order == [] && conexoes == map[] && arestas == []
    {
      andar, D := floor, distance;
      nos, order, conexoes, arestas := map[], [], map[], [];
    }

    /** `nos[id] = {...}` with an empty `conexoes` list: a new id goes last in dict order, a known one keeps its place. */
    method AddNode(id: string, n: Node)
      requires Valid()
      modifies this
      ensures Valid()
      ensures nos == old(nos)[id := n] && conexoes == old(conexoes)[id := []]
      ensures order == if id in old(order) then old(order) else old(order) + [id]
      ensures arestas == old(arestas)
    {
      nos := nos[id := n];
      if id !in order {
        order := order + [id];
      }
      conexoes := conexoes[id := []];
      forall x, y | Linked(conexoes, x, y)
        ensures y in nos
      {
        assert x != id && Linked(old(conexoes), x, y);
      }
    }

    /** One of the four loops of `adicionar_elementos_svg`: every element that `f` turns into a node is added. */
    method AddEach<X>(xs: seq<X>, f: X -> Option<(string, Node)>)
      requires Valid()
      modifies this
      ensures Valid()
      ensures nos == Put(old(nos), Entries(xs, f))
      ensures order == KeyOrder(old(order), Entries(xs, f))
      ensures conexoes == Cleared(old(conexoes), Entries(xs, f))
      ensures arestas == old(arestas)
    {
      ghost var m0, o0, c0 := nos, order, conexoes;
      var i := 0;
      while i < |xs|
        invariant 0 <= i <= |xs|
        invariant Valid()
        invariant nos == Put(m0, Entries(xs[..i], f))
        invariant order == KeyOrder(o0, Entries(xs[..i], f))
        invariant conexoes == Cleared(c0, Entries(xs[..i], f))
        invariant arestas == old(arestas)
      {
        assert xs[..i + 1] == xs[..i] + [xs[i]];
        EntriesSnoc(xs[..i], xs[i], f);
        AddOne(xs[i], f, Entries(xs[..i], f), m0, o0, c0);
        i := i + 1;
      }
      assert xs[..i] == xs;
    }

    /** One iteration of `AddEach`: the node `f` makes of `x`, if any, is added. */
    method AddOne<X>(x: X, f: X -> Option<(string, Node)>, ghost done: seq<(string, Node)>,
                     ghost m0: map<string, Node>, ghost o0: seq<string>, ghost c0: map<string, seq<string>>)
      requires Valid()
      requires nos == Put(m0, done) && order == KeyOrder(o0, done) && conexoes == Cleared(c0, done)
      modifies this
      ensures Valid()
      ensures var now := done + (if f(x).Some? then [f(x).value] else []);
              nos == Put(m0, now) && order == KeyOrder(o0, now) && conexoes == Cleared(c0, now)
      ensures arestas == old(arestas)
    {
      if f(x).Some? {
        var (id, n) := f(x).value;
        PutSnoc(m0, o0, c0, done, (id, n));
        AddNode(id, n);
      } else {
        assert done + [] == done;
      }
    }

    /**
     * `adicionar_elementos_svg`: corridor nodes, then doors, exits and room
     * centres, each added as `CorridorEntry`, `DoorEntry`, `ExitEntry` and
     * `RoomEntry` say.
     */
    method AddElements(elems: SvgExtract.Elements)
      requires Valid()
      modifies this
      ensures Valid()
      ensures nos == Built(old(nos), elems)
      ensures order == BuiltOrder(old(order), elems)
      ensures conexoes == BuiltCleared(old(conexoes), elems)
      ensures arestas == old(arestas)
      ensures old(arestas) == [] && Mirrored(old(conexoes), old(arestas)) ==> Mirrored(conexoes, arestas)
    {
      ghost var c0 := conexoes;
      AddEach(elems.corridorNodes, CorridorEntry);
      AddEach(elems.doors, DoorEntry);
      AddEach(elems.exits, ExitEntry);
      AddEach(elems.rooms, RoomEntry);
      if arestas == [] && Mirrored(c0, []) {
        ghost var c1 := Cleared(c0, Entries(elems.corridorNodes, CorridorEntry));
        ghost var c2 := Cleared(c1, Entries(elems.doors, DoorEntry));
        ghost var c3 := Cleared(c2, Entries(elems.exits, ExitEntry));
        ClearedMirrored(c0, Entries(elems.corridorNodes, CorridorEntry));
        ClearedMirrored(c1, Entries(elems.doors, DoorEntry));
        ClearedMirrored(c2, Entries(elems.exits, ExitEntry));
        ClearedMirrored(c3, Entries(elems.rooms, RoomEntry));
      }
    }

    /**
     * `conectar_nos_proximos`: every pair of nodes, in dict order, is joined
     * when the rules connect it; returns how many connections were created.
     */
    method ConnectNearby(max: real, linkRooms: bool) returns (created: nat)
      requires Valid()
      modifies this
      ensures Valid()
      ensures nos == old(nos) && order == old(order)
      ensures var links := RuleLinks(Pairs(order), nos, D, max, linkRooms);
              && arestas == old(arestas) + links
              && conexoes == Attach(old(conexoes), links)
              && created == |links|
    ensures Mirrored(old(conexoes), old(arestas)) ==> Mirrored(conexoes, arestas)
    {
      var ids := order;
      ghost var nodes, es0, adj0 := nos, arestas, conexoes;
      ghost var done: seq<(string, string)> := [];
      created := 0;
      var i := 0;
      AttachNone(adj0);
      while i < |ids|
        invariant 0 <= i <= |ids| && done == PairsBefore(ids, i)
        invariant Valid() && nos == old(nos) && nodes == nos && order == old(order) && ids == order
        invariant arestas == es0 + RuleLinks(done, nodes, D, max, linkRooms)
        invariant conexoes == Attach(adj0, RuleLinks(done, nodes, D, max, linkRooms))
        invariant created == |RuleLinks(done, nodes, D, max, linkRooms)|
      {
        var made := ConnectRow(ids[i], ids[i + 1..], max, linkRooms, nodes, done, es0, adj0);
        created := created + made;
        done := done + Row(ids[i], ids[i + 1..]);
        i := i + 1;
      }
      if Mirrored(adj0, es0) {
        AttachMirrored(adj0, es0, RuleLinks(done, nodes, D, max, linkRooms));
      }
    }

    /** One pass of the inner loop: node `a` against each node of `rest`. */
    method ConnectRow(a: string, rest: seq<string>, max: real, linkRooms: bool, ghost nodes: map<string, Node>,
                      ghost done: seq<(string, string)>, ghost es0: seq<Edge>, ghost adj0: map<string, seq<string>>)
        returns (made: nat)
      requires Valid() && nodes == nos && a in nos && forall k :: 0 <= k < |rest| ==> rest[k] in nos
      requires arestas == es0 + RuleLinks(done, nodes, D, max, linkRooms)
      requires conexoes == Attach(adj0, RuleLinks(done, nodes, D, max, linkRooms))
      modifies this
      ensures Valid() && nos == old(nos) && order == old(order)
      ensures var links := RuleLinks(done + Row(a, rest), nodes, D, max, linkRooms);
              && arestas == es0 + links && conexoes == Attach(adj0, links)
              && |links| == |RuleLinks(done, nodes, D, max, linkRooms)| + made
    {
      made := 0;
      var k := 0;
      assert done + Row(a, rest)[..0] == done;
      while k < |rest|
        invariant 0 <= k <= |rest|
        invariant Valid() && nodes == nos && order == old(order)
        invariant arestas == es0 + RuleLinks(done + Row(a, rest)[..k], nodes, D, max, linkRooms)
        invariant conexoes == Attach(adj0, RuleLinks(done + Row(a, rest)[..k], nodes, D, max, linkRooms))
        invariant |RuleLinks(done + Row(a, rest)[..k], nodes, D, max, linkRooms)| == |RuleLinks(done, nodes, D, max, linkRooms)| + made
      {
        var added;
        added, k := ConnectPair(a, rest, k, max, linkRooms, nodes, done, es0, adj0);
        if added {
          made := made + 1;
        }
      }
      assert Row(a, rest)[..|rest|] == Row(a, rest);
    }

    /** Step `k` of the inner loop: `a` and `rest[k]` are joined when the rules say so. */
    method ConnectPair(a: string, rest: seq<string>, k: nat, max: real, linkRooms: bool, ghost nodes: map<string, Node>,
                       ghost done: seq<(string, string)>, ghost es0: seq<Edge>, ghost adj0: map<string, seq<string>>)
        returns (added: bool, next: nat)
      requires Valid() && nodes == nos && k < |rest| && a in nos && rest[k] in nos
      requires arestas == es0 + RuleLinks(done + Row(a, rest)[..k], nodes, D, max, linkRooms)
      requires conexoes == Attach(adj0, RuleLinks(done + Row(a, rest)[..k], nodes, D, max, linkRooms))
      modifies this
      ensures Valid() && nos == old(nos) && order == old(order)
      ensures next == k + 1
      ensures arestas == es0 + RuleLinks(done + Row(a, rest)[..next], nodes, D, max, linkRooms)
      ensures conexoes == Attach(adj0, RuleLinks(done + Row(a, rest)[..next], nodes, D, max, linkRooms))
      ensures |RuleLinks(done + Row(a, rest)[..next], nodes, D, max, linkRooms)|
              == |RuleLinks(done + Row(a, rest)[..k], nodes, D, max, linkRooms)| + if added then 1 else 0
    {
      var b := rest[k];
      next := k + 1;
      RowPrefix(done, a, rest, k);
      RowPrefixAt(done, a, rest, k, next);
      RuleLinksStep(done + Row(a, rest)[..k], a, b, nodes, D, max, linkRooms, es0, adj0);
      if Connects(nos, D, max, linkRooms, a, b) {
        Connect(Edge(a, b, D(nos[a].at, nos[b].at)));
        added := true;
      } else {
        added := false;
      }
    }

    /** Records edge `e` and appends `b` to the `conexoes` of `a`, then `a` to those of `b`. */
    method Connect(e: Edge)
      requires Valid() && e.a in nos && e.b in nos
      modifies this
      ensures Valid()
      ensures nos == old(nos) && order == old(order)
      ensures arestas == old(arestas) + [e] && conexoes == Attach(old(conexoes), [e])
    {
      AttachOne(conexoes, e);
      arestas := arestas + [e];
      conexoes := conexoes[e.a := conexoes[e.a] + [e.b]];
      conexoes := conexoes[e.b := conexoes[e.b] + [e.a]];
      forall x, y | Linked(conexoes, x, y)
        ensures y in nos
      {
        if y != e.a && y != e.b {
          assert Linked(old(conexoes), x, y);
        }
      }
    }

    /**
     * `adicionar_conexao_manual`: the edge is recorded, weighted by the
     * distance of the two nodes, and `true` returned, only when both are
     * nodes and `id2` is not yet among the `conexoes` of `id1`.
     */
    method AddManualConnection(id1: string, id2: string) returns (added: bool)
      requires Valid()
      modifies this
      ensures Valid()
      ensures nos == old(nos) && order == old(order)
      ensures added <==> id1 in nos && id2 in nos && id2 !in old(conexoes)[id1]
      ensures added ==> var e := Edge(id1, id2, D(nos[id1].at, nos[id2].at));
                        arestas == old(arestas) + [e] && conexoes == Attach(old(conexoes), [e])
      ensures !added ==> arestas == old(arestas) && conexoes == old(conexoes)
      ensures Mirrored(old(conexoes), old(arestas)) ==> Mirrored(conexoes, arestas)
    {
      if Mirrored(conexoes, arestas) {
        AttachMirrored(conexoes, arestas, [Edge(id1, id2, if id1 in nos && id2 in nos then D(nos[id1].at, nos[id2].at) else 0.0)]);
      }
      if id1 !in nos || id2 !in nos {
        return false;
      }
      var dist := D(nos[id1].at, nos[id2].at);
      if id2 !in conexoes[id1] {
        Connect(Edge(id1, id2, dist));
        return true;
      }
      return false;
    }

    /**
     * `validar_grafo`: the isolated nodes in dict order, the number of nodes
     * of each type that occurs, and the mean length of the `conexoes` lists
     * (0 for a graph without nodes).
     */
    method Validate() returns (v: Validation)
      requires Valid()
      ensures v.total == |nos| && v.edges == |arestas|
      ensures v.isolatedList == Isolated(order, conexoes) && v.isolated == |v.isolatedList|
      ensures forall t :: t in v.perType <==> Count(order, nos, t) > 0
      ensures forall t :: t in v.perType ==> v.perType[t] == Count(order, nos, t)
      ensures v.meanDegree == if |nos| == 0 then 0.0 else TotalDegree(order, conexoes) as real / |nos| as real
    {
      var isolated := Isolated(order, conexoes);
      var types: map<NodeType, nat> := map[];
      var i := 0;
      while i < |order|
        invariant 0 <= i <= |order|
        invariant forall t :: t in types <==> Count(order[..i], nos, t) > 0
        invariant forall t :: t in types ==> types[t] == Count(order[..i], nos, t)
      {
        types, i := Tally(order, nos, types, i);
      }
      assert order[..i] == order;
      var mean := if |nos| == 0 then 0.0 else TotalDegree(order, conexoes) as real / |nos| as real;
      v := Validation(|nos|, |arestas|, |isolated|, isolated, types, mean);
    }
  }

  /** One iteration of the counting loop of `validar_grafo`: the type of node `ids[i]` is counted once more. */
  method Tally(ids: seq<string>, nos: map<string, Node>, types: map<NodeType, nat>, i: nat)
      returns (types': map<NodeType, nat>, next: nat)
    requires i < |ids| && ids[i] in nos
    requires forall t :: t in types <==> Count(ids[..i], nos, t) > 0
    requires forall t :: t in types ==> types[t] == Count(ids[..i], nos, t)
    ensures next == i + 1
    ensures forall t :: t in types' <==> Count(ids[..next], nos, t) > 0
    ensures forall t :: t in types' ==> types'[t] == Count(ids[..next], nos, t)
  {
    next := i + 1;
    var t := nos[ids[i]].kind;
    CountStep(ids, nos, i);
    types' := types[t := (if t in types then types[t] else 0) + 1];
  }

  /** Counting one id more adds one to the count of its node's type only. */
  lemma CountStep(ids: seq<string>, nos: map<string, Node>, i: nat)
    requires i < |ids| && ids[i] in nos
    ensures forall t :: Count(ids[..i + 1], nos, t) == Count(ids[..i], nos, t) + if nos[ids[i]].kind == t then 1 else 0
  {
    assert ids[..i + 1][..i] == ids[..i];
  }

  /** In a valid graph the counts per type add up to `total_nos`. */
  lemma ValidationCounts(g: NavigationGraph, v: Validation)
    requires g.Valid()
    requires v.total == |g.nos| && forall t :: t in v.perType ==> v.perType[t] == Count(g.order, g.nos, t)
    requires forall t :: t in v.perType <==> Count(g.order, g.nos, t) > 0
    ensures (if Corridor in v.perType then v.perType[Corridor] else 0) + (if DoorNode in v.perType then v.perType[DoorNode] else 0)
            + (if ExitNode in v.perType then v.perType[ExitNode] else 0) + (if RoomCentre in v.perType then v.perType[RoomCentre] else 0)
            == v.total
  {
    CountsAddUp(g.order, g.nos);
    DistinctCard(g.order);
    assert (set x | x in g.order) == g.nos.Keys;
  }
}
