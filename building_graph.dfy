/**
 * The campus map: college buildings read from GeoJSON polygons, each placed
 * at the mean of its outline's corners, joined when their centroids are
 * close, and searched with A* for the shortest chain of buildings between
 * two references such as "A" or "Building M".
 */
module BuildingGraph {
  import opened Wrappers
  import opened Text
  import opened PairScan
  import opened Dict
  import opened EdgeList
  import opened Search

  /** A GeoJSON position `[longitude, latitude]`. */
  datatype Coord = Coord(lon: real, lat: real)

  /** The properties and outer ring of one GeoJSON feature, as far as the loader reads them. */
  datatype Feature = Feature(
    building: Option<string>, name: Option<string>, ref: Option<string>,
    geometryType: Option<string>, ring: seq<Coord>)

  /** One registered building (`predios[id]`). */
  datatype Building = Building(id: string, name: string, ref: string, centroid: Coord, polygon: seq<Coord>)

  function Sum(xs: seq<real>): real {
    if xs == [] then 0.0 else xs[0] + Sum(xs[1..])
  }

  function Lons(ring: seq<Coord>): (r: seq<real>)
    ensures |r| == |ring| && forall i :: 0 <= i < |ring| ==> r[i] == ring[i].lon
  {
    seq(|ring|, i requires 0 <= i < |ring| => ring[i].lon)
  }

  function Lats(ring: seq<Coord>): (r: seq<real>)
    ensures |r| == |ring| && forall i :: 0 <= i < |ring| ==> r[i] == ring[i].lat
  {
    seq(|ring|, i requires 0 <= i < |ring| => ring[i].lat)
  }

  /** The mean of the corners of an outline; `(0, 0)` for an empty one. */
  function Centroid(ring: seq<Coord>): (c: Coord)
    ensures ring == [] ==> c == Coord(0.0, 0.0)
    ensures ring != [] ==> c.lon * |ring| as real == Sum(Lons(ring)) && c.lat * |ring| as real == Sum(Lats(ring))
  {
    if ring == [] then Coord(0.0, 0.0)
    else Coord(Sum(Lons(ring)) / |ring| as real, Sum(Lats(ring)) / |ring| as real)
  }

  lemma {:induction false} SumBetween(xs: seq<real>, lo: real, hi: real)
    requires forall i :: 0 <= i < |xs| ==> lo <= xs[i] <= hi
    ensures |xs| as real * lo <= Sum(xs) <= |xs| as real * hi
  {
    if xs != [] {
      SumBetween(xs[1..], lo, hi);
      assert |xs| as real * lo == lo + |xs[1..]| as real * lo;
      assert |xs| as real * hi == hi + |xs[1..]| as real * hi;
    }
  }

  /** A mean lies between the least and the greatest of the numbers. */
  lemma MeanBetween(xs: seq<real>, lo: real, hi: real)
    requires |xs| > 0 && forall i :: 0 <= i < |xs| ==> lo <= xs[i] <= hi
    ensures lo <= Sum(xs) / |xs| as real <= hi
  {
    SumBetween(xs, lo, hi);
    QuotientBetween(Sum(xs), |xs| as real, lo, hi);
  }

  /** Dividing by a positive count keeps a total between count * lo and count * hi within [lo, hi]. */
  lemma QuotientBetween(s: real, n: real, lo: real, hi: real)
    requires n > 0.0 && n * lo <= s <= n * hi
    ensures lo <= s / n <= hi
  {
    var m := s / n;
    assert n * m == s;
    ScaledBelow(lo, m, n);
    ScaledBelow(m, hi, n);
  }

  /** Scaling by a positive factor keeps the order. */
  lemma ScaledBelow(a: real, b: real, n: real)
    requires n > 0.0 && n * a <= n * b
    ensures a <= b
  {
  }

  /** Every coordinate of a non-empty outline's centroid lies within the outline's extent. */
  lemma CentroidWithin(ring: seq<Coord>, lo: Coord, hi: Coord)
    requires |ring| > 0
    requires forall i :: 0 <= i < |ring| ==> lo.lon <= ring[i].lon <= hi.lon && lo.lat <= ring[i].lat <= hi.lat
    ensures var c := Centroid(ring); lo.lon <= c.lon <= hi.lon && lo.lat <= c.lat <= hi.lat
  {
    MeanBetween(Lons(ring), lo.lon, hi.lon);
    MeanBetween(Lats(ring), lo.lat, hi.lat);
  }

  /** The centroid of a single point is that point. */
  lemma CentroidOfPoint(p: Coord)
    ensures Centroid([p]) == p
  {
    assert Lons([p]) == [p.lon] && Lats([p]) == [p.lat];
    assert Sum([p.lon]) == p.lon + Sum([]);
    assert Sum([p.lat]) == p.lat + Sum([]);
  }

  /** `ref.lower().replace(' ', '_')`. */
  function BuildingId(ref: string): (id: string)
    ensures |id| == |ref|
    ensures forall i :: 0 <= i < |ref| ==> id[i] == if LowerChar(ref[i]) == ' ' then '_' else LowerChar(ref[i])
  {
    ReplaceChar(Lower(ref), ' ', '_');
    ReplaceAll(Lower(ref), " ", "_")
  }

  /** Building ids carry no upper-case letter and no space, and normalising one again changes nothing. */
  lemma BuildingIdNormal(ref: string)
    ensures var id := BuildingId(ref);
            && (forall i :: 0 <= i < |id| ==> !IsUpper(id[i]) && id[i] != ' ')
            && BuildingId(id) == id
  {
    var id := BuildingId(ref);
    ReplaceChar(Lower(ref), ' ', '_');
    assert Lower(id) == id;
    ReplaceChar(id, ' ', '_');
  }

  /** Only polygons tagged `building=college` are registered. */
  predicate Admitted(f: Feature) {
    f.building == Some("college") && f.geometryType == Some("Polygon")
  }

  /** The building a feature registers: the name defaults to "Sem nome" and the reference to the name. */
  function ToBuilding(f: Feature): (b: Building)
    ensures b.id == BuildingId(b.ref)
    ensures b.name == if f.name.Some? then f.name.value else "Sem nome"
    ensures f.ref.Some? ==> b.ref == f.ref.value
    ensures f.ref.None? ==> b.ref == b.name
    ensures b.centroid == Centroid(f.ring)
  {
    var name := f.name.GetOr("Sem nome");
    var ref := f.ref.GetOr(name);
    Building(BuildingId(ref), name, ref, Centroid(f.ring), f.ring)
  }

  /** The buildings the features register, in file order. */
  function Loaded(features: seq<Feature>): (bs: seq<Building>)
    ensures |bs| <= |features|
  {
    if features == [] then []
    else
      var f := features[|features| - 1];
      Loaded(features[..|features| - 1]) + (if Admitted(f) then [ToBuilding(f)] else [])
  }

  /** Every registered building comes from an admitted feature. */
  lemma {:induction false} LoadedFrom(features: seq<Feature>, b: Building)
    ensures b in Loaded(features) <==> exists i :: 0 <= i < |features| && Admitted(features[i]) && ToBuilding(features[i]) == b
  {
    if features != [] {
      var init, last := features[..|features| - 1], features[|features| - 1];
      LoadedFrom(init, b);
      assert Loaded(features) == Loaded(init) + (if Admitted(last) then [ToBuilding(last)] else []);
      if b in Loaded(features) {
        if b in Loaded(init) {
          var i :| 0 <= i < |init| && Admitted(init[i]) && ToBuilding(init[i]) == b;
          assert features[i] == init[i];
        } else {
          assert Admitted(features[|features| - 1]) && ToBuilding(features[|features| - 1]) == b;
        }
      }
      if exists i :: 0 <= i < |features| && Admitted(features[i]) && ToBuilding(features[i]) == b {
        var i :| 0 <= i < |features| && Admitted(features[i]) && ToBuilding(features[i]) == b;
        if i < |init| {
          assert init[i] == features[i];
        } else {
          LastIndex(features, i);
        }
      }
    }
  }

  /** The only index of `xs` not below `|xs| - 1` is the last one. */
  lemma LastIndex<T>(xs: seq<T>, i: nat)
    requires |xs| - 1 <= i < |xs|
    ensures xs[i] == xs[|xs| - 1]
  {
  }

  /** Looking at one feature more registers its building when it is admitted. */
  lemma LoadedSnoc(features: seq<Feature>, i: nat)
    requires i < |features|
    ensures Loaded(features[..i + 1]) == Loaded(features[..i]) + if Admitted(features[i]) then [ToBuilding(features[i])] else []
  {
    assert features[..i + 1][..i] == features[..i];
  }

  /** The assignments `predios[b.id] = b` that registering `bs` makes, in order. */
  function Keyed(bs: seq<Building>): (es: seq<(string, Building)>)
    ensures |es| == |bs| && forall i :: 0 <= i < |bs| ==> es[i] == (bs[i].id, bs[i])
  {
    seq(|bs|, i requires 0 <= i < |bs| => (bs[i].id, bs[i]))
  }

  /** After registering `bs`, an id is a key exactly when it was one before or some building carries it. */
  lemma RegisteredKeys(m: map<string, Building>, bs: seq<Building>, id: string)
    ensures id in Put(m, Keyed(bs)) <==> id in m || exists i :: 0 <= i < |bs| && bs[i].id == id
  {
    var es := Keyed(bs);
    PutKeys(m, es, id);
    if exists i :: 0 <= i < |es| && es[i].0 == id {
      var i :| 0 <= i < |es| && es[i].0 == id;
      assert bs[i].id == id;
    }
  }

  /** The building registered under an id is the last one that carries it. */
  lemma RegisteredLast(m: map<string, Building>, bs: seq<Building>, i: nat)
    requires i < |bs|
    requires forall j :: i < j < |bs| ==> bs[j].id != bs[i].id
    ensures bs[i].id in Put(m, Keyed(bs)) && Put(m, Keyed(bs))[bs[i].id] == bs[i]
  {
    PutLast(m, Keyed(bs), i);
  }

  /**
   * The A* loop of `calcular_rota` over positions `pos` and neighbour lists
   * `adj`: entries `(f, contador, id)` are pushed whenever a node's score
   * improves, stale entries of closed nodes are skipped when popped, and the
   * path is read back through `veio_de` once the destination is popped.
   * It finds a walk exactly when one exists, and under a metric the walk is
   * a shortest one.
   */
  method ShortestRoute(pos: map<string, Coord>, adj: map<string, seq<string>>, H: (Coord, Coord) -> real,
                       origin: string, dest: string)
      returns (path: Option<seq<string>>, distance: real)
    requires WellFormed(pos, adj) && origin in pos && dest in pos
    ensures path.Some? <==> Reachable(pos, adj, origin, dest)
    ensures path.Some? ==> Walk(pos, adj, path.value, origin, dest) && Simple(path.value)
    ensures path.Some? ==> distance == Cost(pos, H, path.value)
    ensures path.Some? && Metric(H) ==> ShortestTo(pos, adj, H, origin, dest, distance)
  {
    var counter: nat := 0;
    var heap := [Entry(0.0, counter, origin)];
    var g := map[origin := 0.0];
    var fScore := map[origin := H(pos[origin], pos[dest])];
    var cameFrom: map<string, string> := map[];
    var closed: set<string> := {};
    ghost var rank: map<string, nat> := map[];
    ghost var cur: map<string, nat> := map[];
    LazyStart(pos, adj, H, origin, dest);
    while heap != []
      invariant LazyInv(pos, adj, H, origin, dest, heap, g, cameFrom, closed, rank, cur, counter)
      invariant QueueCounted(heap, counter)
      decreases |pos.Keys - closed|, |heap|
    {
      var k := MinIndex(heap);
      var current := heap[k].id;
      CountedPop(heap, counter, k);
      if current in closed {
        LazySkip(pos, adj, H, origin, dest, heap, g, cameFrom, closed, rank, cur, counter, k);
        heap := RemoveAt(heap, k);
        continue;
      }
      if Metric(H) {
        PoppedSettles(pos, adj, H, origin, dest, heap, g, closed, cur, k);
      }
      if current == dest {
        var p := Reconstruct(pos, adj, H, origin, dest, g, cameFrom, closed, rank);
        path, distance := Some(p), g[dest];
        return;
      }
      LazyClose(pos, adj, H, origin, dest, heap, g, cameFrom, closed, rank, cur, counter, k);
      CloseShrinks(pos.Keys, closed, current);
      heap := RemoveAt(heap, k);
      rank := rank[current := |closed|];
      closed := closed + {current};
      heap, g, cameFrom, fScore, counter, cur :=
        RelaxNeighbours(pos, adj, H, origin, dest, current, heap, g, cameFrom, fScore, counter, closed, rank, cur);
    }
    LazyExhausted(pos, adj, H, origin, dest, g, cameFrom, closed, rank, cur, counter);
    path, distance := None, 0.0;
  }

  /**
   * The inner loop of `calcular_rota`: every neighbour of the node just
   * closed that is still open is rescored through it when that is cheaper,
   * and pushed again with a fresh counter.
   */
  method RelaxNeighbours(pos: map<string, Coord>, adj: map<string, seq<string>>, H: (Coord, Coord) -> real,
                         origin: string, dest: string, current: string, heap: seq<Entry>, g: map<string, real>,
                         cameFrom: map<string, string>, fScore: map<string, real>, counter: nat,
                         closed: set<string>, ghost rank: map<string, nat>, ghost cur: map<string, nat>)
      returns (heap': seq<Entry>, g': map<string, real>, cameFrom': map<string, string>, fScore': map<string, real>,
               counter': nat, ghost cur': map<string, nat>)
    requires WellFormed(pos, adj) && dest in pos && current in adj
    requires LazyExpanding(pos, adj, H, origin, dest, heap, g, cameFrom, closed, rank, cur, counter, current, g, adj[current], 0)
    requires QueueCounted(heap, counter)
    ensures LazyInv(pos, adj, H, origin, dest, heap', g', cameFrom', closed, rank, cur', counter')
    ensures QueueCounted(heap', counter')
  {
    heap', g', cameFrom', fScore', counter', cur' := heap, g, cameFrom, fScore, counter, cur;
    var nbrs := adj[current];
    var j := 0;
    while j < |nbrs|
      invariant LazyExpanding(pos, adj, H, origin, dest, heap', g', cameFrom', closed, rank, cur', counter', current, g, nbrs, j)
      invariant QueueCounted(heap', counter')
    {
      heap', g', cameFrom', fScore', counter', cur', j :=
        RelaxStep(pos, adj, H, origin, dest, current, nbrs, j, heap', g', cameFrom', fScore', counter', closed, rank, cur', g);
    }
    LazyFinish(pos, adj, H, origin, dest, heap', g', cameFrom', closed, rank, cur', counter', current, g, nbrs);
  }

  /**
   * One neighbour `nbrs[j]` of the inner loop: passed over when closed or
   * when going through `current` is no cheaper; otherwise rescored, its
   * parent set to `current`, and pushed with the next counter.
   */
  method RelaxStep(pos: map<string, Coord>, adj: map<string, seq<string>>, H: (Coord, Coord) -> real,
                   origin: string, dest: string, current: string, nbrs: seq<string>, j: nat,
                   heap: seq<Entry>, g: map<string, real>, cameFrom: map<string, string>, fScore: map<string, real>,
                   counter: nat, closed: set<string>, ghost rank: map<string, nat>, ghost cur: map<string, nat>,
                   ghost g0: map<string, real>)
      returns (heap': seq<Entry>, g': map<string, real>, cameFrom': map<string, string>, fScore': map<string, real>,
               counter': nat, ghost cur': map<string, nat>, next: nat)
    requires WellFormed(pos, adj) && dest in pos && j < |nbrs|
    requires LazyExpanding(pos, adj, H, origin, dest, heap, g, cameFrom, closed, rank, cur, counter, current, g0, nbrs, j)
    requires QueueCounted(heap, counter)
    ensures next == j + 1
    ensures LazyExpanding(pos, adj, H, origin, dest, heap', g', cameFrom', closed, rank, cur', counter', current, g0, nbrs, next)
    ensures QueueCounted(heap', counter')
  {
    next := j + 1;
    heap', g', cameFrom', fScore', counter', cur' := heap, g, cameFrom, fScore, counter, cur;
    var v := nbrs[j];
    if v in closed {
      LazyKeep(pos, adj, H, origin, dest, heap, g, cameFrom, closed, rank, cur, counter, current, g0, nbrs, j);
      return;
    }
    var tentative := g[current] + H(pos[current], pos[v]);
    if v in g && tentative >= g[v] {
      LazyKeep(pos, adj, H, origin, dest, heap, g, cameFrom, closed, rank, cur, counter, current, g0, nbrs, j);
      return;
    }
    cameFrom' := cameFrom[v := current];
    g' := g[v := tentative];
    fScore' := fScore[v := tentative + H(pos[v], pos[dest])];
    counter' := counter + 1;
    heap' := heap + [Entry(tentative + H(pos[v], pos[dest]), counter', v)];
    CountedPush(heap, counter, Entry(tentative + H(pos[v], pos[dest]), counter', v));
    cur' := cur[v := counter'];
    LazyImprove(pos, adj, H, origin, dest, heap, g, cameFrom, closed, rank, cur, counter, current, g0, nbrs, j,
                tentative, heap', g', cameFrom', cur', counter', next);
  }

  /** Registering one building more: the dict update, the key order and the emptied neighbour list. */
  lemma LoadStep(m: map<string, Building>, order: seq<string>, adj: map<string, seq<string>>, bs: seq<Building>, b: Building)
    ensures Put(m, Keyed(bs + [b])) == Put(m, Keyed(bs))[b.id := b]
    ensures KeyOrder(order, Keyed(bs + [b])) == (var o := KeyOrder(order, Keyed(bs)); if b.id in o then o else o + [b.id])
    ensures Cleared(adj, Keyed(bs + [b])) == Cleared(adj, Keyed(bs))[b.id := []]
  {
    assert Keyed(bs + [b]) == Keyed(bs) + [(b.id, b)];
    PutSnoc(m, order, adj, Keyed(bs), (b.id, b));
  }

  /** The centroid of every building, the positions the route search and the automatic links measure. */
  function CentroidsOf(predios: map<string, Building>): (pos: map<string, Coord>)
    ensures pos.Keys == predios.Keys
  {
    map k | k in predios :: predios[k].centroid
  }

  /** The centroids of `a` and `b` are known and lie at most `max` apart. */
  predicate Near(pos: map<string, Coord>, H: (Coord, Coord) -> real, max: real, a: string, b: string) {
    a in pos && b in pos && H(pos[a], pos[b]) <= max
  }

  /** Visiting one more pair, seen from the edge list and the neighbour lists it is appended to. */
  lemma NearLinksStep(seen: seq<(string, string)>, a: string, b: string, pos: map<string, Coord>, H: (Coord, Coord) -> real,
                      max: real, es0: seq<Edge>, adj0: map<string, seq<string>>)
    requires a in pos && b in pos
    ensures var links, e := NearLinks(seen, pos, H, max), Edge(a, b, H(pos[a], pos[b]));
            Near(pos, H, max, a, b) ==>
              && NearLinks(seen + [(a, b)], pos, H, max) == links + [e]
              && es0 + (links + [e]) == es0 + links + [e]
              && Attach(adj0, links + [e]) == Attach(Attach(adj0, links), [e])
    ensures !Near(pos, H, max, a, b) ==> NearLinks(seen + [(a, b)], pos, H, max) == NearLinks(seen, pos, H, max)
  {
    NearLinksSnoc(seen, (a, b), pos, H, max);
    AttachAppend(adj0, NearLinks(seen, pos, H, max), [Edge(a, b, H(pos[a], pos[b]))]);
  }

  /** The edges the automatic pass records while visiting the pairs `ps`, in visiting order. */
  function NearLinks(ps: seq<(string, string)>, pos: map<string, Coord>, H: (Coord, Coord) -> real, max: real): (es: seq<Edge>)
    ensures |es| <= |ps|
  {
    if ps == [] then []
    else
      var p := ps[|ps| - 1];
      NearLinks(ps[..|ps| - 1], pos, H, max)
        + (if Near(pos, H, max, p.0, p.1) then [Edge(p.0, p.1, H(pos[p.0], pos[p.1]))] else [])
  }

  lemma NearLinksSnoc(ps: seq<(string, string)>, p: (string, string), pos: map<string, Coord>, H: (Coord, Coord) -> real, max: real)
    ensures NearLinks(ps + [p], pos, H, max)
            == NearLinks(ps, pos, H, max) + (if Near(pos, H, max, p.0, p.1) then [Edge(p.0, p.1, H(pos[p.0], pos[p.1]))] else [])
  {
    assert (ps + [p])[..|ps|] == ps;
  }

  /** The recorded edges are exactly the visited pairs whose centroids are near, each with its distance. */
  lemma {:induction false} NearLinksMembership(ps: seq<(string, string)>, pos: map<string, Coord>, H: (Coord, Coord) -> real,
                                               max: real, e: Edge)
    ensures e in NearLinks(ps, pos, H, max) <==>
            exists m :: 0 <= m < |ps| && Near(pos, H, max, ps[m].0, ps[m].1) && e == Edge(ps[m].0, ps[m].1, H(pos[ps[m].0], pos[ps[m].1]))
  {
    if ps != [] {
      var init := ps[..|ps| - 1];
      NearLinksMembership(init, pos, H, max, e);
      assert forall m :: 0 <= m < |init| ==> init[m] == ps[m];
      if exists m :: 0 <= m < |ps| && Near(pos, H, max, ps[m].0, ps[m].1) && e == Edge(ps[m].0, ps[m].1, H(pos[ps[m].0], pos[ps[m].1])) {
        var m :| 0 <= m < |ps| && Near(pos, H, max, ps[m].0, ps[m].1) && e == Edge(ps[m].0, ps[m].1, H(pos[ps[m].0], pos[ps[m].1]));
        if m < |init| {
          assert Near(pos, H, max, init[m].0, init[m].1) && e == Edge(init[m].0, init[m].1, H(pos[init[m].0], pos[init[m].1]));
        }
      }
    }
  }

  /** When the visited pairs are all different, so are the recorded edges: no loop and no pair recorded twice. */
  lemma {:induction false} NearLinksOnce(ps: seq<(string, string)>, pos: map<string, Coord>, H: (Coord, Coord) -> real, max: real)
    requires OncePerPair(ps)
    ensures OncePerPair(Ends(NearLinks(ps, pos, H, max)))
  {
    if ps != [] {
      var init, p := ps[..|ps| - 1], ps[|ps| - 1];
      assert forall m :: 0 <= m < |init| ==> init[m] == ps[m];
      NearLinksOnce(init, pos, H, max);
      var before := Ends(NearLinks(init, pos, H, max));
      var after := Ends(NearLinks(ps, pos, H, max));
      if Near(pos, H, max, p.0, p.1) {
        assert after == before + [p];
        forall m | 0 <= m < |before|
          ensures before[m] != p && before[m] != (p.1, p.0)
        {
          var e := NearLinks(init, pos, H, max)[m];
          NearLinksMembership(init, pos, H, max, e);
          var n :| 0 <= n < |init| && Near(pos, H, max, init[n].0, init[n].1) && e == Edge(init[n].0, init[n].1, H(pos[init[n].0], pos[init[n].1]));
          assert before[m] == ps[n];
        }
      } else {
        assert after == before;
      }
    }
  }

  /**
   * After the automatic pass over the ids, `v` is a neighbour of `u` exactly
   * when some pair of positions `a < b` holds the two and their centroids,
   * measured from `ids[a]` to `ids[b]`, are at most `max` apart.
   */
  lemma AutoNeighbours(ids: seq<string>, pos: map<string, Coord>, H: (Coord, Coord) -> real, max: real, u: string, v: string)
    ensures v in Partners(NearLinks(Pairs(ids), pos, H, max), u) <==>
            exists a, b :: 0 <= a < b < |ids| && Near(pos, H, max, ids[a], ids[b])
                           && ((ids[a] == u && ids[b] == v) || (ids[a] == v && ids[b] == u))
  {
    var ps := Pairs(ids);
    var es := NearLinks(ps, pos, H, max);
    PartnersJoin(es, u, v);
    if v in Partners(es, u) {
      var i :| 0 <= i < |es| && Joins(es[i], u, v);
      NearLinksMembership(ps, pos, H, max, es[i]);
      var m :| 0 <= m < |ps| && Near(pos, H, max, ps[m].0, ps[m].1) && es[i] == Edge(ps[m].0, ps[m].1, H(pos[ps[m].0], pos[ps[m].1]));
      PairsMembership(ids, ps[m]);
      var a, b :| PairAt(ids, ps[m], a, b);
      assert Near(pos, H, max, ids[a], ids[b]);
    }
    if exists a, b :: 0 <= a < b < |ids| && Near(pos, H, max, ids[a], ids[b])
                      && ((ids[a] == u && ids[b] == v) || (ids[a] == v && ids[b] == u)) {
      var a, b :| 0 <= a < b < |ids| && Near(pos, H, max, ids[a], ids[b])
                  && ((ids[a] == u && ids[b] == v) || (ids[a] == v && ids[b] == u));
      var p := (ids[a], ids[b]);
      PairsMembership(ids, p);
      assert PairAt(ids, p, a, b);
      var m :| 0 <= m < |ps| && ps[m] == p;
      var e := Edge(p.0, p.1, H(pos[p.0], pos[p.1]));
      NearLinksMembership(ps, pos, H, max, e);
      var i :| 0 <= i < |es| && es[i] == e;
      assert Joins(es[i], u, v);
    }
  }

  /** How `_normalizar_id_predio` recognises a building by a cleaned reference: its ref, or a part of its name. */
  predicate Matches(b: Building, clean: string) {
    Lower(b.ref) == clean || Contains(Lower(b.name), clean)
  }

  /** The first id of `ids`, in dict order, whose building matches. */
  function FirstMatch(predios: map<string, Building>, ids: seq<string>, clean: string): (r: Option<string>)
    ensures r.Some? ==> exists i :: 0 <= i < |ids| && ids[i] == r.value && r.value in predios && Matches(predios[r.value], clean)
                                     && forall j :: 0 <= j < i && ids[j] in predios ==> !Matches(predios[ids[j]], clean)
    ensures r.None? <==> forall i :: 0 <= i < |ids| && ids[i] in predios ==> !Matches(predios[ids[i]], clean)
  {
    if ids == [] then None
    else if ids[0] in predios && Matches(predios[ids[0]], clean) then Some(ids[0])
    else
      var r := FirstMatch(predios, ids[1..], clean);
      assert forall i :: 1 <= i < |ids| ==> ids[i] == ids[1..][i - 1];
      if r.Some? then
        var i :| 0 <= i < |ids[1..]| && ids[1..][i] == r.value && r.value in predios && Matches(predios[r.value], clean)
                 && forall j :: 0 <= j < i && ids[1..][j] in predios ==> !Matches(predios[ids[1..][j]], clean);
        assert ids[i + 1] == r.value;
        r
      else r
  }

  /** `_normalizar_id_predio(ref)`: the cleaned reference itself when it is an id, else the first matching building. */
  function Resolve(predios: map<string, Building>, order: seq<string>, ref: string): (r: Option<string>)
    ensures Lower(Strip(ref)) in predios ==> r == Some(Lower(Strip(ref)))
    ensures r.Some? ==> r.value in predios
  {
    var clean := Lower(Strip(ref));
    if clean in predios then Some(clean) else FirstMatch(predios, order, clean)
  }

  /** A resolved reference names a building: the cleaned reference as an id, or a building that matches it. */
  lemma ResolveFound(predios: map<string, Building>, order: seq<string>, ref: string)
    requires forall k :: k in order ==> k in predios
    ensures var r := Resolve(predios, order, ref);
            r.Some? ==> r.value in predios && (r.value == Lower(Strip(ref)) || Matches(predios[r.value], Lower(Strip(ref))))
  {
  }

  /** A reference resolves to nothing exactly when it is no id and no building of `order` matches it. */
  lemma ResolveNone(predios: map<string, Building>, order: seq<string>, ref: string)
    ensures var clean := Lower(Strip(ref));
            Resolve(predios, order, ref).None? <==>
              clean !in predios && forall i :: 0 <= i < |order| && order[i] in predios ==> !Matches(predios[order[i]], clean)
  {
  }

  /** Every name contains the empty string, so a blank reference picks the first building unless `""` is itself an id. */
  lemma ResolveBlank(predios: map<string, Building>, order: seq<string>)
    requires |order| > 0 && order[0] in predios && "" !in predios
    ensures Resolve(predios, order, "") == Some(order[0])
  {
    assert OccursAt(Lower(predios[order[0]].name), "", 0);
  }

  /** One building of a computed route, as `calcular_rota` lists it. */
  datatype Stop = Stop(id: string, name: string, ref: string, coords: Coord)

  /** The dictionary `calcular_rota` returns. */
  datatype RouteResult = RouteResult(origin: Stop, destination: Stop, path: seq<Stop>, distance: real,
                                     count: nat, coordinates: seq<Coord>)

  function StopOf(b: Building): Stop {
    Stop(b.id, b.name, b.ref, b.centroid)
  }

  /** `predios_rota`: the buildings along a path of ids. */
  function Listing(predios: map<string, Building>, ids: seq<string>): (stops: seq<Stop>)
    requires forall i :: 0 <= i < |ids| ==> ids[i] in predios
    ensures |stops| == |ids| && forall i :: 0 <= i < |ids| ==> stops[i] == StopOf(predios[ids[i]])
  {
    seq(|ids|, i requires 0 <= i < |ids| => StopOf(predios[ids[i]]))
  }

  function Ids(stops: seq<Stop>): (ids: seq<string>)
    ensures |ids| == |stops| && forall i :: 0 <= i < |stops| ==> ids[i] == stops[i].id
  {
    seq(|stops|, i requires 0 <= i < |stops| => stops[i].id)
  }

  /** `coordenadas_rota`. */
  function Coords(stops: seq<Stop>): (cs: seq<Coord>)
    ensures |cs| == |stops| && forall i :: 0 <= i < |stops| ==> cs[i] == stops[i].coords
  {
    seq(|stops|, i requires 0 <= i < |stops| => stops[i].coords)
  }

  /**
   * `route` lists a walk from building `o` to building `d` along the
   * neighbour lists, visiting no building twice, with its length between
   * centroids; under a metric no walk is shorter.
   */
  ghost predicate IsRoute(predios: map<string, Building>, adj: map<string, seq<string>>, H: (Coord, Coord) -> real,
                          o: string, d: string, route: RouteResult) {
    var pos, ids := CentroidsOf(predios), Ids(route.path);
    && Walk(pos, adj, ids, o, d) && Simple(ids)
    && route.distance == Cost(pos, H, ids)
    && (Metric(H) ==> ShortestTo(pos, adj, H, o, d, route.distance))
    && route.path == Listing(predios, ids)
    && route.coordinates == Coords(route.path)
    && route.count == |route.path|
    && route.origin == route.path[0] && route.destination == route.path[|route.path| - 1]
  }

  /** The route `calcular_rota` returns for a path of ids and its distance. */
  function RouteOf(predios: map<string, Building>, ids: seq<string>, distance: real): (route: RouteResult)
    requires |ids| > 0 && forall i :: 0 <= i < |ids| ==> ids[i] in predios && predios[ids[i]].id == ids[i]
    ensures Ids(route.path) == ids && route.count == |ids|
  {
    var stops := Listing(predios, ids);
    assert Ids(stops) == ids;
    RouteResult(stops[0], stops[|stops| - 1], stops, distance, |stops|, Coords(stops))
  }

  /** A simple walk with its cost, shortest under a metric, makes a route between its ends. */
  lemma RouteOfWalk(predios: map<string, Building>, adj: map<string, seq<string>>, H: (Coord, Coord) -> real,
                    o: string, d: string, ids: seq<string>, distance: real)
    requires forall k :: k in predios ==> predios[k].id == k
    requires Walk(CentroidsOf(predios), adj, ids, o, d) && Simple(ids)
    requires distance == Cost(CentroidsOf(predios), H, ids)
    requires Metric(H) ==> ShortestTo(CentroidsOf(predios), adj, H, o, d, distance)
    ensures forall i :: 0 <= i < |ids| ==> ids[i] in predios && predios[ids[i]].id == ids[i]
    ensures IsRoute(predios, adj, H, o, d, RouteOf(predios, ids, distance))
  {
  }

  /** A route from a building to itself is that one building, at distance 0. */
  lemma RouteToSelf(predios: map<string, Building>, adj: map<string, seq<string>>, H: (Coord, Coord) -> real,
                    o: string, route: RouteResult)
    requires IsRoute(predios, adj, H, o, o, route)
    ensures route.count == 1 && route.distance == 0.0 && route.path[0].id == o
  {
    var ids := Ids(route.path);
    var first, last := ids[0], ids[|ids| - 1];
    assert first == last;
  }

  /** The default argument of `criar_conexoes_automaticas`, for a caller of `CreateAutoConnections`. */
  const DefaultMaxDistance: real := 200.0

  /**
   * `GrafoPredios`: the buildings by id (with their dict order), the list of
   * recorded connections and the neighbour list of every building. The
   * great-circle distance `_distancia_haversine` is the function `H`.
   */
  class CampusGraph {
    var predios: map<string, Building>
    var order: seq<string>
    var conexoes: seq<Edge>
    var vizinhos: map<string, seq<string>>
    const H: (Coord, Coord) -> real

    /** Ids are the keys under which buildings are kept, every building has a neighbour list, and links stay among buildings. */
    ghost predicate Valid()
      reads this
    {
      && Distinct(order)
      && (forall k :: k in predios <==> k in order)
      && (forall k :: k in predios ==> predios[k].id == k)
      && vizinhos.Keys == predios.Keys
      && (forall i :: 0 <= i < |conexoes| ==> conexoes[i].a in predios && conexoes[i].b in predios)
      && (forall a, b :: Linked(vizinhos, a, b) ==> b in predios)
    }

    /** `GrafoPredios()`: no buildings and no connections. */
    constructor(haversine: (Coord, Coord) -> real)
      ensures Valid() && H == haversine
      ensures predios == map[] && order == [] && conexoes == [] && vizinhos == map[]
    {
      predios, order, conexoes, vizinhos := map[], [], [], map[];
      H := haversine;
    }

    /** `predios[id] = building` and `vizinhos[id] = []`: a new id goes last in dict order, a known one keeps its place. */
    method Register(b: Building)
      requires Valid() && b.id == BuildingId(b.ref)
      modifies this
      ensures Valid()
      ensures predios == old(predios)[b.id := b] && vizinhos == old(vizinhos)[b.id := []]
      ensures order == if b.id in old(order) then old(order) else old(order) + [b.id]
      ensures conexoes == old(conexoes)
    {
      predios := predios[b.id := b];
      if b.id !in order {
        order := order + [b.id];
      }
      vizinhos := vizinhos[b.id := []];
      forall x, y | Linked(vizinhos, x, y)
        ensures y in predios
      {
        assert x != b.id && Linked(old(vizinhos), x, y);
      }
    }

    /** Records edge `e` and appends `b` to `a`'s neighbour list, then `a` to `b`'s. */
    method Connect(e: Edge)
      requires Valid() && e.a in predios && e.b in predios
      modifies this
      ensures Valid()
      ensures predios == old(predios) && order == old(order)
      ensures conexoes == old(conexoes) + [e] && vizinhos == Attach(old(vizinhos), [e])
    {
      AttachOne(vizinhos, e);
      conexoes := conexoes + [e];
      vizinhos := vizinhos[e.a := vizinhos[e.a] + [e.b]];
      vizinhos := vizinhos[e.b := vizinhos[e.b] + [e.a]];
      forall x, y | Linked(vizinhos, x, y)
        ensures y in predios
      {
        if y != e.a && y != e.b {
          assert Linked(old(vizinhos), x, y);
        }
      }
    }

    /**
     * `carregar_geojson` after the file is parsed: every college polygon is
     * registered under the id of its reference, replacing an earlier
     * building with the same id, and given an empty neighbour list.
     */
    method Load(features: seq<Feature>)
      requires Valid()
      modifies this
      ensures Valid()
      ensures predios == Put(old(predios), Keyed(Loaded(features)))
      ensures order == KeyOrder(old(order), Keyed(Loaded(features)))
      ensures vizinhos == Cleared(old(vizinhos), Keyed(Loaded(features)))
      ensures conexoes == old(conexoes)
    {
      ghost var m0, o0, c0 := predios, order, vizinhos;
      var i := 0;
      while i < |features|
        invariant 0 <= i <= |features|
        invariant Valid()
        invariant predios == Put(m0, Keyed(Loaded(features[..i])))
        invariant order == KeyOrder(o0, Keyed(Loaded(features[..i])))
        invariant vizinhos == Cleared(c0, Keyed(Loaded(features[..i])))
        invariant conexoes == old(conexoes)
      {
        LoadedSnoc(features, i);
        LoadOne(features[i], Loaded(features[..i]), m0, o0, c0);
        i := i + 1;
      }
      assert features[..i] == features;
    }

    /** One iteration of `Load`: the feature is registered when it is a college polygon. */
    method LoadOne(f: Feature, ghost done: seq<Building>,
                   ghost m0: map<string, Building>, ghost o0: seq<string>, ghost c0: map<string, seq<string>>)
      requires Valid()
      requires predios == Put(m0, Keyed(done)) && order == KeyOrder(o0, Keyed(done)) && vizinhos == Cleared(c0, Keyed(done))
      modifies this
      ensures Valid()
      ensures var now := done + if Admitted(f) then [ToBuilding(f)] else [];
              predios == Put(m0, Keyed(now)) && order == KeyOrder(o0, Keyed(now)) && vizinhos == Cleared(c0, Keyed(now))
      ensures conexoes == old(conexoes)
    {
      if f.building == Some("college") {
        var name := f.name.GetOr("Sem nome");
        var ref := f.ref.GetOr(name);
        if f.geometryType == Some("Polygon") {
          var b := Building(BuildingId(ref), name, ref, Centroid(f.ring), f.ring);
          assert ToBuilding(f) == b;
          LoadStep(m0, o0, c0, done, b);
          Register(b);
          return;
        }
      }
      assert done + [] == done;
    }

    /**
     * `criar_conexoes_automaticas`: every pair of buildings, in dict order,
     * is joined when their centroids lie at most `max` apart; returns how
     * many connections were created.
     */
    method CreateAutoConnections(max: real) returns (created: nat)
      requires Valid()
      modifies this
      ensures Valid()
      ensures predios == old(predios) && order == old(order)
      ensures var links := NearLinks(Pairs(order), CentroidsOf(predios), H, max);
              && conexoes == old(conexoes) + links
              && vizinhos == Attach(old(vizinhos), links)
              && created == |links|
    {
      var ids := order;
      ghost var pos := CentroidsOf(predios);
      ghost var es0, adj0 := conexoes, vizinhos;
      ghost var done: seq<(string, string)> := [];
      created := 0;
      var i := 0;
      AttachNone(adj0);
      while i < |ids|
        invariant 0 <= i <= |ids| && done == PairsBefore(ids, i)
        invariant Valid() && predios == old(predios) && order == old(order) && ids == order
        invariant conexoes == es0 + NearLinks(done, pos, H, max)
        invariant vizinhos == Attach(adj0, NearLinks(done, pos, H, max))
        invariant created == |NearLinks(done, pos, H, max)|
      {
        var made := ConnectRow(ids[i], ids[i + 1..], max, pos, done, es0, adj0);
        created := created + made;
        done := done + Row(ids[i], ids[i + 1..]);
        i := i + 1;
      }
    }

    /**
     * One pass of the inner loop of `criar_conexoes_automaticas`: building
     * `a` against each building of `rest`; `pos` are the centroids, and
     * `done` the pairs visited before, which recorded the edges after `es0`
     * and extended the neighbour lists `adj0`.
     */
    method ConnectRow(a: string, rest: seq<string>, max: real, ghost pos: map<string, Coord>,
                      ghost done: seq<(string, string)>, ghost es0: seq<Edge>, ghost adj0: map<string, seq<string>>)
        returns (made: nat)
      requires Valid() && pos == CentroidsOf(predios)
      requires a in predios && forall k :: 0 <= k < |rest| ==> rest[k] in predios
      requires conexoes == es0 + NearLinks(done, pos, H, max) && vizinhos == Attach(adj0, NearLinks(done, pos, H, max))
      modifies this
      ensures Valid() && predios == old(predios) && order == old(order)
      ensures var links := NearLinks(done + Row(a, rest), pos, H, max);
              && conexoes == es0 + links && vizinhos == Attach(adj0, links)
              && |links| == |NearLinks(done, pos, H, max)| + made
    {
      made := 0;
      var k := 0;
      assert done + Row(a, rest)[..0] == done;
      while k < |rest|
        invariant 0 <= k <= |rest|
        invariant Valid() && pos == CentroidsOf(predios) && predios == old(predios) && order == old(order)
        invariant var links := NearLinks(done + Row(a, rest)[..k], pos, H, max);
                  && conexoes == es0 + links && vizinhos == Attach(adj0, links)
                  && |links| == |NearLinks(done, pos, H, max)| + made
      {
        var added;
        added, k := ConnectPair(a, rest, k, max, pos, done, es0, adj0);
        if added {
          made := made + 1;
        }
      }
      assert Row(a, rest)[..|rest|] == Row(a, rest);
    }

    /**
     * Step `k` of the inner loop: `a` and `rest[k]` are joined when their
     * centroids lie at most `max` apart.
     */
    method ConnectPair(a: string, rest: seq<string>, k: nat, max: real, ghost pos: map<string, Coord>,
                       ghost done: seq<(string, string)>, ghost es0: seq<Edge>, ghost adj0: map<string, seq<string>>)
        returns (added: bool, next: nat)
      requires Valid() && pos == CentroidsOf(predios) && k < |rest| && a in predios && rest[k] in predios
      requires var links := NearLinks(done + Row(a, rest)[..k], pos, H, max);
               conexoes == es0 + links && vizinhos == Attach(adj0, links)
      modifies this
      ensures Valid() && predios == old(predios) && order == old(order)
      ensures next == k + 1
      ensures var links := NearLinks(done + Row(a, rest)[..next], pos, H, max);
              && conexoes == es0 + links && vizinhos == Attach(adj0, links)
              && |links| == |NearLinks(done + Row(a, rest)[..k], pos, H, max)| + if added then 1 else 0
    {
      var b := rest[k];
      next := k + 1;
      RowPrefix(done, a, rest, k);
      RowPrefixAt(done, a, rest, k, next);
      NearLinksStep(done + Row(a, rest)[..k], a, b, pos, H, max, es0, adj0);
      var d := H(predios[a].centroid, predios[b].centroid);
      assert pos[a] == predios[a].centroid && pos[b] == predios[b].centroid;
      if d <= max {
        Connect(Edge(a, b, d));
        added := true;
      } else {
        added := false;
      }
    }

    /**
     * `adicionar_conexao_manual`: both names are turned into ids; the
     * connection is recorded, and `true` returned, only when both are
     * buildings and the second is not yet a neighbour of the first.
     */
    method AddManualConnection(predio1: string, predio2: string) returns (added: bool)
      requires Valid()
      modifies this
      ensures Valid()
      ensures predios == old(predios) && order == old(order)
      ensures var a, b := BuildingId(predio1), BuildingId(predio2);
              added <==> a in predios && b in predios && b !in old(vizinhos)[a]
      ensures added ==> var a, b := BuildingId(predio1), BuildingId(predio2);
                        var e := Edge(a, b, H(predios[a].centroid, predios[b].centroid));
                        conexoes == old(conexoes) + [e] && vizinhos == Attach(old(vizinhos), [e])
      ensures !added ==> conexoes == old(conexoes) && vizinhos == old(vizinhos)
    {
      var a := BuildingId(predio1);
      var b := BuildingId(predio2);
      if a !in predios || b !in predios {
        return false;
      }
      var d := H(predios[a].centroid, predios[b].centroid);
      if b !in vizinhos[a] {
        Connect(Edge(a, b, d));
        return true;
      }
      return false;
    }

    /** `_normalizar_id_predio`: the loop over the buildings in dict order. */
    method Normalize(ref: string) returns (r: Option<string>)
      requires Valid()
      ensures r == Resolve(predios, order, ref)
    {
      var clean := Lower(Strip(ref));
      if clean in predios {
        return Some(clean);
      }
      var i := 0;
      while i < |order|
        invariant 0 <= i <= |order|
        invariant FirstMatch(predios, order, clean) == FirstMatch(predios, order[i..], clean)
      {
        var pid := order[i];
        var info := predios[pid];
        assert order[i..][1..] == order[i + 1..];
        if Lower(info.ref) == clean {
          return Some(pid);
        }
        if Contains(Lower(info.name), clean) {
          return Some(pid);
        }
        i := i + 1;
      }
      return None;
    }

    /**
     * `calcular_rota`: both references are resolved (an unresolved or empty
     * id gives `None`), the A* search runs over the centroids and the
     * neighbour lists, and the route is listed building by building.
     */
    method CalcRoute(origem: string, destino: string) returns (r: Option<RouteResult>)
      requires Valid()
      ensures var o, d := Resolve(predios, order, origem), Resolve(predios, order, destino);
              r.Some? <==> o.Some? && d.Some? && o.value != "" && d.value != ""
                           && Reachable(CentroidsOf(predios), vizinhos, o.value, d.value)
      ensures r.Some? ==> IsRoute(predios, vizinhos, H, Resolve(predios, order, origem).value,
                                  Resolve(predios, order, destino).value, r.value)
    {
      var o := Normalize(origem);
      var d := Normalize(destino);
      if o.None? || d.None? || o.value == "" || d.value == "" {
        return None;
      }
      ResolveFound(predios, order, origem);
      ResolveFound(predios, order, destino);
      var pos := CentroidsOf(predios);
      var path, distance := ShortestRoute(pos, vizinhos, H, o.value, d.value);
      if path.None? {
        return None;
      }
      RouteOfWalk(predios, vizinhos, H, o.value, d.value, path.value, distance);
      r := Some(RouteOf(predios, path.value, distance));
    }
  }
}
