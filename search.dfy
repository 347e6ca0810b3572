/**
 * The path theory shared by both A* searches: walks along neighbour lists,
 * their cost under a distance function, the order in which `heapq` pops
 * `(f, counter, id)` entries, and the bookkeeping a search leaves behind
 * (`g_score`, `veio_de`, the closed set) from which a path is read back.
 *
 * Positions are of any type `T` (pixel points on a floor plan, longitude
 * and latitude on the campus map); the distance is a parameter, and the
 * facts about shortest routes assume only that it is a metric.
 */
module Search {
  import opened PairScan

  /** A heap entry `(f_score, contador, id)`. */
  datatype Entry = Entry(f: real, counter: nat, id: string)

  /** Python's tuple order on heap entries, as far as it is ever consulted. */
  predicate EntryLe(a: Entry, b: Entry) {
    a.f < b.f || (a.f == b.f && a.counter <= b.counter)
  }

  /** The entry `heapq.heappop` removes: one that no other entry precedes. */
  function MinIndex(heap: seq<Entry>): (k: nat)
    requires |heap| > 0
    ensures k < |heap|
    ensures forall i :: 0 <= i < |heap| ==> EntryLe(heap[k], heap[i])
  {
    if |heap| == 1 then 0
    else
      var k := MinIndex(heap[1..]) + 1;
      assert forall i :: 1 <= i < |heap| ==> heap[i] == heap[1..][i - 1];
      if EntryLe(heap[0], heap[k]) then 0 else k
  }

  /** The heap after popping position `k`. */
  function RemoveAt(heap: seq<Entry>, k: nat): (rest: seq<Entry>)
    requires k < |heap|
    ensures |rest| == |heap| - 1
    ensures forall i :: 0 <= i < |rest| ==> rest[i] == if i < k then heap[i] else heap[i + 1]
    ensures forall e :: e in heap && e != heap[k] ==> e in rest
  {
    var rest := heap[..k] + heap[k + 1..];
    assert forall e :: e in heap && e != heap[k] ==> e in rest by {
      forall e | e in heap && e != heap[k]
        ensures e in rest
      {
        var i :| 0 <= i < |heap| && heap[i] == e;
        if i < k {
          assert rest[i] == e;
        } else {
          assert rest[i - 1] == e;
        }
      }
    }
    rest
  }

  /**
   * The counters of the queue: none above the last one handed out, and no
   * two entries sharing one (each push takes a fresh `contador`).
   */
  predicate QueueCounted(heap: seq<Entry>, counter: nat) {
    && (forall i :: 0 <= i < |heap| ==> heap[i].counter <= counter)
    && (forall i, j :: 0 <= i < |heap| && 0 <= j < |heap| && heap[i].counter == heap[j].counter ==> i == j)
  }

  /**
   * With distinct counters only one entry precedes all others, so a binary
   * heap pops the very entry `MinIndex` picks, whatever its layout.
   */
  lemma LeastUnique(heap: seq<Entry>, counter: nat, k: nat)
    requires QueueCounted(heap, counter) && k < |heap|
    requires forall i :: 0 <= i < |heap| ==> EntryLe(heap[k], heap[i])
    ensures k == MinIndex(heap)
  {
    var m := MinIndex(heap);
    assert EntryLe(heap[k], heap[m]) && EntryLe(heap[m], heap[k]);
  }

  /** Popping keeps the counters distinct and bounded. */
  lemma CountedPop(heap: seq<Entry>, counter: nat, k: nat)
    requires QueueCounted(heap, counter) && k < |heap|
    ensures QueueCounted(RemoveAt(heap, k), counter)
  {
    var rest := RemoveAt(heap, k);
    forall i | 0 <= i < |rest|
      ensures rest[i] == heap[if i < k then i else i + 1]
    {
    }
  }

  /** Pushing an entry with the next counter keeps the counters distinct and bounded by it. */
  lemma CountedPush(heap: seq<Entry>, counter: nat, e: Entry)
    requires QueueCounted(heap, counter) && e.counter == counter + 1
    ensures QueueCounted(heap + [e], counter + 1)
  {
    var heap' := heap + [e];
    forall i | 0 <= i < |heap|
      ensures heap'[i] == heap[i]
    {
    }
  }

  /** `b` is listed among the neighbours of `a`. */
  predicate Linked(adj: map<string, seq<string>>, a: string, b: string) {
    a in adj && b in adj[a]
  }

  /** Every node has a neighbour list, and every listed neighbour is a node. */
  ghost predicate WellFormed<T>(pos: map<string, T>, adj: map<string, seq<string>>) {
    && adj.Keys == pos.Keys
    && (forall a, b :: Linked(adj, a, b) ==> b in pos)
  }

  /** `P` leads from `a` to `b` through known nodes, each step to a listed neighbour. */
  ghost predicate Walk<T>(pos: map<string, T>, adj: map<string, seq<string>>, P: seq<string>, a: string, b: string) {
    && |P| > 0 && P[0] == a && P[|P| - 1] == b
    && (forall i :: 0 <= i < |P| ==> P[i] in pos)
    && (forall i :: 0 <= i < |P| - 1 ==> Linked(adj, P[i], P[i + 1]))
  }

  ghost predicate Reachable<T>(pos: map<string, T>, adj: map<string, seq<string>>, a: string, b: string) {
    exists P :: Walk(pos, adj, P, a, b)
  }

  /** The sum of the distances between consecutive nodes of `P`. */
  function Cost<T>(pos: map<string, T>, dist: (T, T) -> real, P: seq<string>): real
    requires forall i :: 0 <= i < |P| ==> P[i] in pos
  {
    if |P| <= 1 then 0.0 else dist(pos[P[0]], pos[P[1]]) + Cost(pos, dist, P[1..])
  }

  /** Distances that are non-negative, symmetric and obey the triangle inequality. */
  ghost predicate Metric<T(!new)>(dist: (T, T) -> real) {
    && (forall p, q :: dist(p, q) >= 0.0)
    && (forall p, q :: dist(p, q) == dist(q, p))
    && (forall p, q, r {:trigger dist(p, q), dist(q, r), dist(p, r)} :: dist(p, r) <= dist(p, q) + dist(q, r))
  }

  /** No walk from `origin` to `c` is cheaper than `x`. */
  ghost predicate ShortestTo<T>(pos: map<string, T>, adj: map<string, seq<string>>, dist: (T, T) -> real,
                                origin: string, c: string, x: real) {
    forall P :: Walk(pos, adj, P, origin, c) ==> x <= Cost(pos, dist, P)
  }

  /** Extending a walk by one step adds the distance of that step. */
  lemma {:induction false} CostSnoc<T>(pos: map<string, T>, dist: (T, T) -> real, P: seq<string>, x: string)
    requires |P| > 0 && x in pos
    requires forall i :: 0 <= i < |P| ==> P[i] in pos
    ensures Cost(pos, dist, P + [x]) == Cost(pos, dist, P) + dist(pos[P[|P| - 1]], pos[x])
  {
    if |P| > 1 {
      assert (P + [x])[1..] == P[1..] + [x];
      CostSnoc(pos, dist, P[1..], x);
    }
  }

  /** Cutting a walk at node `k` splits its cost. */
  lemma {:induction false} CostSplit<T>(pos: map<string, T>, dist: (T, T) -> real, P: seq<string>, k: nat)
    requires k < |P|
    requires forall i :: 0 <= i < |P| ==> P[i] in pos
    ensures Cost(pos, dist, P) == Cost(pos, dist, P[..k + 1]) + Cost(pos, dist, P[k..])
  {
    if k > 0 {
      assert P[1..][..k] == P[1..k + 1];
      assert P[1..][k - 1..] == P[k..];
      CostSplit(pos, dist, P[1..], k - 1);
    }
  }

  lemma {:induction false} CostNonneg<T(!new)>(pos: map<string, T>, dist: (T, T) -> real, P: seq<string>)
    requires Metric(dist)
    requires forall i :: 0 <= i < |P| ==> P[i] in pos
    ensures Cost(pos, dist, P) >= 0.0
  {
    if |P| > 1 {
      CostNonneg(pos, dist, P[1..]);
    }
  }

  /**
   * The straight-line distance to a target never exceeds the cost of a walk
   * to a node plus that node's straight-line distance: the A* heuristic is
   * consistent.
   */
  lemma {:induction false} TriangleAlongWalk<T(!new)>(pos: map<string, T>, dist: (T, T) -> real, P: seq<string>, t: T)
    requires Metric(dist) && |P| > 0
    requires forall i :: 0 <= i < |P| ==> P[i] in pos
    ensures dist(pos[P[0]], t) <= Cost(pos, dist, P) + dist(pos[P[|P| - 1]], t)
  {
    if |P| > 1 {
      TriangleAlongWalk(pos, dist, P[1..], t);
    }
  }

  /** A walk that starts inside `S` and ends outside it has a step that leaves `S`. */
  lemma {:induction false} LeavingStep(P: seq<string>, S: set<string>) returns (k: nat)
    requires |P| > 0 && P[0] in S && P[|P| - 1] !in S
    ensures k + 1 < |P| && P[k] in S && P[k + 1] !in S
  {
    if P[1] in S {
      k := LeavingStep(P[1..], S);
      k := k + 1;
    } else {
      k := 0;
    }
  }

  /** A walk that starts in a set closed under listed neighbours stays in it. */
  lemma {:induction false} WalkStaysIn<T>(pos: map<string, T>, adj: map<string, seq<string>>, S: set<string>, P: seq<string>)
    requires |P| > 0 && P[0] in S
    requires forall i :: 0 <= i < |P| ==> P[i] in pos
    requires forall i :: 0 <= i < |P| - 1 ==> Linked(adj, P[i], P[i + 1])
    requires forall x, y :: x in S && Linked(adj, x, y) && y in pos ==> y in S
    ensures P[|P| - 1] in S
  {
    if |P| > 1 {
      assert Linked(adj, P[0], P[1]);
      WalkStaysIn(pos, adj, S, P[1..]);
    }
  }

  /** A set that holds `a`, misses `b`, and keeps every neighbour of its members walls `a` off from `b`. */
  lemma FencedOff<T>(pos: map<string, T>, adj: map<string, seq<string>>, S: set<string>, a: string, b: string)
    requires a in S && b !in S
    requires forall x, y :: x in S && Linked(adj, x, y) && y in pos ==> y in S
    ensures !Reachable(pos, adj, a, b)
  {
    forall P ensures !Walk(pos, adj, P, a, b) {
      if |P| > 0 && P[0] == a && (forall i :: 0 <= i < |P| ==> P[i] in pos)
         && (forall i :: 0 <= i < |P| - 1 ==> Linked(adj, P[i], P[i + 1])) {
        WalkStaysIn(pos, adj, S, P);
      }
    }
  }

  /**
   * What a search leaves behind for reading a path back: every node with a
   * `g_score` other than the origin has a closed parent `veio_de[v]` that
   * lists it as a neighbour, and its score is the parent's plus the step.
   * `rank` numbers the closed nodes in closing order; parents are closed
   * before their closed children.
   */
  ghost predicate Tree<T>(pos: map<string, T>, adj: map<string, seq<string>>, dist: (T, T) -> real, origin: string,
                          g: map<string, real>, cameFrom: map<string, string>, closed: set<string>, rank: map<string, nat>) {
    && origin in g && g[origin] == 0.0 && origin !in cameFrom
    && g.Keys <= pos.Keys
    && (forall v :: v in g <==> v == origin || v in cameFrom)
    && closed <= g.Keys
    && rank.Keys == closed
    && (forall c :: c in rank ==> rank[c] < |closed|)
    && (forall v :: v in cameFrom ==> ParentStep(pos, adj, dist, g, cameFrom, closed, rank, v))
  }

  ghost predicate ParentStep<T>(pos: map<string, T>, adj: map<string, seq<string>>, dist: (T, T) -> real,
                                g: map<string, real>, cameFrom: map<string, string>, closed: set<string>, rank: map<string, nat>,
                                v: string)
    requires v in cameFrom
  {
    var p := cameFrom[v];
    && p in closed && p in g && v in g && p in pos && v in pos && p in rank
    && Linked(adj, p, v)
    && g[v] == g[p] + dist(pos[p], pos[v])
    && (v in closed ==> v in rank && rank[p] < rank[v])
  }

  /** `P` has no repeated node. */
  predicate Simple(P: seq<string>) {
    Distinct(P)
  }

  /**
   * Following `veio_de` back from `dest` (the path reconstruction of both
   * searches) yields a simple walk from the origin whose cost is `dest`'s
   * `g_score`.
   */
  method Reconstruct<T>(pos: map<string, T>, adj: map<string, seq<string>>, dist: (T, T) -> real, origin: string, dest: string,
                        g: map<string, real>, cameFrom: map<string, string>, ghost closed: set<string>, ghost rank: map<string, nat>)
      returns (path: seq<string>)
    requires Tree(pos, adj, dist, origin, g, cameFrom, closed, rank)
    requires dest in g && dest !in closed
    ensures Walk(pos, adj, path, origin, dest)
    ensures Cost(pos, dist, path) == g[dest]
    ensures Simple(path)
  {
    var current := dest;
    path := [current];
    while current in cameFrom
      invariant BackTrail(pos, adj, dist, dest, g, closed, rank, current, path)
      decreases if current in closed then rank[current] else |closed|
    {
      assert ParentStep(pos, adj, dist, g, cameFrom, closed, rank, current);
      var parent := cameFrom[current];
      TrailStep(pos, adj, dist, dest, g, closed, rank, current, parent, path);
      current, path := parent, [parent] + path;
    }
  }

  /**
   * The loop invariant of the path reconstruction: `path` is a simple walk
   * from `current` to `dest` costing the difference of their scores, and
   * every node but its last is closed, in increasing rank.
   */
  ghost predicate BackTrail<T>(pos: map<string, T>, adj: map<string, seq<string>>, dist: (T, T) -> real, dest: string,
                               g: map<string, real>, closed: set<string>, rank: map<string, nat>,
                               current: string, path: seq<string>) {
    && current in g && dest in g && |path| > 0 && path[0] == current
    && Walk(pos, adj, path, current, dest)
    && Cost(pos, dist, path) == g[dest] - g[current]
    && (forall i :: 0 <= i < |path| - 1 ==> path[i] in closed && path[i] in rank)
    && (forall i, j :: 0 <= i < j < |path| - 1 ==> rank[path[i]] < rank[path[j]])
    && Simple(path)
  }

  /** Stepping back to the parent of `current` (a closed node, ranked below `current`) extends the trail. */
  lemma TrailStep<T>(pos: map<string, T>, adj: map<string, seq<string>>, dist: (T, T) -> real, dest: string,
                     g: map<string, real>, closed: set<string>, rank: map<string, nat>,
                     current: string, parent: string, path: seq<string>)
    requires dest !in closed
    requires parent in closed && parent in g && parent in pos && parent in rank && Linked(adj, parent, current)
    requires current in g && current in pos && g[current] == g[parent] + dist(pos[parent], pos[current])
    requires current in closed ==> current in rank && rank[parent] < rank[current]
    requires BackTrail(pos, adj, dist, dest, g, closed, rank, current, path)
    ensures BackTrail(pos, adj, dist, dest, g, closed, rank, parent, [parent] + path)
  {
    var next := [parent] + path;
    assert next[1..] == path;
    if current in closed {
      assert current != dest;
    }
    forall i | 0 <= i < |next| - 1
      ensures next[i] in closed && next[i] in rank
    {
      if i > 0 {
        assert next[i] == path[i - 1];
      }
    }
    forall i, j | 0 <= i < j < |next| - 1
      ensures rank[next[i]] < rank[next[j]]
    {
      if i == 0 {
        if j - 1 > 0 {
          assert rank[path[0]] < rank[path[j - 1]];
        }
      } else {
        assert next[i] == path[i - 1] && next[j] == path[j - 1];
      }
    }
    forall i, j | 0 <= i < j < |next|
      ensures next[i] != next[j]
    {
      if i == 0 && j < |next| - 1 {
        assert rank[next[0]] < rank[next[j]];
      } else if i > 0 {
        assert next[i] == path[i - 1] && next[j] == path[j - 1];
      }
    }
    assert Cost(pos, dist, next) == dist(pos[parent], pos[current]) + Cost(pos, dist, path);
    assert forall i :: 0 <= i < |next| - 1 ==> Linked(adj, next[i], next[i + 1]) by {
      forall i | 0 <= i < |next| - 1
        ensures Linked(adj, next[i], next[i + 1])
      {
        if i > 0 {
          assert next[i] == path[i - 1] && next[i + 1] == path[i];
        }
      }
    }
  }

  /**
   * Every queued entry names a scored node and, apart from the start entry
   * (counter 0, queued before anything is closed), its priority is at least
   * the node's score plus its straight-line distance to the destination.
   */
  ghost predicate QueueSound<T>(pos: map<string, T>, dist: (T, T) -> real, dest: string,
                                heap: seq<Entry>, g: map<string, real>, closed: set<string>) {
    forall i :: 0 <= i < |heap| ==>
      && heap[i].id in g
      && (heap[i].counter == 0 ==> closed == {})
      && (heap[i].counter != 0 ==> heap[i].id in pos && dest in pos &&
                                   heap[i].f >= g[heap[i].id] + dist(pos[heap[i].id], pos[dest]))
  }

  /** Once something is closed, every open scored node is queued with its current score. */
  ghost predicate QueueCurrent<T>(pos: map<string, T>, dist: (T, T) -> real, dest: string,
                                  heap: seq<Entry>, g: map<string, real>, closed: set<string>, cur: map<string, nat>) {
    closed != {} ==>
      forall v :: v in g && v !in closed ==>
        v in cur && v in pos && dest in pos && Entry(g[v] + dist(pos[v], pos[dest]), cur[v], v) in heap
  }

  /** The search begins with the origin alone in the queue and closes it first. */
  predicate Started(origin: string, heap: seq<Entry>, closed: set<string>) {
    && (closed == {} ==> heap == [Entry(0.0, 0, origin)])
    && (closed != {} ==> origin in closed)
  }

  /** Every open neighbour of a closed node is scored. */
  ghost predicate Reached(adj: map<string, seq<string>>, g: map<string, real>, closed: set<string>) {
    forall c, v :: c in closed && Linked(adj, c, v) && v !in closed ==> v in g
  }

  /** Every open neighbour of a closed node is scored no worse than through that node. */
  ghost predicate Relaxed<T>(pos: map<string, T>, adj: map<string, seq<string>>, dist: (T, T) -> real,
                             g: map<string, real>, closed: set<string>) {
    forall c, v :: c in closed && Linked(adj, c, v) && v !in closed ==> StepRelaxed(pos, dist, g, c, v)
  }

  /** `v` is scored no worse than through its neighbour `c`. */
  ghost predicate StepRelaxed<T>(pos: map<string, T>, dist: (T, T) -> real, g: map<string, real>, c: string, v: string) {
    c in g && v in g && c in pos && v in pos && g[v] <= g[c] + dist(pos[c], pos[v])
  }

  /** Every closed node's score is the length of a shortest walk to it. */
  ghost predicate Settled<T>(pos: map<string, T>, adj: map<string, seq<string>>, dist: (T, T) -> real, origin: string,
                             g: map<string, real>, closed: set<string>) {
    forall c :: c in closed ==> c in g && ShortestTo(pos, adj, dist, origin, c, g[c])
  }

  /** The prefix of a walk up to node `k` is a walk to that node. */
  lemma WalkPrefix<T>(pos: map<string, T>, adj: map<string, seq<string>>, P: seq<string>, a: string, b: string, k: nat)
    requires Walk(pos, adj, P, a, b) && k < |P|
    ensures Walk(pos, adj, P[..k + 1], a, P[k])
  {
  }

  /**
   * The heart of A*: under a metric, the node an entry popped from the queue
   * names has, if it is still open, a score no walk beats.
   */
  lemma PoppedSettles<T(!new)>(pos: map<string, T>, adj: map<string, seq<string>>, dist: (T, T) -> real,
                               origin: string, dest: string, heap: seq<Entry>, g: map<string, real>,
                               closed: set<string>, cur: map<string, nat>, k: nat)
    requires Metric(dist) && dest in pos
    requires origin in g && g[origin] == 0.0
    requires QueueSound(pos, dist, dest, heap, g, closed) && QueueCurrent(pos, dist, dest, heap, g, closed, cur)
    requires Started(origin, heap, closed)
    requires Relaxed(pos, adj, dist, g, closed) && Settled(pos, adj, dist, origin, g, closed)
    requires k < |heap| && (forall i :: 0 <= i < |heap| ==> EntryLe(heap[k], heap[i]))
    requires heap[k].id !in closed
    ensures heap[k].id in g && ShortestTo(pos, adj, dist, origin, heap[k].id, g[heap[k].id])
  {
    var u := heap[k].id;
    forall P | Walk(pos, adj, P, origin, u)
      ensures g[u] <= Cost(pos, dist, P)
    {
      if closed == {} {
        CostNonneg(pos, dist, P);
      } else {
        var j := LeavingStep(P, closed);
        var c, y := P[j], P[j + 1];
        assert Linked(adj, c, y);
        WalkPrefix(pos, adj, P, origin, u, j);
        var i :| 0 <= i < |heap| && heap[i] == Entry(g[y] + dist(pos[y], pos[dest]), cur[y], y);
        assert EntryLe(heap[k], heap[i]);
        BoundThroughStep(pos, dist, P, j, pos[dest], g[u], g[c], g[y], heap[k].f);
      }
    }
  }

  /**
   * The arithmetic of the settling argument: a walk leaving the closed set
   * at step `j` costs at least the popped node's score.
   */
  lemma BoundThroughStep<T(!new)>(pos: map<string, T>, dist: (T, T) -> real, P: seq<string>, j: nat, t: T,
                                  gu: real, gc: real, gy: real, f: real)
    requires Metric(dist) && j + 1 < |P|
    requires forall i :: 0 <= i < |P| ==> P[i] in pos
    requires gc <= Cost(pos, dist, P[..j + 1])
    requires gy <= gc + dist(pos[P[j]], pos[P[j + 1]])
    requires f <= gy + dist(pos[P[j + 1]], t)
    requires f >= gu + dist(pos[P[|P| - 1]], t)
    ensures gu <= Cost(pos, dist, P)
  {
    TriangleAlongWalk(pos, dist, P[j + 1..], t);
    CostSplit(pos, dist, P, j + 1);
    CostSplit(pos, dist, P[..j + 2], j);
    assert P[..j + 2][..j + 1] == P[..j + 1];
    assert P[..j + 2][j..] == [P[j], P[j + 1]];
  }
  /**
   * The loop invariant of the lazy-deletion search (`calcular_rota`, which
   * pushes a fresh entry whenever a score improves and skips closed nodes
   * when popped).
   */
  ghost predicate LazyInv<T(!new)>(pos: map<string, T>, adj: map<string, seq<string>>, dist: (T, T) -> real,
                                  origin: string, dest: string, heap: seq<Entry>, g: map<string, real>,
                                  cameFrom: map<string, string>, closed: set<string>, rank: map<string, nat>,
                                  cur: map<string, nat>, counter: nat) {
    && LazyCore(pos, adj, dist, origin, dest, heap, g, cameFrom, closed, rank, cur, counter)
    && Relaxed(pos, adj, dist, g, closed)
  }

  /** The part of the invariant that also holds while a node's neighbours are being relaxed. */
  ghost predicate LazyCore<T(!new)>(pos: map<string, T>, adj: map<string, seq<string>>, dist: (T, T) -> real,
                                   origin: string, dest: string, heap: seq<Entry>, g: map<string, real>,
                                   cameFrom: map<string, string>, closed: set<string>, rank: map<string, nat>,
                                   cur: map<string, nat>, counter: nat) {
    && Tree(pos, adj, dist, origin, g, cameFrom, closed, rank)
    && dest !in closed
    && QueueSound(pos, dist, dest, heap, g, closed)
    && QueueCurrent(pos, dist, dest, heap, g, closed, cur)
    && Started(origin, heap, closed)
    && (Metric(dist) ==> Settled(pos, adj, dist, origin, g, closed))
    && CountersBelow(heap, counter)
  }

  /** No queued entry carries a counter above `counter`. */
  predicate CountersBelow(heap: seq<Entry>, counter: nat) {
    forall i :: 0 <= i < |heap| ==> heap[i].counter <= counter
  }

  /** Popping an entry keeps the counters bounded. */
  lemma CountersPop(heap: seq<Entry>, counter: nat, k: nat)
    requires CountersBelow(heap, counter) && k < |heap|
    ensures CountersBelow(RemoveAt(heap, k), counter)
  {
    var rest := RemoveAt(heap, k);
    forall i | 0 <= i < |rest|
      ensures rest[i].counter <= counter
    {
      assert rest[i] == heap[if i < k then i else i + 1];
    }
  }

  /** Pushing an entry whose counter is at most `c`, with `c` at least `counter`, bounds the counters by `c`. */
  lemma CountersPush(heap: seq<Entry>, counter: nat, c: nat, e: Entry)
    requires CountersBelow(heap, counter) && counter <= c && e.counter <= c
    ensures CountersBelow(heap + [e], c)
  {
    var heap' := heap + [e];
    forall i | 0 <= i < |heap'|
      ensures heap'[i].counter <= c
    {
      if i < |heap| {
        assert heap'[i] == heap[i];
      }
    }
  }

  /**
   * The invariant while the neighbours `nbrs` of the node `current` just
   * closed are relaxed: the first `j` of them are relaxed, and scores have
   * only fallen since the expansion began (`g0`).
   */
  ghost predicate LazyExpanding<T(!new)>(pos: map<string, T>, adj: map<string, seq<string>>, dist: (T, T) -> real,
                                        origin: string, dest: string, heap: seq<Entry>, g: map<string, real>,
                                        cameFrom: map<string, string>, closed: set<string>, rank: map<string, nat>,
                                        cur: map<string, nat>, counter: nat,
                                        current: string, g0: map<string, real>, nbrs: seq<string>, j: nat) {
    && LazyCore(pos, adj, dist, origin, dest, heap, g, cameFrom, closed, rank, cur, counter)
    && current in closed && current in adj && nbrs == adj[current] && j <= |nbrs|
    && (forall t :: 0 <= t < |nbrs| ==> nbrs[t] in pos)
    && (forall v :: v in g0 ==> v in g && g[v] <= g0[v])
    && (forall c :: c in closed ==> c in g0 && c in g && g[c] == g0[c])
    && (forall c, v :: c in closed && c != current && Linked(adj, c, v) && v !in closed ==> StepRelaxed(pos, dist, g, c, v))
    && (forall t :: 0 <= t < j && nbrs[t] !in closed ==> StepRelaxed(pos, dist, g, current, nbrs[t]))
  }

  /** Removing the popped entry keeps every other open node queued, once something is closed. */
  lemma QueueCurrentPop<T>(pos: map<string, T>, dist: (T, T) -> real, dest: string, heap: seq<Entry>, g: map<string, real>,
                           closed: set<string>, closed': set<string>, cur: map<string, nat>, k: nat)
    requires QueueCurrent(pos, dist, dest, heap, g, closed, cur)
    requires closed != {} && closed <= closed' && k < |heap| && heap[k].id in closed'
    ensures QueueCurrent(pos, dist, dest, RemoveAt(heap, k), g, closed', cur)
  {
    var rest := RemoveAt(heap, k);
    forall v | v in g && v !in closed'
      ensures v in cur && v in pos && dest in pos && Entry(g[v] + dist(pos[v], pos[dest]), cur[v], v) in rest
    {
      assert Entry(g[v] + dist(pos[v], pos[dest]), cur[v], v) in heap;
    }
  }

  lemma QueueSoundPop<T>(pos: map<string, T>, dist: (T, T) -> real, dest: string, heap: seq<Entry>, g: map<string, real>,
                         closed: set<string>, closed': set<string>, k: nat)
    requires QueueSound(pos, dist, dest, heap, g, closed)
    requires closed <= closed' && k < |heap|
    requires closed == {} ==> |heap| == 1
    ensures QueueSound(pos, dist, dest, RemoveAt(heap, k), g, closed')
  {
    var rest := RemoveAt(heap, k);
    forall i | 0 <= i < |rest|
      ensures rest[i] == heap[if i < k then i else i + 1]
    {
    }
  }

  /** Closing a scored node keeps the search tree, with the node ranked last. */
  lemma TreeClose<T>(pos: map<string, T>, adj: map<string, seq<string>>, dist: (T, T) -> real, origin: string,
                     g: map<string, real>, cameFrom: map<string, string>, closed: set<string>, rank: map<string, nat>,
                     current: string)
    requires Tree(pos, adj, dist, origin, g, cameFrom, closed, rank)
    requires current in g && current !in closed
    ensures Tree(pos, adj, dist, origin, g, cameFrom, closed + {current}, rank[current := |closed|])
  {
    var closed', rank' := closed + {current}, rank[current := |closed|];
    RanksClose(closed, rank, current, closed', rank');
    forall v | v in cameFrom
      ensures ParentStep(pos, adj, dist, g, cameFrom, closed', rank', v)
    {
      ParentStepClose(pos, adj, dist, g, cameFrom, closed, rank, current, v);
    }
  }

  /** Ranking the newly closed `current` as `|closed|` keeps every rank below the number of closed nodes. */
  lemma RanksClose(closed: set<string>, rank: map<string, nat>, current: string,
                   closed': set<string>, rank': map<string, nat>)
    requires rank.Keys == closed && current !in closed
    requires forall c :: c in rank ==> rank[c] < |closed|
    requires closed' == closed + {current} && rank' == rank[current := |closed|]
    ensures rank'.Keys == closed'
    ensures forall c :: c in rank' ==> rank'[c] < |closed'|
  {
    assert |closed'| == |closed| + 1;
    forall c | c in rank'
      ensures rank'[c] < |closed'|
    {
      if c != current {
        assert c in rank;
      }
    }
  }

  /** Closing `current`, ranked after every closed node, keeps the parent step of `v`. */
  lemma ParentStepClose<T>(pos: map<string, T>, adj: map<string, seq<string>>, dist: (T, T) -> real,
                           g: map<string, real>, cameFrom: map<string, string>, closed: set<string>, rank: map<string, nat>,
                           current: string, v: string)
    requires v in cameFrom && ParentStep(pos, adj, dist, g, cameFrom, closed, rank, v)
    requires current !in closed && forall c :: c in rank ==> rank[c] < |closed|
    ensures ParentStep(pos, adj, dist, g, cameFrom, closed + {current}, rank[current := |closed|], v)
  {
    var p, rank' := cameFrom[v], rank[current := |closed|];
    assert p != current && rank'[p] == rank[p];
    if v in closed {
      assert v != current && rank'[v] == rank[v];
    }
  }

  /** Before anything is closed, the origin is the only scored node. */
  lemma TreeStart<T>(pos: map<string, T>, adj: map<string, seq<string>>, dist: (T, T) -> real, origin: string,
                     g: map<string, real>, cameFrom: map<string, string>, rank: map<string, nat>)
    requires Tree(pos, adj, dist, origin, g, cameFrom, {}, rank)
    ensures g.Keys == {origin}
  {
    assert forall v :: v in cameFrom ==> ParentStep(pos, adj, dist, g, cameFrom, {}, rank, v);
  }

  /** Scoring an open neighbour of a closed node through that node keeps the search tree. */
  lemma TreeExtend<T>(pos: map<string, T>, adj: map<string, seq<string>>, dist: (T, T) -> real, origin: string,
                      g: map<string, real>, cameFrom: map<string, string>, closed: set<string>, rank: map<string, nat>,
                      current: string, v: string)
    requires Tree(pos, adj, dist, origin, g, cameFrom, closed, rank)
    requires current in closed && v !in closed && origin in closed && Linked(adj, current, v) && v in pos
    ensures current in g && current in pos
    ensures Tree(pos, adj, dist, origin, g[v := g[current] + dist(pos[current], pos[v])], cameFrom[v := current], closed, rank)
  {
    var g', cameFrom' := g[v := g[current] + dist(pos[current], pos[v])], cameFrom[v := current];
    forall w | w in cameFrom'
      ensures ParentStep(pos, adj, dist, g', cameFrom', closed, rank, w)
    {
      if w != v {
        assert ParentStep(pos, adj, dist, g, cameFrom, closed, rank, w);
      }
    }
  }

  lemma QueueSoundPush<T>(pos: map<string, T>, dist: (T, T) -> real, dest: string, heap: seq<Entry>, g: map<string, real>,
                          closed: set<string>, v: string, t: real, c: nat)
    requires QueueSound(pos, dist, dest, heap, g, closed)
    requires v in pos && dest in pos && c != 0 && (v in g ==> t < g[v])
    ensures QueueSound(pos, dist, dest, heap + [Entry(t + dist(pos[v], pos[dest]), c, v)], g[v := t], closed)
  {
    var heap' := heap + [Entry(t + dist(pos[v], pos[dest]), c, v)];
    forall i | 0 <= i < |heap|
      ensures heap'[i] == heap[i]
    {
    }
  }

  lemma QueueCurrentPush<T>(pos: map<string, T>, dist: (T, T) -> real, dest: string, heap: seq<Entry>, g: map<string, real>,
                            closed: set<string>, cur: map<string, nat>, v: string, t: real, c: nat)
    requires QueueCurrent(pos, dist, dest, heap, g, closed, cur)
    requires v in pos && dest in pos && v !in closed
    ensures QueueCurrent(pos, dist, dest, heap + [Entry(t + dist(pos[v], pos[dest]), c, v)], g[v := t], closed, cur[v := c])
  {
    var e := Entry(t + dist(pos[v], pos[dest]), c, v);
    var heap', g', cur' := heap + [e], g[v := t], cur[v := c];
    if closed != {} {
      forall w | w in g' && w !in closed
        ensures w in cur' && w in pos && dest in pos && Entry(g'[w] + dist(pos[w], pos[dest]), cur'[w], w) in heap'
      {
        if w == v {
          assert heap'[|heap|] == e;
        } else {
          assert Entry(g[w] + dist(pos[w], pos[dest]), cur[w], w) in heap;
        }
      }
    }
  }

  /** Rescoring an open node leaves the closed nodes settled. */
  lemma SettledRescore<T(!new)>(pos: map<string, T>, adj: map<string, seq<string>>, dist: (T, T) -> real, origin: string,
                                g: map<string, real>, closed: set<string>, v: string, t: real)
    requires (Metric(dist) ==> Settled(pos, adj, dist, origin, g, closed)) && v !in closed
    ensures Metric(dist) ==> Settled(pos, adj, dist, origin, g[v := t], closed)
  {
    if Metric(dist) {
      forall c | c in closed
        ensures c in g[v := t] && ShortestTo(pos, adj, dist, origin, c, g[v := t][c])
      {
        assert ShortestTo(pos, adj, dist, origin, c, g[c]);
      }
    }
  }

  /** Closing a node whose score is shortest keeps the closed nodes settled. */
  lemma SettledClose<T>(pos: map<string, T>, adj: map<string, seq<string>>, dist: (T, T) -> real, origin: string,
                        g: map<string, real>, closed: set<string>, current: string)
    requires Settled(pos, adj, dist, origin, g, closed)
    requires current in g && ShortestTo(pos, adj, dist, origin, current, g[current])
    ensures Settled(pos, adj, dist, origin, g, closed + {current})
  {
  }

  /** The search starts with only the origin scored and queued. */
  lemma LazyStart<T(!new)>(pos: map<string, T>, adj: map<string, seq<string>>, dist: (T, T) -> real, origin: string, dest: string)
    requires origin in pos && dest in pos
    ensures LazyInv(pos, adj, dist, origin, dest, [Entry(0.0, 0, origin)], map[origin := 0.0], map[], {}, map[], map[], 0)
  {
  }

  /** Closing one more node shrinks the set of nodes not yet closed. */
  lemma CloseShrinks(nodes: set<string>, closed: set<string>, x: string)
    requires x in nodes && x !in closed
    ensures |nodes - (closed + {x})| < |nodes - closed|
  {
    assert nodes - closed == (nodes - (closed + {x})) + {x};
  }

  /** Popping a stale entry of a closed node keeps the invariant. */
  lemma LazySkip<T(!new)>(pos: map<string, T>, adj: map<string, seq<string>>, dist: (T, T) -> real,
                          origin: string, dest: string, heap: seq<Entry>, g: map<string, real>,
                          cameFrom: map<string, string>, closed: set<string>, rank: map<string, nat>,
                          cur: map<string, nat>, counter: nat, k: nat)
    requires LazyInv(pos, adj, dist, origin, dest, heap, g, cameFrom, closed, rank, cur, counter)
    requires k < |heap| && heap[k].id in closed
    ensures LazyInv(pos, adj, dist, origin, dest, RemoveAt(heap, k), g, cameFrom, closed, rank, cur, counter)
  {
    QueueCurrentPop(pos, dist, dest, heap, g, closed, closed, cur, k);
    QueueSoundPop(pos, dist, dest, heap, g, closed, closed, k);
  }

  /** Closing the popped node `current` starts the relaxation of its neighbours. */
  lemma LazyClose<T(!new)>(pos: map<string, T>, adj: map<string, seq<string>>, dist: (T, T) -> real,
                           origin: string, dest: string, heap: seq<Entry>, g: map<string, real>,
                           cameFrom: map<string, string>, closed: set<string>, rank: map<string, nat>,
                           cur: map<string, nat>, counter: nat, k: nat)
    requires WellFormed(pos, adj)
    requires LazyInv(pos, adj, dist, origin, dest, heap, g, cameFrom, closed, rank, cur, counter)
    requires k < |heap| && heap[k].id !in closed && heap[k].id != dest
    requires heap[k].id in g && (Metric(dist) ==> ShortestTo(pos, adj, dist, origin, heap[k].id, g[heap[k].id]))
    ensures var current := heap[k].id;
            LazyExpanding(pos, adj, dist, origin, dest, RemoveAt(heap, k), g, cameFrom, closed + {current},
                          rank[current := |closed|], cur, counter, current, g, adj[current], 0)
  {
    var current := heap[k].id;
    CoreClose(pos, adj, dist, origin, dest, heap, g, cameFrom, closed, rank, cur, counter, k);
    var closed' := closed + {current};
    assert forall t :: 0 <= t < |adj[current]| ==> Linked(adj, current, adj[current][t]);
    forall c, v | c in closed' && c != current && Linked(adj, c, v) && v !in closed'
      ensures StepRelaxed(pos, dist, g, c, v)
    {
    }
  }

  lemma CoreClose<T(!new)>(pos: map<string, T>, adj: map<string, seq<string>>, dist: (T, T) -> real,
                           origin: string, dest: string, heap: seq<Entry>, g: map<string, real>,
                           cameFrom: map<string, string>, closed: set<string>, rank: map<string, nat>,
                           cur: map<string, nat>, counter: nat, k: nat)
    requires LazyCore(pos, adj, dist, origin, dest, heap, g, cameFrom, closed, rank, cur, counter)
    requires k < |heap| && heap[k].id !in closed && heap[k].id != dest
    requires heap[k].id in g && (Metric(dist) ==> ShortestTo(pos, adj, dist, origin, heap[k].id, g[heap[k].id]))
    ensures var current := heap[k].id;
            LazyCore(pos, adj, dist, origin, dest, RemoveAt(heap, k), g, cameFrom, closed + {current},
                     rank[current := |closed|], cur, counter)
  {
    var current := heap[k].id;
    var rest := RemoveAt(heap, k);
    var closed' := closed + {current};
    TreeClose(pos, adj, dist, origin, g, cameFrom, closed, rank, current);
    QueueSoundPop(pos, dist, dest, heap, g, closed, closed', k);
    if closed == {} {
      TreeStart(pos, adj, dist, origin, g, cameFrom, rank);
      assert QueueCurrent(pos, dist, dest, rest, g, closed', cur);
    } else {
      QueueCurrentPop(pos, dist, dest, heap, g, closed, closed', cur, k);
    }
    if Metric(dist) {
      SettledClose(pos, adj, dist, origin, g, closed, current);
    }
    CountersPop(heap, counter, k);
  }

  /** Relaxing neighbour `nbrs[j]` when its score improves advances the expansion. */
  lemma LazyImprove<T(!new)>(pos: map<string, T>, adj: map<string, seq<string>>, dist: (T, T) -> real,
                             origin: string, dest: string, heap: seq<Entry>, g: map<string, real>,
                             cameFrom: map<string, string>, closed: set<string>, rank: map<string, nat>,
                             cur: map<string, nat>, counter: nat,
                             current: string, g0: map<string, real>, nbrs: seq<string>, j: nat,
                             t: real, heap': seq<Entry>, g': map<string, real>, cameFrom': map<string, string>,
                             cur': map<string, nat>, counter': nat, next: nat)
    requires dest in pos
    requires LazyExpanding(pos, adj, dist, origin, dest, heap, g, cameFrom, closed, rank, cur, counter, current, g0, nbrs, j)
    requires j < |nbrs| && nbrs[j] !in closed && next == j + 1
    requires current in g && current in pos
    requires t == g[current] + dist(pos[current], pos[nbrs[j]])
    requires nbrs[j] !in g || t < g[nbrs[j]]
    requires counter' == counter + 1
    requires heap' == heap + [Entry(t + dist(pos[nbrs[j]], pos[dest]), counter', nbrs[j])]
    requires g' == g[nbrs[j] := t] && cameFrom' == cameFrom[nbrs[j] := current] && cur' == cur[nbrs[j] := counter']
    ensures LazyExpanding(pos, adj, dist, origin, dest, heap', g', cameFrom', closed, rank, cur', counter',
                          current, g0, nbrs, next)
  {
    var v := nbrs[j];
    assert Linked(adj, current, v);
    CoreImprove(pos, adj, dist, origin, dest, heap, g, cameFrom, closed, rank, cur, counter, current, v, t, heap', g', cameFrom', cur', counter');
    RelaxedImprove(pos, adj, dist, g, closed, current, g0, nbrs, j, t, g');
  }

  /** The relaxation part of `LazyImprove`. */
  lemma RelaxedImprove<T>(pos: map<string, T>, adj: map<string, seq<string>>, dist: (T, T) -> real,
                          g: map<string, real>, closed: set<string>, current: string, g0: map<string, real>,
                          nbrs: seq<string>, j: nat, t: real, g': map<string, real>)
    requires j < |nbrs| && nbrs[j] !in closed && current in closed && nbrs[j] in pos
    requires current in g && current in pos
    requires t == g[current] + dist(pos[current], pos[nbrs[j]])
    requires nbrs[j] !in g || t < g[nbrs[j]]
    requires g' == g[nbrs[j] := t]
    requires forall v :: v in g0 ==> v in g && g[v] <= g0[v]
    requires forall c :: c in closed ==> c in g0 && c in g && g[c] == g0[c]
    requires forall c, v :: c in closed && c != current && Linked(adj, c, v) && v !in closed ==> StepRelaxed(pos, dist, g, c, v)
    requires forall s :: 0 <= s < j && nbrs[s] !in closed ==> StepRelaxed(pos, dist, g, current, nbrs[s])
    ensures forall v :: v in g0 ==> v in g' && g'[v] <= g0[v]
    ensures forall c :: c in closed ==> c in g0 && c in g' && g'[c] == g0[c]
    ensures forall c, v :: c in closed && c != current && Linked(adj, c, v) && v !in closed ==> StepRelaxed(pos, dist, g', c, v)
    ensures forall s :: 0 <= s < j + 1 && nbrs[s] !in closed ==> StepRelaxed(pos, dist, g', current, nbrs[s])
  {
    var v := nbrs[j];
    assert current != v && g'[current] == g[current];
    forall c, w | c in closed && c != current && Linked(adj, c, w) && w !in closed
      ensures StepRelaxed(pos, dist, g', c, w)
    {
      assert StepRelaxed(pos, dist, g, c, w);
    }
    StepRelaxedThrough(pos, dist, g, current, v, t);
    forall s | 0 <= s < j + 1 && nbrs[s] !in closed
      ensures StepRelaxed(pos, dist, g', current, nbrs[s])
    {
      if nbrs[s] != v {
        assert StepRelaxed(pos, dist, g, current, nbrs[s]);
      }
    }
    forall w | w in g0
      ensures w in g' && g'[w] <= g0[w]
    {
    }
    forall c | c in closed
      ensures c in g0 && c in g' && g'[c] == g0[c]
    {
      assert c != v;
    }
  }

  /** A node just scored through `c` is relaxed with respect to `c`. */
  lemma StepRelaxedThrough<T>(pos: map<string, T>, dist: (T, T) -> real, g: map<string, real>, c: string, v: string, t: real)
    requires c in g && c in pos && v in pos && c != v && t == g[c] + dist(pos[c], pos[v])
    ensures StepRelaxed(pos, dist, g[v := t], c, v)
  {
  }

  lemma CoreImprove<T(!new)>(pos: map<string, T>, adj: map<string, seq<string>>, dist: (T, T) -> real,
                             origin: string, dest: string, heap: seq<Entry>, g: map<string, real>,
                             cameFrom: map<string, string>, closed: set<string>, rank: map<string, nat>,
                             cur: map<string, nat>, counter: nat, current: string, v: string,
                             t: real, heap': seq<Entry>, g': map<string, real>, cameFrom': map<string, string>,
                             cur': map<string, nat>, counter': nat)
    requires dest in pos && v in pos && current in closed && v !in closed && Linked(adj, current, v)
    requires LazyCore(pos, adj, dist, origin, dest, heap, g, cameFrom, closed, rank, cur, counter)
    requires current in g && current in pos
    requires t == g[current] + dist(pos[current], pos[v])
    requires v !in g || t < g[v]
    requires counter' == counter + 1
    requires heap' == heap + [Entry(t + dist(pos[v], pos[dest]), counter', v)]
    requires g' == g[v := t] && cameFrom' == cameFrom[v := current] && cur' == cur[v := counter']
    ensures LazyCore(pos, adj, dist, origin, dest, heap', g', cameFrom', closed, rank, cur', counter')
  {
    assert origin in closed;
    TreeExtend(pos, adj, dist, origin, g, cameFrom, closed, rank, current, v);
    assert g' == g[v := g[current] + dist(pos[current], pos[v])];
    QueueSoundPush(pos, dist, dest, heap, g, closed, v, t, counter');
    QueueCurrentPush(pos, dist, dest, heap, g, closed, cur, v, t, counter');
    SettledRescore(pos, adj, dist, origin, g, closed, v, t);
    CountersPush(heap, counter, counter', Entry(t + dist(pos[v], pos[dest]), counter', v));
  }

  /** Passing over a closed neighbour, or one whose score does not improve, advances the expansion. */
  lemma LazyKeep<T(!new)>(pos: map<string, T>, adj: map<string, seq<string>>, dist: (T, T) -> real,
                          origin: string, dest: string, heap: seq<Entry>, g: map<string, real>,
                          cameFrom: map<string, string>, closed: set<string>, rank: map<string, nat>,
                          cur: map<string, nat>, counter: nat,
                          current: string, g0: map<string, real>, nbrs: seq<string>, j: nat)
    requires LazyExpanding(pos, adj, dist, origin, dest, heap, g, cameFrom, closed, rank, cur, counter, current, g0, nbrs, j)
    requires j < |nbrs|
    requires nbrs[j] !in closed ==> current in g && current in pos && nbrs[j] in g &&
                                    g[nbrs[j]] <= g[current] + dist(pos[current], pos[nbrs[j]])
    ensures LazyExpanding(pos, adj, dist, origin, dest, heap, g, cameFrom, closed, rank, cur, counter, current, g0, nbrs, j + 1)
  {
  }

  /** Once every neighbour is relaxed, the loop invariant holds again. */
  lemma LazyFinish<T(!new)>(pos: map<string, T>, adj: map<string, seq<string>>, dist: (T, T) -> real,
                            origin: string, dest: string, heap: seq<Entry>, g: map<string, real>,
                            cameFrom: map<string, string>, closed: set<string>, rank: map<string, nat>,
                            cur: map<string, nat>, counter: nat,
                            current: string, g0: map<string, real>, nbrs: seq<string>)
    requires LazyExpanding(pos, adj, dist, origin, dest, heap, g, cameFrom, closed, rank, cur, counter, current, g0, nbrs, |nbrs|)
    ensures LazyInv(pos, adj, dist, origin, dest, heap, g, cameFrom, closed, rank, cur, counter)
  {
    forall c, v | c in closed && Linked(adj, c, v) && v !in closed
      ensures StepRelaxed(pos, dist, g, c, v)
    {
      if c == current {
        var t :| 0 <= t < |nbrs| && nbrs[t] == v;
      }
    }
  }

  /** An empty queue means the closed nodes fence the origin off from the destination. */
  lemma LazyExhausted<T(!new)>(pos: map<string, T>, adj: map<string, seq<string>>, dist: (T, T) -> real,
                               origin: string, dest: string, g: map<string, real>,
                               cameFrom: map<string, string>, closed: set<string>, rank: map<string, nat>,
                               cur: map<string, nat>, counter: nat)
    requires LazyInv(pos, adj, dist, origin, dest, [], g, cameFrom, closed, rank, cur, counter)
    ensures !Reachable(pos, adj, origin, dest)
  {
    assert forall v :: v in g ==> v in closed;
    assert forall x, y :: x in closed && Linked(adj, x, y) && y in pos ==> y in closed;
    FencedOff(pos, adj, closed, origin, dest);
  }
}
