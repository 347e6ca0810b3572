/**
 * Both graphs keep a list of undirected edges `(a, b, distance)` and, beside
 * it, a neighbour list per node to which every new edge appends `b` to `a`'s
 * list and then `a` to `b`'s. This module relates the two.
 */
module EdgeList {
  import opened PairScan

  /** One recorded connection `(id1, id2, distancia)`. */
  datatype Edge = Edge(a: string, b: string, length: real)

  /** The endpoints of each edge, in order. */
  function Ends(es: seq<Edge>): (ps: seq<(string, string)>)
    ensures |ps| == |es| && forall i :: 0 <= i < |es| ==> ps[i] == (es[i].a, es[i].b)
  {
    seq(|es|, i requires 0 <= i < |es| => (es[i].a, es[i].b))
  }

  /** What recording `es`, in order, appends to the neighbour list of `u`. */
  function Partners(es: seq<Edge>, u: string): seq<string> {
    if es == [] then []
    else
      var e := es[|es| - 1];
      Partners(es[..|es| - 1], u) + (if e.a == u then [e.b] else []) + (if e.b == u then [e.a] else [])
  }

  /** Every neighbour list after recording `es`. */
  function Attach(adj: map<string, seq<string>>, es: seq<Edge>): (r: map<string, seq<string>>)
    ensures r.Keys == adj.Keys
  {
    map u | u in adj :: adj[u] + Partners(es, u)
  }

  /** Each neighbour list is exactly what the recorded edges appended to it. */
  ghost predicate Mirrored(adj: map<string, seq<string>>, es: seq<Edge>) {
    forall u :: u in adj ==> adj[u] == Partners(es, u)
  }

  /** Recording one edge more appends at most two ids. */
  lemma PartnersSnoc(es: seq<Edge>, e: Edge, u: string)
    ensures Partners(es + [e], u) == Partners(es, u) + (if e.a == u then [e.b] else []) + (if e.b == u then [e.a] else [])
  {
    assert (es + [e])[..|es|] == es;
  }

  /** Recording two batches of edges appends the lists of each batch in turn. */
  lemma {:induction false} PartnersAppend(es: seq<Edge>, fs: seq<Edge>, u: string)
    ensures Partners(es + fs, u) == Partners(es, u) + Partners(fs, u)
  {
    if fs == [] {
      assert es + fs == es;
    } else {
      var init, e := fs[..|fs| - 1], fs[|fs| - 1];
      assert fs == init + [e];
      assert es + fs == (es + init) + [e];
      PartnersAppend(es, init, u);
      PartnersSnoc(es + init, e, u);
      PartnersSnoc(init, e, u);
    }
  }

  /** Attaching two batches one after the other is attaching both. */
  lemma AttachAppend(adj: map<string, seq<string>>, es: seq<Edge>, fs: seq<Edge>)
    ensures Attach(Attach(adj, es), fs) == Attach(adj, es + fs)
  {
    forall u | u in adj
      ensures Attach(Attach(adj, es), fs)[u] == Attach(adj, es + fs)[u]
    {
      PartnersAppend(es, fs, u);
    }
  }

  /** Attaching no edges changes no list. */
  lemma AttachNone(adj: map<string, seq<string>>)
    ensures Attach(adj, []) == adj
  {
    forall u | u in adj
      ensures Attach(adj, [])[u] == adj[u]
    {
      assert adj[u] + [] == adj[u];
    }
  }

  /** Attaching new edges to lists that mirror the old edges leaves lists that mirror all of them. */
  lemma AttachMirrored(adj: map<string, seq<string>>, es: seq<Edge>, fs: seq<Edge>)
    requires Mirrored(adj, es)
    ensures Mirrored(Attach(adj, fs), es + fs)
  {
    forall u | u in adj
      ensures Attach(adj, fs)[u] == Partners(es + fs, u)
    {
      PartnersAppend(es, fs, u);
    }
  }

  /** Recording edge `e` appends `b` to `a`'s list and then `a` to `b`'s, as the source does. */
  lemma AttachOne(adj: map<string, seq<string>>, e: Edge)
    requires e.a in adj && e.b in adj
    ensures var adj1 := adj[e.a := adj[e.a] + [e.b]];
            Attach(adj, [e]) == adj1[e.b := adj1[e.b] + [e.a]]
  {
    var adj1 := adj[e.a := adj[e.a] + [e.b]];
    var adj2 := adj1[e.b := adj1[e.b] + [e.a]];
    forall u | u in adj
      ensures Attach(adj, [e])[u] == adj2[u]
    {
      PartnersSnoc([], e, u);
      assert [] + [e] == [e];
    }
  }

  /** Edges are undirected: `v` is a recorded neighbour of `u` exactly when `u` is one of `v`. */
  lemma {:induction false} PartnersSymmetric(es: seq<Edge>, u: string, v: string)
    ensures v in Partners(es, u) <==> u in Partners(es, v)
  {
    if es != [] {
      PartnersSymmetric(es[..|es| - 1], u, v);
    }
  }

  /** `v` is a recorded neighbour of `u` exactly when some edge joins them. */
  lemma {:induction false} PartnersJoin(es: seq<Edge>, u: string, v: string)
    ensures v in Partners(es, u) <==> exists i :: 0 <= i < |es| && Joins(es[i], u, v)
  {
    if es != [] {
      var init := es[..|es| - 1];
      PartnersJoin(init, u, v);
      assert forall i :: 0 <= i < |init| ==> init[i] == es[i];
      if Joins(es[|es| - 1], u, v) {
      } else if exists i :: 0 <= i < |es| && Joins(es[i], u, v) {
        var i :| 0 <= i < |es| && Joins(es[i], u, v);
        assert i < |init|;
      }
    }
  }

  /** `e` joins `u` and `v`, in either direction. */
  predicate Joins(e: Edge, u: string, v: string) {
    (e.a == u && e.b == v) || (e.a == v && e.b == u)
  }

  /** How often `x` occurs in `ids`. */
  function Occurrences(ids: seq<string>, x: string): nat {
    if ids == [] then 0 else Occurrences(ids[1..], x) + (if ids[0] == x then 1 else 0)
  }

  lemma {:induction false} OccurrencesOfDistinct(ids: seq<string>, x: string)
    requires Distinct(ids)
    ensures Occurrences(ids, x) == if x in ids then 1 else 0
  {
    if ids != [] {
      OccurrencesOfDistinct(ids[1..], x);
    }
  }

  /** The sum of the lengths of the neighbour lists of `ids` after recording `es`. */
  function DegreeSum(ids: seq<string>, es: seq<Edge>): nat {
    if ids == [] then 0 else |Partners(es, ids[0])| + DegreeSum(ids[1..], es)
  }

  lemma {:induction false} DegreeSumSnoc(ids: seq<string>, es: seq<Edge>, e: Edge)
    ensures DegreeSum(ids, es + [e]) == DegreeSum(ids, es) + Occurrences(ids, e.a) + Occurrences(ids, e.b)
  {
    if ids != [] {
      DegreeSumSnoc(ids[1..], es, e);
      PartnersSnoc(es, e, ids[0]);
    }
  }

  /**
   * The handshake lemma: over distinct nodes that include every endpoint,
   * the neighbour lists together are twice as long as the edge list.
   */
  lemma {:induction false} Handshake(ids: seq<string>, es: seq<Edge>)
    requires Distinct(ids)
    requires forall i :: 0 <= i < |es| ==> es[i].a in ids && es[i].b in ids
    ensures DegreeSum(ids, es) == 2 * |es|
  {
    if es == [] {
      DegreeSumEmpty(ids);
    } else {
      var init, e := es[..|es| - 1], es[|es| - 1];
      assert es == init + [e];
      Handshake(ids, init);
      DegreeSumSnoc(ids, init, e);
      OccurrencesOfDistinct(ids, e.a);
      OccurrencesOfDistinct(ids, e.b);
    }
  }

  lemma {:induction false} DegreeSumEmpty(ids: seq<string>)
    ensures DegreeSum(ids, []) == 0
  {
    if ids != [] {
      DegreeSumEmpty(ids[1..]);
    }
  }
}
