/**
 * A Python dict with string keys filled by a sequence of assignments
 * `d[key] = value`: the values, the insertion order of the keys (which the
 * dict's iteration follows), and the neighbour lists both graphs reset for
 * every assigned key.
 */
module Dict {

  /** `d[key] = value` for each assignment in turn. */
  function Put<V>(m: map<string, V>, es: seq<(string, V)>): map<string, V> {
    if es == [] then m
    else
      var e := es[|es| - 1];
      Put(m, es[..|es| - 1])[e.0 := e.1]
  }

  /** The key order of the dict after the assignments: a new key goes last, an old one keeps its place. */
  function KeyOrder<V>(order: seq<string>, es: seq<(string, V)>): seq<string> {
    if es == [] then order
    else
      var o := KeyOrder(order, es[..|es| - 1]);
      var id := es[|es| - 1].0;
      if id in o then o else o + [id]
  }

  /** Every assigned key gets an empty neighbour list. */
  function Cleared<V>(adj: map<string, seq<string>>, es: seq<(string, V)>): map<string, seq<string>> {
    if es == [] then adj
    else
      var e := es[|es| - 1];
      Cleared(adj, es[..|es| - 1])[e.0 := []]
  }

  lemma PutSnoc<V>(m: map<string, V>, order: seq<string>, adj: map<string, seq<string>>, es: seq<(string, V)>, e: (string, V))
    ensures Put(m, es + [e]) == Put(m, es)[e.0 := e.1]
    ensures KeyOrder(order, es + [e]) == (var o := KeyOrder(order, es); if e.0 in o then o else o + [e.0])
    ensures Cleared(adj, es + [e]) == Cleared(adj, es)[e.0 := []]
  {
    assert (es + [e])[..|es|] == es;
  }

  /** The value under a key is the one of the last assignment to it, or the earlier one when none assigns it. */
  lemma {:induction false} PutOrigin<V>(m: map<string, V>, es: seq<(string, V)>, k: string)
    requires k in Put(m, es)
    ensures (exists i :: 0 <= i < |es| && es[i] == (k, Put(m, es)[k])) || (k in m && Put(m, es)[k] == m[k])
  {
    if es != [] {
      var init := es[..|es| - 1];
      var e := es[|es| - 1];
      if e.0 == k {
        assert es[|es| - 1] == (k, Put(m, es)[k]);
      } else {
        PutOrigin(m, init, k);
        if exists i :: 0 <= i < |init| && init[i] == (k, Put(m, init)[k]) {
          var i :| 0 <= i < |init| && init[i] == (k, Put(m, init)[k]);
          assert es[i] == init[i];
        }
      }
    }
  }

  /** `Put(m, es)` holds the keys of `m` and of `es`, and nothing else. */
  lemma {:induction false} PutKeys<V>(m: map<string, V>, es: seq<(string, V)>, k: string)
    ensures k in Put(m, es) <==> k in m || exists i :: 0 <= i < |es| && es[i].0 == k
  {
    if es != [] {
      var init := es[..|es| - 1];
      PutKeys(m, init, k);
      assert forall i :: 0 <= i < |init| ==> init[i] == es[i];
      if exists i :: 0 <= i < |es| && es[i].0 == k {
        var i :| 0 <= i < |es| && es[i].0 == k;
        if i < |init| {
          assert init[i].0 == k;
        }
      }
    }
  }

  /** An assignment that no later one overrides decides the value under its key. */
  lemma {:induction false} PutLast<V>(m: map<string, V>, es: seq<(string, V)>, i: nat)
    requires i < |es|
    requires forall j :: i < j < |es| ==> es[j].0 != es[i].0
    ensures es[i].0 in Put(m, es) && Put(m, es)[es[i].0] == es[i].1
  {
    if i < |es| - 1 {
      PutLast(m, es[..|es| - 1], i);
    }
  }
}
