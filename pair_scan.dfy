/**
 * The nested loop `for i, a in enumerate(ids): for b in ids[i+1:]` that both
 * graph builders use to look at every unordered pair of nodes once.
 */
module PairScan {

  /** The ids are pairwise different (the keys of a Python dict). */
  predicate Distinct<K(==)>(ids: seq<K>) {
    forall i, j :: 0 <= i < j < |ids| ==> ids[i] != ids[j]
  }

  /** The pairs `(x, rest[0]), (x, rest[1]), ...` of one pass of the inner loop. */
  function Row<K>(x: K, rest: seq<K>): seq<(K, K)> {
    seq(|rest|, k requires 0 <= k < |rest| => (x, rest[k]))
  }

  /** One more step of the inner loop visits one more pair. */
  lemma RowPrefix<K>(before: seq<(K, K)>, x: K, rest: seq<K>, k: nat)
    requires k < |rest|
    ensures before + Row(x, rest)[..k + 1] == (before + Row(x, rest)[..k]) + [(x, rest[k])]
  {
    assert Row(x, rest)[..k + 1] == Row(x, rest)[..k] + [(x, rest[k])];
  }

  /** The prefix up to `j` of `before + Row(x, rest)`, when `j` is `i + 1`. */
  lemma RowPrefixAt<K>(before: seq<(K, K)>, x: K, rest: seq<K>, i: nat, j: nat)
    requires j == i + 1 <= |rest|
    ensures before + Row(x, rest)[..j] == before + Row(x, rest)[..i + 1]
  {
  }

  /** The pairs visited by the first `i` passes of the outer loop, in visiting order. */
  function PairsBefore<K>(ids: seq<K>, i: nat): seq<(K, K)>
    requires i <= |ids|
  {
    if i == 0 then [] else PairsBefore(ids, i - 1) + Row(ids[i - 1], ids[i..])
  }

  /** All pairs `(ids[a], ids[b])` with `a < b`, in the order the nested loop visits them. */
  function Pairs<K>(ids: seq<K>): seq<(K, K)> {
    PairsBefore(ids, |ids|)
  }

  /** `p` is the pair of positions `a < b` of `ids`. */
  predicate PairAt<K(==)>(ids: seq<K>, p: (K, K), a: int, b: int) {
    0 <= a < b < |ids| && p == (ids[a], ids[b])
  }

  /** The first `i` passes visit exactly the pairs whose first position is below `i`. */
  lemma {:induction false} PairsBeforeMembership<K>(ids: seq<K>, i: nat, p: (K, K))
    requires i <= |ids|
    ensures p in PairsBefore(ids, i) <==> exists a, b :: a < i && PairAt(ids, p, a, b)
  {
    if i > 0 {
      PairsBeforeMembership(ids, i - 1, p);
      var row := Row(ids[i - 1], ids[i..]);
      if p in row {
        var k :| 0 <= k < |row| && row[k] == p;
        assert PairAt(ids, p, i - 1, i + k);
      }
      if exists a, b :: a < i && PairAt(ids, p, a, b) {
        var a, b :| a < i && PairAt(ids, p, a, b);
        if a == i - 1 {
          assert row[b - i] == p;
        }
      }
    }
  }

  /** The nested loop visits exactly the pairs of positions `a < b`. */
  lemma PairsMembership<K>(ids: seq<K>, p: (K, K))
    ensures p in Pairs(ids) <==> exists a, b :: PairAt(ids, p, a, b)
  {
    PairsBeforeMembership(ids, |ids|, p);
  }

  /** No pair joins a value to itself and no unordered pair occurs twice, in either orientation. */
  predicate OncePerPair<K(==)>(ps: seq<(K, K)>) {
    && (forall m :: 0 <= m < |ps| ==> ps[m].0 != ps[m].1)
    && (forall m, n :: 0 <= m < n < |ps| ==> ps[m] != ps[n] && ps[m] != (ps[n].1, ps[n].0))
  }

  /**
   * Over distinct ids no pair joins a node to itself, and no unordered pair
   * is visited twice, in either orientation.
   */
  lemma {:induction false} PairsOnce<K>(ids: seq<K>, i: nat)
    requires i <= |ids| && Distinct(ids)
    ensures OncePerPair(PairsBefore(ids, i))
  {
    if i > 0 {
      PairsOnce(ids, i - 1);
      var before := PairsBefore(ids, i - 1);
      var row := Row(ids[i - 1], ids[i..]);
      var ps := PairsBefore(ids, i);
      assert ps == before + row;
      forall m | |before| <= m < |ps|
        ensures ps[m] == (ids[i - 1], ids[i + m - |before|])
        ensures ps[m].0 != ps[m].1
      {
        assert ps[m] == row[m - |before|];
      }
      forall m, n | 0 <= m < n < |ps|
        ensures ps[m] != ps[n] && ps[m] != (ps[n].1, ps[n].0)
      {
        if n < |before| {
          assert ps[m] == before[m] && ps[n] == before[n];
          assert before[m] != before[n] && before[m] != (before[n].1, before[n].0);
        } else if m < |before| {
          assert ps[m] == before[m];
          PairsBeforeMembership(ids, i - 1, ps[m]);
          var a, b :| a < i - 1 && PairAt(ids, ps[m], a, b);
          assert ids[a] != ids[i - 1];
          assert ids[a] != ids[i + n - |before|];
        } else {
          assert ids[i + m - |before|] != ids[i + n - |before|];
          assert ids[i - 1] != ids[i + n - |before|];
        }
      }
      forall m | 0 <= m < |before|
        ensures ps[m].0 != ps[m].1
      {
        assert ps[m] == before[m] && before[m].0 != before[m].1;
      }
    }
  }
}
