/** Stable ranking by a key, descending.

    Python's `sorted(xs, key=k, reverse=True)` is stable: items with equal
    keys keep their original relative order.  Both the highlighter (key:
    term length) and the feature explainer (key: absolute weight) rank this
    way.  The ranking is computed on positions: `Rank(keys)` is the list of
    positions `0 .. |keys|-1` in the order the sorted list would hold the
    items at those positions. */
module Ranking {

  /** Position `p` goes before position `q`: larger key first, and on equal
      keys the earlier position first. */
  predicate Before(keys: seq<real>, p: nat, q: nat)
    requires p < |keys| && q < |keys|
  {
    keys[p] > keys[q] || (keys[p] == keys[q] && p < q)
  }

  /** Every entry is a position of `keys`, and the list follows `Before`. */
  predicate Ordered(keys: seq<real>, r: seq<nat>) {
    && (forall a :: 0 <= a < |r| ==> r[a] < |keys|)
    && (forall a, b :: 0 <= a < b < |r| ==> r[a] < |keys| && r[b] < |keys| && Before(keys, r[a], r[b]))
  }

  /** Inserts position `p`, smaller than every position already placed, in
      front of the first placed position whose key is not larger. */
  function Insert(keys: seq<real>, p: nat, ys: seq<nat>): (r: seq<nat>)
    requires p < |keys|
    requires forall a :: 0 <= a < |ys| ==> p < ys[a]
    requires Ordered(keys, ys)
    ensures |r| == |ys| + 1
    ensures forall q :: q in r <==> q == p || q in ys
    ensures Ordered(keys, r)
  {
    if ys == [] then [p]
    else if keys[ys[0]] > keys[p] then
      var rest := Insert(keys, p, ys[1..]);
      HeadBeforeTail(keys, ys);
      assert forall b :: 0 <= b < |rest| ==> rest[b] in rest;
      OrderedCons(keys, ys[0], rest);
      assert ys == [ys[0]] + ys[1..];
      [ys[0]] + rest
    else
      NewHeadBeforeAll(keys, p, ys);
      OrderedCons(keys, p, ys);
      [p] + ys
  }

  /** The head of an ordered list goes before everything after it. */
  lemma HeadBeforeTail(keys: seq<real>, ys: seq<nat>)
    requires Ordered(keys, ys) && ys != []
    ensures forall x :: x in ys[1..] ==> x < |keys| && ys[0] < |keys| && Before(keys, ys[0], x)
  {
    forall x | x in ys[1..] ensures x < |keys| && ys[0] < |keys| && Before(keys, ys[0], x) {
      var b :| 0 <= b < |ys[1..]| && ys[1..][b] == x;
      assert ys[b + 1] == x;
    }
  }

  /** A smaller position whose key is at least the head's goes before the
      whole ordered list. */
  lemma NewHeadBeforeAll(keys: seq<real>, p: nat, ys: seq<nat>)
    requires p < |keys| && Ordered(keys, ys) && ys != []
    requires forall a :: 0 <= a < |ys| ==> p < ys[a]
    requires ys[0] < |keys| && keys[ys[0]] <= keys[p]
    ensures forall b :: 0 <= b < |ys| ==> ys[b] < |keys| && Before(keys, p, ys[b])
  {
    forall b | 0 <= b < |ys| ensures ys[b] < |keys| && Before(keys, p, ys[b]) {
      if b > 0 {
        assert keys[ys[0]] >= keys[ys[b]];
      }
    }
  }

  /** A position that goes before every entry of an ordered list can head it. */
  lemma OrderedCons(keys: seq<real>, x: nat, ys: seq<nat>)
    requires x < |keys| && Ordered(keys, ys)
    requires forall b :: 0 <= b < |ys| ==> ys[b] < |keys| && Before(keys, x, ys[b])
    ensures Ordered(keys, [x] + ys)
  {
  }

  /** The positions `from .. |keys|-1`, ranked. */
  function RankFrom(keys: seq<real>, from: nat): (r: seq<nat>)
    requires from <= |keys|
    ensures |r| == |keys| - from
    ensures forall q :: q in r <==> from <= q < |keys|
    ensures Ordered(keys, r)
    decreases |keys| - from
  {
    if from == |keys| then []
    else
      var rest := RankFrom(keys, from + 1);
      assert forall a :: 0 <= a < |rest| ==> rest[a] in rest;
      Insert(keys, from, rest)
  }

  /** All positions of `keys`, in stable descending key order. */
  function Rank(keys: seq<real>): (r: seq<nat>)
    ensures |r| == |keys|
    ensures forall a :: 0 <= a < |r| ==> r[a] < |keys|
    ensures forall q :: q in r <==> 0 <= q < |keys|
    ensures forall a, b :: 0 <= a < b < |r| ==> r[a] != r[b]
    ensures forall a, b :: 0 <= a < b < |r| ==> keys[r[a]] >= keys[r[b]]
    ensures forall a, b :: 0 <= a < b < |r| && keys[r[a]] == keys[r[b]] ==> r[a] < r[b]
  {
    RankFrom(keys, 0)
  }
}
