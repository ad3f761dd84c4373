/** Sequences of record ids as the listing endpoints return them:
    duplicate-free, and for the order listings sorted by a timestamp,
    newest first (the `sort('-createdAt')` and `sort('-updatedAt')` of the
    queries). */
module Listing {
  import opened Common

  predicate Distinct<T(==)>(s: seq<T>) {
    forall i, j :: 0 <= i < j < |s| ==> s[i] != s[j]
  }

  /** A duplicate-free sequence has as many elements as its set. */
  lemma {:induction false} DistinctCardinality<T>(s: seq<T>)
    requires Distinct(s)
    ensures |set x | x in s| == |s|
  {
    if |s| > 0 {
      var tail := s[1..];
      assert Distinct(tail);
      DistinctCardinality(tail);
      assert (set x | x in s) == (set x | x in tail) + {s[0]};
      assert s[0] !in tail;
    }
  }

  predicate AllKeyed(s: seq<Id>, key: map<Id, nat>) {
    forall i :: 0 <= i < |s| ==> s[i] in key
  }

  /** Non-increasing by `key`: newest first. */
  predicate SortedDesc(s: seq<Id>, key: map<Id, nat>)
    requires AllKeyed(s, key)
  {
    forall i, j :: 0 <= i < j < |s| ==> key[s[i]] >= key[s[j]]
  }

  /** Insert `x` into a sorted sequence before the first element whose key
      does not exceed its own. */
  function InsertDesc(s: seq<Id>, x: Id, key: map<Id, nat>): (r: seq<Id>)
    requires x in key && AllKeyed(s, key) && SortedDesc(s, key)
    ensures AllKeyed(r, key) && SortedDesc(r, key)
    ensures |r| == |s| + 1
    ensures forall y :: y in r <==> y in s || y == x
    ensures Distinct(s) && x !in s ==> Distinct(r)
  {
    if |s| == 0 || key[s[0]] <= key[x] then [x] + s
    else
      var t := InsertDesc(s[1..], x, key);
      assert forall j :: 0 <= j < |t| ==> key[s[0]] >= key[t[j]] by {
        forall j | 0 <= j < |t| ensures key[s[0]] >= key[t[j]] {
          assert t[j] in s[1..] || t[j] == x;
        }
      }
      assert Distinct(s) && x !in s ==> Distinct(s[1..]) && s[0] !in t;
      [s[0]] + t
  }

  /** The ids of `ids`, each once, ordered newest first by `key`. */
  method SortByKeyDesc(ids: set<Id>, key: map<Id, nat>) returns (r: seq<Id>)
    requires ids <= key.Keys
    ensures forall x :: x in r <==> x in ids
    ensures Distinct(r) && |r| == |ids|
    ensures AllKeyed(r, key) && SortedDesc(r, key)
  {
    r := [];
    var rest := ids;
    while rest != {}
      invariant rest <= ids
      invariant forall x :: x in r <==> x in ids && x !in rest
      invariant Distinct(r)
      invariant AllKeyed(r, key) && SortedDesc(r, key)
      decreases rest
    {
      var x :| x in rest;
      r := InsertDesc(r, x, key);
      rest := rest - {x};
    }
    assert (set x: Id | x in r) == ids;
    DistinctCardinality(r);
  }
}
