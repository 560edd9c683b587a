/** Shared helper types and facts about finite sets and sequences. */
module Basics {
  datatype Option<+T> = None | Some(value: T)

  type Byte = b: int | 0 <= b < 256

  /** Indices below n, each greater than the one before it. */
  ghost predicate Increasing(idx: seq<nat>, n: nat) {
    (forall i :: 0 <= i < |idx| ==> idx[i] < n) && forall i, j :: 0 <= i < j < |idx| ==> idx[i] < idx[j]
  }

  lemma IncreasingSnoc(idx: seq<nat>, n: nat)
    requires Increasing(idx, n)
    ensures Increasing(idx, n + 1) && Increasing(idx + [n], n + 1)
    ensures n !in idx && forall i :: i in idx + [n] <==> i in idx || i == n
  {
  }

  /** One listing of a finite set: every element once, in some order. */
  ghost predicate Lists<T>(order: seq<T>, s: set<T>) {
    (forall x :: x in s ==> x in order) &&
    (forall i :: 0 <= i < |order| ==> order[i] in s) &&
    forall i, j :: 0 <= i < j < |order| ==> order[i] != order[j]
  }

  lemma {:induction false} ListingExists<T>(s: set<T>) returns (order: seq<T>)
    ensures Lists(order, s)
  {
    if s == {} {
      order := [];
    } else {
      var x :| x in s;
      var rest := ListingExists(s - {x});
      order := [x] + rest;
    }
  }

  lemma ListingFrom<T>(s: set<T>, x: T) returns (order: seq<T>)
    requires x in s
    ensures Lists(order, s) && |order| > 0 && order[0] == x
  {
    var rest := ListingExists(s - {x});
    order := [x] + rest;
  }
}
