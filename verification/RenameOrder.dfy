/** When does renaming a directory depend on the order in which Go visits the map, and what does it lose? */
module RenameOrder {
  import opened Basics
  import opened Paths
  import opened Files

  ghost function Children(s: Files, src: string): (v: set<string>) {
    set p | p in s && Below(p, src)
  }

  /** No child of src is moved to a place that is again below src. */
  ghost predicate NoRevisit(s: Files, src: string, dst: string) {
    forall p :: p in s && Below(p, src) ==> !Below(Move(p, src, dst), src)
  }

  ghost function Moved(v: set<string>, src: string, dst: string): (r: set<string>) {
    set p | p in v :: Move(p, src, dst)
  }

  /** s after exactly the children in v have been moved. */
  ghost function Partial(s: Files, src: string, dst: string, v: set<string>): (t: Files)
    requires v <= Children(s, src)
  {
    map k | k in (s.Keys - v) + Moved(v, src, dst) ::
      if k in Moved(v, src, dst) then (MovedFrom(k, v, src, dst); s[Move(k, dst, src)].(path := k)) else s[k]
  }

  lemma MovedFrom(k: string, v: set<string>, src: string, dst: string)
    requires (forall p :: p in v ==> Below(p, src)) && k in Moved(v, src, dst)
    ensures |k| >= |dst| && Move(k, dst, src) in v && Move(Move(k, dst, src), src, dst) == k && Below(k, dst)
  {
    var p :| p in v && k == Move(p, src, dst);
    MoveBelow(p, src, dst);
  }

  /** Moving one more child. */
  lemma PartialAdd(s: Files, src: string, dst: string, v: set<string>, p: string)
    requires v <= Children(s, src) && NoRevisit(s, src, dst) && p in Children(s, src) && p !in v
    ensures var t, q := Partial(s, src, dst, v), Move(p, src, dst);
            p in t && t[p] == s[p] && Partial(s, src, dst, v + {p}) == (t - {p})[q := s[p].(path := q)]
  {
    var t, q := Partial(s, src, dst, v), Move(p, src, dst);
    if p in Moved(v, src, dst) {
      MovedFrom(p, v, src, dst);
      assert false;
    }
    MoveBelow(p, src, dst);
    assert Moved(v + {p}, src, dst) == Moved(v, src, dst) + {q};
    assert Partial(s, src, dst, v + {p}).Keys == (t - {p}).Keys + {q};
  }

  lemma VisitPartial(s: Files, src: string, dst: string, v: set<string>, p: string)
    requires v <= Children(s, src) && NoRevisit(s, src, dst) && p in Partial(s, src, dst, v)
    ensures Visit(Partial(s, src, dst, v), src, dst, p) == Partial(s, src, dst, v + ({p} * Children(s, src)))
  {
    if Below(p, src) {
      if p in Moved(v, src, dst) {
        MovedFrom(p, v, src, dst);
        assert false;
      }
      assert v + ({p} * Children(s, src)) == v + {p};
      PartialAdd(s, src, dst, v, p);
    } else {
      assert v + ({p} * Children(s, src)) == v;
    }
  }

  ghost predicate Yields(s: Files, src: string, dst: string, order: seq<string>) {
    forall i :: 0 <= i < |order| ==> order[i] in RunVisits(s, src, dst, order[..i])
  }

  lemma YieldsPrefix(s: Files, src: string, dst: string, rest: seq<string>, p: string)
    ensures Yields(s, src, dst, rest + [p]) <==> Yields(s, src, dst, rest) && p in RunVisits(s, src, dst, rest)
  {
    var order := rest + [p];
    assert order[..|rest|] == rest && order[|rest|] == p;
    assert forall i :: 0 <= i < |rest| ==> order[i] == rest[i] && order[..i] == rest[..i];
    if Yields(s, src, dst, order) {
      assert order[|rest|] in RunVisits(s, src, dst, order[..|rest|]);
      forall i | 0 <= i < |rest| ensures rest[i] in RunVisits(s, src, dst, rest[..i]) {
        assert order[i] in RunVisits(s, src, dst, order[..i]);
      }
    }
  }

  ghost function Visited(s: Files, src: string, order: seq<string>): (v: set<string>)
    ensures v <= Children(s, src)
  {
    set p | p in Children(s, src) && p in order
  }

  lemma VisitedSnoc(s: Files, src: string, rest: seq<string>, p: string)
    ensures Visited(s, src, rest + [p]) == Visited(s, src, rest) + ({p} * Children(s, src))
  {
  }

  lemma PartialNone(s: Files, src: string, dst: string)
    ensures Partial(s, src, dst, {}) == s
  {
  }

  /** The loop's state after any legal sequence of visits depends only on which children were visited. */
  lemma {:induction false} RunVisitsPartial(s: Files, src: string, dst: string, order: seq<string>)
    requires NoRevisit(s, src, dst) && Yields(s, src, dst, order)
    ensures RunVisits(s, src, dst, order) == Partial(s, src, dst, Visited(s, src, order))
  {
    if order == [] {
      PartialNone(s, src, dst);
      assert Visited(s, src, order) == {};
    } else {
      var rest, p := order[..|order| - 1], order[|order| - 1];
      assert order == rest + [p];
      YieldsPrefix(s, src, dst, rest, p);
      RunVisitsPartial(s, src, dst, rest);
      VisitPartial(s, src, dst, Visited(s, src, rest), p);
      VisitedSnoc(s, src, rest, p);
    }
  }

  /** The result of renaming a directory, whatever the visiting order. */
  ghost function Relocate(s: Files, src: string, dst: string, now: int): (t: Files)
    requires src in s
  {
    var t := if s[src].isDir then Partial(s, src, dst, Children(s, src)) else s;
    (t - {src})[dst := s[src].(path := dst, mtime := now)]
  }

  lemma RenameIsRelocate(s: Files, src: string, dst: string, now: int, order: seq<string>)
    requires src in s && (s[src].isDir ==> NoRevisit(s, src, dst) && RangeOk(s, src, dst, order))
    ensures RenameResult(s, src, dst, now, order) == Relocate(s, src, dst, now)
  {
    if s[src].isDir {
      RunVisitsPartial(s, src, dst, order);
      assert Visited(s, src, order) == Children(s, src);
    }
  }

  // ---- Orders exist, and a revisit makes them disagree ----

  lemma {:induction false} UnvisitedStay(s: Files, src: string, dst: string, order: seq<string>, k: string)
    requires k in s && k !in order
    ensures k in RunVisits(s, src, dst, order)
  {
    if order != [] {
      UnvisitedStay(s, src, dst, order[..|order| - 1], k);
    }
  }

  lemma ListingIsRange(s: Files, src: string, dst: string, order: seq<string>)
    requires Lists(order, s.Keys)
    ensures RangeOk(s, src, dst, order)
  {
    forall i | 0 <= i < |order| ensures order[i] in RunVisits(s, src, dst, order[..i]) {
      UnvisitedStay(s, src, dst, order[..i], order[i]);
    }
  }

  lemma MoveTwice(q: string, src: string, dst: string)
    requires Below(q, src) && src != dst
    ensures Move(q, src, dst) != q
  {
  }

  /** After a full pass that ends with p, the place p was moved to may be yielded as well. */
  lemma RevisitOrder(s: Files, src: string, dst: string, p: string) returns (a: seq<string>)
    requires p in s && Below(p, src)
    ensures RangeOk(s, src, dst, a) && Move(p, src, dst) in RunVisits(s, src, dst, a)
  {
    var rest := ListingExists(s.Keys - {p});
    a := rest + [p];
    ListingIsRange(s, src, dst, a);
    assert a[..|rest|] == rest && a[|rest|] == p;
    assert p in RunVisits(s, src, dst, a[..|rest|]);
  }

  /** Once more past a child that has landed below src: it is moved on. */
  lemma OneMoreVisit(s: Files, src: string, dst: string, now: int, a: seq<string>, q: string)
    requires src in s && dst !in s && s[src].isDir && Below(q, src) && q != dst && q in RunVisits(s, src, dst, a)
    ensures q in RenameResult(s, src, dst, now, a) && q !in RenameResult(s, src, dst, now, a + [q])
  {
    var t := RunVisits(s, src, dst, a);
    assert (a + [q])[..|a|] == a;
    MoveTwice(q, src, dst);
    assert RunVisits(s, src, dst, a + [q]) == Visit(t, src, dst, q) && q != src;
  }

  lemma RevisitDiffers(s: Files, src: string, dst: string, now: int, p: string)
    returns (a: seq<string>, b: seq<string>)
    requires src in s && dst !in s && s[src].isDir
    requires p in s && Below(p, src) && Below(Move(p, src, dst), src)
    ensures RangeOk(s, src, dst, a) && RangeOk(s, src, dst, b)
    ensures RenameResult(s, src, dst, now, a).Keys != RenameResult(s, src, dst, now, b).Keys
  {
    var q := Move(p, src, dst);
    MoveBelow(p, src, dst);
    a := RevisitOrder(s, src, dst, p);
    b := a + [q];
    assert Yields(s, src, dst, a);
    YieldsPrefix(s, src, dst, a, q);
    OneMoreVisit(s, src, dst, now, a, q);
  }

  /** A directory rename is independent of the visiting order exactly when no child lands below src again. */
  lemma OrderIndependentIff(s: Files, src: string, dst: string, now: int)
    requires src in s && dst !in s && s[src].isDir
    ensures (forall a, b :: RangeOk(s, src, dst, a) && RangeOk(s, src, dst, b) ==>
               RenameResult(s, src, dst, now, a) == RenameResult(s, src, dst, now, b))
            <==> NoRevisit(s, src, dst)
  {
    if NoRevisit(s, src, dst) {
      forall a, b | RangeOk(s, src, dst, a) && RangeOk(s, src, dst, b)
        ensures RenameResult(s, src, dst, now, a) == RenameResult(s, src, dst, now, b)
      {
        RenameIsRelocate(s, src, dst, now, a);
        RenameIsRelocate(s, src, dst, now, b);
      }
    } else {
      var p :| p in s && Below(p, src) && Below(Move(p, src, dst), src);
      var a, b := RevisitDiffers(s, src, dst, now, p);
    }
  }

  // ---- What survives ----

  ghost function NewHome(p: string, src: string, dst: string): (q: string) {
    if Under(p, src) then Move(p, src, dst) else p
  }

  /** Nothing is in the way: no child's new place is already a key. */
  ghost predicate Clear(s: Files, src: string, dst: string) {
    forall p :: p in s && Below(p, src) ==> Move(p, src, dst) !in s
  }

  lemma {:induction false} MovedCount(v: set<string>, src: string, dst: string)
    requires forall p :: p in v ==> Below(p, src)
    ensures |Moved(v, src, dst)| == |v|
  {
    if v != {} {
      var p :| p in v;
      var rest := v - {p};
      MovedCount(rest, src, dst);
      var q := Move(p, src, dst);
      MoveBelow(p, src, dst);
      assert Moved(v, src, dst) == Moved(rest, src, dst) + {q};
      if q in Moved(rest, src, dst) { MovedFrom(q, rest, src, dst); }
    }
  }

  lemma RemovedCount(a: set<string>, v: set<string>, x: string)
    requires v <= a && x in a && x !in v
    ensures |a| == |a - v - {x}| + |v| + 1
  {
    assert |a - v| == |a| - |v|;
  }

  lemma RelocateKeys(s: Files, src: string, dst: string, now: int)
    requires src in s && dst !in s && s[src].isDir
    ensures var v := Children(s, src); var m := Moved(v, src, dst);
            Relocate(s, src, dst, now).Keys == (s.Keys - v - {src}) + (m - {src}) + {dst} &&
            dst !in m && |m| == |v| && |s| == |s.Keys - v - {src}| + |v| + 1
  {
    var v := Children(s, src);
    var m := Moved(v, src, dst);
    MovedCount(v, src, dst);
    forall k | k in m ensures k != dst { MovedFrom(k, v, src, dst); }
    RemovedCount(s.Keys, v, src);
    RelocatedKeys(s, src, dst, now);
  }

  lemma RelocatedKeys(s: Files, src: string, dst: string, now: int)
    requires src in s && s[src].isDir
    ensures var v := Children(s, src);
            Relocate(s, src, dst, now).Keys == (s.Keys - v - {src}) + (Moved(v, src, dst) - {src}) + {dst}
  {
    var v := Children(s, src);
    assert Partial(s, src, dst, v).Keys == (s.Keys - v) + Moved(v, src, dst);
  }

  lemma UnionCount(a: set<string>, m: set<string>, x: string)
    ensures |a + (m - {x})| == |a| + |m| <==> a !! m && x !in m
    requires x !in a
  {
    assert |a + (m - {x})| == |a| + |m - {x}| - |a * (m - {x})|;
    assert a * (m - {x}) == a * m;
    if x in m { assert |m - {x}| == |m| - 1; } else { assert m - {x} == m; }
    if k :| k in a * m { assert |a * m| >= 1; }
  }

  /** When no child is revisited, the entry count is preserved exactly when nothing is in the way. */
  lemma CountPreservedIff(s: Files, src: string, dst: string, now: int)
    requires src in s && dst !in s && s[src].isDir && NoRevisit(s, src, dst)
    ensures |Relocate(s, src, dst, now)| == |s| <==> Clear(s, src, dst)
  {
    var v := Children(s, src);
    var a, m := s.Keys - v - {src}, Moved(v, src, dst);
    RelocateKeys(s, src, dst, now);
    UnionCount(a, m, src);
    assert dst !in a + (m - {src});
    ClearIff(s, src, dst);
    assert |Relocate(s, src, dst, now)| == |Relocate(s, src, dst, now).Keys| == |a + (m - {src})| + 1;
  }

  lemma ClearIff(s: Files, src: string, dst: string)
    requires src in s && NoRevisit(s, src, dst)
    ensures var v := Children(s, src); var m := Moved(v, src, dst);
            Clear(s, src, dst) <==> (s.Keys - v - {src}) !! m && src !in m
  {
    var v := Children(s, src);
    var m := Moved(v, src, dst);
    if Clear(s, src, dst) {
      forall k | k in m ensures k !in s { MovedFrom(k, v, src, dst); }
    } else {
      var p :| p in s && Below(p, src) && Move(p, src, dst) in s;
      assert p in v && Move(p, src, dst) in m && Move(p, src, dst) !in v;
    }
  }

  /** The record an entry carries after the rename. */
  ghost function Carried(s: Files, p: string, src: string, dst: string, now: int): (m: Meta)
    requires p in s
  {
    if p == src then s[p].(path := dst, mtime := now)
    else if Below(p, src) then s[p].(path := Move(p, src, dst))
    else s[p]
  }

  lemma EntryArrives(s: Files, src: string, dst: string, now: int, p: string)
    requires src in s && dst !in s && s[src].isDir && NoRevisit(s, src, dst) && Clear(s, src, dst) && p in s
    ensures var t := Relocate(s, src, dst, now);
            NewHome(p, src, dst) in t && t[NewHome(p, src, dst)] == Carried(s, p, src, dst, now)
  {
    var v := Children(s, src);
    ClearIff(s, src, dst);
    if p == src {
      assert Move(src, src, dst) == dst;
    } else if Below(p, src) {
      MoveBelow(p, src, dst);
      assert Move(p, src, dst) in Moved(v, src, dst);
    }
  }

  lemma EntryCameFrom(s: Files, src: string, dst: string, now: int, k: string)
    requires src in s && dst !in s && s[src].isDir && k in Relocate(s, src, dst, now)
    ensures exists p :: p in s && k == NewHome(p, src, dst)
  {
    var v := Children(s, src);
    RelocateKeys(s, src, dst, now);
    if k in Moved(v, src, dst) {
      MovedFrom(k, v, src, dst);
    } else if k == dst {
      assert Move(src, src, dst) == dst && NewHome(src, src, dst) == dst;
    } else {
      assert NewHome(k, src, dst) == k;
    }
  }

  /** With a clear destination the rename is the bijective relocation of the subtree: each entry is found, unchanged
      but for its path (and the directory's own mtime), at its new place, and there is nothing else. */
  lemma RelocateIsBijective(s: Files, src: string, dst: string, now: int)
    requires src in s && dst !in s && s[src].isDir && NoRevisit(s, src, dst) && Clear(s, src, dst)
    ensures var t := Relocate(s, src, dst, now);
      && |t| == |s|
      && (forall p :: p in s ==> NewHome(p, src, dst) in t)
      && (forall p :: p in s ==> t[NewHome(p, src, dst)] == Carried(s, p, src, dst, now))
      && (forall k :: k in t ==> exists p :: p in s && k == NewHome(p, src, dst))
  {
    CountPreservedIff(s, src, dst, now);
    var t := Relocate(s, src, dst, now);
    forall p | p in s
      ensures NewHome(p, src, dst) in t && t[NewHome(p, src, dst)] == Carried(s, p, src, dst, now)
    {
      EntryArrives(s, src, dst, now, p);
    }
    forall k | k in t ensures exists p :: p in s && k == NewHome(p, src, dst) {
      EntryCameFrom(s, src, dst, now, k);
    }
  }

  /** The simple test: an absent destination outside the source with nothing beneath it is always safe. */
  lemma FreshDestination(s: Files, src: string, dst: string)
    requires src in s && dst !in s && !Below(dst, src) && forall p :: p in s ==> !Below(p, dst)
    ensures NoRevisit(s, src, dst) && Clear(s, src, dst)
  {
    forall p | p in s && Below(p, src) ensures !Below(Move(p, src, dst), src) && Move(p, src, dst) !in s {
      MoveBelow(p, src, dst);
      if Below(Move(p, src, dst), src) { CommonDescendant(Move(p, src, dst), src, dst); }
    }
  }
}
