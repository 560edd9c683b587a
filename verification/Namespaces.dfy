/** Namespaces: a token's calls touch nothing outside its namespace, calls in disjoint namespaces commute, and so the
    log may interleave namespaces differently from the order in which the store was changed. */
module Namespaces {
  import opened Basics
  import opened Paths
  import opened Files
  import opened RenameOrder
  import opened Log
  import opened Handlers

  /** s and t agree outside the subtree ns. */
  ghost predicate Frame(s: Files, t: Files, ns: string) {
    forall p :: !Under(p, ns) ==> (p in s <==> p in t) && (p in s ==> s[p] == t[p])
  }

  // ---- Live calls ----

  lemma VisitFrame(s: Files, src: string, dst: string, p: string, ns: string)
    requires Under(src, ns) && Under(dst, ns)
    ensures Frame(s, Visit(s, src, dst, p), ns)
  {
    if p in s && Below(p, src) {
      BelowTrans(p, src, ns);
      MoveBelow(p, src, dst);
      BelowTrans(Move(p, src, dst), dst, ns);
    }
  }

  lemma {:induction false} RunVisitsFrame(s: Files, src: string, dst: string, order: seq<string>, ns: string)
    requires Under(src, ns) && Under(dst, ns)
    ensures Frame(s, RunVisits(s, src, dst, order), ns)
  {
    if order != [] {
      RunVisitsFrame(s, src, dst, order[..|order| - 1], ns);
      VisitFrame(RunVisits(s, src, dst, order[..|order| - 1]), src, dst, order[|order| - 1], ns);
    }
  }

  lemma RenameFrame(s: Files, src: string, dst: string, now: int, order: seq<string>, ns: string)
    requires Under(src, ns) && Under(dst, ns)
    ensures Frame(s, Rename(s, src, dst, now, order).0, ns)
  {
    RunVisitsFrame(s, src, dst, order, ns);
  }

  lemma AllocateFrame(s: Files, ns: string, id: string, rf: int, c: Choice)
    requires StoreInv(s) && id != ""
    ensures Frame(s, Allocate(s, ns, id, rf, c).files, ns)
  {
    var owner := FindByID(s, id, c.order);
    if owner.Some? {
      AllowedIff(ns, s[owner.value].path);
    }
  }

  /** One authorised call, in any lawful environment and for any directory rename, stays inside its namespace. */
  lemma HandleFrame(s: Files, replFac: int, ns: string, req: Request, c: Choice)
    requires StoreInv(s) && ChoiceOk(s, req, c)
    ensures Frame(s, Handle(s, replFac, Some(ns), req, c).files, ns)
  {
    match req
    case RenameReq(src, dst) =>
      AllowedIff(ns, src);
      AllowedIff(ns, dst);
      if Allowed(ns, src) && Allowed(ns, dst) { RenameFrame(s, src, dst, c.now, c.order, ns); }
    case AllocateReq(id, rf) => AllocateFrame(s, ns, id, if rf <= 0 then replFac else rf, c);
    case CreateReq(p, _) => AllowedIff(ns, p);
    case MkdirReq(p, _) => AllowedIff(ns, p);
    case TruncateReq(p, _) => AllowedIff(ns, p);
    case DeleteReq(p) => AllowedIff(ns, p);
    case RmdirReq(p) => AllowedIff(ns, p);
  }

  /** Every run whose calls carry the token of ns leaves everything outside ns as it was. */
  lemma {:induction false} RunFrame(init: Files, replFac: int, calls: seq<Call>, ns: string)
    requires StoreInv(init) && LawfulRun(init, replFac, calls)
    requires forall i :: 0 <= i < |calls| ==> calls[i].token == Some(ns)
    ensures Frame(init, Run(init, replFac, calls).0, ns)
  {
    if calls != [] {
      var n := |calls| - 1;
      RunFrame(init, replFac, calls[..n], ns);
      RunInv(init, replFac, calls[..n]);
      HandleFrame(Run(init, replFac, calls[..n]).0, replFac, ns, calls[n].req, calls[n].choice);
    }
  }

  /** Asking for a chunk stays inside the namespace for every visiting order exactly when the id is not empty or there
      are not directories both inside and outside: the two searches for the empty id may find different ones. */
  lemma AllocateStaysInsideIff(s: Files, ns: string, id: string, rf: int, c: Choice)
    requires StoreInv(s) && ns != "" && 0 <= rf <= |c.available|
    ensures (forall a, b :: Lists(a, s.Keys) && Lists(b, s.Keys) ==>
               Frame(s, Allocate(s, ns, id, rf, c.(order := a, again := b)).files, ns))
            <==> (id != "" ||
                  !exists p, q :: p in s && q in s && s[p].isDir && s[q].isDir && Under(p, ns) && !Under(q, ns))
  {
    if id != "" {
      forall a, b | Lists(a, s.Keys) && Lists(b, s.Keys)
        ensures Frame(s, Allocate(s, ns, id, rf, c.(order := a, again := b)).files, ns)
      {
        AllocateFrame(s, ns, id, rf, c.(order := a, again := b));
      }
    } else if p, q :| p in s && q in s && s[p].isDir && s[q].isDir && Under(p, ns) && !Under(q, ns) {
      var a := ListingFrom(s.Keys, p);
      var b := ListingFrom(s.Keys, q);
      AllowedIff(ns, p);
      var t := Allocate(s, ns, id, rf, c.(order := a, again := b)).files;
      assert t[q] == WithChunk(s[q], c.id, c.available[..rf]);
      assert |t[q].chunks| != |s[q].chunks|;
    } else {
      forall a, b | Lists(a, s.Keys) && Lists(b, s.Keys)
        ensures Frame(s, Allocate(s, ns, id, rf, c.(order := a, again := b)).files, ns)
      {
        EmptyIdFrame(s, ns, rf, c.(order := a, again := b));
      }
    }
  }

  lemma EmptyIdFrame(s: Files, ns: string, rf: int, c: Choice)
    requires StoreInv(s)
    requires !exists p, q :: p in s && q in s && s[p].isDir && s[q].isDir && Under(p, ns) && !Under(q, ns)
    ensures Frame(s, Allocate(s, ns, "", rf, c).files, ns)
  {
    var owner, target := FindByID(s, "", c.order), FindByID(s, "", c.again);
    if owner.Some? && target.Some? {
      AllowedIff(ns, owner.value);
      assert s[owner.value].isDir && s[target.value].isDir;
    }
  }

  /** The lookup let the call through. */
  ghost predicate Admitted(s: Files, ns: string, id: string, rf: int, c: Choice) {
    var owner := FindByID(s, id, c.order);
    owner.Some? && Allowed(ns, s[owner.value].path) && rf <= |c.available|
  }

  /** With other calls between the lookup and the change, asking for a chunk stays inside the namespace exactly when
      it was refused or the file, if it still exists, is still inside. */
  lemma AllocateLaterStaysInsideIff(s: Files, t: Files, ns: string, id: string, rf: int, c: Choice)
    requires StoreInv(t) && id != "" && Lists(c.again, t.Keys)
    ensures Frame(t, AllocateLater(s, t, ns, id, rf, c).files, ns) <==>
            !Admitted(s, ns, id, rf, c) || forall p :: p in t && t[p].fileID == id ==> Under(p, ns)
  {
    var u := AllocateLater(s, t, ns, id, rf, c).files;
    var target := FindByID(t, id, c.again);
    if Admitted(s, ns, id, rf, c) && target.Some? {
      var p := target.value;
      assert |u[p].chunks| == |t[p].chunks| + 1;
    }
  }

  /** A file that a caller with a wider namespace moves away in between gets its chunk there. */
  lemma MovedAwayMeanwhile(c: Choice) returns (s: Files, t: Files)
    requires c.order == ["x/n/a"] && c.again == ["x/m/a"] && |c.available| >= 1
    ensures t == Handle(s, 1, Some("x"), RenameReq("x/n/a", "x/m/a"), c).files
    ensures !Frame(t, AllocateLater(s, t, "x/n", "1", 1, c).files, "x/n")
  {
    s := map["x/n/a" := Meta("1", "x/n/a", 0, FILE_MODE, false, 0, 0, [])];
    t := Handle(s, 1, Some("x"), RenameReq("x/n/a", "x/m/a"), c).files;
    assert "x/n/a"[0] == 'x' && "x/m/a"[2] == 'm' && "x/n/a"[2] == 'n' && "x/n/a"[..3] == "x/n" && "x/n/a"[3] == '/';
    assert "x/m/a" != "x/n/a" && t.Keys == {"x/m/a"} && t["x/m/a"].fileID == "1";
    assert !Under("x/m/a", "x/n") by { BelowIff("x/m/a", "x/n"); }
    assert FindByID(s, "1", c.order) == Some("x/n/a") && Admitted(s, "x/n", "1", 1, c);
    AllocateLaterStaysInsideIff(s, t, "x/n", "1", 1, c);
  }

  // ---- Entries of disjoint namespaces ----

  ghost function Restrict(s: Files, ns: string): (t: Files) {
    map p | p in s && Under(p, ns) :: s[p]
  }

  predicate EntryIn(e: Entry, ns: string) {
    match e
    case ChunkEntry(_, _, _) => true
    case RenameEntry(src, dst) => Under(src, ns) && Under(dst, ns)
    case UnknownEntry(_) => true
    case _ => Under(e.path, ns)
  }

  /** The entry works inside ns on the store s; for a chunk, the records with its id lie there. */
  ghost predicate Confined(s: Files, e: Entry, ns: string) {
    EntryIn(e, ns) && (e.ChunkEntry? ==> forall p :: p in s && s[p].fileID == e.fileID ==> Under(p, ns))
  }

  lemma ChildrenRestrict(s: Files, src: string, ns: string)
    requires Under(src, ns)
    ensures Children(Restrict(s, ns), src) == Children(s, src)
  {
    forall p | p in Children(s, src) ensures Under(p, ns) { BelowTrans(p, src, ns); }
  }

  lemma MovedInside(s: Files, src: string, dst: string, ns: string, k: string)
    requires Under(src, ns) && Under(dst, ns) && k in Moved(Children(s, src), src, dst)
    ensures Under(k, ns) && Move(k, dst, src) in Restrict(s, ns)
  {
    MovedFrom(k, Children(s, src), src, dst);
    BelowTrans(k, dst, ns);
    BelowTrans(Move(k, dst, src), src, ns);
  }

  lemma RestrictPartial(s: Files, src: string, dst: string, ns: string)
    requires Under(src, ns) && Under(dst, ns) && Children(Restrict(s, ns), src) == Children(s, src)
    ensures var v := Children(s, src);
            Frame(s, Partial(s, src, dst, v), ns) &&
            Restrict(Partial(s, src, dst, v), ns) == Partial(Restrict(s, ns), src, dst, v)
  {
    var v := Children(s, src);
    forall p | p in v ensures Under(p, ns) { BelowTrans(p, src, ns); }
    forall k | k in Moved(v, src, dst) ensures Under(k, ns) && Move(k, dst, src) in Restrict(s, ns) {
      MovedInside(s, src, dst, ns, k);
    }
  }

  lemma RestrictFinish(s: Files, t: Files, src: string, dst: string, m: Meta, ns: string)
    requires Under(src, ns) && Under(dst, ns) && Frame(s, t, ns)
    ensures Frame(s, (t - {src})[dst := m], ns)
    ensures Restrict((t - {src})[dst := m], ns) == (Restrict(t, ns) - {src})[dst := m]
  {
  }

  lemma RestrictRelocate(s: Files, src: string, dst: string, ns: string)
    requires Under(src, ns) && Under(dst, ns) && src in s
    ensures Frame(s, Relocate(s, src, dst, 0), ns)
    ensures Restrict(Relocate(s, src, dst, 0), ns) == Relocate(Restrict(s, ns), src, dst, 0)
  {
    ChildrenRestrict(s, src, ns);
    RestrictPartial(s, src, dst, ns);
    var t := if s[src].isDir then Partial(s, src, dst, Children(s, src)) else s;
    RestrictFinish(s, t, src, dst, s[src].(path := dst, mtime := 0), ns);
  }

  lemma ChildrenInside(s: Files, path: string, ns: string)
    requires Under(path, ns)
    ensures HasChildren(s, path) <==> HasChildren(Restrict(s, ns), path)
  {
    forall p | p in s && Below(p, path) ensures p in Restrict(s, ns) { BelowTrans(p, path, ns); }
  }

  lemma InsertInside(s: Files, p: string, m: Meta, ns: string)
    requires Under(p, ns)
    ensures Frame(s, s[p := m], ns) && Restrict(s[p := m], ns) == Restrict(s, ns)[p := m]
  {
  }

  lemma RemoveInside(s: Files, p: string, ns: string)
    requires Under(p, ns)
    ensures Frame(s, s - {p}, ns) && Restrict(s - {p}, ns) == Restrict(s, ns) - {p}
  {
  }

  lemma ChunkInside(s: Files, e: Entry, ns: string)
    requires e.ChunkEntry? && Confined(s, e, ns)
    ensures Frame(s, Step(s, e), ns) && Restrict(Step(s, e), ns) == Step(Restrict(s, ns), e)
  {
  }

  lemma PlainInside(s: Files, e: Entry, ns: string)
    requires !e.ChunkEntry? && !e.RenameEntry? && EntryIn(e, ns)
    ensures Frame(s, Step(s, e), ns) && Restrict(Step(s, e), ns) == Step(Restrict(s, ns), e)
  {
    if e.UnknownEntry? { return; }
    var t := Step(s, e);
    ChildrenInside(s, e.path, ns);
    RemoveInside(s, e.path, ns);
    if e.path in t { InsertInside(s, e.path, t[e.path], ns); }
  }

  /** A confined entry changes nothing outside, and acts inside as if the rest of the store were not there. */
  lemma StepInside(s: Files, e: Entry, ns: string)
    requires Confined(s, e, ns)
    ensures Frame(s, Step(s, e), ns)
    ensures Restrict(Step(s, e), ns) == Step(Restrict(s, ns), e)
  {
    if e.ChunkEntry? {
      ChunkInside(s, e, ns);
    } else if !e.RenameEntry? {
      PlainInside(s, e, ns);
    } else if e.src in s && e.dst !in s {
      RestrictRelocate(s, e.src, e.dst, ns);
    }
  }

  lemma SafeInside(s: Files, e: Entry, ns: string)
    requires Confined(s, e, ns)
    ensures Safe(s, e) <==> Safe(Restrict(s, ns), e)
  {
    if e.RenameEntry? {
      forall p | p in s && Below(p, e.src) ensures p in Restrict(s, ns) { BelowTrans(p, e.src, ns); }
    } else if e.ChunkEntry? {
      assert forall p :: p in s && s[p].fileID == e.fileID ==> p in Restrict(s, ns);
    }
  }

  ghost predicate Disjoint(tags: set<string>) {
    forall a, b :: a in tags && b in tags && a != b ==> !Under(a, b)
  }

  lemma OneTag(p: string, a: string, b: string, tags: set<string>)
    requires Disjoint(tags) && a in tags && b in tags && Under(p, a) && Under(p, b)
    ensures a == b
  {
    CommonDescendant(p, a, b);
  }

  /** Entries of another, disjoint namespace leave the restriction alone. */
  lemma StepOutside(s: Files, e: Entry, m: string, ns: string, tags: set<string>)
    requires Confined(s, e, m) && Disjoint(tags) && m in tags && ns in tags && m != ns
    ensures Restrict(Step(s, e), ns) == Restrict(s, ns)
  {
    StepInside(s, e, m);
    forall p | Under(p, ns) ensures !Under(p, m) {
      if Under(p, m) { OneTag(p, ns, m, tags); }
    }
  }

  /** Two calls of disjoint namespaces commute. */
  lemma StepsCommute(s: Files, d: Entry, e: Entry, a: string, b: string)
    requires Disjoint({a, b}) && a != b
    requires Confined(s, d, a) && Confined(s, e, b) && Confined(Step(s, d), e, b) && Confined(Step(s, e), d, a)
    ensures Step(Step(s, d), e) == Step(Step(s, e), d)
  {
    var x, y := Step(Step(s, d), e), Step(Step(s, e), d);
    StepInside(s, d, a);
    StepInside(s, e, b);
    StepInside(Step(s, d), e, b);
    StepInside(Step(s, e), d, a);
    StepOutside(s, d, a, b, {a, b});
    StepOutside(s, e, b, a, {a, b});
    StepOutside(Step(s, d), e, b, a, {a, b});
    StepOutside(Step(s, e), d, a, b, {a, b});
    assert Restrict(x, a) == Restrict(y, a) && Restrict(x, b) == Restrict(y, b);
    SameEverywhere(s, x, y, a, b);
  }

  lemma SameEverywhere(s: Files, x: Files, y: Files, a: string, b: string)
    requires Restrict(x, a) == Restrict(y, a) && Restrict(x, b) == Restrict(y, b)
    requires forall p :: !Under(p, a) && !Under(p, b) ==> (p in x <==> p in s) && (p in x ==> x[p] == s[p])
    requires forall p :: !Under(p, a) && !Under(p, b) ==> (p in y <==> p in s) && (p in y ==> y[p] == s[p])
    ensures x == y
  {
    forall p ensures (p in x <==> p in y) && (p in x ==> x[p] == y[p]) {
      if Under(p, a) {
        assert p in x <==> p in Restrict(x, a);
        assert p in y <==> p in Restrict(y, a);
      } else if Under(p, b) {
        assert p in x <==> p in Restrict(x, b);
        assert p in y <==> p in Restrict(y, b);
      }
    }
  }

  // ---- Logs that interleave namespaces ----

  datatype Tagged = Tagged(ns: string, e: Entry)

  function Untag(log: seq<Tagged>): (r: seq<Entry>)
    ensures |r| == |log|
  {
    seq(|log|, i requires 0 <= i < |log| => log[i].e)
  }

  lemma UntagSnoc(log: seq<Tagged>, x: Tagged)
    ensures Untag(log + [x]) == Untag(log) + [x.e] && Untag(log + [x])[..|log|] == Untag(log)
  {
  }

  /** The entries of one namespace, in their order. */
  function Project(log: seq<Tagged>, ns: string): (r: seq<Tagged>) {
    if log == [] then []
    else
      var rest := Project(log[..|log| - 1], ns);
      if log[|log| - 1].ns == ns then rest + [log[|log| - 1]] else rest
  }

  /** own says which namespace each file id was created in; every entry stays in its own namespace. */
  ghost predicate Placed(x: Tagged, own: map<string, string>, tags: set<string>) {
    x.ns in tags && EntryIn(x.e, x.ns) &&
    (x.e.CreateEntry? && x.e.fileID != "" ==> x.e.fileID in own && own[x.e.fileID] == x.ns) &&
    (x.e.ChunkEntry? ==> x.e.fileID != "" && x.e.fileID in own && own[x.e.fileID] == x.ns)
  }

  ghost predicate WellTagged(log: seq<Tagged>, own: map<string, string>, tags: set<string>) {
    Disjoint(tags) && (forall id :: id in own ==> own[id] in tags) &&
    forall i :: 0 <= i < |log| ==> Placed(log[i], own, tags)
  }

  /** Every record lies in some namespace, and one with an id in the namespace the id belongs to. */
  ghost predicate Owned(s: Files, own: map<string, string>, tags: set<string>) {
    forall p :: p in s ==>
      (exists n :: n in tags && Under(p, n)) &&
      (s[p].fileID != "" ==> s[p].fileID in own && Under(p, own[s[p].fileID]))
  }

  lemma OwnedConfines(s: Files, x: Tagged, own: map<string, string>, tags: set<string>)
    requires Owned(s, own, tags) && Placed(x, own, tags)
    ensures Confined(s, x.e, x.ns)
  {
  }

  /** Only renames move records, and only creation makes one. */
  lemma KeptOrMade(s: Files, e: Entry, p: string)
    requires !e.RenameEntry? && p in Step(s, e)
    ensures (p in s && Step(s, e)[p].fileID == s[p].fileID) ||
            (e.CreateEntry? && p == e.path && Step(s, e)[p].fileID == e.fileID) ||
            (e.MkdirEntry? && p == e.path && Step(s, e)[p].fileID == "")
  {
  }

  lemma OwnedStep(s: Files, x: Tagged, own: map<string, string>, tags: set<string>)
    requires Disjoint(tags) && (forall id :: id in own ==> own[id] in tags)
    requires Owned(s, own, tags) && Placed(x, own, tags)
    ensures Owned(Step(s, x.e), own, tags)
  {
    if x.e.RenameEntry? {
      if x.e.src in s && x.e.dst !in s { OwnedRelocate(s, x.e.src, x.e.dst, x.ns, own, tags); }
    } else {
      OwnedPlain(s, x, own, tags);
    }
  }

  lemma OwnedPlain(s: Files, x: Tagged, own: map<string, string>, tags: set<string>)
    requires Owned(s, own, tags) && Placed(x, own, tags) && !x.e.RenameEntry?
    ensures Owned(Step(s, x.e), own, tags)
  {
    var t := Step(s, x.e);
    forall p | p in t
      ensures (exists n :: n in tags && Under(p, n)) &&
              (t[p].fileID != "" ==> t[p].fileID in own && Under(p, own[t[p].fileID]))
    {
      KeptOrMade(s, x.e, p);
    }
  }

  lemma OwnedRelocate(s: Files, src: string, dst: string, ns: string, own: map<string, string>, tags: set<string>)
    requires Disjoint(tags) && (forall id :: id in own ==> own[id] in tags)
    requires Owned(s, own, tags) && ns in tags && Under(src, ns) && Under(dst, ns) && src in s
    ensures Owned(Relocate(s, src, dst, 0), own, tags)
  {
    var t, v := Relocate(s, src, dst, 0), Children(s, src);
    forall p | p in t
      ensures (exists n :: n in tags && Under(p, n)) &&
              (t[p].fileID != "" ==> t[p].fileID in own && Under(p, own[t[p].fileID]))
    {
      if p == dst {
        if s[src].fileID != "" { OneTag(src, ns, own[s[src].fileID], tags); }
      } else if s[src].isDir && p in Moved(v, src, dst) {
        MovedInside(s, src, dst, ns, p);
        var q := Move(p, dst, src);
        if s[q].fileID != "" { OneTag(q, ns, own[s[q].fileID], tags); }
      }
    }
  }

  lemma {:induction false} OwnedSteps(log: seq<Tagged>, own: map<string, string>, tags: set<string>)
    requires WellTagged(log, own, tags)
    ensures Owned(Steps(map[], Untag(log)), own, tags)
  {
    if log != [] {
      var rest, x := log[..|log| - 1], log[|log| - 1];
      assert log == rest + [x];
      UntagSnoc(rest, x);
      OwnedSteps(rest, own, tags);
      OwnedStep(Steps(map[], Untag(rest)), x, own, tags);
    }
  }

  lemma {:induction false} ProjectTagged(log: seq<Tagged>, own: map<string, string>, tags: set<string>, ns: string)
    requires WellTagged(log, own, tags)
    ensures WellTagged(Project(log, ns), own, tags)
  {
    if log != [] {
      ProjectTagged(log[..|log| - 1], own, tags, ns);
    }
  }

  /** Inside one namespace, a log means what that namespace's own entries mean. */
  lemma {:induction false} StepsProject(log: seq<Tagged>, own: map<string, string>, tags: set<string>, ns: string)
    requires WellTagged(log, own, tags) && ns in tags
    ensures Restrict(Steps(map[], Untag(log)), ns) == Steps(map[], Untag(Project(log, ns)))
  {
    if log != [] {
      var rest, x := log[..|log| - 1], log[|log| - 1];
      assert log == rest + [x];
      UntagSnoc(rest, x);
      StepsProject(rest, own, tags, ns);
      OwnedSteps(rest, own, tags);
      var s := Steps(map[], Untag(rest));
      OwnedConfines(s, x, own, tags);
      if x.ns == ns {
        StepInside(s, x.e, ns);
        UntagSnoc(Project(rest, ns), x);
      } else {
        StepOutside(s, x.e, x.ns, ns, tags);
      }
    }
  }

  lemma SafeLast(rest: seq<Tagged>, x: Tagged, own: map<string, string>, tags: set<string>)
    requires WellTagged(rest, own, tags) && Placed(x, own, tags)
    ensures Safe(Steps(map[], Untag(rest)), x.e) <==> Safe(Steps(map[], Untag(Project(rest, x.ns))), x.e)
  {
    OwnedSteps(rest, own, tags);
    OwnedConfines(Steps(map[], Untag(rest)), x, own, tags);
    SafeInside(Steps(map[], Untag(rest)), x.e, x.ns);
    StepsProject(rest, own, tags, x.ns);
  }

  lemma ProjectSnoc(rest: seq<Tagged>, x: Tagged, ns: string)
    ensures Project(rest + [x], ns) == if x.ns == ns then Project(rest, ns) + [x] else Project(rest, ns)
  {
    assert (rest + [x])[..|rest|] == rest;
  }

  ghost predicate SafeParts(log: seq<Tagged>, tags: set<string>) {
    forall ns :: ns in tags ==> SafeLog(map[], Untag(Project(log, ns)))
  }

  lemma SafePartSnoc(rest: seq<Tagged>, x: Tagged, ns: string)
    ensures SafeLog(map[], Untag(Project(rest + [x], ns))) <==>
            SafeLog(map[], Untag(Project(rest, ns))) &&
            (ns == x.ns ==> Safe(Steps(map[], Untag(Project(rest, ns))), x.e))
  {
    ProjectSnoc(rest, x, ns);
    if ns == x.ns {
      UntagSnoc(Project(rest, ns), x);
      StepsSnoc(map[], Untag(Project(rest, ns)), x.e);
    }
  }

  lemma SafePartsSnoc(rest: seq<Tagged>, x: Tagged, tags: set<string>)
    requires x.ns in tags
    ensures SafeParts(rest + [x], tags) <==>
            SafeParts(rest, tags) && Safe(Steps(map[], Untag(Project(rest, x.ns))), x.e)
  {
    forall ns | ns in tags
      ensures SafeLog(map[], Untag(Project(rest + [x], ns))) <==>
              SafeLog(map[], Untag(Project(rest, ns))) &&
              (ns == x.ns ==> Safe(Steps(map[], Untag(Project(rest, ns))), x.e))
    {
      SafePartSnoc(rest, x, ns);
    }
  }

  /** A log is safe exactly when each namespace's part is. */
  lemma {:induction false} SafeProject(log: seq<Tagged>, own: map<string, string>, tags: set<string>)
    requires WellTagged(log, own, tags)
    ensures SafeLog(map[], Untag(log)) <==> SafeParts(log, tags)
  {
    if log == [] {
      forall ns ensures Untag(Project(log, ns)) == [] {}
    } else {
      var rest, x := log[..|log| - 1], log[|log| - 1];
      assert log == rest + [x];
      UntagSnoc(rest, x);
      StepsSnoc(map[], Untag(rest), x.e);
      SafeProject(rest, own, tags);
      SafeLast(rest, x, own, tags);
      SafePartsSnoc(rest, x, tags);
    }
  }

  lemma SameByTags(x: Files, y: Files, own: map<string, string>, tags: set<string>)
    requires Owned(x, own, tags) && Owned(y, own, tags)
    requires forall ns :: ns in tags ==> Restrict(x, ns) == Restrict(y, ns)
    ensures x == y
  {
    forall p ensures (p in x <==> p in y) && (p in x ==> x[p] == y[p]) {
      if n :| n in tags && Under(p, n) {
        assert p in x <==> p in Restrict(x, n);
        assert p in y <==> p in Restrict(y, n);
        assert Restrict(x, n) == Restrict(y, n);
      }
    }
  }

  /** Two logs with the same entries per namespace, in the same order per namespace, mean the same. */
  lemma InterleavingsAgree(a: seq<Tagged>, b: seq<Tagged>, own: map<string, string>, tags: set<string>)
    requires WellTagged(a, own, tags) && WellTagged(b, own, tags)
    requires forall ns :: ns in tags ==> Project(a, ns) == Project(b, ns)
    ensures SafeLog(map[], Untag(a)) <==> SafeLog(map[], Untag(b))
    ensures Steps(map[], Untag(a)) == Steps(map[], Untag(b))
  {
    SafeProject(a, own, tags);
    SafeProject(b, own, tags);
    OwnedSteps(a, own, tags);
    OwnedSteps(b, own, tags);
    forall ns | ns in tags ensures Restrict(Steps(map[], Untag(a)), ns) == Restrict(Steps(map[], Untag(b)), ns) {
      StepsProject(a, own, tags, ns);
      StepsProject(b, own, tags, ns);
    }
    SameByTags(Steps(map[], Untag(a)), Steps(map[], Untag(b)), own, tags);
  }
}
