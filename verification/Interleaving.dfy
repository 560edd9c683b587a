/** The store is changed and the log is written in separate critical sections, so the log may order calls of different
    namespaces differently from the store. Replay rebuilds the live store all the same. */
module Interleaving {
  import opened Basics
  import opened Paths
  import opened Files
  import opened Log
  import opened Handlers
  import opened Namespaces

  /** What a run logs, in the order the store was changed, each entry tagged with its caller's namespace. */
  function RunLog(replFac: int, calls: seq<Call>): (log: seq<Tagged>) {
    if calls == [] then []
    else
      var rest, c := calls[..|calls| - 1], calls[|calls| - 1];
      var r := Handle(Run(map[], replFac, rest).0, replFac, c.token, c.req, c.choice);
      if r.entry.Some? && c.token.Some? then RunLog(replFac, rest) + [Tagged(c.token.value, r.entry.value)]
      else RunLog(replFac, rest)
  }

  /** The namespace in which each file id was created. */
  function Owners(log: seq<Tagged>): (own: map<string, string>) {
    if log == [] then map[]
    else
      var own, x := Owners(log[..|log| - 1]), log[|log| - 1];
      if x.e.CreateEntry? then own[x.e.fileID := x.ns] else own
  }

  lemma OwnersSnoc(log: seq<Tagged>, x: Tagged)
    ensures Owners(log + [x]) == if x.e.CreateEntry? then Owners(log)[x.e.fileID := x.ns] else Owners(log)
  {
    assert (log + [x])[..|log|] == log;
  }

  /** newID never returns an id it has returned before. */
  ghost predicate NeverReused(replFac: int, calls: seq<Call>) {
    calls == [] ||
    (NeverReused(replFac, calls[..|calls| - 1]) &&
     (calls[|calls| - 1].req.CreateReq? ==>
        calls[|calls| - 1].choice.id !in Owners(RunLog(replFac, calls[..|calls| - 1]))))
  }

  ghost predicate TokensIn(calls: seq<Call>, tags: set<string>) {
    forall i :: 0 <= i < |calls| && calls[i].token.Some? ==> calls[i].token.value in tags
  }

  lemma {:induction false} RunLogIsLog(replFac: int, calls: seq<Call>)
    ensures Untag(RunLog(replFac, calls)) == Run(map[], replFac, calls).1
  {
    if calls != [] {
      var rest, c := calls[..|calls| - 1], calls[|calls| - 1];
      RunLogIsLog(replFac, rest);
      var r := Handle(Run(map[], replFac, rest).0, replFac, c.token, c.req, c.choice);
      if r.entry.Some? {
        UntagSnoc(RunLog(replFac, rest), Tagged(c.token.value, r.entry.value));
      }
    }
  }

  /** The entry a call logs is placed in the caller's namespace; for a chunk, because the file resolved by id is
      there. */
  lemma CallPlaced(s: Files, replFac: int, ns: string, req: Request, c: Choice,
                   own: map<string, string>, tags: set<string>)
    requires StoreInv(s) && ChoiceOk(s, req, c) && Owned(Norms(s), own, tags)
    requires Disjoint(tags) && ns in tags && forall id :: id in own ==> own[id] in tags
    requires Handle(s, replFac, Some(ns), req, c).entry.Some?
    ensures var e := Handle(s, replFac, Some(ns), req, c).entry.value;
            Placed(Tagged(ns, e), if e.CreateEntry? then own[e.fileID := ns] else own, tags) &&
            (e.CreateEntry? <==> req.CreateReq?) && (e.CreateEntry? ==> e.fileID == c.id)
  {
    match req
    case RenameReq(src, dst) => AllowedIff(ns, src); AllowedIff(ns, dst);
    case AllocateReq(id, rf) =>
      var owner := FindByID(s, id, c.order).value;
      AllowedIff(ns, s[owner].path);
      assert Norms(s)[owner].fileID == id;
      OneTag(owner, ns, own[id], tags);
    case _ => AllowedIff(ns, req.path);
  }

  lemma ExtendTagged(log: seq<Tagged>, x: Tagged, own: map<string, string>, own': map<string, string>,
                     tags: set<string>)
    requires WellTagged(log, own, tags) && Placed(x, own', tags)
    requires own' == own || (x.e.CreateEntry? && x.e.fileID !in own && own' == own[x.e.fileID := x.ns])
    ensures WellTagged(log + [x], own', tags)
  {
    forall i | 0 <= i < |log| ensures Placed(log[i], own', tags) {
      assert Placed(log[i], own, tags);
    }
  }

  lemma RunOwned(replFac: int, calls: seq<Call>, tags: set<string>)
    requires GoodRun(map[], replFac, calls) && Disjoint(tags)
    requires WellTagged(RunLog(replFac, calls), Owners(RunLog(replFac, calls)), tags)
    ensures var s := Run(map[], replFac, calls).0;
            StoreInv(s) && Owned(Norms(s), Owners(RunLog(replFac, calls)), tags)
  {
    GoodIsLawful(map[], replFac, calls);
    RunInv(map[], replFac, calls);
    RunIsSteps(map[], replFac, calls);
    RunLogIsLog(replFac, calls);
    assert Norms(map[]) == map[];
    OwnedSteps(RunLog(replFac, calls), Owners(RunLog(replFac, calls)), tags);
  }

  lemma {:induction false} RunWellTagged(replFac: int, calls: seq<Call>, tags: set<string>)
    requires GoodRun(map[], replFac, calls) && NeverReused(replFac, calls) && TokensIn(calls, tags) && Disjoint(tags)
    ensures WellTagged(RunLog(replFac, calls), Owners(RunLog(replFac, calls)), tags)
  {
    if calls != [] {
      var rest, c := calls[..|calls| - 1], calls[|calls| - 1];
      var log := RunLog(replFac, rest);
      RunWellTagged(replFac, rest, tags);
      var s := Run(map[], replFac, rest).0;
      var r := Handle(s, replFac, c.token, c.req, c.choice);
      if r.entry.Some? {
        RunOwned(replFac, rest, tags);
        CallPlaced(s, replFac, c.token.value, c.req, c.choice, Owners(log), tags);
        var x := Tagged(c.token.value, r.entry.value);
        OwnersSnoc(log, x);
        ExtendTagged(log, x, Owners(log), Owners(log + [x]), tags);
      }
    }
  }

  lemma {:induction false} InProject(log: seq<Tagged>, x: Tagged)
    ensures x in log <==> x in Project(log, x.ns)
  {
    if log != [] {
      var rest, y := log[..|log| - 1], log[|log| - 1];
      assert log == rest + [y];
      InProject(rest, x);
      ProjectSnoc(rest, y, x.ns);
    }
  }

  lemma SameProjectionsTagged(a: seq<Tagged>, b: seq<Tagged>, own: map<string, string>, tags: set<string>)
    requires WellTagged(a, own, tags) && forall i :: 0 <= i < |b| ==> b[i].ns in tags
    requires forall ns :: ns in tags ==> Project(a, ns) == Project(b, ns)
    ensures WellTagged(b, own, tags)
  {
    forall i | 0 <= i < |b| ensures Placed(b[i], own, tags) {
      InProject(b, b[i]);
      InProject(a, b[i]);
      var j :| 0 <= j < |a| && a[j] == b[i];
    }
  }

  /** Replaying any log that agrees with the order of the store's changes within each namespace rebuilds the live
      store, up to timestamps and directory modes. */
  lemma ReplayAnyInterleaving(replFac: int, calls: seq<Call>, tags: set<string>, log: seq<Tagged>, envs: seq<Env>)
    requires GoodRun(map[], replFac, calls) && NeverReused(replFac, calls) && TokensIn(calls, tags) && Disjoint(tags)
    requires forall i :: 0 <= i < |log| ==> log[i].ns in tags
    requires forall ns :: ns in tags ==> Project(log, ns) == Project(RunLog(replFac, calls), ns)
    requires ReplayOk(map[], Untag(log), envs)
    ensures Norms(Replay(map[], Untag(log), envs)) == Norms(Run(map[], replFac, calls).0)
  {
    var live := RunLog(replFac, calls);
    RunWellTagged(replFac, calls, tags);
    SameProjectionsTagged(live, log, Owners(live), tags);
    InterleavingsAgree(live, log, Owners(live), tags);
    RunIsSteps(map[], replFac, calls);
    RunLogIsLog(replFac, calls);
    assert Norms(map[]) == map[];
    ReplayIsSteps(map[], Untag(log), envs);
  }
}
