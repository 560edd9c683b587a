/** The namenode's mutating request handlers (internal/namenode/server.go), as values: check the namespace, change the
    store, then log what was done. Includes the store invariant every run keeps. */
module Handlers {
  import opened Basics
  import opened Paths
  import opened Files
  import opened RenameOrder
  import opened Log

  datatype Request =
    | CreateReq(path: string, mode: int)
    | DeleteReq(path: string)
    | MkdirReq(path: string, mode: int)
    | RmdirReq(path: string)
    | RenameReq(src: string, dst: string)
    | TruncateReq(path: string, size: int)
    | AllocateReq(fileID: string, replicationFactor: int)

  datatype Code = OK | PermissionDenied | AlreadyExists | NotFound | ResourceExhausted | Internal

  /** What a call leaves open: clock, fresh id, range orders of its one or two map loops, available addresses. */
  datatype Choice = Choice(now: int, id: string, order: seq<string>, again: seq<string>, available: seq<string>)

  /** The new store, what was logged, and the answer. The token's namespace is None when there is no payload. */
  datatype Reply = Reply(files: Files, entry: Option<Entry>, code: Code)

  function Denied(s: Files, code: Code): Reply { Reply(s, None, code) }

  function Logged(r: (Files, Option<Error>), e: Entry, code: Error -> Code): Reply {
    if r.1.Some? then Reply(r.0, None, code(r.1.value)) else Reply(r.0, Some(e), OK)
  }

  function DeleteCode(e: Error): Code { if e == FileNotFound then NotFound else Internal }
  function CreateCode(e: Error): Code { if e == FileExists then AlreadyExists else Internal }

  function CreateAt(s: Files, path: string, mode: int, c: Choice): Reply {
    Logged(CreateFile(s, path, mode, c.id, c.now), CreateEntry(path, c.id, mode), CreateCode)
  }

  function RenameTo(s: Files, src: string, dst: string, c: Choice): Reply {
    Logged(Rename(s, src, dst, c.now, c.order), RenameEntry(src, dst), DeleteCode)
  }

  function Grant(s: Files, id: string, addrs: seq<string>, c: Choice): Reply {
    Logged(AddChunk(s, id, c.id, addrs, c.again), ChunkEntry(id, c.id, addrs), _ => Internal)
  }

  /** AllocateChunk's two critical sections: the file is looked up in s and the chunk is added to t, what the store has
      become by then. */
  function AllocateLater(s: Files, t: Files, ns: string, id: string, rf: int, c: Choice): (r: Reply) {
    var owner := FindByID(s, id, c.order);
    if owner.None? then Denied(t, NotFound)
    else if !Allowed(ns, s[owner.value].path) then Denied(t, PermissionDenied)
    else if |c.available| < rf then Denied(t, ResourceExhausted)
    else Grant(t, id, c.available[..if rf < 0 then 0 else rf], c)
  }

  /** With nothing in between. */
  function Allocate(s: Files, ns: string, id: string, rf: int, c: Choice): (r: Reply) {
    AllocateLater(s, s, ns, id, rf, c)
  }

  function Handle(s: Files, replFac: int, token: Option<string>, req: Request, c: Choice): (r: Reply) {
    if token.None? then Denied(s, Internal)
    else
      var ns := token.value;
      match req
      case CreateReq(path, mode) =>
        if !Allowed(ns, path) then Denied(s, PermissionDenied)
        else CreateAt(s, path, if mode == 0 then FILE_MODE else mode, c)
      case DeleteReq(path) =>
        if !Allowed(ns, path) then Denied(s, PermissionDenied)
        else Logged(DeleteFile(s, path), DeleteEntry(path), DeleteCode)
      case MkdirReq(path, mode) =>
        if !Allowed(ns, path) then Denied(s, PermissionDenied)
        else Logged(MakeDir(s, path, mode, c.now), MkdirEntry(path), CreateCode)
      case RmdirReq(path) =>
        if !Allowed(ns, path) then Denied(s, PermissionDenied)
        else Logged(RemoveDir(s, path), RmdirEntry(path), DeleteCode)
      case RenameReq(src, dst) =>
        if !Allowed(ns, src) || !Allowed(ns, dst) then Denied(s, PermissionDenied)
        else RenameTo(s, src, dst, c)
      case TruncateReq(path, size) =>
        if !Allowed(ns, path) then Denied(s, PermissionDenied)
        else Logged(TruncateFile(s, path, size, c.now), TruncateEntry(path, size), _ => NotFound)
      case AllocateReq(id, rf) =>
        Allocate(s, ns, id, if rf <= 0 then replFac else rf, c)
  }

  // ---- The store invariant ----

  predicate MetaOk(p: string, m: Meta) {
    m.path == p && (m.isDir ==> m.fileID == "" && m.chunks == []) && (!m.isDir ==> m.fileID != "") &&
    forall i :: 0 <= i < |m.chunks| ==> m.chunks[i].index == i
  }

  /** Every record sits at its own path, ids are unique, directories have no id and no chunks, files have an id, and
      chunks are numbered by position. */
  ghost predicate StoreInv(s: Files) {
    (forall p :: p in s ==> MetaOk(p, s[p])) &&
    forall p, q :: p in s && q in s && s[p].fileID == s[q].fileID != "" ==> p == q
  }

  /** What the environment of a call guarantees: fresh non-empty ids and lawful range orders. Also the one demand on
      the caller: chunks are asked for by a non-empty file id (directories share the empty one). */
  ghost predicate ChoiceOk(s: Files, req: Request, c: Choice) {
    match req
    case CreateReq(_, _) => c.id != "" && forall p :: p in s ==> s[p].fileID != c.id
    case RenameReq(src, dst) => MovesDirectory(s, RenameEntry(src, dst)) ==> RangeOk(s, src, dst, c.order)
    case RmdirReq(_) => Lists(c.order, s.Keys)
    case AllocateReq(id, _) => id != "" && Lists(c.order, s.Keys) && Lists(c.again, s.Keys)
    case _ => true
  }

  lemma VisitInv(s: Files, src: string, dst: string, p: string)
    requires StoreInv(s)
    ensures StoreInv(Visit(s, src, dst, p))
  {
  }

  lemma {:induction false} RunVisitsInv(s: Files, src: string, dst: string, order: seq<string>)
    requires StoreInv(s)
    ensures StoreInv(RunVisits(s, src, dst, order))
  {
    if order != [] {
      RunVisitsInv(s, src, dst, order[..|order| - 1]);
      VisitInv(RunVisits(s, src, dst, order[..|order| - 1]), src, dst, order[|order| - 1]);
    }
  }

  lemma RenameInv(s: Files, src: string, dst: string, now: int, order: seq<string>)
    requires StoreInv(s) && src in s && dst !in s
    ensures StoreInv(RenameResult(s, src, dst, now, order))
  {
    if s[src].isDir { RunVisitsInv(s, src, dst, order); }
  }

  lemma AddChunkInv(s: Files, id: string, chunkID: string, replicas: seq<string>, order: seq<string>)
    requires StoreInv(s) && id != ""
    ensures StoreInv(AddChunk(s, id, chunkID, replicas, order).0)
  {
  }

  lemma InsertInv(s: Files, p: string, m: Meta)
    requires StoreInv(s) && MetaOk(p, m) && forall q :: q in s && q != p && m.fileID != "" ==> s[q].fileID != m.fileID
    ensures StoreInv(s[p := m])
  {
  }

  lemma RemoveInv(s: Files, p: string)
    requires StoreInv(s)
    ensures StoreInv(s - {p})
  {
  }

  lemma AllocateInv(s: Files, ns: string, id: string, rf: int, c: Choice)
    requires StoreInv(s) && id != ""
    ensures StoreInv(Allocate(s, ns, id, rf, c).files)
  {
    if rf <= |c.available| { AddChunkInv(s, id, c.id, c.available[..if rf < 0 then 0 else rf], c.again); }
  }

  /** Every handler call, in every lawful environment and for every directory rename, keeps the invariant. */
  lemma HandleInv(s: Files, replFac: int, token: Option<string>, req: Request, c: Choice)
    requires StoreInv(s) && ChoiceOk(s, req, c)
    ensures StoreInv(Handle(s, replFac, token, req, c).files)
  {
    var t := Handle(s, replFac, token, req, c).files;
    if t == s || token.None? { return; }
    match req
    case RenameReq(src, dst) => RenameInv(s, src, dst, c.now, c.order);
    case AllocateReq(id, rf) => AllocateInv(s, token.value, id, if rf <= 0 then replFac else rf, c);
    case CreateReq(p, _) => InsertInv(s, p, t[p]);
    case MkdirReq(p, _) => InsertInv(s, p, t[p]);
    case TruncateReq(p, _) => InsertInv(s, p, t[p]);
    case DeleteReq(p) => RemoveInv(s, p);
    case RmdirReq(p) => RemoveInv(s, p);
  }

  // ---- A live call does what its log entry says ----

  ghost predicate CallOk(s: Files, req: Request, c: Choice) {
    ChoiceOk(s, req, c) &&
    (req.RenameReq? && MovesDirectory(s, RenameEntry(req.src, req.dst)) ==> NoRevisit(s, req.src, req.dst))
  }

  lemma AllocateIsStep(s: Files, ns: string, id: string, rf: int, c: Choice)
    requires StoreInv(s) && id != "" && Lists(c.order, s.Keys) && Lists(c.again, s.Keys)
    ensures var r := Allocate(s, ns, id, rf, c);
      (r.entry.None? ==> r.files == s) &&
      (r.entry.Some? ==> Safe(s, r.entry.value) && Norms(r.files) == Step(Norms(s), r.entry.value))
  {
    var r := Allocate(s, ns, id, rf, c);
    if r.entry.Some? {
      assert Safe(s, r.entry.value);
      ChunkIsStep(s, r.entry.value, c.again);
    }
  }

  /** Creating live and re-creating from the log differ in timestamps and, for directories, in the mode. */
  lemma InsertIsStep(s: Files, e: Entry, m: Meta)
    requires e.CreateEntry? || e.MkdirEntry?
    requires e.path !in s && Norm(m) == Norm(Apply(map[], e, Env(0, []))[e.path])
    ensures Norms(s[e.path := m]) == Step(Norms(s), e)
  {
  }

  /** The other calls change the live store exactly as applying their own entry would. */
  lemma CallIsApply(s: Files, replFac: int, token: Option<string>, req: Request, c: Choice)
    requires req.DeleteReq? || req.RmdirReq? || req.RenameReq? || req.TruncateReq?
    ensures var r := Handle(s, replFac, token, req, c);
      (r.entry.None? ==> r.files == s) &&
      (r.entry.Some? ==> !r.entry.value.ChunkEntry? && r.files == Apply(s, r.entry.value, Env(c.now, c.order)))
  {
  }

  lemma CallIsStep(s: Files, replFac: int, token: Option<string>, req: Request, c: Choice)
    requires StoreInv(s) && CallOk(s, req, c)
    ensures var r := Handle(s, replFac, token, req, c);
      (r.entry.None? ==> r.files == s) &&
      (r.entry.Some? ==> Safe(s, r.entry.value) && Norms(r.files) == Step(Norms(s), r.entry.value))
  {
    var r := Handle(s, replFac, token, req, c);
    if req.AllocateReq? {
      if token.Some? {
        var rf := if req.replicationFactor <= 0 then replFac else req.replicationFactor;
        AllocateIsStep(s, token.value, req.fileID, rf, c);
      }
    } else if req.CreateReq? || req.MkdirReq? {
      if r.entry.Some? { InsertIsStep(s, r.entry.value, r.files[req.path]); }
    } else {
      CallIsApply(s, replFac, token, req, c);
      if r.entry.Some? { ApplyIsStep(s, r.entry.value, Env(c.now, c.order)); }
    }
  }

  ghost predicate OneChunkMore(s: Files, t: Files, p: string, chunkID: string, replicas: seq<string>)
    requires p in s
  {
    t == s[p := s[p].(chunks := s[p].chunks + [Chunk(chunkID, |s[p].chunks|, replicas)])]
  }

  /** Asking for a chunk of a file, with a positive replication factor: it succeeds exactly when the file exists, lies
      in the caller's namespace and enough nodes are available; then exactly one chunk, numbered by its position and
      with exactly rf replicas, is added to that file, and otherwise nothing changes. */
  lemma AllocateAddsOneChunk(s: Files, ns: string, id: string, rf: int, c: Choice)
    requires StoreInv(s) && id != "" && rf >= 1 && Lists(c.order, s.Keys) && Lists(c.again, s.Keys)
    ensures var r := Allocate(s, ns, id, rf, c);
      && (r.code == OK <==> rf <= |c.available| && exists p :: p in s && s[p].fileID == id && Allowed(ns, p))
      && (r.code == OK <==> r.entry.Some?)
      && (r.code != OK ==> r.files == s)
      && (r.code == OK ==>
            exists p :: p in s && s[p].fileID == id && OneChunkMore(s, r.files, p, c.id, c.available[..rf]))
  {
    var owner, target := FindByID(s, id, c.order), FindByID(s, id, c.again);
    if p :| p in s && s[p].fileID == id {
      assert p in c.order && p in c.again;
      assert owner == Some(p) && target == Some(p);
      if Allowed(ns, p) && rf <= |c.available| {
        assert OneChunkMore(s, Allocate(s, ns, id, rf, c).files, p, c.id, c.available[..rf]);
      }
    }
  }

  // ---- Runs ----

  datatype Call = Call(token: Option<string>, req: Request, choice: Choice)

  /** The live store and the log after a sequence of calls on a server that starts from a given store, with a working
      log. */
  function Run(init: Files, replFac: int, calls: seq<Call>): (r: (Files, seq<Entry>)) {
    if calls == [] then (init, [])
    else
      var (s, log) := Run(init, replFac, calls[..|calls| - 1]);
      var c := calls[|calls| - 1];
      var reply := Handle(s, replFac, c.token, c.req, c.choice);
      (reply.files, if reply.entry.Some? then log + [reply.entry.value] else log)
  }

  ghost predicate LawfulRun(init: Files, replFac: int, calls: seq<Call>) {
    calls == [] ||
    (LawfulRun(init, replFac, calls[..|calls| - 1]) &&
     ChoiceOk(Run(init, replFac, calls[..|calls| - 1]).0, calls[|calls| - 1].req, calls[|calls| - 1].choice))
  }

  ghost predicate GoodRun(init: Files, replFac: int, calls: seq<Call>) {
    calls == [] ||
    (GoodRun(init, replFac, calls[..|calls| - 1]) &&
     CallOk(Run(init, replFac, calls[..|calls| - 1]).0, calls[|calls| - 1].req, calls[|calls| - 1].choice))
  }

  lemma {:induction false} RunInv(init: Files, replFac: int, calls: seq<Call>)
    requires StoreInv(init) && LawfulRun(init, replFac, calls)
    ensures StoreInv(Run(init, replFac, calls).0)
  {
    if calls != [] {
      RunInv(init, replFac, calls[..|calls| - 1]);
      var c := calls[|calls| - 1];
      HandleInv(Run(init, replFac, calls[..|calls| - 1]).0, replFac, c.token, c.req, c.choice);
    }
  }

  lemma {:induction false} GoodIsLawful(init: Files, replFac: int, calls: seq<Call>)
    requires GoodRun(init, replFac, calls)
    ensures LawfulRun(init, replFac, calls)
  {
    if calls != [] { GoodIsLawful(init, replFac, calls[..|calls| - 1]); }
  }

  /** The live store is what its log means. */
  lemma {:induction false} RunIsSteps(init: Files, replFac: int, calls: seq<Call>)
    requires StoreInv(init) && GoodRun(init, replFac, calls)
    ensures var (s, log) := Run(init, replFac, calls); SafeLog(Norms(init), log) && Norms(s) == Steps(Norms(init), log)
  {
    if calls != [] {
      var n := |calls| - 1;
      var (s, log) := Run(init, replFac, calls[..n]);
      var c := calls[n];
      RunIsSteps(init, replFac, calls[..n]);
      GoodIsLawful(init, replFac, calls[..n]);
      RunInv(init, replFac, calls[..n]);
      CallIsStep(s, replFac, c.token, c.req, c.choice);
      var r := Handle(s, replFac, c.token, c.req, c.choice);
      if r.entry.Some? {
        LogGrows(Norms(init), log, s, r.files, r.entry.value);
      }
    }
  }

  lemma LogGrows(init: Files, log: seq<Entry>, s: Files, t: Files, e: Entry)
    requires SafeLog(init, log) && Norms(s) == Steps(init, log) && Safe(s, e) && Norms(t) == Step(Norms(s), e)
    ensures SafeLog(init, log + [e]) && Norms(t) == Steps(init, log + [e])
  {
    SafeNorms(s, e);
    StepsSnoc(init, log, e);
  }

  /** Replaying the log into an empty store rebuilds the live store, up to timestamps and directory modes. */
  lemma ReplayRebuildsLiveStore(replFac: int, calls: seq<Call>, envs: seq<Env>)
    requires GoodRun(map[], replFac, calls) && ReplayOk(map[], Run(map[], replFac, calls).1, envs)
    ensures Norms(Replay(map[], Run(map[], replFac, calls).1, envs)) == Norms(Run(map[], replFac, calls).0)
  {
    RunIsSteps(map[], replFac, calls);
    assert Norms(map[]) == map[];
    ReplayIsSteps(map[], Run(map[], replFac, calls).1, envs);
  }

  // ---- The one thing replay loses besides timestamps ----

  /** Replay rebuilds the live store up to timestamps alone exactly when every live directory has mode 0755. */
  lemma ReplayExactIff(replFac: int, calls: seq<Call>, envs: seq<Env>)
    requires GoodRun(map[], replFac, calls) && ReplayOk(map[], Run(map[], replFac, calls).1, envs)
    ensures Timeless(Replay(map[], Run(map[], replFac, calls).1, envs)) == Timeless(Run(map[], replFac, calls).0) <==>
            DefaultDirModes(Run(map[], replFac, calls).0)
  {
    var (live, log) := Run(map[], replFac, calls);
    ReplayRebuildsLiveStore(replFac, calls, envs);
    ReplayModes(map[], log, envs);
    TimelessIff(Replay(map[], log, envs), live);
  }
}
