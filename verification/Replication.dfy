/** A Raft leader changes its store, then applies its own committed entry to the same store again; followers apply it
    once (internal/namenode/server.go, walAppend; internal/namenode/raft.go, Apply). */
module Replication {
  import opened Basics
  import opened Paths
  import opened Files
  import opened RenameOrder
  import opened Log
  import opened Handlers

  // ---- Applying an entry that has already taken effect ----

  /** The conditions under which a handler logs the entry. */
  ghost predicate Enabled(s: Files, e: Entry) {
    match e
    case CreateEntry(path, _, _) => path !in s
    case DeleteEntry(path) => path in s && !s[path].isDir
    case ChunkEntry(id, _, _) => exists p :: p in s && s[p].fileID == id
    case MkdirEntry(path) => path !in s
    case RmdirEntry(path) => path in s && s[path].isDir && !HasChildren(s, path)
    case RenameEntry(src, dst) => src in s && dst !in s
    case TruncateEntry(path, _) => path in s
    case UnknownEntry(_) => false
  }

  lemma LoggedMeansEnabled(s: Files, replFac: int, token: Option<string>, req: Request, c: Choice)
    ensures var e := Handle(s, replFac, token, req, c).entry; e.Some? ==> Enabled(Norms(s), e.value)
  {
    assert forall p :: HasChildren(Norms(s), p) == HasChildren(s, p);
    if token.Some? && req.AllocateReq? {
      var e := Handle(s, replFac, token, req, c).entry;
      if e.Some? {
        var p := FindByID(s, req.fileID, c.again);
        assert Norms(s)[p.value].fileID == req.fileID;
      }
    }
  }

  /** The second application of a logged entry changes nothing exactly when it is not a chunk entry. */
  lemma ReapplyIsNoopIff(s: Files, e: Entry)
    requires Enabled(s, e)
    ensures Step(Step(s, e), e) == Step(s, e) <==> !e.ChunkEntry?
  {
    if e.ChunkEntry? {
      var p :| p in s && s[p].fileID == e.fileID;
      assert |Step(Step(s, e), e)[p].chunks| == |Step(s, e)[p].chunks| + 1;
    }
  }

  /** What the leader does: it applies the entry of a call to the store that the call has already changed. Up to
      timestamps this changes nothing, not even the mode of a directory the call has made, exactly when it is not a
      chunk entry. */
  lemma ReapplyCallIff(s: Files, replFac: int, token: Option<string>, req: Request, c: Choice, own: Env)
    requires Handle(s, replFac, token, req, c).entry.Some?
    requires var r := Handle(s, replFac, token, req, c); EnvOk(r.files, r.entry.value, own)
    ensures var r := Handle(s, replFac, token, req, c);
            Timeless(Apply(r.files, r.entry.value, own)) == Timeless(r.files) <==> !r.entry.value.ChunkEntry?
  {
    var r := Handle(s, replFac, token, req, c);
    if req.AllocateReq? {
      var p := FindByID(s, req.fileID, c.again).value;
      assert r.files[p].fileID == req.fileID && p in own.order;
      ChunkGrows(r.files, r.entry.value, own);
    } else {
      ReapplyPlain(s, replFac, token, req, c, own);
    }
  }

  lemma ReapplyPlain(s: Files, replFac: int, token: Option<string>, req: Request, c: Choice, own: Env)
    requires Handle(s, replFac, token, req, c).entry.Some? && !req.AllocateReq?
    ensures var r := Handle(s, replFac, token, req, c);
            !r.entry.value.ChunkEntry? && Timeless(Apply(r.files, r.entry.value, own)) == Timeless(r.files)
  {
    var r := Handle(s, replFac, token, req, c);
    if req.CreateReq? || req.TruncateReq? {
      var t := Apply(r.files, r.entry.value, own);
      assert t == r.files[req.path := t[req.path]];
    } else {
      assert Apply(r.files, r.entry.value, own) == r.files;
    }
  }

  lemma ChunkGrows(s: Files, e: Entry, env: Env)
    requires e.ChunkEntry? && FindByID(s, e.fileID, env.order).Some?
    ensures Timeless(Apply(s, e, env)) != Timeless(s)
  {
    var p := FindByID(s, e.fileID, env.order).value;
    assert |Timeless(Apply(s, e, env))[p].chunks| == |Timeless(s)[p].chunks| + 1;
  }

  // ---- Doubled chunk lists ----

  /** Every element twice in a row, numbered by position. */
  function Twice(cs: seq<Chunk>): (ds: seq<Chunk>)
    ensures |ds| == 2 * |cs|
  {
    seq(2 * |cs|, i requires 0 <= i < 2 * |cs| => cs[i / 2].(index := i))
  }

  function Doubled(s: Files): (t: Files)
    ensures t.Keys == s.Keys
  {
    map p | p in s :: DoubleChunks(s[p])
  }

  lemma TwiceSnoc(cs: seq<Chunk>, id: string, replicas: seq<string>)
    ensures Twice(cs + [Chunk(id, |cs|, replicas)]) ==
            Twice(cs) + [Chunk(id, 2 * |cs|, replicas)] + [Chunk(id, 2 * |cs| + 1, replicas)]
  {
    var n := |cs|;
    var l, r := Twice(cs + [Chunk(id, n, replicas)]),
                Twice(cs) + [Chunk(id, 2 * n, replicas)] + [Chunk(id, 2 * n + 1, replicas)];
    forall i | 0 <= i < |l| ensures l[i] == r[i] {
      if i < 2 * n { assert i / 2 < n; } else { assert i / 2 == n; }
    }
  }

  function DoubleChunks(m: Meta): Meta { m.(chunks := Twice(m.chunks)) }

  lemma MetaDoubled(m: Meta, id: string, replicas: seq<string>)
    ensures WithChunk(WithChunk(DoubleChunks(m), id, replicas), id, replicas) ==
            DoubleChunks(WithChunk(m, id, replicas))
  {
    TwiceSnoc(m.chunks, id, replicas);
  }

  lemma ChunkDoubled(s: Files, e: Entry)
    requires e.ChunkEntry?
    ensures Step(Step(Doubled(s), e), e) == Doubled(Step(s, e))
  {
    forall p | p in s ensures Step(Step(Doubled(s), e), e)[p] == Doubled(Step(s, e))[p] {
      MetaDoubled(s[p], e.chunkID, e.replicas);
    }
  }

  lemma PartialDoubled(s: Files, src: string, dst: string, v: set<string>)
    requires v <= Children(s, src)
    ensures Doubled(Partial(s, src, dst, v)) == Partial(Doubled(s), src, dst, v)
  {
    forall k | k in Moved(v, src, dst) ensures Move(k, dst, src) in s { MovedFrom(k, v, src, dst); }
  }

  lemma RelocateDoubled(s: Files, src: string, dst: string)
    requires src in s
    ensures Doubled(Relocate(s, src, dst, 0)) == Relocate(Doubled(s), src, dst, 0)
  {
    assert Children(s, src) == Children(Doubled(s), src);
    PartialDoubled(s, src, dst, Children(s, src));
  }

  lemma InsertDoubled(s: Files, p: string, m: Meta)
    ensures Doubled(s[p := m]) == Doubled(s)[p := DoubleChunks(m)]
  {
  }

  lemma RemoveDoubled(s: Files, p: string)
    ensures Doubled(s - {p}) == Doubled(s) - {p}
  {
  }

  lemma PlainDoubled(s: Files, e: Entry)
    requires !e.ChunkEntry? && !e.RenameEntry? && !e.UnknownEntry?
    ensures Step(Doubled(s), e) == Doubled(Step(s, e))
  {
    var t := Step(s, e);
    assert HasChildren(Doubled(s), e.path) == HasChildren(s, e.path);
    RemoveDoubled(s, e.path);
    if e.path in t { InsertDoubled(s, e.path, t[e.path]); }
    assert Twice([]) == [];
  }

  lemma StepDoubled(s: Files, e: Entry)
    requires !e.ChunkEntry?
    ensures Step(Doubled(s), e) == Doubled(Step(s, e))
  {
    if e.RenameEntry? {
      if e.src in s && e.dst !in s { RelocateDoubled(s, e.src, e.dst); }
    } else if !e.UnknownEntry? {
      PlainDoubled(s, e);
    }
  }

  /** One step of the leader against one step of a follower. */
  lemma LeaderStep(s: Files, e: Entry)
    requires Enabled(Doubled(s), e)
    ensures Step(Step(Doubled(s), e), e) == Doubled(Step(s, e))
  {
    if e.ChunkEntry? {
      ChunkDoubled(s, e);
    } else {
      ReapplyIsNoopIff(Doubled(s), e);
      StepDoubled(s, e);
    }
  }

  // ---- Cluster runs ----

  /** A request to the leader, with what the leader's own and the follower's application leave open. */
  datatype ClusterCall = ClusterCall(call: Call, own: Env, remote: Env)

  /** Leader and follower stores after a sequence of committed requests. */
  function Cluster(replFac: int, calls: seq<ClusterCall>): (r: (Files, Files)) {
    if calls == [] then (map[], map[])
    else
      var (leader, follower) := Cluster(replFac, calls[..|calls| - 1]);
      var c := calls[|calls| - 1];
      var r := Handle(leader, replFac, c.call.token, c.call.req, c.call.choice);
      if r.entry.None? then (r.files, follower)
      else (Apply(r.files, r.entry.value, c.own), Apply(follower, r.entry.value, c.remote))
  }

  ghost predicate GoodCluster(replFac: int, calls: seq<ClusterCall>) {
    calls == [] ||
    (GoodCluster(replFac, calls[..|calls| - 1]) &&
     var (leader, follower) := Cluster(replFac, calls[..|calls| - 1]);
     var c := calls[|calls| - 1];
     var r := Handle(leader, replFac, c.call.token, c.call.req, c.call.choice);
     CallOk(leader, c.call.req, c.call.choice) &&
     (r.entry.Some? ==> EnvOk(r.files, r.entry.value, c.own) && EnvOk(follower, r.entry.value, c.remote)))
  }

  lemma InvNorms(s: Files)
    ensures StoreInv(Norms(s)) <==> StoreInv(s)
  {
    assert forall p :: p in s ==> Norms(s)[p] == Norm(s[p]);
    forall p | p in s ensures MetaOk(p, Norms(s)[p]) <==> MetaOk(p, s[p]) {}
    if StoreInv(Norms(s)) {
      forall p, q | p in s && q in s && s[p].fileID == s[q].fileID != "" ensures p == q {
        assert Norms(s)[p].fileID == Norms(s)[q].fileID;
      }
    }
  }

  /** After the live step the entry is still safe to apply. */
  lemma StillSafe(s: Files, replFac: int, token: Option<string>, req: Request, c: Choice)
    requires StoreInv(s) && CallOk(s, req, c) && Handle(s, replFac, token, req, c).entry.Some?
    ensures var r := Handle(s, replFac, token, req, c);
            Safe(r.files, r.entry.value) && (r.entry.value.ChunkEntry? ==> r.entry.value.fileID != "")
  {
    var r := Handle(s, replFac, token, req, c);
    HandleInv(s, replFac, token, req, c);
    if req.RenameReq? {
      assert req.src !in r.files;
    } else if req.AllocateReq? {
      assert r.entry.value.fileID == req.fileID != "";
    }
  }

  lemma ReapplyInv(before: Files, live: Files, e: Entry, env: Env)
    requires StoreInv(live) && Enabled(before, e) && Norms(live) == Step(before, e)
    requires Safe(live, e) && EnvOk(live, e, env) && (e.ChunkEntry? ==> e.fileID != "")
    ensures var t := Apply(live, e, env); StoreInv(t) && Norms(t) == Step(Step(before, e), e)
  {
    ApplyIsStep(live, e, env);
    if e.ChunkEntry? {
      AddChunkInv(live, e.fileID, e.chunkID, e.replicas, env.order);
    } else {
      ReapplyIsNoopIff(before, e);
      InvNorms(live);
      InvNorms(Apply(live, e, env));
    }
  }

  /** Over every run of committed requests, the leader's store is the follower's with every chunk doubled, up to
      timestamps and directory modes: same keys, ids, kinds, sizes and file modes. */
  lemma {:induction false} LeaderIsFollowerDoubled(replFac: int, calls: seq<ClusterCall>)
    requires GoodCluster(replFac, calls)
    ensures var (leader, follower) := Cluster(replFac, calls);
            StoreInv(leader) && Norms(leader) == Doubled(Norms(follower))
  {
    if calls != [] {
      var n := |calls| - 1;
      var (leader, follower) := Cluster(replFac, calls[..n]);
      var c := calls[n];
      LeaderIsFollowerDoubled(replFac, calls[..n]);
      var r := Handle(leader, replFac, c.call.token, c.call.req, c.call.choice);
      CallIsStep(leader, replFac, c.call.token, c.call.req, c.call.choice);
      if r.entry.Some? {
        ClusterStep(leader, follower, replFac, c, r.entry.value);
      }
    }
  }

  lemma FollowerSafe(leader: Files, follower: Files, e: Entry)
    requires Norms(leader) == Doubled(Norms(follower)) && Safe(leader, e)
    ensures Safe(follower, e)
  {
    assert leader.Keys == follower.Keys;
    assert forall p :: p in follower ==>
      Norms(leader)[p].fileID == Norms(follower)[p].fileID && Norms(leader)[p].isDir == Norms(follower)[p].isDir;
    SafeNorms(leader, e);
    SafeNorms(follower, e);
  }

  lemma ClusterStep(leader: Files, follower: Files, replFac: int, c: ClusterCall, e: Entry)
    requires StoreInv(leader) && Norms(leader) == Doubled(Norms(follower)) && CallOk(leader, c.call.req, c.call.choice)
    requires Handle(leader, replFac, c.call.token, c.call.req, c.call.choice).entry == Some(e)
    requires EnvOk(Handle(leader, replFac, c.call.token, c.call.req, c.call.choice).files, e, c.own)
    requires EnvOk(follower, e, c.remote)
    ensures var t := Apply(Handle(leader, replFac, c.call.token, c.call.req, c.call.choice).files, e, c.own);
            StoreInv(t) && Norms(t) == Doubled(Norms(Apply(follower, e, c.remote)))
  {
    CallIsStep(leader, replFac, c.call.token, c.call.req, c.call.choice);
    LoggedMeansEnabled(leader, replFac, c.call.token, c.call.req, c.call.choice);
    HandleInv(leader, replFac, c.call.token, c.call.req, c.call.choice);
    StillSafe(leader, replFac, c.call.token, c.call.req, c.call.choice);
    ReapplyInv(Norms(leader), Handle(leader, replFac, c.call.token, c.call.req, c.call.choice).files, e, c.own);
    LeaderStep(Norms(follower), e);
    FollowerSafe(leader, follower, e);
    ApplyIsStep(follower, e, c.remote);
  }

  lemma DoubledIsSameIff(s: Files)
    ensures Doubled(s) == s <==> forall p :: p in s ==> s[p].chunks == []
  {
    forall p | p in s ensures Doubled(s)[p] == s[p] <==> s[p].chunks == [] {
      assert |Twice(s[p].chunks)| == 2 * |s[p].chunks|;
    }
  }

  /** So leader and follower agree exactly as long as no file has a chunk. */
  lemma ReplicasAgreeIff(replFac: int, calls: seq<ClusterCall>)
    requires GoodCluster(replFac, calls)
    ensures var (leader, follower) := Cluster(replFac, calls);
            Norms(leader) == Norms(follower) <==> forall p :: p in follower ==> follower[p].chunks == []
  {
    LeaderIsFollowerDoubled(replFac, calls);
    var (leader, follower) := Cluster(replFac, calls);
    DoubledIsSameIff(Norms(follower));
    assert forall p :: p in follower ==> Norms(follower)[p].chunks == follower[p].chunks;
  }
}
