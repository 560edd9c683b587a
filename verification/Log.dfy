/** The write-ahead log's interpreter: Replay (internal/namenode/wal.go) and RaftFSM.Apply (internal/namenode/raft.go),
    which treat an entry the same way, and the deterministic step function they refine. */
module Log {
  import opened Basics
  import opened Paths
  import opened Files
  import opened RenameOrder

  datatype Entry =
    | CreateEntry(path: string, fileID: string, mode: int)
    | DeleteEntry(path: string)
    | ChunkEntry(fileID: string, chunkID: string, replicas: seq<string>)
    | MkdirEntry(path: string)
    | RmdirEntry(path: string)
    | RenameEntry(src: string, dst: string)
    | TruncateEntry(path: string, size: int)
    | UnknownEntry(op: string)

  /** What one application of an entry leaves open: the clock and the order in which Go's range visits the map. */
  datatype Env = Env(now: int, order: seq<string>)

  function Apply(s: Files, e: Entry, env: Env): (t: Files) {
    match e
    case CreateEntry(path, id, mode) =>
      s[path := Meta(id, path, 0, if mode == 0 then FILE_MODE else mode, false, 0, 0, [])]
    case DeleteEntry(path) => DeleteFile(s, path).0
    case ChunkEntry(id, chunkID, replicas) => AddChunk(s, id, chunkID, replicas, env.order).0
    case MkdirEntry(path) => MakeDir(s, path, DIR_MODE, env.now).0
    case RmdirEntry(path) => RemoveDir(s, path).0
    case RenameEntry(src, dst) => Rename(s, src, dst, env.now, env.order).0
    case TruncateEntry(path, size) => TruncateFile(s, path, size, env.now).0
    case UnknownEntry(_) => s
  }

  ghost predicate MovesDirectory(s: Files, e: Entry) {
    e.RenameEntry? && e.src in s && e.dst !in s && s[e.src].isDir
  }

  ghost predicate EnvOk(s: Files, e: Entry, env: Env) {
    (e.ChunkEntry? || e.RmdirEntry? ==> Lists(env.order, s.Keys)) &&
    (MovesDirectory(s, e) ==> RangeOk(s, e.src, e.dst, env.order))
  }

  // ---- Stores up to timestamps and directory modes ----

  function Norm(m: Meta): Meta {
    m.(mtime := 0, ctime := 0, mode := if m.isDir then DIR_MODE else m.mode)
  }

  /** Timestamps are not logged, nor are directory modes: everything else is. */
  function Norms(s: Files): (t: Files)
    ensures t.Keys == s.Keys
  {
    map p | p in s :: Norm(s[p])
  }

  /** Equal in all that is logged. */
  ghost predicate SameLogged(m: Meta, n: Meta) {
    m.fileID == n.fileID && m.path == n.path && m.size == n.size && m.isDir == n.isDir && m.chunks == n.chunks &&
    (!m.isDir ==> m.mode == n.mode)
  }

  /** Stores are equal up to timestamps and directory modes exactly when their records are equal in all that is
      logged. */
  lemma SameNormsIff(s: Files, t: Files)
    ensures Norms(s) == Norms(t) <==> s.Keys == t.Keys && forall p :: p in s && p in t ==> SameLogged(s[p], t[p])
  {
    if Norms(s) == Norms(t) {
      forall p | p in s && p in t ensures SameLogged(s[p], t[p]) {
        assert Norms(s)[p] == Norms(t)[p];
      }
    }
  }

  /** What an entry means, with nothing left open. */
  ghost function Step(s: Files, e: Entry): (t: Files) {
    match e
    case ChunkEntry(id, chunkID, replicas) =>
      map p | p in s :: if s[p].fileID == id then WithChunk(s[p], chunkID, replicas) else s[p]
    case RenameEntry(src, dst) =>
      if src in s && dst !in s then Relocate(s, src, dst, 0) else s
    case _ => Apply(s, e, Env(0, []))
  }

  /** At most one record has the id of a chunk entry; a directory rename revisits no child. */
  ghost predicate Safe(s: Files, e: Entry) {
    (e.ChunkEntry? ==> forall p, q :: p in s && q in s && s[p].fileID == e.fileID == s[q].fileID ==> p == q) &&
    (MovesDirectory(s, e) ==> NoRevisit(s, e.src, e.dst))
  }

  lemma SafeNorms(s: Files, e: Entry)
    ensures Safe(Norms(s), e) <==> Safe(s, e)
  {
  }

  lemma PartialNorms(s: Files, src: string, dst: string, v: set<string>)
    requires v <= Children(s, src)
    ensures Norms(Partial(s, src, dst, v)) == Partial(Norms(s), src, dst, v)
  {
    forall k | k in Moved(v, src, dst) ensures Move(k, dst, src) in s { MovedFrom(k, v, src, dst); }
  }

  lemma RelocateNorms(s: Files, src: string, dst: string, now: int)
    requires src in s
    ensures Norms(Relocate(s, src, dst, now)) == Relocate(Norms(s), src, dst, 0)
  {
    assert Children(s, src) == Children(Norms(s), src);
    PartialNorms(s, src, dst, Children(s, src));
  }

  lemma ChunkIsStep(s: Files, e: Entry, order: seq<string>)
    requires e.ChunkEntry? && Safe(s, e) && Lists(order, s.Keys)
    ensures Norms(AddChunk(s, e.fileID, e.chunkID, e.replicas, order).0) == Step(Norms(s), e)
  {
  }

  lemma InsertNorms(s: Files, p: string, m: Meta)
    ensures Norms(s[p := m]) == Norms(s)[p := Norm(m)]
  {
  }

  lemma RemoveNorms(s: Files, p: string)
    ensures Norms(s - {p}) == Norms(s) - {p}
  {
  }

  lemma PlainIsStep(s: Files, e: Entry, env: Env)
    requires !e.ChunkEntry? && !e.RenameEntry?
    ensures Norms(Apply(s, e, env)) == Step(Norms(s), e)
  {
    if e.UnknownEntry? { return; }
    var t := Apply(s, e, env);
    assert HasChildren(Norms(s), e.path) == HasChildren(s, e.path);
    RemoveNorms(s, e.path);
    if e.path in t { InsertNorms(s, e.path, t[e.path]); }
  }

  lemma ApplyIsStep(s: Files, e: Entry, env: Env)
    requires Safe(s, e) && EnvOk(s, e, env)
    ensures Norms(Apply(s, e, env)) == Step(Norms(s), e)
  {
    if e.ChunkEntry? {
      ChunkIsStep(s, e, env.order);
    } else if !e.RenameEntry? {
      PlainIsStep(s, e, env);
    } else if e.src in s && e.dst !in s {
      RenameIsRelocate(s, e.src, e.dst, env.now, env.order);
      RelocateNorms(s, e.src, e.dst, env.now);
    }
  }

  /** An entry has one outcome, whatever the clock and the visiting order, exactly when it is safe. */
  lemma DeterministicIff(s: Files, e: Entry)
    ensures (forall a, b :: EnvOk(s, e, a) && EnvOk(s, e, b) ==> Norms(Apply(s, e, a)) == Norms(Apply(s, e, b)))
            <==> Safe(s, e)
  {
    if Safe(s, e) {
      forall a, b | EnvOk(s, e, a) && EnvOk(s, e, b) ensures Norms(Apply(s, e, a)) == Norms(Apply(s, e, b)) {
        ApplyIsStep(s, e, a);
        ApplyIsStep(s, e, b);
      }
    } else if e.ChunkEntry? {
      var a, b := AmbiguousChunk(s, e);
    } else {
      var a, b := AmbiguousRename(s, e);
    }
  }

  /** Two visiting orders that start at different records with the id extend different records. */
  lemma AmbiguousChunk(s: Files, e: Entry) returns (a: Env, b: Env)
    requires e.ChunkEntry? && !Safe(s, e)
    ensures EnvOk(s, e, a) && EnvOk(s, e, b) && Norms(Apply(s, e, a)) != Norms(Apply(s, e, b))
  {
    var p, q :| p in s && q in s && s[p].fileID == e.fileID == s[q].fileID && p != q;
    var x := ListingFrom(s.Keys, p);
    var y := ListingFrom(s.Keys, q);
    a, b := Env(0, x), Env(0, y);
    var t, u := Apply(s, e, a), Apply(s, e, b);
    assert t[p] == WithChunk(s[p], e.chunkID, e.replicas) && u[p] == s[p];
    assert |Norms(t)[p].chunks| == |s[p].chunks| + 1 && |Norms(u)[p].chunks| == |s[p].chunks|;
  }

  lemma AmbiguousRename(s: Files, e: Entry) returns (a: Env, b: Env)
    requires MovesDirectory(s, e) && !NoRevisit(s, e.src, e.dst)
    ensures EnvOk(s, e, a) && EnvOk(s, e, b) && Norms(Apply(s, e, a)) != Norms(Apply(s, e, b))
  {
    var p :| p in s && Below(p, e.src) && Below(Move(p, e.src, e.dst), e.src);
    var x, y := RevisitDiffers(s, e.src, e.dst, 0, p);
    a, b := Env(0, x), Env(0, y);
    assert Norms(Apply(s, e, a)).Keys != Norms(Apply(s, e, b)).Keys;
  }

  // ---- Whole logs ----

  function Replay(s: Files, log: seq<Entry>, envs: seq<Env>): (t: Files)
    requires |envs| == |log|
  {
    if log == [] then s
    else
      var n := |log| - 1;
      Apply(Replay(s, log[..n], envs[..n]), log[n], envs[n])
  }

  ghost predicate ReplayOk(s: Files, log: seq<Entry>, envs: seq<Env>) {
    |envs| == |log| &&
    (log == [] ||
     var n := |log| - 1;
     ReplayOk(s, log[..n], envs[..n]) && EnvOk(Replay(s, log[..n], envs[..n]), log[n], envs[n]))
  }

  ghost function Steps(s: Files, log: seq<Entry>): (t: Files) {
    if log == [] then s else Step(Steps(s, log[..|log| - 1]), log[|log| - 1])
  }

  ghost predicate SafeLog(s: Files, log: seq<Entry>) {
    log == [] || (SafeLog(s, log[..|log| - 1]) && Safe(Steps(s, log[..|log| - 1]), log[|log| - 1]))
  }

  /** Every log can be replayed: whatever the store, Go's range has an order to offer. */
  lemma {:induction false} ReplayEnvsExist(s: Files, log: seq<Entry>) returns (envs: seq<Env>)
    ensures ReplayOk(s, log, envs)
  {
    if log == [] {
      envs := [];
    } else {
      var n := |log| - 1;
      var init := ReplayEnvsExist(s, log[..n]);
      var t := Replay(s, log[..n], init);
      var order := ListingExists(t.Keys);
      if MovesDirectory(t, log[n]) { ListingIsRange(t, log[n].src, log[n].dst, order); }
      envs := init + [Env(0, order)];
      assert envs[..n] == init;
    }
  }

  lemma StepsSnoc(s: Files, log: seq<Entry>, e: Entry)
    ensures Steps(s, log + [e]) == Step(Steps(s, log), e)
    ensures SafeLog(s, log + [e]) <==> SafeLog(s, log) && Safe(Steps(s, log), e)
  {
    assert (log + [e])[..|log|] == log;
  }

  /** Replaying a safe log gives the meaning of its entries in order, whatever the clock and visiting orders. */
  lemma {:induction false} ReplayIsSteps(s: Files, log: seq<Entry>, envs: seq<Env>)
    requires SafeLog(Norms(s), log) && ReplayOk(s, log, envs)
    ensures Norms(Replay(s, log, envs)) == Steps(Norms(s), log)
  {
    if log != [] {
      var n := |log| - 1;
      var t := Replay(s, log[..n], envs[..n]);
      ReplayIsSteps(s, log[..n], envs[..n]);
      SafeNorms(t, log[n]);
      ApplyIsStep(t, log[n], envs[n]);
    }
  }

  lemma {:induction false} StepsSplit(s: Files, a: seq<Entry>, b: seq<Entry>)
    ensures Steps(s, a + b) == Steps(Steps(s, a), b)
    ensures SafeLog(s, a + b) <==> SafeLog(s, a) && SafeLog(Steps(s, a), b)
  {
    if b == [] {
      assert a + b == a;
    } else {
      var n := |b| - 1;
      StepsSplit(s, a, b[..n]);
      assert (a + b)[..|a + b| - 1] == a + b[..n] && (a + b)[|a + b| - 1] == b[n];
    }
  }

  // ---- Directory modes ----

  function Timeless(s: Files): (t: Files)
    ensures t.Keys == s.Keys
  {
    map p | p in s :: s[p].(mtime := 0, ctime := 0)
  }

  /** Equal up to timestamps: exactly the two times may differ. */
  lemma SameTimelessIff(s: Files, t: Files)
    ensures Timeless(s) == Timeless(t) <==>
            s.Keys == t.Keys && forall p :: p in s && p in t ==> SameLogged(s[p], t[p]) && s[p].mode == t[p].mode
  {
    if Timeless(s) == Timeless(t) {
      forall p | p in s && p in t ensures SameLogged(s[p], t[p]) && s[p].mode == t[p].mode {
        assert Timeless(s)[p] == Timeless(t)[p];
      }
    }
  }

  ghost predicate DefaultDirModes(s: Files) {
    forall p :: p in s && s[p].isDir ==> s[p].mode == DIR_MODE
  }

  lemma {:induction false} RunVisitsModes(s: Files, src: string, dst: string, order: seq<string>)
    requires DefaultDirModes(s)
    ensures DefaultDirModes(RunVisits(s, src, dst, order))
  {
    if order != [] {
      RunVisitsModes(s, src, dst, order[..|order| - 1]);
    }
  }

  /** Replay makes directories with mode 0755 only. */
  lemma {:induction false} ReplayModes(s: Files, log: seq<Entry>, envs: seq<Env>)
    requires |log| == |envs| && DefaultDirModes(s)
    ensures DefaultDirModes(Replay(s, log, envs))
  {
    if log != [] {
      var n := |log| - 1;
      ReplayModes(s, log[..n], envs[..n]);
      if log[n].RenameEntry? {
        RunVisitsModes(Replay(s, log[..n], envs[..n]), log[n].src, log[n].dst, envs[n].order);
      }
    }
  }

  lemma TimelessIff(s: Files, t: Files)
    requires Norms(s) == Norms(t) && DefaultDirModes(s)
    ensures Timeless(s) == Timeless(t) <==> DefaultDirModes(t)
  {
    assert s.Keys == t.Keys;
    forall p | p in s ensures Norm(s[p]) == Norm(t[p]) {
      assert Norms(s)[p] == Norms(t)[p];
    }
    if Timeless(s) == Timeless(t) {
      forall p | p in t ensures s[p].mode == t[p].mode && s[p].isDir == t[p].isDir {
        assert Timeless(s)[p] == Timeless(t)[p];
      }
    }
  }

  // ---- Snapshots ----

  /** Snapshot at a cut, encode, decode, restore, then apply the rest: the same store, up to timestamps, as applying
      the whole log, for every way the two machines may read their clocks and visit their maps. */
  lemma SnapshotThenSuffix(log: seq<Entry>, cut: nat, envs: seq<Env>, before: seq<Env>, after: seq<Env>,
                           encode: Files -> seq<int>, decode: seq<int> -> Option<Files>)
    requires cut <= |log| && SafeLog(map[], log) && ReplayOk(map[], log, envs)
    requires forall s :: decode(encode(s)) == Some(s)
    requires ReplayOk(map[], log[..cut], before)
    requires ReplayOk(decode(encode(Replay(map[], log[..cut], before))).value, log[cut..], after)
    ensures Timeless(Replay(decode(encode(Replay(map[], log[..cut], before))).value, log[cut..], after)) ==
            Timeless(Replay(map[], log, envs))
  {
    var t := Replay(map[], log[..cut], before);
    assert log == log[..cut] + log[cut..] && Norms(map[]) == map[];
    StepsSplit(map[], log[..cut], log[cut..]);
    ReplayIsSteps(map[], log, envs);
    ReplayIsSteps(map[], log[..cut], before);
    ReplayIsSteps(t, log[cut..], after);
    ReplayModes(map[], log[..cut], before);
    ReplayModes(t, log[cut..], after);
    ReplayModes(map[], log, envs);
    TimelessIff(Replay(t, log[cut..], after), Replay(map[], log, envs));
  }
}
