/** The programs that drive the store: log replay, the Raft state machine and the request handlers
    (internal/namenode/wal.go, raft.go, server.go), each proved against its value-level function. */
module Server {
  import opened Basics
  import opened Paths
  import F = Files
  import L = Log
  import H = Handlers
  import R = Registry
  import P = Placement
  import W = Recovery
  import opened MetadataStore

  /** Both interpreters of a log entry, Replay's loop body and RaftFSM.Apply, do this. */
  method ApplyEntry(store: MetadataStore, e: L.Entry, env: L.Env)
    requires store.Valid() && L.EnvOk(store.view, e, env)
    modifies store, store.Repr
    ensures store.Valid() && fresh(store.Repr - old(store.Repr))
    ensures store.view == L.Apply(old(store.view), e, env)
  {
    match e {
      case CreateEntry(path, id, m) =>
        var mode := m;
        if mode == 0 {
          mode := F.FILE_MODE;
        }
        var fm := new FileMeta(F.Meta(id, path, 0, mode, false, 0, 0, []));
        store.PutFile(fm);
      case DeleteEntry(path) => var _ := store.DeleteFile(path);
      case ChunkEntry(id, chunkID, replicas) => var _ := store.AddChunk(id, chunkID, replicas, env.order);
      case MkdirEntry(path) => var _ := store.MakeDir(path, F.DIR_MODE, env.now);
      case RmdirEntry(path) => var _ := store.RemoveDir(path, env.order);
      case RenameEntry(src, dst) => var _ := store.Rename(src, dst, env.now, env.order);
      case TruncateEntry(path, size) => var _ := store.TruncateFile(path, size, env.now);
      case UnknownEntry(_) =>
    }
  }

  /** readAll: the entries up to the end or a stray bracket, or an error. */
  method ReadAll(file: seq<W.Record>) returns (r: Option<seq<L.Entry>>)
    ensures r == W.ReadAll(file)
  {
    var entries := [];
    assert file[0..] == file && forall log: seq<L.Entry> :: [] + log == log;
    for i := 0 to |file|
      invariant W.ReadAll(file) == W.Prepended(entries, W.ReadAll(file[i..]))
    {
      assert file[i..][0] == file[i] && file[i..][1..] == file[i + 1..];
      if file[i].Stray? {
        assert entries + [] == entries;
        return Some(entries);
      }
      if file[i].Unreadable? {
        return None;
      }
      W.ReadOne(entries, file[i..]);
      entries := entries + [file[i].entry];
    }
    assert entries + [] == entries;
    r := Some(entries);
  }

  /** The log file at start-up. */
  datatype LogFile = Missing | Unopenable | Contents(records: seq<W.Record>)

  /** Replay: a missing file is an empty log; if the file cannot be read to its end, nothing is applied. */
  method Replay(file: LogFile, store: MetadataStore, envs: seq<L.Env>) returns (ok: bool)
    requires store.Valid()
    requires file.Contents? && W.ReadAll(file.records).Some? ==>
               L.ReplayOk(store.view, W.ReadAll(file.records).value, envs)
    modifies store, store.Repr
    ensures store.Valid() && fresh(store.Repr - old(store.Repr))
    ensures ok <==> file.Missing? || (file.Contents? && W.ReadAll(file.records).Some?)
    ensures store.view == if file.Contents? then W.ReplayFile(old(store.view), file.records, envs) else old(store.view)
  {
    match file {
      case Missing => return true;
      case Unopenable => return false;
      case Contents(records) =>
        var entries := ReadAll(records);
        if entries.None? {
          return false;
        }
        ReplayEntries(entries.value, store, envs);
        return true;
    }
  }

  /** Replay's loop over the entries. */
  method ReplayEntries(log: seq<L.Entry>, store: MetadataStore, envs: seq<L.Env>)
    requires store.Valid() && L.ReplayOk(store.view, log, envs)
    modifies store, store.Repr
    ensures store.Valid() && fresh(store.Repr - old(store.Repr))
    ensures store.view == L.Replay(old(store.view), log, envs)
  {
    for i := 0 to |log|
      invariant store.Valid() && fresh(store.Repr - old(store.Repr))
      invariant store.view == L.Replay(old(store.view), log[..i], envs[..i])
    {
      ReplayPrefix(old(store.view), log, envs, i);
      ApplyEntry(store, log[i], envs[i]);
    }
    assert log[..|log|] == log && envs[..|log|] == envs;
  }

  lemma {:induction false} ReplayPrefix(s: F.Files, log: seq<L.Entry>, envs: seq<L.Env>, i: nat)
    requires L.ReplayOk(s, log, envs) && i < |log|
    ensures L.EnvOk(L.Replay(s, log[..i], envs[..i]), log[i], envs[i])
    ensures L.Replay(s, log[..i + 1], envs[..i + 1]) == L.Apply(L.Replay(s, log[..i], envs[..i]), log[i], envs[i])
    decreases |log|
  {
    var n := |log| - 1;
    assert log[..i + 1][..i] == log[..i] && envs[..i + 1][..i] == envs[..i];
    if i < n {
      ReplayPrefix(s, log[..n], envs[..n], i);
      assert log[..n][..i] == log[..i] && envs[..n][..i] == envs[..i];
    }
  }

  /** No record and no chunk array belongs to both. */
  ghost predicate ShareNothing(m: map<string, FileMeta>, m': map<string, FileMeta>)
    reads m.Values, m'.Values
  {
    forall p, q :: p in m && q in m' ==> m[p] != m'[q] && m[p].chunks != m'[q].chunks
  }

  /** Applying any entries to the store after a snapshot leaves the snapshot as it was taken: it still stands for the
      values of that moment, and store and snapshot share no record and no chunk array. */
  method SnapshotIsolation(store: MetadataStore, order: seq<string>, log: seq<L.Entry>, envs: seq<L.Env>)
    returns (snapshot: map<string, FileMeta>, ghost heap: set<object>, ghost homes: Homes)
    requires store.Valid() && Lists(order, store.files.Keys) && L.ReplayOk(store.view, log, envs)
    modifies store, store.Repr
    ensures store.Valid() && store.view == L.Replay(old(store.view), log, envs)
    ensures StandsFor(snapshot, old(store.view), heap, homes) && heap !! store.Repr
    ensures ShareNothing(snapshot, store.files)
  {
    snapshot, heap, homes := SnapshotThenReplay(store, order, log, envs);
    Apart(snapshot, old(store.view), heap, homes, store.files, store.view, store.Repr, store.home);
  }

  method SnapshotThenReplay(store: MetadataStore, order: seq<string>, log: seq<L.Entry>, envs: seq<L.Env>)
    returns (snapshot: map<string, FileMeta>, ghost heap: set<object>, ghost homes: Homes)
    requires store.Valid() && Lists(order, store.files.Keys) && L.ReplayOk(store.view, log, envs)
    modifies store, store.Repr
    ensures store.Valid() && store.view == L.Replay(old(store.view), log, envs)
    ensures StandsFor(snapshot, old(store.view), heap, homes) && heap !! store.Repr
  {
    snapshot, heap, homes := store.Snapshot(order);
    ghost var s := store.view;
    assert heap !! store.Repr && store !in heap && StandsFor(snapshot, s, heap, homes);
    ReplayEntries(log, store, envs);
    assert StandsFor(snapshot, s, heap, homes);
  }

  lemma Apart(m: map<string, FileMeta>, s: F.Files, heap: set<object>, home: Homes,
              m': map<string, FileMeta>, s': F.Files, heap': set<object>, home': Homes)
    requires StandsFor(m, s, heap, home) && StandsFor(m', s', heap', home') && heap !! heap'
    ensures ShareNothing(m, m')
  {
    forall p, q | p in m && q in m' ensures m[p] != m'[q] && m[p].chunks != m'[q].chunks {
      assert At(m[p], p, heap, home) && At(m'[q], q, heap', home');
    }
  }

  // ---- Request handlers ----

  /** AllocateChunk's loop over the available nodes. */
  method FirstAddresses(available: seq<R.Node>, rf: int) returns (addrs: seq<string>)
    requires rf <= |available|
    ensures addrs == P.Addresses(available)[..if rf < 0 then 0 else rf]
  {
    addrs := [];
    var i := 0;
    while i < rf
      invariant 0 <= i <= |available| && (i <= rf || i == 0) && addrs == P.Addresses(available)[..i]
    {
      addrs := addrs + [available[i].address];
      i := i + 1;
    }
  }

  /** What becomes of an entry handed to walAppend: what of it gets into the log file (there may be no log, or the
      write may fail), and whether it is submitted to Raft and applied to this store as well, with what that leaves
      open. */
  datatype Fate = Fate(write: W.Write, applied: bool, own: L.Env)

  class NameNodeServer {
    const store: MetadataStore
    const registry: R.InMemoryDataNodeRegistry
    var wal: seq<W.Record>

    constructor (store: MetadataStore, registry: R.InMemoryDataNodeRegistry)
      ensures this.store == store && this.registry == registry && wal == []
    {
      this.store, this.registry, this.wal := store, registry, [];
    }

    ghost predicate Valid()
      reads this, store, store.Repr
    {
      this !in store.Repr && store.Valid()
    }

    /** The store after a reply, counting the leader's application of its own entry. */
    static ghost function After(r: H.Reply, fate: Fate): (s: F.Files) {
      if fate.applied && r.entry.Some? then L.Apply(r.files, r.entry.value, fate.own) else r.files
    }

    static ghost function WalAfter(wal: seq<W.Record>, r: H.Reply, fate: Fate): (file: seq<W.Record>) {
      wal + W.Recorded(r.entry, fate.write)
    }

    /** The order in which the leader's own application visits the map is a lawful one. */
    static ghost predicate FateOk(r: H.Reply, fate: Fate) {
      fate.applied && r.entry.Some? ==> L.EnvOk(r.files, r.entry.value, fate.own)
    }

    /** Append to the log; a leader also submits the entry and thereby applies it to its own store. Errors are only
        reported. */
    method WalAppend(e: L.Entry, fate: Fate)
      requires Valid() && (fate.applied ==> L.EnvOk(store.view, e, fate.own))
      modifies this`wal, store, store.Repr
      ensures Valid() && wal == old(wal) + W.Recorded(Some(e), fate.write)
      ensures store.view == if fate.applied then L.Apply(old(store.view), e, fate.own) else old(store.view)
    {
      wal := wal + W.Recorded(Some(e), fate.write);
      if fate.applied {
        ApplyEntry(store, e, fate.own);
      }
    }

    /** CreateFile once the path is allowed and the mode settled. */
    method CreateAt(path: string, mode: int, c: H.Choice, fate: Fate) returns (code: H.Code)
      requires Valid() && FateOk(H.CreateAt(store.view, path, mode, c), fate)
      modifies this`wal, store, store.Repr
      ensures var r := H.CreateAt(old(store.view), path, mode, c);
              Valid() && code == r.code && wal == WalAfter(old(wal), r, fate) && store.view == After(r, fate)
    {
      var fm, err := store.CreateFile(path, mode, c.id, c.now);
      if err.Some? {
        return if err.value == F.FileExists then H.AlreadyExists else H.Internal;
      }
      WalAppend(L.CreateEntry(path, fm.fileID, fm.mode), fate);
      code := H.OK;
    }

    method CreateFile(token: Option<string>, path: string, mode: int, c: H.Choice, fate: Fate) returns (code: H.Code)
      requires Valid() && FateOk(H.Handle(store.view, store.replFac, token, H.CreateReq(path, mode), c), fate)
      modifies this`wal, store, store.Repr
      ensures var r := H.Handle(old(store.view), store.replFac, token, H.CreateReq(path, mode), c);
              Valid() && code == r.code && wal == WalAfter(old(wal), r, fate) && store.view == After(r, fate)
    {
      if token.None? {
        return H.Internal;
      }
      if !Allowed(token.value, path) {
        return H.PermissionDenied;
      }
      var m := mode;
      if m == 0 {
        m := F.FILE_MODE;
      }
      code := CreateAt(path, m, c, fate);
    }

    method DeleteFile(token: Option<string>, path: string, c: H.Choice, fate: Fate) returns (code: H.Code)
      requires Valid() && FateOk(H.Handle(store.view, store.replFac, token, H.DeleteReq(path), c), fate)
      modifies this`wal, store, store.Repr
      ensures var r := H.Handle(old(store.view), store.replFac, token, H.DeleteReq(path), c);
              Valid() && code == r.code && wal == WalAfter(old(wal), r, fate) && store.view == After(r, fate)
    {
      if token.None? {
        return H.Internal;
      }
      if !Allowed(token.value, path) {
        return H.PermissionDenied;
      }
      var err := store.DeleteFile(path);
      if err.Some? {
        return if err.value == F.FileNotFound then H.NotFound else H.Internal;
      }
      WalAppend(L.DeleteEntry(path), fate);
      code := H.OK;
    }

    method MakeDirectory(token: Option<string>, path: string, mode: int, c: H.Choice, fate: Fate) returns (code: H.Code)
      requires Valid() && FateOk(H.Handle(store.view, store.replFac, token, H.MkdirReq(path, mode), c), fate)
      modifies this`wal, store, store.Repr
      ensures var r := H.Handle(old(store.view), store.replFac, token, H.MkdirReq(path, mode), c);
              Valid() && code == r.code && wal == WalAfter(old(wal), r, fate) && store.view == After(r, fate)
    {
      if token.None? {
        return H.Internal;
      }
      if !Allowed(token.value, path) {
        return H.PermissionDenied;
      }
      var err := store.MakeDir(path, mode, c.now);
      if err.Some? {
        return if err.value == F.FileExists then H.AlreadyExists else H.Internal;
      }
      WalAppend(L.MkdirEntry(path), fate);
      code := H.OK;
    }

    method RemoveDirectory(token: Option<string>, path: string, c: H.Choice, fate: Fate) returns (code: H.Code)
      requires Valid() && Lists(c.order, store.view.Keys)
      requires FateOk(H.Handle(store.view, store.replFac, token, H.RmdirReq(path), c), fate)
      modifies this`wal, store, store.Repr
      ensures var r := H.Handle(old(store.view), store.replFac, token, H.RmdirReq(path), c);
              Valid() && code == r.code && wal == WalAfter(old(wal), r, fate) && store.view == After(r, fate)
    {
      if token.None? {
        return H.Internal;
      }
      if !Allowed(token.value, path) {
        return H.PermissionDenied;
      }
      var err := store.RemoveDir(path, c.order);
      if err.Some? {
        return if err.value == F.FileNotFound then H.NotFound else H.Internal;
      }
      WalAppend(L.RmdirEntry(path), fate);
      code := H.OK;
    }

    /** RenameFile once both paths are allowed. */
    method RenameTo(src: string, dst: string, c: H.Choice, fate: Fate) returns (code: H.Code)
      requires Valid() && H.ChoiceOk(store.view, H.RenameReq(src, dst), c)
      requires FateOk(H.RenameTo(store.view, src, dst, c), fate)
      modifies this`wal, store, store.Repr
      ensures var r := H.RenameTo(old(store.view), src, dst, c);
              Valid() && code == r.code && wal == WalAfter(old(wal), r, fate) && store.view == After(r, fate)
    {
      var err := store.Rename(src, dst, c.now, c.order);
      if err.Some? {
        return if err.value == F.FileNotFound then H.NotFound else H.Internal;
      }
      WalAppend(L.RenameEntry(src, dst), fate);
      code := H.OK;
    }

    method RenameFile(token: Option<string>, src: string, dst: string, c: H.Choice, fate: Fate) returns (code: H.Code)
      requires Valid() && H.ChoiceOk(store.view, H.RenameReq(src, dst), c)
      requires FateOk(H.Handle(store.view, store.replFac, token, H.RenameReq(src, dst), c), fate)
      modifies this`wal, store, store.Repr
      ensures var r := H.Handle(old(store.view), store.replFac, token, H.RenameReq(src, dst), c);
              Valid() && code == r.code && wal == WalAfter(old(wal), r, fate) && store.view == After(r, fate)
    {
      if token.None? {
        return H.Internal;
      }
      if !Allowed(token.value, src) {
        return H.PermissionDenied;
      }
      if !Allowed(token.value, dst) {
        return H.PermissionDenied;
      }
      code := RenameTo(src, dst, c, fate);
    }

    method TruncateFile(token: Option<string>, path: string, size: int, c: H.Choice, fate: Fate) returns (code: H.Code)
      requires Valid() && FateOk(H.Handle(store.view, store.replFac, token, H.TruncateReq(path, size), c), fate)
      modifies this`wal, store, store.Repr
      ensures var r := H.Handle(old(store.view), store.replFac, token, H.TruncateReq(path, size), c);
              Valid() && code == r.code && wal == WalAfter(old(wal), r, fate) && store.view == After(r, fate)
    {
      if token.None? {
        return H.Internal;
      }
      if !Allowed(token.value, path) {
        return H.PermissionDenied;
      }
      var err := store.TruncateFile(path, size, c.now);
      if err.Some? {
        return H.NotFound;
      }
      WalAppend(L.TruncateEntry(path, size), fate);
      code := H.OK;
    }

    /** AllocateChunk's last part: record the chunk, then log it. */
    method Grant(id: string, addrs: seq<string>, c: H.Choice, fate: Fate) returns (code: H.Code)
      requires Valid() && Lists(c.again, store.view.Keys) && FateOk(H.Grant(store.view, id, addrs, c), fate)
      modifies this`wal, store, store.Repr
      ensures var r := H.Grant(old(store.view), id, addrs, c);
              Valid() && code == r.code && wal == WalAfter(old(wal), r, fate) && store.view == After(r, fate)
    {
      var err := store.AddChunk(id, c.id, addrs, c.again);
      if err.Some? {
        return H.Internal;
      }
      WalAppend(L.ChunkEntry(id, c.id, addrs), fate);
      code := H.OK;
    }

    /** AllocateChunk once the caller is known and the replication factor settled. */
    method AllocateFor(ns: string, id: string, rf: int, c: H.Choice, nodeOrder: seq<string>, fate: Fate)
      returns (code: H.Code, addrs: seq<string>)
      requires Valid() && Lists(c.order, store.view.Keys) && Lists(c.again, store.view.Keys)
      requires Lists(nodeOrder, registry.nodes.Keys)
      requires FateOk(H.Allocate(store.view, ns, id, rf, P.Listed(c, registry.nodes, nodeOrder)), fate)
      modifies this`wal, store, store.Repr
      ensures var r := H.Allocate(old(store.view), ns, id, rf, P.Listed(c, old(registry.nodes), nodeOrder));
              Valid() && code == r.code && wal == WalAfter(old(wal), r, fate) && store.view == After(r, fate) &&
              (r.entry.Some? ==> r.entry.value.ChunkEntry? && addrs == r.entry.value.replicas)
    {
      addrs := [];
      var fm := store.GetFileByID(id, c.order);
      if fm == null {
        return H.NotFound, addrs;
      }
      assert fm.path == fm.Value().path;
      if !Allowed(ns, fm.path) {
        return H.PermissionDenied, addrs;
      }
      var available := registry.GetAllAvailable(nodeOrder);
      if |available| < rf {
        return H.ResourceExhausted, addrs;
      }
      addrs := FirstAddresses(available, rf);
      code := Grant(id, addrs, P.Listed(c, registry.nodes, nodeOrder), fate);
    }

    method AllocateChunk(token: Option<string>, id: string, replicationFactor: int, c: H.Choice, nodeOrder: seq<string>,
                         fate: Fate)
      returns (code: H.Code, addrs: seq<string>)
      requires Valid() && Lists(c.order, store.view.Keys) && Lists(c.again, store.view.Keys)
      requires Lists(nodeOrder, registry.nodes.Keys)
      requires FateOk(H.Handle(store.view, store.replFac, token, H.AllocateReq(id, replicationFactor),
                               P.Listed(c, registry.nodes, nodeOrder)), fate)
      modifies this`wal, store, store.Repr
      ensures var r := H.Handle(old(store.view), store.replFac, token, H.AllocateReq(id, replicationFactor),
                                P.Listed(c, old(registry.nodes), nodeOrder));
              Valid() && code == r.code && wal == WalAfter(old(wal), r, fate) && store.view == After(r, fate) &&
              (r.entry.Some? ==> r.entry.value.ChunkEntry? && addrs == r.entry.value.replicas)
    {
      if token.None? {
        return H.Internal, [];
      }
      var rf := replicationFactor;
      if rf <= 0 {
        rf := store.replFac;
      }
      code, addrs := AllocateFor(token.value, id, rf, c, nodeOrder, fate);
    }
  }
}
