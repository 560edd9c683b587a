/** What each mutating request of the namenode (internal/namenode/server.go) answers, does to the store and logs, said
    in terms of the keys and fields of the store alone. */
module Answers {
  import opened Basics
  import opened Paths
  import opened Files
  import opened RenameOrder
  import opened Log
  import opened Handlers

  /** The path lies in the caller's namespace; the empty namespace holds nothing. */
  predicate Inside(ns: string, path: string) { ns != "" && Under(path, ns) }

  /** Every path the request names. */
  function Named(req: Request): (paths: seq<string>) {
    match req
    case RenameReq(src, dst) => [src, dst]
    case AllocateReq(_, _) => []
    case _ => [req.path]
  }

  /** Refused: nothing is changed and nothing is logged. */
  ghost predicate Refused(r: Reply, s: Files, code: Code) {
    r.files == s && r.entry.None? && r.code == code && code != OK
  }

  /** Granted: exactly what e says is logged. */
  ghost predicate Granted(r: Reply, e: Entry) { r.code == OK && r.entry == Some(e) }

  /** t is s with the record m at path, and nothing else changed. */
  ghost predicate OnlyAt(s: Files, t: Files, path: string, m: Meta) {
    t.Keys == s.Keys + {path} && t[path] == m && forall p :: p in s && p != path ==> t[p] == s[p]
  }

  /** t is s without path. */
  ghost predicate Gone(s: Files, t: Files, path: string) {
    t.Keys == s.Keys - {path} && forall p :: p in t ==> t[p] == s[p]
  }

  /** Without a token, or for a path outside the namespace, the request is refused; whatever is not answered OK is
      refused, and whatever is answered OK is logged. */
  lemma Authorised(s: Files, replFac: int, token: Option<string>, req: Request, c: Choice)
    ensures var r := Handle(s, replFac, token, req, c);
      && (token.None? ==> Refused(r, s, Internal))
      && (token.Some? && (exists i :: 0 <= i < |Named(req)| && !Inside(token.value, Named(req)[i])) ==>
            Refused(r, s, PermissionDenied))
      && (r.entry.Some? <==> r.code == OK)
      && (r.code != OK ==> Refused(r, s, r.code))
  {
    if token.Some? && !req.AllocateReq? {
      forall i | 0 <= i < |Named(req)|
        ensures Inside(token.value, Named(req)[i]) <==> Allowed(token.value, Named(req)[i])
      {
        AllowedIff(token.value, Named(req)[i]);
      }
      if req.RenameReq? {
        assert Named(req)[0] == req.src && Named(req)[1] == req.dst;
      } else {
        assert Named(req)[0] == req.path;
      }
    }
  }

  lemma CreateAnswer(s: Files, replFac: int, ns: string, path: string, mode: int, c: Choice)
    requires Inside(ns, path)
    ensures var r := Handle(s, replFac, Some(ns), CreateReq(path, mode), c);
      var m := if mode == 0 then 420 else mode;
      if path in s then Refused(r, s, AlreadyExists)
      else Granted(r, CreateEntry(path, c.id, m)) &&
           OnlyAt(s, r.files, path, Meta(c.id, path, 0, m, false, c.now, c.now, []))
  {
    AllowedIff(ns, path);
  }

  lemma MkdirAnswer(s: Files, replFac: int, ns: string, path: string, mode: int, c: Choice)
    requires Inside(ns, path)
    ensures var r := Handle(s, replFac, Some(ns), MkdirReq(path, mode), c);
      var m := if mode == 0 then 493 else mode;
      if path in s then Refused(r, s, AlreadyExists)
      else Granted(r, MkdirEntry(path)) && OnlyAt(s, r.files, path, Meta("", path, 0, m, true, c.now, c.now, []))
  {
    AllowedIff(ns, path);
  }

  lemma DeleteAnswer(s: Files, replFac: int, ns: string, path: string, c: Choice)
    requires Inside(ns, path)
    ensures var r := Handle(s, replFac, Some(ns), DeleteReq(path), c);
      if path !in s then Refused(r, s, NotFound)
      else if s[path].isDir then Refused(r, s, Internal)
      else Granted(r, DeleteEntry(path)) && Gone(s, r.files, path)
  {
    AllowedIff(ns, path);
  }

  lemma RmdirAnswer(s: Files, replFac: int, ns: string, path: string, c: Choice)
    requires Inside(ns, path)
    ensures var r := Handle(s, replFac, Some(ns), RmdirReq(path), c);
      if path !in s then Refused(r, s, NotFound)
      else if !s[path].isDir || exists p :: p in s && Below(p, path) then Refused(r, s, Internal)
      else Granted(r, RmdirEntry(path)) && Gone(s, r.files, path)
  {
    AllowedIff(ns, path);
  }

  lemma TruncateAnswer(s: Files, replFac: int, ns: string, path: string, size: int, c: Choice)
    requires Inside(ns, path)
    ensures var r := Handle(s, replFac, Some(ns), TruncateReq(path, size), c);
      if path !in s then Refused(r, s, NotFound)
      else Granted(r, TruncateEntry(path, size)) &&
           var m := s[path];
           OnlyAt(s, r.files, path, Meta(m.fileID, m.path, size, m.mode, m.isDir, c.now, m.ctime, m.chunks))
  {
    AllowedIff(ns, path);
  }

  /** A file moves alone: it keeps id, size, mode, creation time and chunks, and every other record stays. */
  ghost predicate FileMoved(s: Files, t: Files, src: string, dst: string, now: int)
    requires src in s
  {
    var m := s[src];
    t.Keys == s.Keys - {src} + {dst} &&
    t[dst] == Meta(m.fileID, dst, m.size, m.mode, m.isDir, now, m.ctime, m.chunks) &&
    forall p :: p in s && p != src && p != dst ==> t[p] == s[p]
  }

  /** A directory moves with everything below it, each record unchanged but for its path; every other record stays, and
      there is nothing else. */
  ghost predicate TreeMoved(s: Files, t: Files, src: string, dst: string, now: int)
    requires src in s
  {
    && |t| == |s|
    && dst in t && t[dst] == s[src].(path := dst, mtime := now)
    && (forall p :: p in s && Below(p, src) ==> dst + p[|src|..] in t)
    && (forall p :: p in s && Below(p, src) ==> t[dst + p[|src|..]] == s[p].(path := dst + p[|src|..]))
    && (forall p :: p in s && !Under(p, src) ==> p in t && t[p] == s[p])
  }

  lemma RenameAnswer(s: Files, replFac: int, ns: string, src: string, dst: string, c: Choice)
    requires Inside(ns, src) && Inside(ns, dst)
    ensures var r := Handle(s, replFac, Some(ns), RenameReq(src, dst), c);
      if src !in s then Refused(r, s, NotFound)
      else if dst in s then Refused(r, s, Internal)
      else Granted(r, RenameEntry(src, dst)) && (!s[src].isDir ==> FileMoved(s, r.files, src, dst, c.now))
  {
    AllowedIff(ns, src);
    AllowedIff(ns, dst);
  }

  lemma ChildArrives(s: Files, src: string, dst: string, now: int, p: string)
    requires src in s && dst !in s && s[src].isDir && NoRevisit(s, src, dst) && Clear(s, src, dst)
    requires p in s && Below(p, src)
    ensures var q, t := dst + p[|src|..], Relocate(s, src, dst, now); q in t && t[q] == s[p].(path := q)
  {
    BelowIff(p, src);
    EntryArrives(s, src, dst, now, p);
    assert NewHome(p, src, dst) == dst + p[|src|..] && p != src;
  }

  lemma RelocateMovesTree(s: Files, src: string, dst: string, now: int)
    requires src in s && dst !in s && s[src].isDir && NoRevisit(s, src, dst) && Clear(s, src, dst)
    ensures TreeMoved(s, Relocate(s, src, dst, now), src, dst, now)
  {
    var t := Relocate(s, src, dst, now);
    CountPreservedIff(s, src, dst, now);
    forall p | p in s && Below(p, src)
      ensures dst + p[|src|..] in t && t[dst + p[|src|..]] == s[p].(path := dst + p[|src|..])
    {
      ChildArrives(s, src, dst, now, p);
    }
    forall p | p in s && !Under(p, src) ensures p in t && t[p] == s[p] {
      EntryArrives(s, src, dst, now, p);
    }
  }

  lemma RenameHandled(s: Files, replFac: int, ns: string, src: string, dst: string, c: Choice)
    requires Inside(ns, src) && Inside(ns, dst) && src in s && dst !in s
    ensures Handle(s, replFac, Some(ns), RenameReq(src, dst), c).files == RenameResult(s, src, dst, c.now, c.order)
  {
    AllowedIff(ns, src);
    AllowedIff(ns, dst);
  }

  lemma RenameTreeAnswer(s: Files, replFac: int, ns: string, src: string, dst: string, c: Choice)
    requires Inside(ns, src) && Inside(ns, dst) && src in s && s[src].isDir && dst !in s
    requires RangeOk(s, src, dst, c.order) && NoRevisit(s, src, dst) && Clear(s, src, dst)
    ensures TreeMoved(s, Handle(s, replFac, Some(ns), RenameReq(src, dst), c).files, src, dst, c.now)
  {
    RenameHandled(s, replFac, ns, src, dst, c);
    RenameIsRelocate(s, src, dst, c.now, c.order);
    RelocateMovesTree(s, src, dst, c.now);
  }

  /** A request for a chunk of a file that does not exist. */
  lemma AllocateMissing(s: Files, replFac: int, ns: string, id: string, asked: int, c: Choice)
    requires forall p :: p in s ==> s[p].fileID != id
    ensures Refused(Handle(s, replFac, Some(ns), AllocateReq(id, asked), c), s, NotFound)
  {
  }

  /** A request for a chunk of the file p: which refusal, or the chunk. */
  lemma AllocateAnswer(s: Files, replFac: int, ns: string, p: string, asked: int, c: Choice)
    requires StoreInv(s) && p in s && !s[p].isDir && replFac >= 1 && Lists(c.order, s.Keys) && Lists(c.again, s.Keys)
    ensures var r := Handle(s, replFac, Some(ns), AllocateReq(s[p].fileID, asked), c);
      var rf := if asked <= 0 then replFac else asked;
      if !Inside(ns, p) then Refused(r, s, PermissionDenied)
      else if |c.available| < rf then Refused(r, s, ResourceExhausted)
      else Granted(r, ChunkEntry(s[p].fileID, c.id, c.available[..rf])) &&
           OnlyAt(s, r.files, p, s[p].(chunks := s[p].chunks + [Chunk(c.id, |s[p].chunks|, c.available[..rf])]))
  {
    var id := s[p].fileID;
    assert MetaOk(p, s[p]) && p in c.order && p in c.again;
    OnlyOwner(s, id, c.order, p);
    OnlyOwner(s, id, c.again, p);
    AllowedIff(ns, p);
  }

  lemma OnlyOwner(s: Files, id: string, order: seq<string>, p: string)
    requires StoreInv(s) && p in s && s[p].fileID == id != "" && p in order
    ensures FindByID(s, id, order) == Some(p)
  {
  }

  // ---- The store's own errors ----

  /** Each mutator of the store names the reason for which it refuses, and refuses for no other. */
  lemma Reasons(s: Files, path: string, dst: string, mode: int, id: string, now: int, order: seq<string>)
    ensures CreateFile(s, path, mode, id, now).1 == (if path in s then Some(FileExists) else None)
    ensures MakeDir(s, path, mode, now).1 == (if path in s then Some(FileExists) else None)
    ensures DeleteFile(s, path).1 ==
            (if path !in s then Some(FileNotFound) else if s[path].isDir then Some(NotADirectory) else None)
    ensures RemoveDir(s, path).1 ==
            (if path !in s then Some(FileNotFound) else if !s[path].isDir then Some(NotADirectory)
             else if exists p :: p in s && Below(p, path) then Some(NotEmpty) else None)
    ensures TruncateFile(s, path, mode, now).1 == (if path in s then None else Some(FileNotFound))
    ensures Rename(s, path, dst, now, order).1 ==
            (if path !in s then Some(FileNotFound) else if dst in s then Some(FileExists) else None)
  {
  }

  // ---- Log entries ----

  /** What applying a log entry does to any store, whether or not the entry was logged from it. */
  lemma EntryAnswer(s: Files, e: Entry, env: Env)
    requires !e.RenameEntry? && !e.ChunkEntry?
    ensures var t := Apply(s, e, env);
      match e
      case CreateEntry(path, id, mode) =>
        OnlyAt(s, t, path, Meta(id, path, 0, if mode == 0 then 420 else mode, false, 0, 0, []))
      case MkdirEntry(path) =>
        if path in s then t == s else OnlyAt(s, t, path, Meta("", path, 0, 493, true, env.now, env.now, []))
      case DeleteEntry(path) => if path in s && !s[path].isDir then Gone(s, t, path) else t == s
      case RmdirEntry(path) =>
        if path in s && s[path].isDir && !exists p :: p in s && Below(p, path) then Gone(s, t, path) else t == s
      case TruncateEntry(path, size) =>
        if path in s then OnlyAt(s, t, path, s[path].(size := size, mtime := env.now)) else t == s
      case _ => t == s
  {
  }

  /** A chunk goes to the first record with the id in visiting order, and to no other. */
  lemma ChunkEntryAnswer(s: Files, e: Entry, env: Env) returns (i: nat)
    requires e.ChunkEntry? && EnvOk(s, e, env)
    ensures var t := Apply(s, e, env);
      && i <= |env.order| && (forall j :: 0 <= j < i ==> s[env.order[j]].fileID != e.fileID)
      && if i == |env.order| then t == s
         else var p := env.order[i];
              s[p].fileID == e.fileID &&
              OnlyAt(s, t, p, s[p].(chunks := s[p].chunks + [Chunk(e.chunkID, |s[p].chunks|, e.replicas)]))
  {
    i := FindsFirst(s, e.fileID, env.order);
  }

  /** A rename is refused without a source or with a destination; a file then moves alone, and a directory with all
      that is below it, if nothing is revisited or in the way. */
  lemma RenameEntryAnswer(s: Files, e: Entry, env: Env)
    requires e.RenameEntry? && EnvOk(s, e, env)
    ensures var t := Apply(s, e, env);
      if e.src !in s || e.dst in s then t == s
      else if !s[e.src].isDir then FileMoved(s, t, e.src, e.dst, env.now)
      else NoRevisit(s, e.src, e.dst) && Clear(s, e.src, e.dst) ==> TreeMoved(s, t, e.src, e.dst, env.now)
  {
    if MovesDirectory(s, e) && NoRevisit(s, e.src, e.dst) && Clear(s, e.src, e.dst) {
      RenameIsRelocate(s, e.src, e.dst, env.now, env.order);
      RelocateMovesTree(s, e.src, e.dst, env.now);
    }
  }
}
