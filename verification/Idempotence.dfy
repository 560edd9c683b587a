/** Replaying a log a second time, into the store it has just rebuilt (WORKFLOW.md calls this harmless). The second
    pass meets records of the final store before their time; each kind of entry has a guard that says exactly when the
    two passes stay in step, and what is then left behind says exactly whether the second pass does harm. */
module Idempotence {
  import opened Basics
  import opened Paths
  import opened Files
  import opened RenameOrder
  import opened Log
  import opened Handlers
  import opened Replication
  import opened Namespaces
  import opened Interleaving

  // ---- The first pass ----

  /** The entry was logged by a successful call on s. */
  ghost predicate LoggedAt(s: Files, e: Entry) {
    Enabled(s, e) && (e.CreateEntry? || e.ChunkEntry? ==> e.fileID != "")
  }

  ghost predicate LoggedLog(log: seq<Entry>) {
    log == [] || (LoggedLog(log[..|log| - 1]) && LoggedAt(Steps(map[], log[..|log| - 1]), log[|log| - 1]))
  }

  /** Nothing is stamped, and directories differ in path and size only. */
  ghost predicate Plain(s: Files) {
    forall p :: p in s ==> s[p].mtime == 0 && (s[p].isDir ==> s[p] == Meta("", p, s[p].size, DIR_MODE, true, 0, 0, []))
  }

  lemma PlainStep(s: Files, e: Entry)
    requires Plain(s) && LoggedAt(s, e)
    ensures Plain(Step(s, e))
  {
    if e.RenameEntry? {
      var t, v := Relocate(s, e.src, e.dst, 0), Children(s, e.src);
      forall p | p in t
        ensures t[p].mtime == 0 && (t[p].isDir ==> t[p] == Meta("", p, t[p].size, DIR_MODE, true, 0, 0, []))
      {
        if p != e.dst && s[e.src].isDir && p in Moved(v, e.src, e.dst) { MovedFrom(p, v, e.src, e.dst); }
      }
    }
  }

  lemma {:induction false} PlainLog(log: seq<Entry>)
    requires LoggedLog(log)
    ensures Plain(Steps(map[], log))
  {
    if log != [] {
      PlainLog(log[..|log| - 1]);
      PlainStep(Steps(map[], log[..|log| - 1]), log[|log| - 1]);
    }
  }

  // ---- Bookkeeping ----

  /** What the first pass over a prefix tells about the second pass, which starts from the final store f.
      ever: the paths that have been in the store at some point of the first pass;
      off: directories made, in the second pass, where f already had one with another size, not set since;
      ahead: files that f already had when the first pass moved one there, so that the second pass still has f's;
      left: records that the second pass therefore could not move away. */
  datatype Book = Book(ever: set<string>, off: set<string>, ahead: set<string>, left: Files)

  /** A path of the final store that the first pass has not reached yet. */
  ghost predicate Early(f: Files, k: Book, p: string) { p in f && p !in k.ever }

  ghost function Cargo(a: Files, e: Entry): (r: set<string>)
    requires e.RenameEntry?
  {
    Moved(Children(a, e.src), e.src, e.dst)
  }

  ghost predicate MovesDir(a: Files, e: Entry) { e.RenameEntry? && e.src in a && a[e.src].isDir }

  ghost function OffAfter(a: Files, f: Files, k: Book, e: Entry): (r: set<string>) {
    match e
    case MkdirEntry(path) =>
      if Early(f, k, path) && f[path].isDir && f[path].size != 0 then k.off + {path} else k.off
    case RmdirEntry(path) => k.off - {path}
    case TruncateEntry(path, _) => k.off - {path}
    case RenameEntry(src, dst) =>
      if MovesDir(a, e) then set p | p in k.off && !Under(p, src) && p !in Cargo(a, e) else k.off
    case _ => k.off
  }

  ghost function AheadAfter(a: Files, f: Files, k: Book, e: Entry): (r: set<string>) {
    match e
    case DeleteEntry(path) => k.ahead - {path}
    case RenameEntry(src, dst) =>
      if MovesDir(a, e) then k.ahead - Cargo(a, e) else if Early(f, k, dst) then k.ahead + {dst} else k.ahead
    case _ => k.ahead
  }

  ghost function LeftAfter(a: Files, f: Files, k: Book, e: Entry): (r: Files) {
    match e
    case CreateEntry(path, _, _) => k.left - {path}
    case RenameEntry(src, dst) =>
      if MovesDir(a, e) then k.left - Cargo(a, e)
      else if src in a && Early(f, k, dst) then k.left[src := a[src]]
      else k.left
    case _ => k.left
  }

  ghost function Noted(a: Files, f: Files, k: Book, e: Entry): (r: Book) {
    Book(k.ever + Step(a, e).Keys, OffAfter(a, f, k, e), AheadAfter(a, f, k, e), LeftAfter(a, f, k, e))
  }

  /** The book after the first pass over the log. */
  ghost function Kept(log: seq<Entry>, f: Files): (k: Book)
    ensures Steps(map[], log).Keys <= k.ever
  {
    if log == [] then Book({}, {}, {}, map[])
    else
      var rest := log[..|log| - 1];
      Noted(Steps(map[], rest), f, Kept(rest, f), log[|log| - 1])
  }

  // ---- Guards ----

  /** Nothing early, ahead or left behind lies below the directory. */
  ghost predicate Undisturbed(f: Files, k: Book, dir: string) {
    (forall p :: Early(f, k, p) ==> !Below(p, dir)) &&
    (forall p :: p in k.ahead ==> !Below(p, dir)) &&
    forall p :: p in k.left ==> !Below(p, dir)
  }

  /** What the entry asks of the final store f, when the first pass is at a. A directory is made where nothing is left
      behind and f has nothing early, or a directory; a directory is removed that has nothing early or left behind
      below it. A rename has no record left behind at its destination and does not move a file that is ahead; a
      renamed directory finds no early destination, nothing disturbs what it carries, and no carried directory's size
      is off. A chunk's file id belongs to no early record, none that is ahead and none left behind. A file that is
      ahead is deleted only if it is a file in f and truncated only to its size in f. */
  ghost predicate Guard(a: Files, f: Files, k: Book, e: Entry) {
    match e
    case MkdirEntry(path) => path !in k.left && (Early(f, k, path) ==> f[path].isDir)
    case RmdirEntry(path) =>
      (forall p :: Early(f, k, p) ==> !Below(p, path)) && forall p :: p in k.left ==> !Below(p, path)
    case DeleteEntry(path) => path in k.ahead && path in f ==> !f[path].isDir
    case TruncateEntry(path, size) => path in k.ahead && path in f ==> f[path].size == size
    case RenameEntry(src, dst) =>
      dst !in k.left && src !in k.ahead &&
      (MovesDir(a, e) ==>
         !Early(f, k, dst) && Undisturbed(f, k, src) &&
         forall p :: p in k.off && Under(p, src) ==> Move(p, src, dst) == src)
    case ChunkEntry(id, _, _) =>
      (forall p :: Early(f, k, p) ==> f[p].fileID != id) &&
      (forall p :: p in k.ahead && p in f ==> f[p].fileID != id) &&
      forall p :: p in k.left ==> k.left[p].fileID != id
    case _ => true
  }

  ghost predicate GuardedFor(log: seq<Entry>, f: Files) {
    log == [] ||
    var rest := log[..|log| - 1];
    GuardedFor(rest, f) && Guard(Steps(map[], rest), f, Kept(rest, f), log[|log| - 1])
  }

  ghost predicate Guarded(log: seq<Entry>) { GuardedFor(log, Steps(map[], log)) }

  /** What the second pass over the log could not move away and nothing has overwritten since. */
  ghost function LeftBehind(log: seq<Entry>): (r: Files) { Kept(log, Steps(map[], log)).left }

  // ---- The second pass ----

  /** The two passes at p after the same prefix: where the first has not been the second still has f's record; what
      was left behind is only in the second; what is ahead is f's in the second; elsewhere the records are the same,
      but for the size of a directory that is off. */
  ghost predicate AgreeAt(a: Files, b: Files, f: Files, k: Book, p: string) {
    if p !in k.ever then (p in b <==> p in f) && (p in b ==> b[p] == f[p])
    else if p in k.left then p !in a && p in b && b[p] == k.left[p]
    else if p in k.ahead then p in b && p in f && b[p] == f[p]
    else (p in a <==> p in b) && (p in a ==> if p in k.off then OffAt(a, b, f, p) else a[p] == b[p])
  }

  ghost predicate OffAt(a: Files, b: Files, f: Files, p: string)
    requires p in a && p in b
  {
    a[p].isDir && p in f && f[p].isDir && a[p].size != f[p].size && b[p] == a[p].(size := f[p].size)
  }

  ghost predicate WellKept(a: Files, k: Book) {
    k.off <= a.Keys <= k.ever && k.ahead <= a.Keys && k.left.Keys <= k.ever && k.off !! k.ahead &&
    (forall p :: p in k.ahead ==> !a[p].isDir) && forall p :: p in k.left ==> p !in a
  }

  ghost predicate Agree(a: Files, b: Files, f: Files, k: Book) {
    WellKept(a, k) && forall p :: AgreeAt(a, b, f, k, p)
  }

  /** The passes are in step after the entry as well. */
  ghost predicate StillAgree(a: Files, b: Files, f: Files, k: Book, e: Entry) {
    Agree(Step(a, e), Step(b, e), f, Noted(a, f, k, e))
  }

  lemma AgreeFile(a: Files, b: Files, f: Files, k: Book, e: Entry)
    requires Agree(a, b, f, k) && LoggedAt(a, e) && Guard(a, f, k, e) && (e.CreateEntry? || e.DeleteEntry?)
    ensures StillAgree(a, b, f, k, e)
  {
    assert AgreeAt(a, b, f, k, e.path);
    forall p ensures AgreeAt(Step(a, e), Step(b, e), f, Noted(a, f, k, e), p) {
      assert AgreeAt(a, b, f, k, p);
    }
  }

  lemma AgreeMkdir(a: Files, b: Files, f: Files, k: Book, e: Entry)
    requires Agree(a, b, f, k) && LoggedAt(a, e) && Guard(a, f, k, e) && Plain(f) && e.MkdirEntry?
    ensures StillAgree(a, b, f, k, e)
  {
    assert AgreeAt(a, b, f, k, e.path);
    forall p ensures AgreeAt(Step(a, e), Step(b, e), f, Noted(a, f, k, e), p) {
      assert AgreeAt(a, b, f, k, p);
    }
  }

  lemma AgreeTruncate(a: Files, b: Files, f: Files, k: Book, e: Entry)
    requires Agree(a, b, f, k) && LoggedAt(a, e) && Guard(a, f, k, e) && Plain(f) && e.TruncateEntry?
    ensures StillAgree(a, b, f, k, e)
  {
    assert AgreeAt(a, b, f, k, e.path);
    forall p ensures AgreeAt(Step(a, e), Step(b, e), f, Noted(a, f, k, e), p) {
      assert AgreeAt(a, b, f, k, p);
    }
  }

  lemma AgreeRmdir(a: Files, b: Files, f: Files, k: Book, e: Entry)
    requires Agree(a, b, f, k) && e.RmdirEntry? && LoggedAt(a, e) && Guard(a, f, k, e)
    ensures StillAgree(a, b, f, k, e)
  {
    assert AgreeAt(a, b, f, k, e.path);
    forall p | Below(p, e.path) ensures p !in b {
      assert AgreeAt(a, b, f, k, p);
      assert !Early(f, k, p);
    }
    assert !HasChildren(b, e.path);
    forall p ensures AgreeAt(Step(a, e), Step(b, e), f, Noted(a, f, k, e), p) {
      assert AgreeAt(a, b, f, k, p);
    }
  }

  lemma AgreeChunk(a: Files, b: Files, f: Files, k: Book, e: Entry)
    requires Agree(a, b, f, k) && e.ChunkEntry? && LoggedAt(a, e) && Guard(a, f, k, e) && Plain(a)
    ensures StillAgree(a, b, f, k, e)
  {
    forall p ensures AgreeAt(Step(a, e), Step(b, e), f, Noted(a, f, k, e), p) {
      assert AgreeAt(a, b, f, k, p);
      assert p !in k.ever && p in f ==> Early(f, k, p);
    }
  }

  /** A file whose destination is already there stays behind. */
  lemma AgreeRefused(a: Files, b: Files, f: Files, k: Book, e: Entry)
    requires Agree(a, b, f, k) && e.RenameEntry? && LoggedAt(a, e) && Guard(a, f, k, e)
    requires !a[e.src].isDir && Early(f, k, e.dst)
    ensures StillAgree(a, b, f, k, e)
  {
    assert AgreeAt(a, b, f, k, e.src) && AgreeAt(a, b, f, k, e.dst);
    assert Step(b, e) == b;
    forall p ensures AgreeAt(Step(a, e), b, f, Noted(a, f, k, e), p) {
      assert AgreeAt(a, b, f, k, p);
    }
  }

  /** Any other rename finds the same source, the same children and the same free destination in both passes. */
  lemma SameCargo(a: Files, b: Files, f: Files, k: Book, e: Entry)
    requires Agree(a, b, f, k) && e.RenameEntry? && LoggedAt(a, e) && Guard(a, f, k, e) && !Early(f, k, e.dst)
    ensures e.src in b && e.dst !in b && a[e.src] == b[e.src]
    ensures a[e.src].isDir ==> Children(a, e.src) == Children(b, e.src)
    ensures a[e.src].isDir ==> forall p :: p in Children(a, e.src) && Move(p, e.src, e.dst) != e.src ==> a[p] == b[p]
  {
    assert AgreeAt(a, b, f, k, e.src) && AgreeAt(a, b, f, k, e.dst);
    assert Move(e.src, e.src, e.dst) == e.dst != e.src;
    if a[e.src].isDir {
      forall p | Below(p, e.src)
        ensures (p in a <==> p in b) && (p in a && Move(p, e.src, e.dst) != e.src ==> a[p] == b[p])
      {
        assert AgreeAt(a, b, f, k, p) && !Early(f, k, p) && p !in k.left && p !in k.ahead;
      }
    }
  }

  /** A directory whose size is off is not a renamed file, and a renamed directory leaves it where it is. */
  lemma OffStays(a: Files, b: Files, f: Files, k: Book, e: Entry)
    requires Agree(a, b, f, k) && e.RenameEntry? && LoggedAt(a, e) && e.src !in k.ahead
    ensures OffAfter(a, f, k, e) <= Step(a, e).Keys
  {
    assert AgreeAt(a, b, f, k, e.src);
    forall p | p in OffAfter(a, f, k, e) ensures p in Step(a, e) {
      assert p in a;
      assert AgreeAt(a, b, f, k, p);
      assert Under(e.src, e.src);
      assert p != e.src;
    }
  }

  lemma AheadStays(a: Files, f: Files, k: Book, e: Entry)
    requires WellKept(a, k) && e.RenameEntry? && LoggedAt(a, e) && Guard(a, f, k, e)
    ensures forall p :: p in AheadAfter(a, f, k, e) ==> p in Step(a, e) && !Step(a, e)[p].isDir
  {
    forall p | p in AheadAfter(a, f, k, e) ensures p in Step(a, e) && !Step(a, e)[p].isDir {
      if p != e.dst { assert p in k.ahead && p != e.src; }
    }
  }

  lemma LeftStays(a: Files, f: Files, k: Book, e: Entry)
    requires WellKept(a, k) && e.RenameEntry? && LoggedAt(a, e) && Guard(a, f, k, e)
    ensures forall p :: p in LeftAfter(a, f, k, e) ==> p !in Step(a, e) && p in k.ever
  {
  }

  lemma AgreeRename(a: Files, b: Files, f: Files, k: Book, e: Entry)
    requires Agree(a, b, f, k) && e.RenameEntry? && LoggedAt(a, e) && Guard(a, f, k, e) && !Early(f, k, e.dst)
    ensures StillAgree(a, b, f, k, e)
  {
    SameCargo(a, b, f, k, e);
    OffStays(a, b, f, k, e);
    AheadStays(a, f, k, e);
    LeftStays(a, f, k, e);
    var a', b', k', v := Step(a, e), Step(b, e), Noted(a, f, k, e), Children(a, e.src);
    assert k'.off !! k'.ahead;
    forall p ensures AgreeAt(a', b', f, k', p) {
      assert AgreeAt(a, b, f, k, p);
      if a[e.src].isDir && p in Moved(v, e.src, e.dst) { MovedFrom(p, v, e.src, e.dst); }
    }
  }

  lemma AgreeStep(a: Files, b: Files, f: Files, k: Book, e: Entry)
    requires Agree(a, b, f, k) && LoggedAt(a, e) && Guard(a, f, k, e) && Plain(a) && Plain(f)
    ensures StillAgree(a, b, f, k, e)
  {
    if e.RenameEntry? {
      if Early(f, k, e.dst) { AgreeRefused(a, b, f, k, e); } else { AgreeRename(a, b, f, k, e); }
    } else if e.ChunkEntry? {
      AgreeChunk(a, b, f, k, e);
    } else if e.RmdirEntry? {
      AgreeRmdir(a, b, f, k, e);
    } else if e.MkdirEntry? {
      AgreeMkdir(a, b, f, k, e);
    } else if e.TruncateEntry? {
      AgreeTruncate(a, b, f, k, e);
    } else {
      AgreeFile(a, b, f, k, e);
    }
  }

  /** The second application is as safe as the first. */
  lemma SafeAgain(a: Files, b: Files, f: Files, k: Book, e: Entry)
    requires Agree(a, b, f, k) && LoggedAt(a, e) && Guard(a, f, k, e) && Safe(a, e)
    ensures Safe(b, e)
  {
    if e.RenameEntry? {
      if Early(f, k, e.dst) { assert AgreeAt(a, b, f, k, e.dst); } else { SameCargo(a, b, f, k, e); }
    } else if e.ChunkEntry? {
      forall p | p in b && b[p].fileID == e.fileID ensures p in a && a[p].fileID == e.fileID {
        assert AgreeAt(a, b, f, k, p);
        assert p in f && p !in k.ever ==> Early(f, k, p);
      }
    }
  }

  // ---- Each guard is needed ----

  lemma MkdirGuardNeeded(a: Files, b: Files, f: Files, k: Book, e: Entry)
    requires Agree(a, b, f, k) && e.MkdirEntry? && LoggedAt(a, e) && !Guard(a, f, k, e)
    ensures e.path in k.left || (e.path in Step(b, e) && !Step(b, e)[e.path].isDir && Step(a, e)[e.path].isDir)
    ensures !StillAgree(a, b, f, k, e)
  {
    assert AgreeAt(a, b, f, k, e.path);
    assert !AgreeAt(Step(a, e), Step(b, e), f, Noted(a, f, k, e), e.path);
  }

  lemma RmdirGuardNeeded(a: Files, b: Files, f: Files, k: Book, e: Entry)
    requires Agree(a, b, f, k) && e.RmdirEntry? && LoggedAt(a, e) && !Guard(a, f, k, e)
    ensures e.path in Step(b, e) && e.path !in Step(a, e)
    ensures !StillAgree(a, b, f, k, e)
  {
    var q :| (Early(f, k, q) || q in k.left) && Below(q, e.path);
    assert AgreeAt(a, b, f, k, e.path) && AgreeAt(a, b, f, k, q);
    assert HasChildren(b, e.path);
    assert !AgreeAt(Step(a, e), Step(b, e), f, Noted(a, f, k, e), e.path);
  }

  lemma DeleteGuardNeeded(a: Files, b: Files, f: Files, k: Book, e: Entry)
    requires Agree(a, b, f, k) && e.DeleteEntry? && LoggedAt(a, e) && !Guard(a, f, k, e)
    ensures e.path in Step(b, e) && e.path !in Step(a, e)
    ensures !StillAgree(a, b, f, k, e)
  {
    assert AgreeAt(a, b, f, k, e.path);
    assert !AgreeAt(Step(a, e), Step(b, e), f, Noted(a, f, k, e), e.path);
  }

  lemma TruncateGuardNeeded(a: Files, b: Files, f: Files, k: Book, e: Entry)
    requires Agree(a, b, f, k) && e.TruncateEntry? && LoggedAt(a, e) && !Guard(a, f, k, e)
    ensures e.path in Step(b, e) && e.path in f && Step(b, e)[e.path].size != f[e.path].size
    ensures !StillAgree(a, b, f, k, e)
  {
    assert AgreeAt(a, b, f, k, e.path);
    assert !AgreeAt(Step(a, e), Step(b, e), f, Noted(a, f, k, e), e.path);
  }

  /** The second pass gives the chunk to a record that must not get it; and if the record that must is the same in both
      passes, it sees two with the id, so that the map's order decides. */
  lemma ChunkGuardNeeded(a: Files, b: Files, f: Files, k: Book, e: Entry)
    requires Agree(a, b, f, k) && e.ChunkEntry? && LoggedAt(a, e) && !Guard(a, f, k, e) && Plain(a)
    ensures !StillAgree(a, b, f, k, e)
    ensures (exists o :: o in a && a[o].fileID == e.fileID && o !in k.ahead) ==> !Safe(b, e)
  {
    var q :| if q in k.left then k.left[q].fileID == e.fileID
             else (Early(f, k, q) || (q in k.ahead && q in f)) && f[q].fileID == e.fileID;
    assert AgreeAt(a, b, f, k, q);
    assert q in b && b[q].fileID == e.fileID;
    assert |Step(b, e)[q].chunks| == |b[q].chunks| + 1;
    assert !AgreeAt(Step(a, e), Step(b, e), f, Noted(a, f, k, e), q);
    if o :| o in a && a[o].fileID == e.fileID && o !in k.ahead {
      assert AgreeAt(a, b, f, k, o);
      assert b[o].fileID == e.fileID && q != o;
    }
  }

  /** A rename that the second pass refuses, for want of a free destination, leaves its source where it was. */
  lemma TakenDestinationDiffers(a: Files, b: Files, f: Files, k: Book, e: Entry)
    requires Agree(a, b, f, k) && e.RenameEntry? && LoggedAt(a, e) && e.src !in k.ahead
    requires e.dst in k.left || (a[e.src].isDir && Early(f, k, e.dst))
    ensures e.src in Step(b, e) && e.src !in Step(a, e)
    ensures !StillAgree(a, b, f, k, e)
  {
    assert AgreeAt(a, b, f, k, e.src) && AgreeAt(a, b, f, k, e.dst);
    assert e.dst in b && Step(b, e) == b;
    assert e.src !in LeftAfter(a, f, k, e) && e.src !in AheadAfter(a, f, k, e);
    assert !AgreeAt(Step(a, e), Step(b, e), f, Noted(a, f, k, e), e.src);
  }

  /** Moving a file that is ahead. */
  lemma AheadSourceDiffers(a: Files, b: Files, f: Files, k: Book, e: Entry)
    requires Agree(a, b, f, k) && e.RenameEntry? && LoggedAt(a, e) && e.src in k.ahead
    ensures e.src !in Step(a, e) && e.src in AheadAfter(a, f, k, e)
    ensures !StillAgree(a, b, f, k, e)
  {
  }

  lemma LandsOutside(s: Files, src: string, dst: string, p: string)
    requires NoRevisit(s, src, dst) && Below(p, src)
    ensures p !in Moved(Children(s, src), src, dst)
  {
    if p in Moved(Children(s, src), src, dst) { MovedFrom(p, Children(s, src), src, dst); }
  }

  /** A directory carries off a record of the final store, or one that was left behind, or one that is ahead. */
  lemma EarlyCargoDiffers(a: Files, b: Files, f: Files, k: Book, e: Entry, q: string)
    requires Agree(a, b, f, k) && MovesDir(a, e) && LoggedAt(a, e) && !Early(f, k, e.dst) && e.dst !in k.left
    requires (Early(f, k, q) || q in k.left || q in k.ahead) && Below(q, e.src) && Safe(a, e) && Safe(b, e)
    ensures q in b && q !in Step(b, e) && q !in Step(a, e)
    ensures !StillAgree(a, b, f, k, e)
  {
    assert AgreeAt(a, b, f, k, e.src) && AgreeAt(a, b, f, k, e.dst) && AgreeAt(a, b, f, k, q);
    assert e.src in b && b[e.src].isDir && e.dst !in b;
    LandsOutside(a, e.src, e.dst, q);
    LandsOutside(b, e.src, e.dst, q);
    assert q in Children(b, e.src) && q !in Step(b, e);
    assert q !in Step(a, e);
    if q !in k.ahead { assert !AgreeAt(Step(a, e), Step(b, e), f, Noted(a, f, k, e), q); }
  }

  lemma OffCargoDiffers(a: Files, b: Files, f: Files, k: Book, e: Entry, p: string)
    requires Agree(a, b, f, k) && MovesDir(a, e) && LoggedAt(a, e) && !Early(f, k, e.dst) && e.dst !in k.left
    requires p in k.off && Under(p, e.src) && Move(p, e.src, e.dst) != e.src
    ensures var q := Move(p, e.src, e.dst);
      q in Step(a, e) && q in Step(b, e) && Step(a, e)[q].size != Step(b, e)[q].size
    ensures !StillAgree(a, b, f, k, e)
  {
    var q, a', b' := Move(p, e.src, e.dst), Step(a, e), Step(b, e);
    assert AgreeAt(a, b, f, k, e.src) && AgreeAt(a, b, f, k, e.dst) && AgreeAt(a, b, f, k, p);
    if p == e.src {
      assert q == e.dst;
    } else {
      MoveBelow(p, e.src, e.dst);
      assert p in Children(a, e.src) && p in Children(b, e.src);
      assert q in Moved(Children(a, e.src), e.src, e.dst) && q in Moved(Children(b, e.src), e.src, e.dst);
    }
    assert a'[q].size == a[p].size && b'[q].size == b[p].size;
    assert q !in OffAfter(a, f, k, e) && q !in AheadAfter(a, f, k, e) && q !in LeftAfter(a, f, k, e);
    assert !AgreeAt(a', b', f, Noted(a, f, k, e), q);
  }

  lemma RenameGuardNeeded(a: Files, b: Files, f: Files, k: Book, e: Entry)
    requires Agree(a, b, f, k) && e.RenameEntry? && LoggedAt(a, e) && Safe(a, e) && !Guard(a, f, k, e)
    ensures !StillAgree(a, b, f, k, e) || !Safe(b, e)
  {
    if e.src in k.ahead {
      AheadSourceDiffers(a, b, f, k, e);
    } else if e.dst in k.left || (a[e.src].isDir && Early(f, k, e.dst)) {
      TakenDestinationDiffers(a, b, f, k, e);
    } else if q :| (Early(f, k, q) || q in k.left || q in k.ahead) && Below(q, e.src) {
      if Safe(b, e) { EarlyCargoDiffers(a, b, f, k, e, q); }
    } else {
      var p :| p in k.off && Under(p, e.src) && Move(p, e.src, e.dst) != e.src;
      OffCargoDiffers(a, b, f, k, e, p);
    }
  }

  /** One entry: the passes stay in step and the second application has one outcome, exactly under the guard. */
  lemma GuardIff(a: Files, b: Files, f: Files, k: Book, e: Entry)
    requires Agree(a, b, f, k) && LoggedAt(a, e) && Safe(a, e) && Plain(a) && Plain(f)
    ensures StillAgree(a, b, f, k, e) && Safe(b, e) <==> Guard(a, f, k, e)
  {
    if Guard(a, f, k, e) {
      AgreeStep(a, b, f, k, e);
      SafeAgain(a, b, f, k, e);
    } else {
      match e
      case MkdirEntry(_) => MkdirGuardNeeded(a, b, f, k, e);
      case RmdirEntry(_) => RmdirGuardNeeded(a, b, f, k, e);
      case DeleteEntry(_) => DeleteGuardNeeded(a, b, f, k, e);
      case TruncateEntry(_, _) => TruncateGuardNeeded(a, b, f, k, e);
      case ChunkEntry(_, _, _) => ChunkGuardNeeded(a, b, f, k, e);
      case RenameEntry(_, _) => RenameGuardNeeded(a, b, f, k, e);
    }
  }

  // ---- Whole logs ----

  lemma {:induction false} SecondPass(log: seq<Entry>, f: Files)
    requires LoggedLog(log) && GuardedFor(log, f) && Plain(f)
    ensures Agree(Steps(map[], log), Steps(f, log), f, Kept(log, f))
    ensures SafeLog(map[], log) ==> SafeLog(f, log)
  {
    if log != [] {
      var rest, e := log[..|log| - 1], log[|log| - 1];
      SecondPass(rest, f);
      PlainLog(rest);
      AgreeStep(Steps(map[], rest), Steps(f, rest), f, Kept(rest, f), e);
      if SafeLog(map[], log) { SafeAgain(Steps(map[], rest), Steps(f, rest), f, Kept(rest, f), e); }
    }
  }

  /** A guarded log, replayed into its own result, is as safe and means the same store plus what was left behind. */
  lemma SecondResult(log: seq<Entry>)
    requires LoggedLog(log) && Guarded(log)
    ensures var f := Steps(map[], log);
      f.Keys !! LeftBehind(log).Keys && Steps(f, log) == f + LeftBehind(log) &&
      (SafeLog(map[], log) ==> SafeLog(f, log))
  {
    var f := Steps(map[], log);
    var b, k := Steps(f, log), Kept(log, f);
    PlainLog(log);
    SecondPass(log, f);
    forall p ensures (p in b <==> p in f + k.left) && (p in b ==> b[p] == (f + k.left)[p]) {
      assert AgreeAt(f, b, f, k, p);
    }
  }

  /** So it means the same store exactly when nothing was left behind. */
  lemma ReplayTwiceIff(log: seq<Entry>)
    requires LoggedLog(log) && Guarded(log)
    ensures Steps(Steps(map[], log), log) == Steps(map[], log) <==> LeftBehind(log) == map[]
  {
    SecondResult(log);
    var f, l := Steps(map[], log), LeftBehind(log);
    if p :| p in l { assert p in f + l && p !in f; } else { assert f + l == f; }
  }

  /** At every point of the second pass the stores agree and the entry just applied had one outcome. */
  ghost predicate InStep(log: seq<Entry>, f: Files) {
    log == [] ||
    var rest := log[..|log| - 1];
    InStep(rest, f) && Safe(Steps(f, rest), log[|log| - 1]) &&
    Agree(Steps(map[], log), Steps(f, log), f, Kept(log, f))
  }

  /** The two passes over a safe log are in step all the way exactly when the log is guarded. */
  lemma {:induction false} InStepIff(log: seq<Entry>, f: Files)
    requires LoggedLog(log) && SafeLog(map[], log) && Plain(f)
    ensures InStep(log, f) <==> GuardedFor(log, f)
  {
    if log != [] {
      var rest, e := log[..|log| - 1], log[|log| - 1];
      InStepIff(rest, f);
      PlainLog(rest);
      if GuardedFor(rest, f) {
        SecondPass(rest, f);
        GuardIff(Steps(map[], rest), Steps(f, rest), f, Kept(rest, f), e);
      }
    }
  }

  // ---- Logs that neither rename nor remove a directory ----

  ghost predicate NoMoves(log: seq<Entry>) {
    forall i :: 0 <= i < |log| ==> !log[i].RenameEntry? && !log[i].RmdirEntry?
  }

  /** No file id is given out twice. */
  ghost predicate IdsOnce(log: seq<Entry>) {
    forall i, j :: 0 <= i < j < |log| && log[i].CreateEntry? && log[j].CreateEntry? ==> log[i].fileID != log[j].fileID
  }

  /** A file that has never moved was created at its path. */
  lemma {:induction false} Origin(log: seq<Entry>, p: string) returns (i: nat)
    requires LoggedLog(log) && NoMoves(log) && p in Steps(map[], log) && Steps(map[], log)[p].fileID != ""
    ensures i < |log| && log[i].CreateEntry? && log[i].path == p && log[i].fileID == Steps(map[], log)[p].fileID
  {
    var rest, e := log[..|log| - 1], log[|log| - 1];
    if e.CreateEntry? && e.path == p {
      i := |log| - 1;
    } else {
      i := Origin(rest, p);
    }
  }

  lemma {:induction false} DirStays(log: seq<Entry>, n: nat, p: string)
    requires LoggedLog(log) && NoMoves(log) && n <= |log|
    requires p in Steps(map[], log[..n]) && Steps(map[], log[..n])[p].isDir
    ensures p in Steps(map[], log) && Steps(map[], log)[p].isDir
  {
    if n == |log| {
      assert log[..n] == log;
    } else {
      var rest := log[..|log| - 1];
      assert rest[..n] == log[..n];
      DirStays(rest, n, p);
    }
  }

  lemma {:induction false} LoggedPrefix(log: seq<Entry>, n: nat)
    requires LoggedLog(log) && n <= |log|
    ensures LoggedLog(log[..n])
  {
    if n == |log| {
      assert log[..n] == log;
    } else {
      assert log[..|log| - 1][..n] == log[..n];
      LoggedPrefix(log[..|log| - 1], n);
    }
  }

  lemma {:induction false} EntryLogged(log: seq<Entry>, n: nat)
    requires LoggedLog(log) && n < |log|
    ensures LoggedLog(log[..n]) && LoggedAt(Steps(map[], log[..n]), log[n])
    ensures Steps(map[], log[..n + 1]) == Step(Steps(map[], log[..n]), log[n])
  {
    LoggedPrefix(log, n + 1);
    assert log[..n + 1][..n] == log[..n];
  }

  lemma UnmovedMkdir(log: seq<Entry>, n: nat)
    requires LoggedLog(log) && NoMoves(log) && n < |log| && log[n].MkdirEntry?
    ensures var f := Steps(map[], log); log[n].path in f && f[log[n].path].isDir
  {
    EntryLogged(log, n);
    DirStays(log, n + 1, log[n].path);
  }

  /** Then nothing is ever ahead or left behind. */
  lemma {:induction false} UnmovedBook(log: seq<Entry>, f: Files)
    requires NoMoves(log)
    ensures Kept(log, f).ahead == {} && Kept(log, f).left == map[]
  {
    if log != [] { UnmovedBook(log[..|log| - 1], f); }
  }

  /** A file id stays at one path. */
  lemma SamePath(log: seq<Entry>, n: nat, o: string, p: string, id: string)
    requires n <= |log| && LoggedLog(log) && LoggedLog(log[..n]) && NoMoves(log) && IdsOnce(log) && id != ""
    requires o in Steps(map[], log[..n]) && Steps(map[], log[..n])[o].fileID == id
    requires p in Steps(map[], log) && Steps(map[], log)[p].fileID == id
    ensures o == p
  {
    var i := Origin(log[..n], o);
    var j := Origin(log, p);
    assert log[i] == log[..n][i];
  }

  lemma UnmovedChunk(log: seq<Entry>, n: nat, p: string)
    requires LoggedLog(log) && NoMoves(log) && IdsOnce(log) && n < |log| && log[n].ChunkEntry?
    requires Early(Steps(map[], log), Kept(log[..n], Steps(map[], log)), p)
    ensures Steps(map[], log)[p].fileID != log[n].fileID
  {
    EntryLogged(log, n);
    var a, id := Steps(map[], log[..n]), log[n].fileID;
    var o :| o in a && a[o].fileID == id;
    if Steps(map[], log)[p].fileID == id { SamePath(log, n, o, p, id); }
  }

  lemma UnmovedGuard(log: seq<Entry>, n: nat)
    requires LoggedLog(log) && NoMoves(log) && IdsOnce(log) && n < |log|
    ensures Guard(Steps(map[], log[..n]), Steps(map[], log), Kept(log[..n], Steps(map[], log)), log[n])
  {
    var f := Steps(map[], log);
    UnmovedBook(log[..n], f);
    if log[n].MkdirEntry? {
      UnmovedMkdir(log, n);
    } else if log[n].ChunkEntry? {
      forall p | Early(f, Kept(log[..n], f), p) ensures f[p].fileID != log[n].fileID { UnmovedChunk(log, n, p); }
    }
  }

  lemma {:induction false} UnmovedIsGuarded(log: seq<Entry>, n: nat)
    requires LoggedLog(log) && NoMoves(log) && IdsOnce(log) && n <= |log|
    ensures GuardedFor(log[..n], Steps(map[], log))
  {
    if n > 0 {
      assert log[..n][..n - 1] == log[..n - 1];
      UnmovedIsGuarded(log, n - 1);
      UnmovedGuard(log, n - 1);
    }
  }

  // ---- Live runs ----

  lemma LoggedIds(s: Files, replFac: int, token: Option<string>, req: Request, c: Choice)
    requires ChoiceOk(s, req, c) && Handle(s, replFac, token, req, c).entry.Some?
    ensures var e := Handle(s, replFac, token, req, c).entry.value;
            (e.CreateEntry? || e.ChunkEntry? ==> e.fileID != "") &&
            (e.CreateEntry? ==> req.CreateReq? && e.fileID == c.id)
  {
  }

  /** A server's log has the entries of successful calls only. */
  lemma {:induction false} RunLogged(replFac: int, calls: seq<Call>)
    requires GoodRun(map[], replFac, calls)
    ensures LoggedLog(Run(map[], replFac, calls).1)
  {
    if calls != [] {
      var rest, c := calls[..|calls| - 1], calls[|calls| - 1];
      var (s, log) := Run(map[], replFac, rest);
      RunLogged(replFac, rest);
      RunIsSteps(map[], replFac, rest);
      assert Norms(map[]) == map[];
      var r := Handle(s, replFac, c.token, c.req, c.choice);
      if r.entry.Some? {
        LoggedMeansEnabled(s, replFac, c.token, c.req, c.choice);
        LoggedIds(s, replFac, c.token, c.req, c.choice);
        assert (log + [r.entry.value])[..|log|] == log;
      }
    }
  }

  ghost predicate CreatedIn(log: seq<Entry>, own: map<string, string>) {
    forall i :: 0 <= i < |log| && log[i].CreateEntry? ==> log[i].fileID in own
  }

  lemma IdsSnoc(log: seq<Entry>, tagged: seq<Tagged>, x: Tagged)
    requires IdsOnce(log) && CreatedIn(log, Owners(tagged)) && (x.e.CreateEntry? ==> x.e.fileID !in Owners(tagged))
    ensures IdsOnce(log + [x.e]) && CreatedIn(log + [x.e], Owners(tagged + [x]))
  {
    OwnersSnoc(tagged, x);
  }

  lemma {:induction false} RunIdsOnce(replFac: int, calls: seq<Call>)
    requires GoodRun(map[], replFac, calls) && NeverReused(replFac, calls)
    ensures IdsOnce(Run(map[], replFac, calls).1)
    ensures CreatedIn(Run(map[], replFac, calls).1, Owners(RunLog(replFac, calls)))
  {
    if calls != [] {
      var rest, c := calls[..|calls| - 1], calls[|calls| - 1];
      var (s, log) := Run(map[], replFac, rest);
      RunIdsOnce(replFac, rest);
      var r := Handle(s, replFac, c.token, c.req, c.choice);
      if r.entry.Some? {
        LoggedIds(s, replFac, c.token, c.req, c.choice);
        IdsSnoc(log, RunLog(replFac, rest), Tagged(c.token.value, r.entry.value));
      }
    }
  }

  /** Replaying a server's log, if it is guarded, again into the store it rebuilt changes nothing exactly when nothing
      is left behind. */
  lemma ReplayingTwiceIff(replFac: int, calls: seq<Call>, once: seq<Env>, again: seq<Env>)
    requires GoodRun(map[], replFac, calls) && Guarded(Run(map[], replFac, calls).1)
    requires ReplayOk(map[], Run(map[], replFac, calls).1, once)
    requires ReplayOk(Replay(map[], Run(map[], replFac, calls).1, once), Run(map[], replFac, calls).1, again)
    ensures var log := Run(map[], replFac, calls).1;
            var t := Replay(map[], log, once);
            Norms(t) == Norms(Run(map[], replFac, calls).0) &&
            (Norms(Replay(t, log, again)) == Norms(t) <==> LeftBehind(log) == map[])
  {
    var log := Run(map[], replFac, calls).1;
    RunIsSteps(map[], replFac, calls);
    assert Norms(map[]) == map[];
    RunLogged(replFac, calls);
    ReplayIsSteps(map[], log, once);
    SecondResult(log);
    ReplayTwiceIff(log);
    ReplayIsSteps(Replay(map[], log, once), log, again);
  }

  /** Guarded, with nothing left behind, is every log of a server that renamed nothing and removed no directory. */
  lemma UnmovedRunIsGuarded(replFac: int, calls: seq<Call>)
    requires GoodRun(map[], replFac, calls) && NeverReused(replFac, calls) && NoMoves(Run(map[], replFac, calls).1)
    ensures Guarded(Run(map[], replFac, calls).1) && LeftBehind(Run(map[], replFac, calls).1) == map[]
  {
    var log := Run(map[], replFac, calls).1;
    RunLogged(replFac, calls);
    RunIdsOnce(replFac, calls);
    UnmovedIsGuarded(log, |log|);
    UnmovedBook(log, Steps(map[], log));
    assert log[..|log|] == log;
  }

  // ---- Logs told apart ----

  lemma LogSnoc(log: seq<Entry>, e: Entry, f: Files)
    ensures var a := Steps(map[], log);
      && Steps(map[], log + [e]) == Step(a, e)
      && (LoggedLog(log + [e]) <==> LoggedLog(log) && LoggedAt(a, e))
      && Kept(log + [e], f) == Noted(a, f, Kept(log, f), e)
      && (GuardedFor(log + [e], f) <==> GuardedFor(log, f) && Guard(a, f, Kept(log, f), e))
  {
    assert (log + [e])[..|log|] == log;
  }

  lemma LogOne(e: Entry, f: Files)
    ensures Steps(map[], [e]) == Step(map[], e) && (LoggedLog([e]) <==> LoggedAt(map[], e))
    ensures Kept([e], f) == Noted(map[], f, Book({}, {}, {}, map[]), e)
    ensures GuardedFor([e], f) <==> Guard(map[], f, Book({}, {}, {}, map[]), e)
  {
    LogSnoc([], e, f);
    assert [] + [e] == [e];
  }

  /** A file created and then renamed is made again by the second pass, which cannot move it onto what it has become. */
  lemma RenamedFileReappears()
    ensures var log := [CreateEntry("a", "1", 420), RenameEntry("a", "b")];
            var f := Steps(map[], log);
            LoggedLog(log) && Guarded(log) && "a" in LeftBehind(log) && "a" !in f && "a" in Steps(f, log)
  {
    var d, e := CreateEntry("a", "1", 420), RenameEntry("a", "b");
    assert [d] + [e] == [d, e];
    var f := Steps(map[], [d, e]);
    LogOne(d, f);
    LogSnoc([d], e, f);
    assert "a" != "b" && f.Keys == {"b"};
    assert Early(f, Kept([d], f), "b");
    SecondResult([d, e]);
  }

  /** Rotation: if the old name is created again afterwards, nothing is left behind. */
  lemma RotationIsHarmless()
    ensures var log := [CreateEntry("a", "1", 420), RenameEntry("a", "b"), CreateEntry("a", "2", 420)];
            LoggedLog(log) && Guarded(log) && LeftBehind(log) == map[] &&
            Steps(Steps(map[], log), log) == Steps(map[], log)
  {
    var d, e, c := CreateEntry("a", "1", 420), RenameEntry("a", "b"), CreateEntry("a", "2", 420);
    assert [d] + [e] == [d, e] && [d, e] + [c] == [d, e, c];
    var f := Steps(map[], [d, e, c]);
    LogOne(d, f);
    LogSnoc([d], e, f);
    LogSnoc([d, e], c, f);
    assert "a" != "b" && Step(map[], d).Keys == {"a"} && f.Keys == {"a", "b"};
    assert Early(f, Kept([d], f), "b");
    ReplayTwiceIff([d, e, c]);
  }

  /** A directory removed, then a file below its path: the second pass cannot remove the directory again. */
  lemma RemovedDirReappears()
    ensures var log := [MkdirEntry("d"), RmdirEntry("d"), CreateEntry("d/f", "1", 420)];
            var f := Steps(map[], log);
            LoggedLog(log) && !Guarded(log) && "d" !in f && "d" in Steps(f, log)
  {
    var d, e, c := MkdirEntry("d"), RmdirEntry("d"), CreateEntry("d/f", "1", 420);
    assert [d] + [e] == [d, e] && [d, e] + [c] == [d, e, c] && [] + [d] == [d];
    var f := Steps(map[], [d, e, c]);
    LogOne(d, f);
    LogSnoc([d], e, f);
    LogSnoc([d, e], c, f);
    MadeAndRemoved(d, e, c);
    assert Early(f, Kept([d], f), "d/f");
    RemovalRefused(f, d, e, c);
  }

  lemma MadeAndRemoved(d: Entry, e: Entry, c: Entry)
    requires d == MkdirEntry("d") && e == RmdirEntry("d") && c == CreateEntry("d/f", "1", 420)
    ensures Step(map[], d).Keys == {"d"} && LoggedAt(map[], d) && LoggedAt(Step(map[], d), e)
    ensures Step(Step(map[], d), e) == map[] && LoggedAt(map[], c) && Step(map[], c).Keys == {"d/f"}
    ensures "d/f" != "d" && Below("d/f", "d")
  {
  }

  lemma RemovalRefused(f: Files, d: Entry, e: Entry, c: Entry)
    requires d == MkdirEntry("d") && e == RmdirEntry("d") && c.CreateEntry? && "d/f" in f && "d" !in f
    ensures "d" in Steps(f, [d, e, c])
  {
    assert [] + [d] == [d] && [d] + [e] == [d, e] && [d, e] + [c] == [d, e, c];
    StepsSnoc(f, [], d);
    StepsSnoc(f, [d], e);
    StepsSnoc(f, [d, e], c);
    assert "d/f" != "d" && Below("d/f", "d") && "d/f" in Step(f, d) && HasChildren(Step(f, d), "d");
  }

  /** A rename onto a name that was used before does no harm. */
  lemma RenameOntoUsedNameIsHarmless(id: string, id': string)
    requires id != "" && id' != ""
    ensures var log := [CreateEntry("b", id, 420), DeleteEntry("b"), CreateEntry("a", id', 420), RenameEntry("a", "b")];
            LoggedLog(log) && Guarded(log) && LeftBehind(log) == map[]
  {
    var x, y, z, w := CreateEntry("b", id, 420), DeleteEntry("b"), CreateEntry("a", id', 420), RenameEntry("a", "b");
    assert [x] + [y] == [x, y] && [x, y] + [z] == [x, y, z] && [x, y, z] + [w] == [x, y, z, w];
    var f := Steps(map[], [x, y, z, w]);
    LogOne(x, f);
    LogSnoc([x], y, f);
    LogSnoc([x, y], z, f);
    LogSnoc([x, y, z], w, f);
    assert "a" != "b" && "b" in Step(map[], x);
    assert Kept([x, y, z], f).left == map[] && Kept([x, y, z], f).ahead == {};
  }

  /** A chunk, then a rename onto a name that was used before: in the second pass two records have the chunk's file id,
      and the map's order decides which one gets the chunk. */
  lemma TwoRecordsShareTheId()
    ensures var log := [CreateEntry("a", "1", 420), ChunkEntry("1", "k", []), CreateEntry("c", "2", 420),
                        DeleteEntry("c"), RenameEntry("a", "c")];
            var f := Steps(map[], log);
            LoggedLog(log) && !Guarded(log) && !Safe(Step(f, log[0]), log[1])
  {
    var x, y, z, v, w := CreateEntry("a", "1", 420), ChunkEntry("1", "k", []), CreateEntry("c", "2", 420),
                         DeleteEntry("c"), RenameEntry("a", "c");
    assert [x] + [y] == [x, y] && [x, y] + [z] == [x, y, z];
    assert [x, y, z] + [v] == [x, y, z, v] && [x, y, z, v] + [w] == [x, y, z, v, w];
    var f := Steps(map[], [x, y, z, v, w]);
    MovedOntoUsedName(x, y, z, v, w);
    LogOne(x, f);
    LogSnoc([x], y, f);
    LogSnoc([x, y], z, f);
    LogSnoc([x, y, z], v, f);
    LogSnoc([x, y, z, v], w, f);
    var g := Step(f, x);
    assert g["a"].fileID == "1" == g["c"].fileID;
    assert Early(f, Kept([x], f), "c");
  }

  lemma MovedOntoUsedName(x: Entry, y: Entry, z: Entry, v: Entry, w: Entry)
    requires x == CreateEntry("a", "1", 420) && y == ChunkEntry("1", "k", []) && z == CreateEntry("c", "2", 420)
    requires v == DeleteEntry("c") && w == RenameEntry("a", "c")
    ensures Step(map[], x).Keys == {"a"} && LoggedAt(map[], x) && LoggedAt(Step(map[], x), y)
    ensures var b := Step(Step(map[], x), y);
            LoggedAt(b, z) && LoggedAt(Step(b, z), v) && LoggedAt(Step(Step(b, z), v), w)
    ensures var f := Step(Step(Step(Step(Step(map[], x), y), z), v), w); f.Keys == {"c"} && f["c"].fileID == "1"
  {
    var a := Step(map[], x);
    assert a["a"].fileID == "1";
    var b := Step(a, y);
    assert b.Keys == {"a"} && "a" != "c" && Step(Step(b, z), v) == b;
  }
}
