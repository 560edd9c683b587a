/** The namenode's in-memory store as the program has it: a map to mutable records, changed in place by
    internal/namenode/metadata.go. Every method is proved against the value-level functions of module Files. */
module MetadataStore {
  import opened Basics
  import opened Paths
  import F = Files
  import opened Log

  /** Backing arrays, each with the path of the record it was last linked with. */
  type Homes = map<array<F.Chunk>, string>

  /** A record. Its chunk list is a slice: the first count elements of a backing array whose length is the capacity (a
      nil slice has capacity zero). */
  class FileMeta {
    var fileID: string
    var path: string
    var size: int
    var mode: int
    var isDir: bool
    var mtime: int
    var ctime: int
    var chunks: array<F.Chunk>
    var count: nat
    ghost var Elements: seq<F.Chunk>

    ghost predicate Valid()
      reads this, chunks
    {
      |Elements| == count <= chunks.Length && forall i :: 0 <= i < count ==> chunks[i] == Elements[i]
    }

    ghost function Value(): (m: F.Meta)
      reads this
    {
      F.Meta(fileID, path, size, mode, isDir, mtime, ctime, Elements)
    }

    constructor (m: F.Meta)
      ensures Valid() && Value() == m && fresh(chunks)
    {
      fileID, path, size, mode := m.fileID, m.path, m.size, m.mode;
      isDir, mtime, ctime, count, Elements := m.isDir, m.mtime, m.ctime, |m.chunks|, m.chunks;
      chunks := new F.Chunk[|m.chunks|](i requires 0 <= i < |m.chunks| => m.chunks[i]);
    }

    /** Go's append: in place while the capacity lasts, else into a new array of some larger capacity. */
    method Append(id: string, replicas: seq<string>)
      requires Valid()
      modifies this, chunks
      ensures Valid() && Value() == F.WithChunk(old(Value()), id, replicas)
      ensures chunks == old(chunks) || fresh(chunks)
    {
      var c := F.Chunk(id, count, replicas);
      if count == chunks.Length {
        var capacity: nat :| count < capacity;
        var grown := new F.Chunk[capacity];
        forall i | 0 <= i < count { grown[i] := chunks[i]; }
        chunks := grown;
      }
      chunks[count] := c;
      count := count + 1;
      Elements := Elements + [c];
    }
  }

  /** The map of pointers m stands for the values s. Its records and backing arrays are in heap, and home knows the one
      path each array belongs to. */
  ghost predicate StandsFor(m: map<string, FileMeta>, s: F.Files, heap: set<object>, home: Homes)
    reads heap
  {
    m.Keys == s.Keys &&
    forall p {:trigger At(m[p], p, heap, home)} :: p in m ==> At(m[p], p, heap, home) && m[p].Value() == s[p]
  }

  ghost predicate At(fm: FileMeta, p: string, heap: set<object>, home: Homes)
    reads heap
  {
    fm in heap && fm.chunks in heap && fm.chunks in home && home[fm.chunks] == p && fm.Valid()
  }

  /** No two paths share a record or an array. */
  lemma NothingShared(m: map<string, FileMeta>, s: F.Files, heap: set<object>, home: Homes, p: string, q: string)
    requires StandsFor(m, s, heap, home) && p in m && q in m && p != q
    ensures m[p] != m[q] && m[p].chunks != m[q].chunks
  {
    assert At(m[p], p, heap, home) && At(m[q], q, heap, home);
  }

  lemma FindStep(s: F.Files, id: string, order: seq<string>, i: nat)
    requires i < |order| && order[i] in s
    ensures F.FindByID(s, id, order[i..]) ==
            if s[order[i]].fileID == id then Some(order[i]) else F.FindByID(s, id, order[i + 1..])
  {
    assert order[i..][0] == order[i] && order[i..][1..] == order[i + 1..];
  }

  /** Adding or replacing a record that is not yet in the heap. */
  lemma Linked(m: map<string, FileMeta>, s: F.Files, heap: set<object>, home: Homes, q: string, c: FileMeta)
    requires StandsFor(m, s, heap, home) && c.Valid() && c.chunks !in heap
    ensures StandsFor(m[q := c], s[q := c.Value()], heap + {c, c.chunks}, home[c.chunks := q])
  {
    forall k | k in m && k != q
      ensures At(m[k], k, heap + {c, c.chunks}, home[c.chunks := q]) && m[k].Value() == s[k]
    {
      assert At(m[k], k, heap, home);
    }
  }

  /** Without the key p, the rest of the map stands on the rest of the heap. */
  lemma Unlinked(m: map<string, FileMeta>, s: F.Files, heap: set<object>, home: Homes, p: string, c: FileMeta)
    requires StandsFor(m, s, heap, home) && At(c, p, heap, home)
    ensures StandsFor(m - {p}, s - {p}, heap - {c, c.chunks}, home)
  {
    forall k | k in m && k != p ensures At(m[k], k, heap - {c, c.chunks}, home) && m[k].Value() == s[k] {
      assert At(m[k], k, heap, home);
    }
  }

  /** Of the objects put back, only c can be new. */
  lemma PutBack(before: set<object>, a: object, b: object, c: object)
    requires a in before && b in before
    ensures before - {a, b} + {a, c} - before == if c in before then {} else {c}
  {
  }

  lemma SameMap(m: map<string, FileMeta>, p: string)
    requires p in m
    ensures (m - {p})[p := m[p]] == m
  {
  }

  /** The part of the store that has been visited. */
  ghost function Part(s: F.Files, order: seq<string>): (r: F.Files) {
    map p | p in s && p in order :: s[p]
  }

  lemma PartSnoc(s: F.Files, order: seq<string>, i: nat)
    requires i < |order| && order[i] in s
    ensures Part(s, order[..i + 1]) == Part(s, order[..i])[order[i] := s[order[i]]]
  {
    assert order[..i + 1] == order[..i] + [order[i]];
  }

  lemma PartAll(s: F.Files, order: seq<string>)
    requires Lists(order, s.Keys)
    ensures Part(s, order[..|order|]) == s
  {
    assert order[..|order|] == order;
  }

  lemma {:induction false} RangeAt(s: F.Files, src: string, dst: string, order: seq<string>, i: nat)
    requires F.RangeOk(s, src, dst, order) && i < |order|
    ensures order[i] in F.RunVisits(s, src, dst, order[..i])
    ensures F.RunVisits(s, src, dst, order[..i + 1]) ==
            F.Visit(F.RunVisits(s, src, dst, order[..i]), src, dst, order[i])
  {
    assert order[..i + 1][..i] == order[..i];
  }

  /** A record of its own with an array of its own. */
  method CopyOf(v: FileMeta) returns (cpy: FileMeta)
    requires v.Valid()
    ensures fresh(cpy) && fresh(cpy.chunks) && cpy.Valid() && cpy.Value() == v.Value()
  {
    cpy := new FileMeta(F.Meta(v.fileID, v.path, v.size, v.mode, v.isDir, v.mtime, v.ctime, []));
    cpy.chunks := new F.Chunk[v.count];
    forall i | 0 <= i < v.count { cpy.chunks[i] := v.chunks[i]; }
    cpy.count, cpy.Elements := v.count, v.Elements;
  }

  class MetadataStore {
    var files: map<string, FileMeta>
    const replFac: int
    ghost var view: F.Files
    ghost var Repr: set<object>
    ghost var home: Homes

    ghost predicate Valid()
      reads this, Repr
    {
      this !in Repr && StandsFor(files, view, Repr, home)
    }

    constructor (replicationFactor: int)
      ensures Valid() && Repr == {} && view == map[]
      ensures replFac == if replicationFactor < 1 then 3 else replicationFactor
    {
      files, view, Repr, home := map[], map[], {}, map[];
      replFac := if replicationFactor < 1 then 3 else replicationFactor;
    }

    /** m.files[p] = fm, for a record that is not in the store. */
    method Link(p: string, fm: FileMeta)
      requires Valid() && fm.Valid() && fm !in Repr && fm.chunks !in Repr
      modifies this
      ensures Valid() && files == old(files)[p := fm] && view == old(view)[p := fm.Value()]
      ensures Repr == old(Repr) + {fm, fm.chunks} && home == old(home)[fm.chunks := p]
    {
      ghost var s, heap, homes := view[p := fm.Value()], Repr + {fm, fm.chunks}, home[fm.chunks := p];
      Linked(files, view, Repr, home, p, fm);
      assert this !in heap && StandsFor(files[p := fm], s, heap, homes);
      files, view, Repr, home := files[p := fm], s, heap, homes;
    }

    /** delete(m.files, p), after which the record fm, whose place is p, is the caller's. */
    method Unlink(p: string, ghost fm: FileMeta)
      requires Valid() && At(fm, p, Repr, home)
      modifies this
      ensures Valid() && files == old(files) - {p} && view == old(view) - {p}
      ensures Repr == old(Repr) - {fm, fm.chunks} && home == old(home)
    {
      Unlinked(files, view, Repr, home, p, fm);
      files, view, Repr := files - {p}, view - {p}, Repr - {fm, fm.chunks};
    }

    method PutFile(fm: FileMeta)
      requires Valid() && fm.Valid() && fm !in Repr && fm.chunks !in Repr
      modifies this
      ensures Valid() && files == old(files)[fm.path := fm] && Repr == old(Repr) + {fm, fm.chunks}
      ensures view == old(view)[fm.path := fm.Value()]
    {
      Link(fm.path, fm);
    }

    method CreateFile(path: string, mode: int, id: string, now: int) returns (fm: FileMeta?, err: Option<F.Error>)
      requires Valid()
      modifies this
      ensures Valid() && fresh(Repr - old(Repr))
      ensures view == F.CreateFile(old(view), path, mode, id, now).0
      ensures err == F.CreateFile(old(view), path, mode, id, now).1
      ensures err.None? ==> fm != null && path in files && files[path] == fm && fm.fileID == id && fm.mode == mode
    {
      if path in files {
        return null, Some(F.FileExists);
      }
      fm := new FileMeta(F.Meta(id, path, 0, mode, false, now, now, []));
      PutFile(fm);
      err := None;
    }

    method MakeDir(path: string, mode: int, now: int) returns (err: Option<F.Error>)
      requires Valid()
      modifies this
      ensures Valid() && fresh(Repr - old(Repr))
      ensures view == F.MakeDir(old(view), path, mode, now).0
      ensures err == F.MakeDir(old(view), path, mode, now).1
    {
      if path in files {
        return Some(F.FileExists);
      }
      var m := mode;
      if m == 0 {
        m := F.DIR_MODE;
      }
      var fm := new FileMeta(F.Meta("", path, 0, m, true, now, now, []));
      PutFile(fm);
      err := None;
    }

    method AnyBelow(path: string, order: seq<string>) returns (found: bool)
      requires Valid() && Lists(order, files.Keys)
      ensures found == F.HasChildren(view, path)
    {
      var prefix := path + "/";
      for i := 0 to |order|
        invariant forall j :: 0 <= j < i ==> !Below(order[j], path)
      {
        if order[i] != path && HasPrefix(order[i], prefix) {
          assert order[i] in view;
          return true;
        }
      }
      found := false;
    }

    method RemoveDir(path: string, order: seq<string>) returns (err: Option<F.Error>)
      requires Valid() && Lists(order, files.Keys)
      modifies this
      ensures Valid() && Repr <= old(Repr)
      ensures view == F.RemoveDir(old(view), path).0
      ensures err == F.RemoveDir(old(view), path).1
    {
      if path !in files {
        return Some(F.FileNotFound);
      }
      assert At(files[path], path, Repr, home);
      if !files[path].isDir {
        return Some(F.NotADirectory);
      }
      var found := AnyBelow(path, order);
      if found {
        return Some(F.NotEmpty);
      }
      Unlink(path, files[path]);
      err := None;
    }

    method DeleteFile(path: string) returns (err: Option<F.Error>)
      requires Valid()
      modifies this
      ensures Valid() && Repr <= old(Repr)
      ensures view == F.DeleteFile(old(view), path).0
      ensures err == F.DeleteFile(old(view), path).1
    {
      if path !in files {
        return Some(F.FileNotFound);
      }
      assert At(files[path], path, Repr, home);
      if files[path].isDir {
        return Some(F.NotADirectory);
      }
      Unlink(path, files[path]);
      err := None;
    }

    method HasID(p: string, id: string) returns (yes: bool)
      requires Valid() && p in files
      ensures yes == (view[p].fileID == id)
    {
      assert At(files[p], p, Repr, home);
      yes := files[p].fileID == id;
    }

    /** The search both loops below run: the first key, in visiting order, whose record has the id. */
    method Find(id: string, order: seq<string>) returns (p: Option<string>)
      requires Valid() && Lists(order, files.Keys)
      ensures p == F.FindByID(view, id, order)
    {
      for i := 0 to |order|
        invariant F.FindByID(view, id, order) == F.FindByID(view, id, order[i..])
      {
        FindStep(view, id, order, i);
        var found := HasID(order[i], id);
        if found {
          return Some(order[i]);
        }
      }
      p := None;
    }

    method GetFileByID(id: string, order: seq<string>) returns (fm: FileMeta?)
      requires Valid() && Lists(order, files.Keys)
      ensures var p := F.FindByID(view, id, order);
              if p.None? then fm == null else p.value in files && files[p.value] == fm && fm.Value() == view[p.value]
    {
      var p := Find(id, order);
      assert p.Some? ==> At(files[p.value], p.value, Repr, home);
      fm := if p.None? then null else files[p.value];
    }

    /** The record at p gets one more chunk; no other record has its array. */
    method Extend(fm: FileMeta, p: string, id: string, replicas: seq<string>)
      requires Valid() && At(fm, p, Repr, home)
      modifies this, fm, fm.chunks
      ensures Valid() && files == (old(files) - {p})[p := fm] && (fm.chunks == old(fm.chunks) || fresh(fm.chunks))
      ensures Repr == old(Repr) - {fm, old(fm.chunks)} + {fm, fm.chunks}
      ensures view == (old(view) - {p})[p := F.WithChunk(old(fm.Value()), id, replicas)]
    {
      Unlink(p, fm);
      fm.Append(id, replicas);
      Link(p, fm);
    }

    method AddChunk(id: string, chunkID: string, replicas: seq<string>, order: seq<string>)
      returns (err: Option<F.Error>)
      requires Valid() && Lists(order, files.Keys)
      modifies this, Repr
      ensures Valid() && files == old(files) && fresh(Repr - old(Repr))
      ensures view == F.AddChunk(old(view), id, chunkID, replicas, order).0
      ensures err == F.AddChunk(old(view), id, chunkID, replicas, order).1
    {
      var p := Find(id, order);
      if p.None? {
        return Some(F.FileNotFound);
      }
      var fm := files[p.value];
      ghost var was := fm.chunks;
      assert At(fm, p.value, Repr, home);
      Extend(fm, p.value, chunkID, replicas);
      PutBack(old(Repr), fm, was, fm.chunks);
      SameMap(old(files), p.value);
      err := None;
    }

    method TruncateFile(path: string, size: int, now: int) returns (err: Option<F.Error>)
      requires Valid()
      modifies this, Repr
      ensures Valid() && files == old(files) && fresh(Repr - old(Repr))
      ensures view == F.TruncateFile(old(view), path, size, now).0
      ensures err == F.TruncateFile(old(view), path, size, now).1
    {
      if path !in files {
        return Some(F.FileNotFound);
      }
      var fm := files[path];
      assert At(fm, path, Repr, home);
      Unlink(path, fm);
      fm.size := size;
      fm.mtime := now;
      Link(path, fm);
      SameMap(old(files), path);
      err := None;
    }

    /** The record at p gets path q and moves there. */
    method Relink(p: string, q: string)
      requires Valid() && p in files
      modifies this, files[p]
      ensures Valid() && files == (old(files) - {p})[q := old(files[p])]
      ensures Repr == old(Repr) && home == old(home)[old(files[p].chunks) := q]
      ensures view == (old(view) - {p})[q := old(view)[p].(path := q)]
    {
      var child := files[p];
      ghost var before := Repr;
      assert At(child, p, Repr, home);
      Unlink(p, child);
      child.path := q;
      Link(q, child);
      assert Repr == before;
    }

    /** One iteration of Rename's loop; the renamed directory's own record is not touched. */
    method VisitKey(p: string, src: string, dst: string, ghost fm: FileMeta)
      requires Valid() && p in files && At(fm, src, Repr, home)
      modifies this, Repr
      ensures Valid() && Repr == old(Repr)
      ensures view == F.Visit(old(view), src, dst, p)
      ensures fm.Value() == old(fm.Value()) && At(fm, src, Repr, home)
    {
      var prefix := src + "/";
      if HasPrefix(p, prefix) {
        MoveBelow(p, src, dst);
        var newChildPath := dst + "/" + p[|prefix|..];
        assert At(files[p], p, Repr, home);
        Relink(p, newChildPath);
      }
    }

    /** Rename's loop over the map it is rewriting: order is any sequence of keys Go's range may yield. */
    method MoveChildren(src: string, dst: string, order: seq<string>, ghost fm: FileMeta)
      requires Valid() && At(fm, src, Repr, home) && F.RangeOk(view, src, dst, order)
      modifies this, Repr
      ensures Valid() && Repr == old(Repr)
      ensures view == F.RunVisits(old(view), src, dst, order)
      ensures fm.Value() == old(fm.Value()) && At(fm, src, Repr, home)
    {
      ghost var start := view;
      for i := 0 to |order|
        invariant Valid() && Repr == old(Repr)
        invariant view == F.RunVisits(start, src, dst, order[..i])
        invariant fm.Value() == old(fm.Value()) && At(fm, src, Repr, home)
      {
        RangeAt(start, src, dst, order, i);
        VisitKey(order[i], src, dst, fm);
      }
      assert order[..|order|] == order;
    }

    method Rename(src: string, dst: string, now: int, order: seq<string>) returns (err: Option<F.Error>)
      requires Valid()
      requires MovesDirectory(view, RenameEntry(src, dst)) ==> F.RangeOk(view, src, dst, order)
      modifies this, Repr
      ensures Valid() && Repr == old(Repr)
      ensures view == F.Rename(old(view), src, dst, now, order).0
      ensures err == F.Rename(old(view), src, dst, now, order).1
    {
      if src !in files {
        return Some(F.FileNotFound);
      }
      if dst in files {
        return Some(F.FileExists);
      }
      var fm := files[src];
      if fm.isDir {
        MoveChildren(src, dst, order, fm);
      }
      Place(fm, src, dst, now);
      err := None;
    }

    /** Rename's last lines: whatever is at src by now leaves, and the record settles at dst. */
    method Place(fm: FileMeta, src: string, dst: string, now: int)
      requires Valid() && At(fm, src, Repr, home)
      modifies this, fm
      ensures Valid() && files == (old(files) - {src})[dst := fm] && Repr == old(Repr)
      ensures view == (old(view) - {src})[dst := old(fm.Value()).(path := dst, mtime := now)]
    {
      ghost var before := Repr;
      Unlink(src, fm);
      fm.path := dst;
      fm.mtime := now;
      Link(dst, fm);
      assert Repr == before;
    }

    /** A further record is copied into out, which stands for part of the store. */
    method AddCopy(out: map<string, FileMeta>, k: string, ghost done: F.Files, ghost heap: set<object>,
                   ghost home': Homes)
      returns (out': map<string, FileMeta>, ghost heap': set<object>, ghost home'': Homes)
      requires Valid() && k in files && StandsFor(out, done, heap, home')
      ensures fresh(heap' - heap) && StandsFor(out', done[k := view[k]], heap', home'')
    {
      assert At(files[k], k, Repr, home);
      var cpy := CopyOf(files[k]);
      Linked(out, done, heap, home', k, cpy);
      out', heap', home'' := out[k := cpy], heap + {cpy, cpy.chunks}, home'[cpy.chunks := k];
    }

    /** A copy whose records and arrays are all new: nothing done to the store afterwards can reach it. */
    method Snapshot(order: seq<string>)
      returns (out: map<string, FileMeta>, ghost heap: set<object>, ghost homes: Homes)
      requires Valid() && Lists(order, files.Keys)
      ensures fresh(heap) && StandsFor(out, view, heap, homes)
    {
      out, heap, homes := map[], {}, map[];
      for i := 0 to |order|
        invariant fresh(heap) && StandsFor(out, Part(view, order[..i]), heap, homes)
      {
        out, heap, homes := AddCopy(out, order[i], Part(view, order[..i]), heap, homes);
        PartSnoc(view, order, i);
      }
      PartAll(view, order);
    }

    method Restore(snapshot: map<string, FileMeta>, ghost values: F.Files, ghost heap: set<object>, ghost homes: Homes)
      requires this !in heap && StandsFor(snapshot, values, heap, homes)
      modifies this
      ensures Valid() && files == snapshot && view == values && Repr == heap
    {
      files, view, Repr, home := snapshot, values, heap, homes;
    }
  }
}
