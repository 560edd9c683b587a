/** ListDirectory (internal/namenode/metadata.go): one entry per first path component below a directory. */
module Listing {
  import opened Basics
  import opened Paths
  import opened Files
  import opened MetadataStore

  datatype DirEntry = DirEntry(name: string, isDir: bool, size: int, mode: int, mtime: int)

  /** The text before the first slash. */
  function Component(rest: string): (c: string)
    ensures |c| <= |rest| && c == rest[..|c|] && '/' !in c && (|c| < |rest| ==> rest[|c|] == '/')
  {
    if rest == "" || rest[0] == '/' then "" else [rest[0]] + Component(rest[1..])
  }

  predicate Skips(p: string, dir: string) {
    !HasPrefix(p, dir) || |p| <= |dir| || (dir != "/" && p[|dir|] != '/')
  }

  /** The name under which p is listed in dir. */
  function NameIn(p: string, dir: string): (name: string)
    requires !Skips(p, dir)
  {
    Component(if dir != "/" then p[|dir| + 1..] else p[|dir|..])
  }

  /** The slice p[:len(dirPath)+1+len(name)] is taken for records that are not directories. */
  predicate SliceInRange(p: string, dir: string)
    requires !Skips(p, dir)
  {
    |dir| + 1 + |NameIn(p, dir)| <= |p|
  }

  function Describe(s: Files, p: string, dir: string): (e: DirEntry)
    requires p in s && !Skips(p, dir) && (s[p].isDir || SliceInRange(p, dir))
  {
    var name := NameIn(p, dir);
    var isDir := s[p].isDir || exists q :: q in s && q != p && HasPrefix(q, p[..|dir| + 1 + |name|] + "/");
    var mode := if s[p].mode != 0 then s[p].mode else if isDir then DIR_MODE else FILE_MODE;
    DirEntry(name, isDir, s[p].size, mode, s[p].mtime)
  }

  predicate Listed(entries: seq<DirEntry>, name: string) {
    exists i :: 0 <= i < |entries| && entries[i].name == name
  }

  /** One iteration of the outer loop; None once a slice has been out of range. */
  function ListStep(s: Files, dir: string, acc: Option<seq<DirEntry>>, p: string): (r: Option<seq<DirEntry>>)
    requires p in s
  {
    if acc.None? || Skips(p, dir) || Listed(acc.value, NameIn(p, dir)) then acc
    else if !s[p].isDir && !SliceInRange(p, dir) then None
    else Some(acc.value + [Describe(s, p, dir)])
  }

  function List(s: Files, dir: string, order: seq<string>): (r: Option<seq<DirEntry>>)
    requires forall i :: 0 <= i < |order| ==> order[i] in s
  {
    if order == [] then Some([])
    else ListStep(s, dir, List(s, dir, order[..|order| - 1]), order[|order| - 1])
  }

  // ---- Below a directory other than the root ----

  lemma SkipsIff(p: string, dir: string)
    requires dir != "/"
    ensures Skips(p, dir) <==> !Below(p, dir)
    ensures !Skips(p, dir) ==> SliceInRange(p, dir)
  {
    BelowIff(p, dir);
  }

  /** The names that must appear. */
  ghost function Names(s: Files, dir: string): (names: set<string>)
    requires dir != "/"
  {
    set p | p in s && !Skips(p, dir) :: NameIn(p, dir)
  }

  /** The entry describes one of the visited paths. */
  ghost predicate Shows(e: DirEntry, s: Files, dir: string, visited: seq<string>) {
    exists p :: p in visited && Describes(e, s, dir, p)
  }

  ghost predicate Describes(e: DirEntry, s: Files, dir: string, p: string) {
    p in s && !Skips(p, dir) && (s[p].isDir || SliceInRange(p, dir)) && e == Describe(s, p, dir)
  }

  lemma ShowsMore(e: DirEntry, s: Files, dir: string, visited: seq<string>, p: string)
    requires Shows(e, s, dir, visited)
    ensures Shows(e, s, dir, visited + [p])
  {
    var q :| q in visited && Describes(e, s, dir, q);
    assert q in visited + [p];
  }

  ghost predicate EachOnce(entries: seq<DirEntry>, s: Files, dir: string, visited: seq<string>) {
    && (forall i, j :: 0 <= i < j < |entries| ==> entries[i].name != entries[j].name)
    && (forall i :: 0 <= i < |entries| ==> Shows(entries[i], s, dir, visited))
    && (forall p :: p in visited && !Skips(p, dir) ==> Listed(entries, NameIn(p, dir)))
  }

  lemma EachOnceStep(s: Files, dir: string, entries: seq<DirEntry>, rest: seq<string>, p: string)
    requires dir != "/" && p in s && EachOnce(entries, s, dir, rest)
    ensures ListStep(s, dir, Some(entries), p).Some?
    ensures EachOnce(ListStep(s, dir, Some(entries), p).value, s, dir, rest + [p])
  {
    SkipsIff(p, dir);
    var r := ListStep(s, dir, Some(entries), p).value;
    forall i | 0 <= i < |entries| ensures Shows(entries[i], s, dir, rest + [p]) {
      ShowsMore(entries[i], s, dir, rest, p);
    }
    if r != entries {
      assert p in rest + [p] && Shows(r[|entries|], s, dir, rest + [p]);
      assert r[|entries|].name == NameIn(p, dir);
      forall q | q in rest + [p] && !Skips(q, dir) ensures Listed(r, NameIn(q, dir)) {
        if q in rest {
          var i :| 0 <= i < |entries| && entries[i].name == NameIn(q, dir);
          assert r[i].name == NameIn(q, dir);
        }
      }
    }
  }

  lemma {:induction false} ListEachOnce(s: Files, dir: string, order: seq<string>)
    requires dir != "/" && forall i :: 0 <= i < |order| ==> order[i] in s
    ensures List(s, dir, order).Some? && EachOnce(List(s, dir, order).value, s, dir, order)
  {
    if order != [] {
      var rest, p := order[..|order| - 1], order[|order| - 1];
      ListEachOnce(s, dir, rest);
      EachOnceStep(s, dir, List(s, dir, rest).value, rest, p);
      assert order == rest + [p];
    }
  }

  /** In every visiting order no slice is out of range, each first component below dir is listed exactly once, and each
      entry describes a record below dir. */
  lemma ListsEveryNameOnce(s: Files, dir: string, order: seq<string>)
    requires dir != "/" && Lists(order, s.Keys)
    ensures List(s, dir, order).Some?
    ensures var entries := List(s, dir, order).value;
      && (forall i, j :: 0 <= i < j < |entries| ==> entries[i].name != entries[j].name)
      && (forall name :: name in Names(s, dir) <==> Listed(entries, name))
      && (forall i :: 0 <= i < |entries| ==> Shows(entries[i], s, dir, order))
  {
    ListEachOnce(s, dir, order);
    var entries := List(s, dir, order).value;
    forall name | Listed(entries, name) ensures name in Names(s, dir) {
      var i :| 0 <= i < |entries| && entries[i].name == name;
      assert Shows(entries[i], s, dir, order);
    }
  }

  /** A directory other than the root can be removed exactly when its listing is empty. */
  lemma RemovableIffListsNothing(s: Files, path: string, order: seq<string>)
    requires path != "/" && path in s && s[path].isDir && Lists(order, s.Keys)
    ensures RemoveDir(s, path).1.None? <==> List(s, path, order) == Some([])
  {
    ListsEveryNameOnce(s, path, order);
    var entries := List(s, path, order).value;
    if HasChildren(s, path) {
      var p :| p in s && Below(p, path);
      SkipsIff(p, path);
      assert NameIn(p, path) in Names(s, path);
      assert Listed(entries, NameIn(p, path));
    } else if entries != [] {
      assert Listed(entries, entries[0].name) && entries[0].name in Names(s, path);
      var p :| p in s && !Skips(p, path) && NameIn(p, path) == entries[0].name;
      SkipsIff(p, path);
    }
  }

  // ---- What the first path visited decides ----

  lemma ListSnoc(s: Files, dir: string, order: seq<string>, p: string)
    requires p in s && forall i :: 0 <= i < |order| ==> order[i] in s
    ensures List(s, dir, order + [p]) == ListStep(s, dir, List(s, dir, order), p)
  {
    assert (order + [p])[..|order|] == order;
  }

  lemma StepKeepsHead(s: Files, dir: string, acc: seq<DirEntry>, p: string)
    requires dir != "/" && p in s && acc != []
    ensures var r := ListStep(s, dir, Some(acc), p); r.Some? && r.value != [] && r.value[0] == acc[0]
  {
    if !Skips(p, dir) { SkipsIff(p, dir); }
  }

  lemma FirstAlone(s: Files, dir: string, p: string)
    requires dir != "/" && p in s && !Skips(p, dir)
    ensures (s[p].isDir || SliceInRange(p, dir)) && List(s, dir, [p]) == Some([Describe(s, p, dir)])
  {
    SkipsIff(p, dir);
    ListSnoc(s, dir, [], p);
    assert [] + [p] == [p] && !Listed([], NameIn(p, dir));
    assert [] + [Describe(s, p, dir)] == [Describe(s, p, dir)];
  }

  lemma {:induction false} FirstIsShown(s: Files, dir: string, p: string, rest: seq<string>)
    requires dir != "/" && p in s && !Skips(p, dir) && forall i :: 0 <= i < |rest| ==> rest[i] in s
    ensures var r := List(s, dir, [p] + rest);
            (s[p].isDir || SliceInRange(p, dir)) && r.Some? && |r.value| > 0 && r.value[0] == Describe(s, p, dir)
  {
    if rest == [] {
      assert [p] + rest == [p];
      FirstAlone(s, dir, p);
    } else {
      var n := |rest| - 1;
      var most := [p] + rest[..n];
      FirstIsShown(s, dir, p, rest[..n]);
      assert [p] + rest == most + [rest[n]];
      ListSnoc(s, dir, most, rest[n]);
      StepKeepsHead(s, dir, List(s, dir, most).value, rest[n]);
    }
  }

  ghost function Shown(s: Files, dir: string, order: seq<string>): (r: set<DirEntry>)
    requires Lists(order, s.Keys)
  {
    var l := List(s, dir, order);
    if l.None? then {} else set i | 0 <= i < |l.value| :: l.value[i]
  }

  /** Records listed under one name are described alike. */
  ghost predicate Uniform(s: Files, dir: string)
    requires dir != "/"
  {
    forall p, q :: p in s && q in s && Alike(p, q, dir) ==> DescribeBelow(s, p, dir) == DescribeBelow(s, q, dir)
  }

  predicate Alike(p: string, q: string, dir: string) {
    !Skips(p, dir) && !Skips(q, dir) && NameIn(p, dir) == NameIn(q, dir)
  }

  ghost function DescribeBelow(s: Files, p: string, dir: string): (e: DirEntry)
    requires dir != "/" && p in s && !Skips(p, dir)
  {
    SkipsIff(p, dir);
    Describe(s, p, dir)
  }

  /** With p first, the entry shown under its name is p's. */
  lemma ShownFirst(s: Files, dir: string, p: string) returns (order: seq<string>)
    requires dir != "/" && p in s && !Skips(p, dir)
    ensures Lists(order, s.Keys) && DescribeBelow(s, p, dir) in Shown(s, dir, order)
    ensures forall e :: e in Shown(s, dir, order) && e.name == NameIn(p, dir) ==> e == DescribeBelow(s, p, dir)
  {
    order := ListingFrom(s.Keys, p);
    assert order == [p] + order[1..];
    FirstIsShown(s, dir, p, order[1..]);
    ListsEveryNameOnce(s, dir, order);
    var l := List(s, dir, order).value;
    assert l[0] in Shown(s, dir, order);
  }

  lemma ShownIsDescribed(s: Files, dir: string, order: seq<string>, e: DirEntry) returns (p: string)
    requires dir != "/" && Lists(order, s.Keys) && e in Shown(s, dir, order)
    ensures p in s && !Skips(p, dir) && e == DescribeBelow(s, p, dir)
  {
    ListsEveryNameOnce(s, dir, order);
    var l := List(s, dir, order).value;
    var i :| 0 <= i < |l| && e == l[i];
    assert Shows(l[i], s, dir, order);
    p :| p in order && Describes(l[i], s, dir, p);
  }

  lemma UniformShown(s: Files, dir: string, a: seq<string>, b: seq<string>, e: DirEntry)
    requires dir != "/" && Uniform(s, dir) && Lists(a, s.Keys) && Lists(b, s.Keys) && e in Shown(s, dir, a)
    ensures e in Shown(s, dir, b)
  {
    var p := ShownIsDescribed(s, dir, a, e);
    ListsEveryNameOnce(s, dir, b);
    var l := List(s, dir, b).value;
    assert e.name in Names(s, dir) && Listed(l, e.name);
    var i :| 0 <= i < |l| && l[i].name == e.name;
    assert l[i] in Shown(s, dir, b);
    var q := ShownIsDescribed(s, dir, b, l[i]);
    assert Alike(p, q, dir);
  }

  /** What a listing shows is the same for every visiting order exactly when records with a common first component
      below the directory are described alike. */
  lemma ListingSameIff(s: Files, dir: string)
    requires dir != "/"
    ensures (forall a, b :: Lists(a, s.Keys) && Lists(b, s.Keys) ==> Shown(s, dir, a) == Shown(s, dir, b))
            <==> Uniform(s, dir)
  {
    if Uniform(s, dir) {
      forall a, b | Lists(a, s.Keys) && Lists(b, s.Keys) ensures Shown(s, dir, a) == Shown(s, dir, b) {
        forall e ensures e in Shown(s, dir, a) <==> e in Shown(s, dir, b) {
          if e in Shown(s, dir, a) { UniformShown(s, dir, a, b, e); }
          if e in Shown(s, dir, b) { UniformShown(s, dir, b, a, e); }
        }
      }
    } else {
      var p, q :| p in s && q in s && Alike(p, q, dir) && DescribeBelow(s, p, dir) != DescribeBelow(s, q, dir);
      var a := ShownFirst(s, dir, p);
      var b := ShownFirst(s, dir, q);
      assert DescribeBelow(s, p, dir).name == NameIn(q, dir);
    }
  }

  // ---- Directory or file? ----

  /** The path that a name in dir stands for. */
  function Home(dir: string, name: string): (q: string) { dir + "/" + name }

  lemma HomeFacts(p: string, dir: string)
    requires dir != "/" && !Skips(p, dir)
    ensures |dir| + 1 + |NameIn(p, dir)| <= |p| && p[..|dir| + 1 + |NameIn(p, dir)|] == Home(dir, NameIn(p, dir))
    ensures Under(p, Home(dir, NameIn(p, dir)))
  {
    var rest, h := p[|dir| + 1..], Home(dir, NameIn(p, dir));
    assert p == dir + "/" + rest && rest[..|NameIn(p, dir)|] == NameIn(p, dir);
    assert p[..|h|] == h;
    BelowIff(p, h);
    if |p| > |h| { assert p[|h|] == rest[|NameIn(p, dir)|]; }
  }

  /** A directory record, or a path with something below it. */
  ghost predicate IsDirectory(s: Files, d: string) { (d in s && s[d].isDir) || HasChildren(s, d) }

  /** p is a file, not itself an entry of dir, and the only record below the entry it is listed under. */
  ghost predicate Lonely(s: Files, dir: string, p: string)
    requires dir != "/"
  {
    p in s && !Skips(p, dir) && !s[p].isDir && p != Home(dir, NameIn(p, dir)) &&
    forall q :: q in s && Below(q, Home(dir, NameIn(p, dir))) ==> q == p
  }

  lemma KindRightIff(s: Files, dir: string, p: string)
    requires dir != "/" && p in s && !Skips(p, dir)
    ensures (DescribeBelow(s, p, dir).isDir <==> IsDirectory(s, Home(dir, NameIn(p, dir)))) <==> !Lonely(s, dir, p)
  {
    HomeFacts(p, dir);
    var h := Home(dir, NameIn(p, dir));
    assert DescribeBelow(s, p, dir).isDir <==> s[p].isDir || exists q :: q in s && q != p && Below(q, h);
    if p == h { BelowIff(p, h); }
  }

  ghost predicate KindsRight(s: Files, dir: string, order: seq<string>)
    requires Lists(order, s.Keys)
  {
    forall e :: e in Shown(s, dir, order) ==> (e.isDir <==> IsDirectory(s, Home(dir, e.name)))
  }

  /** Every entry is shown as what it is, in every visiting order, exactly when no file is the only record below an
      entry: such a file, visited first, makes its parent directory look like a file. */
  lemma KindsRightIff(s: Files, dir: string)
    requires dir != "/"
    ensures (forall order :: Lists(order, s.Keys) ==> KindsRight(s, dir, order)) <==> !exists p :: Lonely(s, dir, p)
  {
    if p :| Lonely(s, dir, p) {
      var order := ShownFirst(s, dir, p);
      KindRightIff(s, dir, p);
      assert !KindsRight(s, dir, order);
    } else {
      forall order | Lists(order, s.Keys) ensures KindsRight(s, dir, order) {
        forall e | e in Shown(s, dir, order) ensures e.isDir <==> IsDirectory(s, Home(dir, e.name)) {
          var p := ShownIsDescribed(s, dir, order, e);
          KindRightIff(s, dir, p);
        }
      }
    }
  }

  /** Every entry shows the size and time of a record at its own path or below it, and that record's mode, or the
      default of the kind shown if it has none. */
  lemma EntryFields(s: Files, dir: string, order: seq<string>, e: DirEntry) returns (p: string)
    requires dir != "/" && Lists(order, s.Keys) && e in Shown(s, dir, order)
    ensures p in s && Under(p, Home(dir, e.name)) && e.size == s[p].size && e.mtime == s[p].mtime
    ensures e.mode == if s[p].mode != 0 then s[p].mode else if e.isDir then 493 else 420
  {
    p := ShownIsDescribed(s, dir, order, e);
    HomeFacts(p, dir);
  }

  /** An entry whose own path is a record with nothing below it shows that record, in every visiting order. */
  lemma OwnRecordShown(s: Files, dir: string, order: seq<string>, e: DirEntry)
    requires dir != "/" && Lists(order, s.Keys) && e in Shown(s, dir, order)
    requires var h := Home(dir, e.name); h in s && forall q :: q in s ==> !Below(q, h)
    ensures var m := s[Home(dir, e.name)];
      e == DirEntry(e.name, m.isDir, m.size, if m.mode != 0 then m.mode else if m.isDir then 493 else 420, m.mtime)
  {
    var p := ShownIsDescribed(s, dir, order, e);
    HomeFacts(p, dir);
    KindRightIff(s, dir, p);
  }

  /** A directory d/x whose one file is d/x/y: a listing of d that meets the file first shows x as a file. */
  lemma DirectoryShownAsFile() returns (s: Files, order: seq<string>, e: DirEntry)
    ensures "d/x" in s && s["d/x"].isDir && Lists(order, s.Keys)
    ensures e in Shown(s, "d", order) && e.name == "x" && !e.isDir
  {
    s := map["d/x" := Meta("", "d/x", 0, DIR_MODE, true, 0, 0, []),
             "d/x/y" := Meta("1", "d/x/y", 7, FILE_MODE, false, 0, 0, [])];
    var p := "d/x/y";
    assert "d/x" != p && !Skips(p, "d") && p[2..] == "x/y" && "x/y"[1..] == "/y";
    assert Component("/y") == "" && Component("x/y") == "x" && NameIn(p, "d") == "x";
    assert Home("d", "x") == "d/x" && !Below("d/x", "d/x") && Below(p, "d/x");
    order := ShownFirst(s, "d", p);
    e := DescribeBelow(s, p, "d");
    assert Lonely(s, "d", p) && HasChildren(s, "d/x");
    KindRightIff(s, "d", p);
  }

  // ---- The root ----

  /** A file directly below the root: its slice is one past the end. */
  predicate RootFile(s: Files, p: string) {
    p in s && !s[p].isDir && HasPrefix(p, "/") && |p| > 1 && '/' !in p[1..]
  }

  lemma RootSlice(p: string)
    requires !Skips(p, "/")
    ensures SliceInRange(p, "/") <==> '/' in p[1..]
  {
    var c := Component(p[1..]);
    if |c| == |p| - 1 { assert c == p[1..]; }
  }

  lemma {:induction false} RootSafe(s: Files, order: seq<string>)
    requires (forall i :: 0 <= i < |order| ==> order[i] in s) && !exists p :: RootFile(s, p)
    ensures List(s, "/", order).Some?
  {
    if order != [] {
      RootSafe(s, order[..|order| - 1]);
      var p := order[|order| - 1];
      if !Skips(p, "/") {
        RootSlice(p);
        assert !RootFile(s, p);
      }
    }
  }

  lemma {:induction false} StaysBroken(s: Files, dir: string, a: seq<string>, b: seq<string>)
    requires forall i :: 0 <= i < |a + b| ==> (a + b)[i] in s
    requires (forall i :: 0 <= i < |a| ==> a[i] in s) && List(s, dir, a).None?
    ensures List(s, dir, a + b).None?
  {
    if b == [] {
      assert a + b == a;
    } else {
      var c := b[..|b| - 1];
      assert (a + b)[..|a + b| - 1] == a + c;
      assert forall i :: 0 <= i < |a + c| ==> (a + c)[i] == (a + b)[i];
      StaysBroken(s, dir, a, c);
    }
  }

  /** Listing "/" is in range for every visiting order exactly when no file sits directly below the root. */
  lemma RootListingSafeIff(s: Files)
    ensures (forall order :: Lists(order, s.Keys) ==> List(s, "/", order).Some?) <==> !exists p :: RootFile(s, p)
  {
    if p :| RootFile(s, p) {
      var rest := ListingExists(s.Keys - {p});
      var order := [p] + rest;
      assert Lists(order, s.Keys);
      RootSlice(p);
      assert [p][..0] == [] && !Listed([], NameIn(p, "/"));
      assert List(s, "/", [p]).None?;
      StaysBroken(s, "/", [p], rest);
    } else {
      forall order | Lists(order, s.Keys) ensures List(s, "/", order).Some? {
        RootSafe(s, order);
      }
    }
  }

  // ---- The program ----

  lemma {:induction false} ComponentStep(rest: string, i: nat)
    requires i < |rest| && rest[i] != '/'
    ensures rest[..i] + Component(rest[i..]) == rest[..i + 1] + Component(rest[i + 1..])
  {
    assert rest[i..][0] == rest[i] && rest[i..][1..] == rest[i + 1..];
  }

  method FirstComponent(rest: string) returns (name: string)
    ensures name == Component(rest)
  {
    var idx := 0;
    assert rest[0..] == rest && rest[..0] == "";
    while idx < |rest| && rest[idx] != '/'
      invariant idx <= |rest| && Component(rest) == rest[..idx] + Component(rest[idx..])
    {
      ComponentStep(rest, idx);
      idx := idx + 1;
    }
    name := rest[..idx];
  }

  /** The outer loop's body. */
  method VisitEntry(store: MetadataStore, dirPath: string, acc: seq<DirEntry>, p: string, order: seq<string>)
    returns (r: Option<seq<DirEntry>>)
    requires store.Valid() && Lists(order, store.files.Keys) && p in store.files
    ensures r == ListStep(store.view, dirPath, Some(acc), p)
  {
    var fm := store.files[p];
    assert At(fm, p, store.Repr, store.home);
    if !HasPrefix(p, dirPath) || |p| <= |dirPath| {
      return Some(acc);
    }
    var rest := p[|dirPath|..];
    if dirPath != "/" {
      if rest[0] != '/' {
        return Some(acc);
      }
      rest := rest[1..];
    }
    assert rest == if dirPath != "/" then p[|dirPath| + 1..] else p[|dirPath|..];
    var name := FirstComponent(rest);
    if Listed(acc, name) {
      return Some(acc);
    }
    var isDir := fm.isDir;
    if !isDir {
      if |p| < |dirPath| + 1 + |name| {
        return None;
      }
      isDir := AnyOther(store, p, p[..|dirPath| + 1 + |name|] + "/", order);
    }
    var mode := fm.mode;
    if mode == 0 && isDir {
      mode := DIR_MODE;
    }
    if mode == 0 {
      mode := FILE_MODE;
    }
    r := Some(acc + [DirEntry(name, isDir, fm.size, mode, fm.mtime)]);
  }

  /** None stands for the run-time panic of an out-of-range slice. */
  method ListDirectory(store: MetadataStore, dirPath: string, order: seq<string>)
    returns (entries: Option<seq<DirEntry>>)
    requires store.Valid() && Lists(order, store.files.Keys)
    ensures entries == List(store.view, dirPath, order)
  {
    var acc := [];
    for i := 0 to |order|
      invariant List(store.view, dirPath, order[..i]) == Some(acc)
    {
      var r := VisitEntry(store, dirPath, acc, order[i], order);
      ListPrefix(store.view, dirPath, order, i);
      if r.None? {
        ListBroken(store.view, dirPath, order, i);
        return None;
      }
      acc := r.value;
    }
    assert order[..|order|] == order;
    entries := Some(acc);
  }

  lemma ListPrefix(s: Files, dir: string, order: seq<string>, i: nat)
    requires (forall j :: 0 <= j < |order| ==> order[j] in s) && i < |order|
    ensures List(s, dir, order[..i + 1]) == ListStep(s, dir, List(s, dir, order[..i]), order[i])
  {
    assert order[..i + 1] == order[..i] + [order[i]];
    ListSnoc(s, dir, order[..i], order[i]);
  }

  lemma ListBroken(s: Files, dir: string, order: seq<string>, i: nat)
    requires (forall j :: 0 <= j < |order| ==> order[j] in s) && i < |order| && List(s, dir, order[..i]).Some?
    requires ListStep(s, dir, List(s, dir, order[..i]), order[i]).None?
    ensures List(s, dir, order).None?
  {
    assert order[..i + 1][..i] == order[..i];
    assert order == order[..i + 1] + order[i + 1..];
    StaysBroken(s, dir, order[..i + 1], order[i + 1..]);
  }

  /** The inner loop: does some other key start with prefix? */
  method AnyOther(store: MetadataStore, p: string, prefix: string, order: seq<string>) returns (found: bool)
    requires store.Valid() && Lists(order, store.files.Keys)
    ensures found == exists q :: q in store.view && q != p && HasPrefix(q, prefix)
  {
    for i := 0 to |order|
      invariant forall j :: 0 <= j < i ==> !(order[j] != p && HasPrefix(order[j], prefix))
    {
      if order[i] != p && HasPrefix(order[i], prefix) {
        assert order[i] in store.view;
        return true;
      }
    }
    found := false;
  }
}
