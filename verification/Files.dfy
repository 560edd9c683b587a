/** The namenode's metadata as values: the path-to-record map of internal/namenode/metadata.go and what each
    mutator does to it. Clock readings, fresh ids and the order in which Go's range visits the map are arguments. */
module Files {
  import opened Basics
  import opened Paths

  datatype Chunk = Chunk(id: string, index: int, replicas: seq<string>)

  datatype Meta = Meta(fileID: string, path: string, size: int, mode: int, isDir: bool,
                       mtime: int, ctime: int, chunks: seq<Chunk>)

  type Files = map<string, Meta>

  datatype Error = FileNotFound | FileExists | NotEmpty | NotADirectory

  const DIR_MODE := 493   // 0755
  const FILE_MODE := 420  // 0644

  // ---- Mutators ----

  function CreateFile(s: Files, path: string, mode: int, id: string, now: int): (r: (Files, Option<Error>)) {
    if path in s then (s, Some(FileExists))
    else (s[path := Meta(id, path, 0, mode, false, now, now, [])], None)
  }

  function MakeDir(s: Files, path: string, mode: int, now: int): (r: (Files, Option<Error>)) {
    if path in s then (s, Some(FileExists))
    else (s[path := Meta("", path, 0, if mode == 0 then DIR_MODE else mode, true, now, now, [])], None)
  }

  predicate HasChildren(s: Files, path: string) {
    exists p :: p in s && Below(p, path)
  }

  function RemoveDir(s: Files, path: string): (r: (Files, Option<Error>)) {
    if path !in s then (s, Some(FileNotFound))
    else if !s[path].isDir then (s, Some(NotADirectory))
    else if HasChildren(s, path) then (s, Some(NotEmpty))
    else (s - {path}, None)
  }

  function DeleteFile(s: Files, path: string): (r: (Files, Option<Error>)) {
    if path !in s then (s, Some(FileNotFound))
    else if s[path].isDir then (s, Some(NotADirectory))
    else (s - {path}, None)
  }

  function TruncateFile(s: Files, path: string, size: int, now: int): (r: (Files, Option<Error>)) {
    if path !in s then (s, Some(FileNotFound))
    else (s[path := s[path].(size := size, mtime := now)], None)
  }

  /** The first path in visiting order whose record has the id: GetFileByID and AddChunk search this way. */
  function FindByID(s: Files, id: string, order: seq<string>): (r: Option<string>)
    ensures r.Some? ==> r.value in order && r.value in s && s[r.value].fileID == id
    ensures r.None? ==> forall p :: p in order && p in s ==> s[p].fileID != id
  {
    if order == [] then None
    else if order[0] in s && s[order[0]].fileID == id then Some(order[0])
    else FindByID(s, id, order[1..])
  }

  /** It is the first one. */
  lemma {:induction false} FindsFirst(s: Files, id: string, order: seq<string>) returns (i: nat)
    ensures var r := FindByID(s, id, order);
      && i <= |order| && (forall j :: 0 <= j < i && order[j] in s ==> s[order[j]].fileID != id)
      && if r.None? then i == |order|
         else i < |order| && order[i] == r.value && order[i] in s && s[order[i]].fileID == id
  {
    if order == [] || (order[0] in s && s[order[0]].fileID == id) {
      i := 0;
    } else {
      var k := FindsFirst(s, id, order[1..]);
      i := k + 1;
      forall j | 0 <= j < i && order[j] in s ensures s[order[j]].fileID != id {
        if j > 0 { assert order[j] == order[1..][j - 1]; }
      }
    }
  }

  function WithChunk(m: Meta, chunkID: string, replicas: seq<string>): Meta {
    m.(chunks := m.chunks + [Chunk(chunkID, |m.chunks|, replicas)])
  }

  function AddChunk(s: Files, id: string, chunkID: string, replicas: seq<string>, order: seq<string>)
    : (r: (Files, Option<Error>))
  {
    var p := FindByID(s, id, order);
    if p.None? then (s, Some(FileNotFound))
    else (s[p.value := WithChunk(s[p.value], chunkID, replicas)], None)
  }

  // ---- Rename ----

  /** One iteration of the loop over the map while a directory is renamed. */
  function Visit(s: Files, src: string, dst: string, p: string): (t: Files) {
    if p in s && Below(p, src) then
      var q := Move(p, src, dst);
      (s - {p})[q := s[p].(path := q)]
    else s
  }

  function RunVisits(s: Files, src: string, dst: string, order: seq<string>): (t: Files) {
    if order == [] then s
    else Visit(RunVisits(s, src, dst, order[..|order| - 1]), src, dst, order[|order| - 1])
  }

  /** What Go's range may do while the loop rewrites the map: every key it yields is present at that moment, keys
      inserted on the way may be yielded or not, and every key present at the start is yielded. */
  ghost predicate RangeOk(s: Files, src: string, dst: string, order: seq<string>) {
    (forall i :: 0 <= i < |order| ==> order[i] in RunVisits(s, src, dst, order[..i])) &&
    forall p :: p in s ==> p in order
  }

  function RenameResult(s: Files, src: string, dst: string, now: int, order: seq<string>): (t: Files)
    requires src in s
  {
    var t := if s[src].isDir then RunVisits(s, src, dst, order) else s;
    (t - {src})[dst := s[src].(path := dst, mtime := now)]
  }

  function Rename(s: Files, src: string, dst: string, now: int, order: seq<string>): (r: (Files, Option<Error>)) {
    if src !in s then (s, Some(FileNotFound))
    else if dst in s then (s, Some(FileExists))
    else (RenameResult(s, src, dst, now, order), None)
  }
}
