/** The write-ahead log as a file, and the namenode over any number of restarts (internal/namenode/wal.go,
    cmd/namenode/main.go). */
module Recovery {
  import opened Basics
  import opened Files
  import opened Log
  import opened Handlers
  import opened Replication

  // ---- The file ----

  /** What the decoder finds: an entry, something it cannot decode, or a stray closing bracket, at which it reports
      that there is nothing more. */
  datatype Record = Readable(entry: Entry) | Unreadable | Stray

  /** readAll; None is its error. */
  function ReadAll(file: seq<Record>): (r: Option<seq<Entry>>) {
    if file == [] || file[0].Stray? then Some([])
    else if file[0].Unreadable? then None
    else
      var rest := ReadAll(file[1..]);
      if rest.None? then None else Some([file[0].entry] + rest.value)
  }

  /** The result of reading when entries have been read already and r is what the rest gives. */
  function Prepended(entries: seq<Entry>, r: Option<seq<Entry>>): Option<seq<Entry>> {
    if r.None? then None else Some(entries + r.value)
  }

  lemma ReadOne(entries: seq<Entry>, file: seq<Record>)
    requires file != [] && file[0].Readable?
    ensures Prepended(entries, ReadAll(file)) == Prepended(entries + [file[0].entry], ReadAll(file[1..]))
  {
    var rest := ReadAll(file[1..]);
    if rest.Some? { assert entries + ([file[0].entry] + rest.value) == entries + [file[0].entry] + rest.value; }
  }

  /** What Replay makes of a store and a file: nothing at all is applied if any of it cannot be read. */
  function ReplayFile(s: Files, file: seq<Record>, envs: seq<Env>): (t: Files)
    requires ReadAll(file).Some? ==> |envs| == |ReadAll(file).value|
  {
    if ReadAll(file).None? then s else Replay(s, ReadAll(file).value, envs)
  }

  ghost predicate BadAt(file: seq<Record>, i: int) {
    0 <= i < |file| && file[i].Unreadable? && forall j :: 0 <= j < i ==> !file[j].Stray?
  }

  /** The file is refused as a whole exactly when something unreadable comes before any stray bracket. */
  lemma {:induction false} RefusedIff(file: seq<Record>)
    ensures ReadAll(file).None? <==> exists i :: BadAt(file, i)
  {
    if file != [] {
      var rest := file[1..];
      RefusedIff(rest);
      if i :| BadAt(file, i) {
        if i > 0 { assert BadAt(rest, i - 1); }
      }
      if !file[0].Stray? && ReadAll(file).None? {
        if file[0].Unreadable? {
          assert BadAt(file, 0);
        } else {
          var i :| BadAt(rest, i);
          assert file[i + 1] == rest[i];
          forall j | 0 <= j < i + 1 ensures !file[j].Stray? {
            if j > 0 { assert file[j] == rest[j - 1]; }
          }
          assert BadAt(file, i + 1);
        }
      }
    }
  }

  ghost predicate NoStray(file: seq<Record>) { forall i :: 0 <= i < |file| ==> !file[i].Stray? }

  lemma {:induction false} ReadAllSnoc(file: seq<Record>, x: Record)
    requires NoStray(file)
    ensures ReadAll(file + [x]) ==
            if ReadAll(file).None? || x.Unreadable? then None
            else if x.Stray? then ReadAll(file)
            else Some(ReadAll(file).value + [x.entry])
  {
    if file == [] {
      assert file + [x] == [x] && [x][1..] == [];
      if x.Readable? { assert [x.entry] + [] == [] + [x.entry]; }
    } else {
      assert (file + [x])[1..] == file[1..] + [x];
      ReadAllSnoc(file[1..], x);
      if ReadAll(file).Some? && x.Readable? {
        assert [file[0].entry] + (ReadAll(file[1..]).value + [x.entry]) == ReadAll(file).value + [x.entry];
      }
    }
  }

  // ---- Restarts ----

  /** How the write of a log entry ends: it is all in the file (synced or not), nothing is, or a part of it. */
  datatype Write = Whole | Nothing | Half

  function Recorded(e: Option<Entry>, w: Write): (r: seq<Record>) {
    if e.None? || w == Nothing then [] else if w == Half then [Unreadable] else [Readable(e.value)]
  }

  /** A server answers calls until the process is started again; a log that cannot be read stops it for good. */
  datatype State = State(store: Files, file: seq<Record>, up: bool)

  datatype Event = ServeEvent(call: Call, write: Write) | RestartEvent(envs: seq<Env>)

  const FRESH := State(map[], [], true)

  function Answer(replFac: int, s: State, call: Call): (r: Reply) {
    Handle(s.store, replFac, call.token, call.req, call.choice)
  }

  function Next(replFac: int, s: State, ev: Event): (t: State) {
    match ev
    case ServeEvent(call, write) =>
      if !s.up then s
      else
        var r := Answer(replFac, s, call);
        State(r.files, s.file + Recorded(r.entry, write), true)
    case RestartEvent(envs) =>
      if ReadAll(s.file).Some? && |envs| == |ReadAll(s.file).value|
      then State(ReplayFile(map[], s.file, envs), s.file, true)
      else State(map[], s.file, false)
  }

  function RunAll(replFac: int, evs: seq<Event>): (s: State) {
    if evs == [] then FRESH else Next(replFac, RunAll(replFac, evs[..|evs| - 1]), evs[|evs| - 1])
  }

  ghost predicate EventOk(s: State, ev: Event) {
    match ev
    case ServeEvent(call, _) => s.up ==> CallOk(s.store, call.req, call.choice)
    case RestartEvent(envs) => ReadAll(s.file).Some? ==> ReplayOk(map[], ReadAll(s.file).value, envs)
  }

  ghost predicate GoodHistory(replFac: int, evs: seq<Event>) {
    evs == [] ||
    (GoodHistory(replFac, evs[..|evs| - 1]) && EventOk(RunAll(replFac, evs[..|evs| - 1]), evs[|evs| - 1]))
  }

  ghost predicate AllWritten(evs: seq<Event>) {
    forall i :: 0 <= i < |evs| && evs[i].ServeEvent? ==> evs[i].write == Whole
  }

  /** The server runs and its store is what its log means. */
  ghost predicate Durable(s: State) {
    s.up && NoStray(s.file) && StoreInv(s.store) &&
    var log := ReadAll(s.file);
    log.Some? && SafeLog(map[], log.value) && Norms(s.store) == Steps(map[], log.value)
  }

  lemma RestartDurable(replFac: int, s: State, envs: seq<Env>)
    requires Durable(s) && EventOk(s, RestartEvent(envs))
    ensures var t := Next(replFac, s, RestartEvent(envs)); Durable(t) && Norms(t.store) == Norms(s.store)
  {
    var log := ReadAll(s.file).value;
    var t := Replay(map[], log, envs);
    assert Norms(map[]) == map[];
    ReplayIsSteps(map[], log, envs);
    InvNorms(s.store);
    InvNorms(t);
  }

  lemma EntryDurable(s: State, e: Entry, t: Files)
    requires Durable(s) && Safe(s.store, e) && Norms(t) == Step(Norms(s.store), e) && StoreInv(t)
    ensures Durable(State(t, s.file + [Readable(e)], true))
  {
    ReadAllSnoc(s.file, Readable(e));
    LogGrows(map[], ReadAll(s.file).value, s.store, t, e);
  }

  lemma ServeDurable(replFac: int, s: State, call: Call)
    requires Durable(s) && CallOk(s.store, call.req, call.choice)
    ensures Durable(Next(replFac, s, ServeEvent(call, Whole)))
  {
    var r := Answer(replFac, s, call);
    CallIsStep(s.store, replFac, call.token, call.req, call.choice);
    HandleInv(s.store, replFac, call.token, call.req, call.choice);
    if r.entry.Some? {
      EntryDurable(s, r.entry.value, r.files);
    } else {
      assert s.file + [] == s.file;
    }
  }

  lemma {:induction false} HistoryDurable(replFac: int, evs: seq<Event>)
    requires GoodHistory(replFac, evs) && AllWritten(evs)
    ensures Durable(RunAll(replFac, evs))
  {
    if evs == [] {
      assert Norms(map[]) == map[] && Steps(map[], []) == map[];
    } else {
      var rest, ev := evs[..|evs| - 1], evs[|evs| - 1];
      HistoryDurable(replFac, rest);
      match ev
      case ServeEvent(call, _) => ServeDurable(replFac, RunAll(replFac, rest), call);
      case RestartEvent(envs) => RestartDurable(replFac, RunAll(replFac, rest), envs);
    }
  }

  /** Over every history of calls and restarts in which the log can be written, a further restart rebuilds the live
      store, up to timestamps and directory modes. */
  lemma RestartRebuildsLiveStore(replFac: int, evs: seq<Event>, envs: seq<Env>)
    requires GoodHistory(replFac, evs) && AllWritten(evs)
    requires EventOk(RunAll(replFac, evs), RestartEvent(envs))
    ensures var s := RunAll(replFac, evs);
            var t := Next(replFac, s, RestartEvent(envs));
            t.up && Norms(t.store) == Norms(s.store)
  {
    HistoryDurable(replFac, evs);
    RestartDurable(replFac, RunAll(replFac, evs), envs);
  }

  /** A restart undoes a call whose log entry was not written; it rebuilds the live store exactly when that call
      changed nothing that is logged. */
  lemma LostWriteIsUndone(replFac: int, evs: seq<Event>, call: Call, envs: seq<Env>)
    requires GoodHistory(replFac, evs) && AllWritten(evs) && CallOk(RunAll(replFac, evs).store, call.req, call.choice)
    requires EventOk(RunAll(replFac, evs), RestartEvent(envs))
    ensures var s := RunAll(replFac, evs);
            var t := Next(replFac, s, ServeEvent(call, Nothing));
            var u := Next(replFac, t, RestartEvent(envs));
            u.up && Norms(u.store) == Norms(s.store) &&
            (Norms(u.store) == Norms(t.store) <==> Norms(Answer(replFac, s, call).files) == Norms(s.store))
  {
    var s := RunAll(replFac, evs);
    HistoryDurable(replFac, evs);
    RestartDurable(replFac, s, envs);
    assert s.file + [] == s.file;
  }

  /** An entry was written in part. */
  ghost predicate Torn(replFac: int, evs: seq<Event>) {
    evs != [] &&
    var rest, ev := evs[..|evs| - 1], evs[|evs| - 1];
    Torn(replFac, rest) ||
    (ev.ServeEvent? && ev.write == Half && RunAll(replFac, rest).up &&
     Answer(replFac, RunAll(replFac, rest), ev.call).entry.Some?)
  }

  /** Over every history, with any writes lost or torn, it can be read exactly when no entry was written in part. */
  lemma {:induction false} ReadableIff(replFac: int, evs: seq<Event>)
    ensures NoStray(RunAll(replFac, evs).file) && (ReadAll(RunAll(replFac, evs).file).Some? <==> !Torn(replFac, evs))
  {
    if evs != [] {
      var rest, ev := evs[..|evs| - 1], evs[|evs| - 1];
      ReadableIff(replFac, rest);
      var s := RunAll(replFac, rest);
      if ev.ServeEvent? && s.up {
        var more := Recorded(Answer(replFac, s, ev.call).entry, ev.write);
        if more != [] { ReadAllSnoc(s.file, more[0]); } else { assert s.file + more == s.file; }
      }
    }
  }

  /** So one torn entry keeps the namenode from ever starting again, whatever was logged before and after it. */
  lemma TornLogNeverStarts(replFac: int, evs: seq<Event>, envs: seq<Env>)
    requires Torn(replFac, evs)
    ensures var t := Next(replFac, RunAll(replFac, evs), RestartEvent(envs)); !t.up && t.store == map[]
  {
    ReadableIff(replFac, evs);
  }
}
