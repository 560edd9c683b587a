/** The offline write buffer (internal/offline/buffer.go): a file of newline-terminated JSON operations, replayed with
    partial failure. JSON is a parameter; lines and paths are character sequences. */
module OfflineBuffer {
  import opened Basics

  predicate IsKnownName(s: string) {
    s == "create_file" || s == "write_chunk" || s == "delete_file" || s == "mkdir" || s == "rmdir"
  }

  type UnknownName = s: string | !IsKnownName(s) witness "corrupt"

  /** The type strings applyOne knows, and any other string. */
  datatype Kind = CreateFile | WriteChunk | DeleteFile | Mkdir | Rmdir | Other(name: UnknownName)

  datatype Op = Op(kind: Kind, path: string, data: string, mode: int, timestamp: int)

  /** encode writes an operation as JSON text, decode parses a line. */
  datatype Json = Json(encode: Op -> string, decode: string -> Option<Op>)

  ghost predicate Sound(j: Json) {
    forall op :: j.decode(j.encode(op)) == Some(op) && '\n' !in j.encode(op) && j.encode(op) != ""
  }

  // ---- Lines ----

  function Join(lines: seq<string>): (raw: string) {
    if lines == [] then "" else lines[0] + "\n" + Join(lines[1..])
  }

  /** The lines of raw, when cur has been read of the first one. */
  function Lines(cur: string, raw: string): (lines: seq<string>)
    decreases |raw|
  {
    if raw == "" then (if cur == "" then [] else [cur])
    else if raw[0] == '\n' then [cur] + Lines("", raw[1..])
    else Lines(cur + [raw[0]], raw[1..])
  }

  function Split(raw: string): (lines: seq<string>) { Lines("", raw) }

  lemma {:induction false} LinesOfLine(cur: string, line: string, rest: string)
    requires '\n' !in line
    ensures Lines(cur, line + "\n" + rest) == [cur + line] + Lines("", rest)
    ensures Lines(cur, line) == if cur + line == "" then [] else [cur + line]
    decreases |line|
  {
    if line == "" {
      assert line + "\n" + rest == "\n" + rest && ("\n" + rest)[1..] == rest;
      assert cur + line == cur;
    } else {
      var raw := line + "\n" + rest;
      assert raw[1..] == line[1..] + "\n" + rest;
      assert cur + [line[0]] + line[1..] == cur + line;
      LinesOfLine(cur + [line[0]], line[1..], rest);
    }
  }

  /** Splitting undoes joining: complete lines come back as they were, followed by an incomplete last line if any. */
  lemma {:induction false} SplitInvertsJoin(lines: seq<string>, tail: string)
    requires (forall i :: 0 <= i < |lines| ==> '\n' !in lines[i]) && '\n' !in tail
    ensures Split(Join(lines) + tail) == lines + if tail == "" then [] else [tail]
  {
    if lines == [] {
      assert Join(lines) + tail == tail;
      LinesOfLine("", tail, "");
    } else {
      SplitInvertsJoin(lines[1..], tail);
      assert Join(lines) + tail == lines[0] + "\n" + (Join(lines[1..]) + tail);
      LinesOfLine("", lines[0], Join(lines[1..]) + tail);
      assert "" + lines[0] == lines[0] && [lines[0]] + lines[1..] == lines;
    }
  }

  lemma SplitComplete(lines: seq<string>)
    requires forall i :: 0 <= i < |lines| ==> '\n' !in lines[i]
    ensures Split(Join(lines)) == lines
  {
    SplitInvertsJoin(lines, "");
    assert Join(lines) + "" == Join(lines) && lines + [] == lines;
  }

  lemma {:induction false} JoinAppend(a: seq<string>, b: seq<string>)
    ensures Join(a + b) == Join(a) + Join(b)
  {
    if a == [] {
      assert a + b == b;
    } else {
      assert (a + b)[1..] == a[1..] + b;
      JoinAppend(a[1..], b);
    }
  }

  /** Every file is complete lines followed by an incomplete one. */
  lemma {:induction false} Decompose(raw: string) returns (lines: seq<string>, tail: string)
    ensures (forall i :: 0 <= i < |lines| ==> '\n' !in lines[i]) && '\n' !in tail && raw == Join(lines) + tail
  {
    if raw == "" {
      lines, tail := [], "";
    } else {
      var ls, t := Decompose(raw[1..]);
      if raw[0] == '\n' {
        lines, tail := [""] + ls, t;
        assert lines[1..] == ls;
      } else if ls == [] {
        lines, tail := [], [raw[0]] + t;
      } else {
        lines, tail := [[raw[0]] + ls[0]] + ls[1..], t;
        assert lines[1..] == ls[1..];
      }
      assert raw == [raw[0]] + raw[1..];
    }
  }

  // ---- What a file holds ----

  function Parse(j: Json, line: string): (op: Op) {
    var r := j.decode(line);
    if r.Some? then r.value else Op(Other("corrupt"), line, "", 0, 0)
  }

  /** One operation per non-empty line, an unreadable line wrapped as a "corrupt" operation. */
  function ParseAll(j: Json, lines: seq<string>): (ops: seq<Op>) {
    if lines == [] then []
    else
      var rest, line := ParseAll(j, lines[..|lines| - 1]), lines[|lines| - 1];
      if line == "" then rest else rest + [Parse(j, line)]
  }

  function Pending(j: Json, raw: string): (ops: seq<Op>) { ParseAll(j, Split(raw)) }

  function EncodeAll(j: Json, ops: seq<Op>): (lines: seq<string>)
    ensures |lines| == |ops|
  {
    seq(|ops|, i requires 0 <= i < |ops| => j.encode(ops[i]))
  }

  function Written(j: Json, ops: seq<Op>): (raw: string) { Join(EncodeAll(j, ops)) }

  lemma {:induction false} ParseEncoded(j: Json, ops: seq<Op>)
    requires Sound(j)
    ensures ParseAll(j, EncodeAll(j, ops)) == ops
  {
    if ops != [] {
      var n := |ops| - 1;
      ParseEncoded(j, ops[..n]);
      assert EncodeAll(j, ops)[..n] == EncodeAll(j, ops[..n]);
      assert ops == ops[..n] + [ops[n]];
    }
  }

  /** What was written is what is read back. */
  lemma WrittenIsPending(j: Json, ops: seq<Op>)
    requires Sound(j)
    ensures Pending(j, Written(j, ops)) == ops
  {
    SplitComplete(EncodeAll(j, ops));
    ParseEncoded(j, ops);
  }

  lemma {:induction false} ParseSnoc(j: Json, lines: seq<string>, line: string)
    ensures ParseAll(j, lines + [line]) == ParseAll(j, lines) + if line == "" then [] else [Parse(j, line)]
  {
    assert (lines + [line])[..|lines|] == lines;
  }

  predicate Terminated(raw: string) { raw == "" || raw[|raw| - 1] == '\n' }

  lemma JoinSnoc(lines: seq<string>, line: string)
    ensures Join(lines + [line]) == Join(lines) + line + "\n"
  {
    JoinAppend(lines, [line]);
    assert [line][1..] == [] && Join([line]) == line + "\n";
  }

  /** To a complete file the operation is added. */
  lemma {:induction false} Queued(j: Json, lines: seq<string>, op: Op)
    requires Sound(j) && forall i :: 0 <= i < |lines| ==> '\n' !in lines[i]
    ensures Pending(j, Join(lines) + j.encode(op) + "\n") == Pending(j, Join(lines)) + [op]
  {
    var line := j.encode(op);
    JoinSnoc(lines, line);
    SplitComplete(lines + [line]);
    SplitComplete(lines);
    ParseSnoc(j, lines, line);
    assert Parse(j, line) == op;
  }

  /** An incomplete last line and the operation make one line together. */
  lemma {:induction false} Merged(j: Json, lines: seq<string>, tail: string, op: Op)
    requires Sound(j) && (forall i :: 0 <= i < |lines| ==> '\n' !in lines[i]) && '\n' !in tail && tail != ""
    ensures |Pending(j, Join(lines) + tail + j.encode(op) + "\n")| == |Pending(j, Join(lines) + tail)|
  {
    var line := tail + j.encode(op);
    JoinSnoc(lines, line);
    assert Join(lines) + tail + j.encode(op) + "\n" == Join(lines + [line]);
    SplitComplete(lines + [line]);
    ParseSnoc(j, lines, line);
    SplitInvertsJoin(lines, tail);
    ParseSnoc(j, lines, tail);
  }

  /** What queueing makes of a file. */
  lemma {:induction false} Swallowed(j: Json, raw: string, op: Op)
    requires Sound(j)
    ensures Terminated(raw + j.encode(op) + "\n")
    ensures !Terminated(raw) ==> |Pending(j, raw + j.encode(op) + "\n")| == |Pending(j, raw)|
    ensures Terminated(raw) ==> Pending(j, raw + j.encode(op) + "\n") == Pending(j, raw) + [op]
  {
    var lines, tail := Decompose(raw);
    if tail == "" {
      assert raw == Join(lines);
      JoinTerminated(lines);
      Queued(j, lines, op);
    } else {
      assert raw[|raw| - 1] == tail[|tail| - 1];
      Merged(j, lines, tail, op);
    }
  }

  /** Queueing an operation adds it to what the file holds exactly when the file ends in a newline (or is empty): an
      incomplete last line swallows it. */
  lemma WriteAddsIff(j: Json, raw: string, op: Op)
    requires Sound(j)
    ensures Pending(j, raw + j.encode(op) + "\n") == Pending(j, raw) + [op] <==> Terminated(raw)
  {
    Swallowed(j, raw, op);
  }

  lemma {:induction false} JoinTerminated(lines: seq<string>)
    ensures Terminated(Join(lines))
  {
    if lines != [] { JoinTerminated(lines[1..]); }
  }

  // ---- Replay ----

  /** The kinds applyOne dispatches; any other is an error. */
  predicate Known(kind: Kind) { !kind.Other? }

  /** fate(i) says whether the replayer would accept the i-th operation. */
  predicate Succeeds(op: Op, i: nat, fate: nat -> bool) { Known(op.kind) && fate(i) }

  function Failed(ops: seq<Op>, fate: nat -> bool): (r: seq<Op>) {
    if ops == [] then []
    else
      var n := |ops| - 1;
      Failed(ops[..n], fate) + if Succeeds(ops[n], n, fate) then [] else [ops[n]]
  }

  function Applied(ops: seq<Op>, fate: nat -> bool): (r: seq<Op>) {
    if ops == [] then []
    else
      var n := |ops| - 1;
      Applied(ops[..n], fate) + if Succeeds(ops[n], n, fate) then [ops[n]] else []
  }

  lemma {:induction false} ReplaySnoc(ops: seq<Op>, op: Op, fate: nat -> bool)
    ensures Failed(ops + [op], fate) == Failed(ops, fate) + if Succeeds(op, |ops|, fate) then [] else [op]
    ensures Applied(ops + [op], fate) == Applied(ops, fate) + if Succeeds(op, |ops|, fate) then [op] else []
  {
    assert (ops + [op])[..|ops|] == ops;
  }

  lemma OneOrOther(f: seq<Op>, a: seq<Op>, ops: seq<Op>, op: Op)
    requires multiset(f) + multiset(a) == multiset(ops)
    ensures multiset(f + [op]) + multiset(a) == multiset(ops + [op]) == multiset(f) + multiset(a + [op])
  {
  }

  lemma {:induction false} FailedOrApplied(ops: seq<Op>, fate: nat -> bool)
    ensures multiset(Failed(ops, fate)) + multiset(Applied(ops, fate)) == multiset(ops)
  {
    if ops != [] {
      var n := |ops| - 1;
      FailedOrApplied(ops[..n], fate);
      assert ops == ops[..n] + [ops[n]];
      var f, a := Failed(ops[..n], fate), Applied(ops[..n], fate);
      OneOrOther(f, a, ops[..n], ops[n]);
      if Succeeds(ops[n], n, fate) {
        assert Failed(ops, fate) == f && Applied(ops, fate) == a + [ops[n]];
      } else {
        assert Failed(ops, fate) == f + [ops[n]] && Applied(ops, fate) == a;
      }
    }
  }

  lemma {:induction false} AppliedKnown(ops: seq<Op>, fate: nat -> bool)
    ensures forall op :: op in Applied(ops, fate) ==> Known(op.kind)
  {
    if ops != [] { AppliedKnown(ops[..|ops| - 1], fate); }
  }

  // ---- Runs ----

  /** applied collects what the replayer accepted, queued what Write accepted. */
  datatype State = State(file: string, open: bool, applied: seq<Op>, queued: seq<Op>)

  datatype Event = WriteEvent(op: Op) | ReplayEvent(fate: nat -> bool) | NewBufferEvent

  function Next(j: Json, s: State, ev: Event): (t: State) {
    match ev
    case WriteEvent(op) =>
      if s.open then s.(file := s.file + j.encode(op) + "\n", queued := s.queued + [op]) else s
    case ReplayEvent(fate) =>
      var ops := Pending(j, s.file);
      if s.file == "" then s
      else
        var keep := Failed(ops, fate);
        State(Written(j, keep), keep != [], s.applied + Applied(ops, fate), s.queued)
    case NewBufferEvent => s.(open := true)
  }

  function Run(j: Json, s: State, evs: seq<Event>): (t: State) {
    if evs == [] then s else Next(j, Run(j, s, evs[..|evs| - 1]), evs[|evs| - 1])
  }

  /** What the file holds together with what was applied is what it held at first together with what was queued. */
  ghost predicate Balanced(j: Json, start: seq<Op>, s: State) {
    multiset(Pending(j, s.file)) + multiset(s.applied) == multiset(start) + multiset(s.queued)
  }

  ghost predicate Accounted(j: Json, start: seq<Op>, s: State) {
    Terminated(s.file) && Balanced(j, start, s) && forall op :: op in s.applied ==> Known(op.kind)
  }

  /** One operation is missing. */
  ghost predicate OneShort(j: Json, start: seq<Op>, s: State) {
    Terminated(s.file) && |Pending(j, s.file)| + |s.applied| + 1 == |start| + |s.queued|
  }

  lemma BothGain(p: multiset<Op>, a: multiset<Op>, start: multiset<Op>, q: multiset<Op>, op: Op)
    requires p + a == start + q
    ensures (p + multiset{op}) + a == start + (q + multiset{op})
  {
    assert (p + multiset{op}) + a == (p + a) + multiset{op};
  }

  lemma AccountedStep(j: Json, start: seq<Op>, s: State, ev: Event)
    requires Sound(j) && Accounted(j, start, s)
    ensures Accounted(j, start, Next(j, s, ev))
  {
    match ev
    case WriteEvent(op) =>
      Swallowed(j, s.file, op);
      BothGain(multiset(Pending(j, s.file)), multiset(s.applied), multiset(start), multiset(s.queued), op);
      assert multiset(Pending(j, s.file) + [op]) == multiset(Pending(j, s.file)) + multiset{op};
      assert multiset(s.queued + [op]) == multiset(s.queued) + multiset{op};
    case ReplayEvent(fate) => ReplayAccounts(j, start, s, fate);
    case NewBufferEvent =>
  }

  /** A replay keeps the account of any file and leaves a complete one. */
  lemma ReplayAccounts(j: Json, start: seq<Op>, s: State, fate: nat -> bool)
    requires Sound(j) && Balanced(j, start, s) && forall op :: op in s.applied ==> Known(op.kind)
    ensures Accounted(j, start, Next(j, s, ReplayEvent(fate)))
  {
    if s.file != "" {
      var ops := Pending(j, s.file);
      FailedOrApplied(ops, fate);
      AppliedKnown(ops, fate);
      WrittenIsPending(j, Failed(ops, fate));
      JoinTerminated(EncodeAll(j, Failed(ops, fate)));
    }
  }

  lemma OneShortStep(j: Json, start: seq<Op>, s: State, ev: Event)
    requires Sound(j) && OneShort(j, start, s)
    ensures OneShort(j, start, Next(j, s, ev))
  {
    match ev
    case WriteEvent(op) => Swallowed(j, s.file, op);
    case ReplayEvent(fate) =>
      if s.file != "" {
        var ops := Pending(j, s.file);
        FailedOrApplied(ops, fate);
        assert |multiset(Failed(ops, fate)) + multiset(Applied(ops, fate))| == |multiset(ops)|;
        WrittenIsPending(j, Failed(ops, fate));
        JoinTerminated(EncodeAll(j, Failed(ops, fate)));
      }
    case NewBufferEvent =>
  }

  predicate Replays(evs: seq<Event>) { exists i :: 0 <= i < |evs| && evs[i].ReplayEvent? }

  /** An operation is queued before the first replay. */
  predicate QueuesFirst(evs: seq<Event>) {
    evs != [] &&
    var rest := evs[..|evs| - 1];
    QueuesFirst(rest) || (evs[|evs| - 1].WriteEvent? && !Replays(rest))
  }

  lemma {:induction false} CompleteRun(j: Json, file: string, evs: seq<Event>)
    requires Sound(j) && Terminated(file)
    ensures Accounted(j, Pending(j, file), Run(j, State(file, true, [], []), evs))
  {
    if evs != [] {
      CompleteRun(j, file, evs[..|evs| - 1]);
      AccountedStep(j, Pending(j, file), Run(j, State(file, true, [], []), evs[..|evs| - 1]), evs[|evs| - 1]);
    }
  }

  /** From a file with an incomplete last line: untouched until the first write, which leaves the account one short
      for ever, or the first replay, which settles it. */
  lemma {:induction false} TornRun(j: Json, file: string, evs: seq<Event>)
    requires Sound(j) && !Terminated(file)
    ensures var start, s := Pending(j, file), Run(j, State(file, true, [], []), evs);
      if QueuesFirst(evs) then OneShort(j, start, s)
      else if Replays(evs) then Accounted(j, start, s)
      else s == State(file, true, [], [])
  {
    if evs != [] {
      var rest, ev := evs[..|evs| - 1], evs[|evs| - 1];
      var start, s := Pending(j, file), Run(j, State(file, true, [], []), rest);
      TornRun(j, file, rest);
      assert Replays(evs) <==> Replays(rest) || ev.ReplayEvent? by { ReplaysSnoc(evs); }
      if QueuesFirst(rest) {
        OneShortStep(j, start, s, ev);
      } else if Replays(rest) {
        AccountedStep(j, start, s, ev);
      } else {
        FirstTouch(j, file, ev);
      }
    }
  }

  lemma ReplaysSnoc(evs: seq<Event>)
    requires evs != []
    ensures Replays(evs) <==> Replays(evs[..|evs| - 1]) || evs[|evs| - 1].ReplayEvent?
  {
    if i :| 0 <= i < |evs| && evs[i].ReplayEvent? {
      if i < |evs| - 1 { assert evs[..|evs| - 1][i].ReplayEvent?; }
    }
  }

  lemma FirstTouch(j: Json, file: string, ev: Event)
    requires Sound(j) && !Terminated(file)
    ensures var start, t := Pending(j, file), Next(j, State(file, true, [], []), ev);
      && (ev.WriteEvent? ==> OneShort(j, start, t))
      && (ev.ReplayEvent? ==> Accounted(j, start, t))
      && (ev.NewBufferEvent? ==> t == State(file, true, [], []))
  {
    match ev
    case WriteEvent(op) => Swallowed(j, file, op);
    case ReplayEvent(fate) => ReplayAccounts(j, Pending(j, file), State(file, true, [], []), fate);
    case NewBufferEvent =>
  }

  /** The file ends in a newline, or is replayed before anything is queued. */
  predicate Kept(file: string, evs: seq<Event>) { Terminated(file) || !QueuesFirst(evs) }

  /** Over every run of writes, replays with any outcomes and reopenings, from any file, also one that a crash has
      left with an incomplete last line: what the file holds together with what was applied is what it held at first
      together with what was queued, exactly when the file was complete or was replayed before anything was queued.
      Then an operation of unknown kind, such as a wrapped corrupt line, is never lost. */
  lemma NothingLostIff(j: Json, file: string, evs: seq<Event>)
    requires Sound(j)
    ensures var s := Run(j, State(file, true, [], []), evs);
      && (Balanced(j, Pending(j, file), s) <==> Kept(file, evs))
      && (Kept(file, evs) ==> forall op: Op :: !Known(op.kind) ==>
            multiset(Pending(j, s.file))[op] == multiset(Pending(j, file))[op] + multiset(s.queued)[op])
  {
    var start, s := Pending(j, file), Run(j, State(file, true, [], []), evs);
    if Terminated(file) { CompleteRun(j, file, evs); } else { TornRun(j, file, evs); }
    if Kept(file, evs) {
      forall op: Op | !Known(op.kind)
        ensures multiset(Pending(j, s.file))[op] == multiset(start)[op] + multiset(s.queued)[op]
      {
        UnknownSurvives(j, start, s, op);
      }
    } else if Balanced(j, start, s) {
      BalancedSizes(j, start, s);
    }
  }

  lemma BalancedSizes(j: Json, start: seq<Op>, s: State)
    requires Balanced(j, start, s)
    ensures |Pending(j, s.file)| + |s.applied| == |start| + |s.queued|
  {
    assert |multiset(Pending(j, s.file)) + multiset(s.applied)| == |multiset(start) + multiset(s.queued)|;
  }

  /** In particular, from a complete file. */
  lemma NothingLost(j: Json, file: string, evs: seq<Event>)
    requires Sound(j) && Terminated(file)
    ensures var s := Run(j, State(file, true, [], []), evs);
      && Accounted(j, Pending(j, file), s)
      && forall op: Op :: !Known(op.kind) ==>
           multiset(Pending(j, s.file))[op] == multiset(Pending(j, file))[op] + multiset(s.queued)[op]
  {
    CompleteRun(j, file, evs);
    NothingLostIff(j, file, evs);
  }

  lemma UnknownSurvives(j: Json, start: seq<Op>, s: State, op: Op)
    requires Balanced(j, start, s) && !Known(op.kind) && forall o :: o in s.applied ==> Known(o.kind)
    ensures multiset(Pending(j, s.file))[op] == multiset(start)[op] + multiset(s.queued)[op]
  {
    assert op !in s.applied && multiset(s.applied)[op] == 0;
    assert (multiset(Pending(j, s.file)) + multiset(s.applied))[op] == (multiset(start) + multiset(s.queued))[op];
  }

  /** An open buffer takes the operation at the end of the file; a closed one refuses it. Opening a buffer makes it
      writable and leaves the file alone, as does replaying an empty one. */
  lemma BufferAnswer(j: Json, s: State, op: Op, fate: nat -> bool)
    requires Sound(j)
    ensures var t := Next(j, s, WriteEvent(op));
      if s.open then t == State(s.file + j.encode(op) + "\n", true, s.applied, s.queued + [op]) else t == s
    ensures Next(j, s, NewBufferEvent) == State(s.file, true, s.applied, s.queued)
    ensures s.file == "" ==> Next(j, s, ReplayEvent(fate)) == s
  {
  }

  // ---- Which operations stay ----

  /** part is the elements of whole at the indices idx, in that order. */
  ghost predicate Picks<T>(part: seq<T>, whole: seq<T>, idx: seq<nat>) {
    |part| == |idx| && Increasing(idx, |whole|) && forall i :: 0 <= i < |idx| ==> part[i] == whole[idx[i]]
  }

  lemma PicksSnoc<T>(part: seq<T>, whole: seq<T>, idx: seq<nat>, x: T)
    requires Picks(part, whole, idx)
    ensures Picks(part, whole + [x], idx) && Picks(part + [x], whole + [x], idx + [|whole|])
  {
  }

  /** The operation is of a kind that replay does not know, or the replayer rejects it. */
  ghost predicate Rejected(ops: seq<Op>, fate: nat -> bool, i: nat) {
    i < |ops| && (ops[i].kind.Other? || !fate(i))
  }

  lemma {:induction false} KeptAndGone(ops: seq<Op>, fate: nat -> bool) returns (kept: seq<nat>, gone: seq<nat>)
    ensures Picks(Failed(ops, fate), ops, kept) && Picks(Applied(ops, fate), ops, gone)
    ensures forall i :: 0 <= i < |ops| ==>
              (i in kept <==> Rejected(ops, fate, i)) && (i in gone <==> !Rejected(ops, fate, i))
  {
    if ops == [] {
      kept, gone := [], [];
    } else {
      var n := |ops| - 1;
      var rest, x := ops[..n], ops[n];
      kept, gone := KeptAndGone(rest, fate);
      assert ops == rest + [x];
      PicksSnoc(Failed(rest, fate), rest, kept, x);
      PicksSnoc(Applied(rest, fate), rest, gone, x);
      forall i | 0 <= i < n ensures Rejected(ops, fate, i) <==> Rejected(rest, fate, i) {}
      if Rejected(ops, fate, n) { kept := kept + [n]; } else { gone := gone + [n]; }
    }
  }

  /** A replay of a file with something in it: the file then holds exactly the operations that were rejected, and
      those that were accepted are applied, both in the order of the file. */
  lemma ReplayKeepsTheRejected(j: Json, s: State, fate: nat -> bool) returns (kept: seq<nat>, gone: seq<nat>)
    requires Sound(j) && s.file != ""
    ensures var ops, t := Pending(j, s.file), Next(j, s, ReplayEvent(fate));
      && Picks(Pending(j, t.file), ops, kept)
      && (forall i :: 0 <= i < |ops| ==> (i in kept <==> ops[i].kind.Other? || !fate(i)))
      && s.applied <= t.applied && Picks(t.applied[|s.applied|..], ops, gone)
      && (forall i :: 0 <= i < |ops| ==> (i in gone <==> !(ops[i].kind.Other? || !fate(i))))
      && t.queued == s.queued
  {
    var ops := Pending(j, s.file);
    kept, gone := KeptAndGone(ops, fate);
    WrittenIsPending(j, Failed(ops, fate));
    forall i | 0 <= i < |ops| ensures Rejected(ops, fate, i) <==> ops[i].kind.Other? || !fate(i) {}
    assert (s.applied + Applied(ops, fate))[|s.applied|..] == Applied(ops, fate);
  }

  /** op is what the line says, or the line itself wrapped as an operation of unknown kind. */
  ghost predicate Reads(j: Json, line: string, op: Op) {
    if j.decode(line).Some? then op == j.decode(line).value else op.kind.Other? && op.path == line
  }

  /** One operation for each line that is not empty, in order; idx says which. */
  ghost predicate Holds(j: Json, ops: seq<Op>, lines: seq<string>, idx: seq<nat>) {
    && Increasing(idx, |lines|) && |ops| == |idx|
    && (forall i :: 0 <= i < |lines| ==> (i in idx <==> lines[i] != ""))
    && forall k :: 0 <= k < |idx| ==> Reads(j, lines[idx[k]], ops[k])
  }

  lemma {:induction false} HeldSnoc(j: Json, ops: seq<Op>, lines: seq<string>, idx: seq<nat>, line: string, op: Op)
    requires Holds(j, ops, lines, idx) && line != "" && Reads(j, line, op)
    ensures Holds(j, ops + [op], lines + [line], idx + [|lines|])
  {
    var n, all, jdx, more := |lines|, lines + [line], idx + [|lines|], ops + [op];
    IncreasingSnoc(idx, n);
    forall i | 0 <= i < |all| ensures i in jdx <==> all[i] != "" {
      if i < n { assert all[i] == lines[i]; } else { assert all[i] == line; }
    }
    forall k | 0 <= k < |jdx| ensures Reads(j, all[jdx[k]], more[k]) {
      if k < |idx| {
        assert jdx[k] == idx[k] < n && more[k] == ops[k];
        assert all[idx[k]] == lines[idx[k]];
      } else {
        assert jdx[k] == n && more[k] == op && all[n] == line;
      }
    }
  }

  lemma {:induction false} HeldBlank(j: Json, ops: seq<Op>, lines: seq<string>, idx: seq<nat>)
    requires Holds(j, ops, lines, idx)
    ensures Holds(j, ops, lines + [""], idx)
  {
    var n, all := |lines|, lines + [""];
    IncreasingSnoc(idx, n);
    forall i | 0 <= i < |all| ensures i in idx <==> all[i] != "" {
      if i < n { assert all[i] == lines[i]; } else { assert all[i] == ""; }
    }
    forall k | 0 <= k < |idx| ensures Reads(j, all[idx[k]], ops[k]) {
      assert idx[k] < n;
      assert all[idx[k]] == lines[idx[k]];
    }
  }

  /** A file holds one operation for each line that is not empty, in order, unreadable ones included. */
  lemma {:induction false} LinesHeld(j: Json, lines: seq<string>) returns (idx: seq<nat>)
    ensures Holds(j, ParseAll(j, lines), lines, idx)
  {
    if lines == [] {
      idx := [];
    } else {
      var n := |lines| - 1;
      var rest, line := lines[..n], lines[n];
      idx := LinesHeld(j, rest);
      var ops := ParseAll(j, rest);
      assert lines == rest + [line];
      ParseSnoc(j, rest, line);
      if line == "" {
        assert ops + [] == ops;
        HeldBlank(j, ops, rest, idx);
      } else {
        HeldSnoc(j, ops, rest, idx, line, Parse(j, line));
        idx := idx + [n];
      }
    }
  }

  lemma {:induction false} FileHeld(j: Json, lines: seq<string>, tail: string) returns (idx: seq<nat>)
    requires (forall i :: 0 <= i < |lines| ==> '\n' !in lines[i]) && '\n' !in tail
    ensures Holds(j, Pending(j, Join(lines) + tail), lines + [tail], idx)
  {
    SplitInvertsJoin(lines, tail);
    if tail == "" {
      assert lines + [] == lines;
      idx := LinesHeld(j, lines);
      HeldBlank(j, ParseAll(j, lines), lines, idx);
    } else {
      idx := LinesHeld(j, lines + [tail]);
    }
  }

  /** After a replay the handle can be written to exactly when something was kept, or nothing was there and it could be
      written to before. */
  lemma WritableAfterReplayIff(j: Json, s: State, fate: nat -> bool)
    ensures Next(j, s, ReplayEvent(fate)).open <==>
            if s.file == "" then s.open
            else exists i :: 0 <= i < |Pending(j, s.file)| && !Succeeds(Pending(j, s.file)[i], i, fate)
  {
    FailedEmptyIff(Pending(j, s.file), fate);
  }

  lemma {:induction false} FailedEmptyIff(ops: seq<Op>, fate: nat -> bool)
    ensures Failed(ops, fate) == [] <==> forall i :: 0 <= i < |ops| ==> Succeeds(ops[i], i, fate)
  {
    if ops != [] {
      var n := |ops| - 1;
      FailedEmptyIff(ops[..n], fate);
      if Failed(ops, fate) == [] {
        assert Failed(ops[..n], fate) == [] && Succeeds(ops[n], n, fate);
        forall i | 0 <= i < |ops| ensures Succeeds(ops[i], i, fate) {
          if i < n { assert Succeeds(ops[..n][i], i, fate); }
        }
      }
      if forall i :: 0 <= i < |ops| ==> Succeeds(ops[i], i, fate) {
        forall i | 0 <= i < n ensures Succeeds(ops[..n][i], i, fate) {
          assert Succeeds(ops[i], i, fate);
        }
        assert Succeeds(ops[n], n, fate);
      }
    }
  }

  // ---- The program ----

  lemma LinesOnce(lines: seq<string>, cur: string, raw: string)
    requires raw != ""
    ensures lines + Lines(cur, raw) ==
            if raw[0] == '\n' then (lines + [cur]) + Lines("", raw[1..]) else lines + Lines(cur + [raw[0]], raw[1..])
  {
    if raw[0] == '\n' { assert lines + ([cur] + Lines("", raw[1..])) == (lines + [cur]) + Lines("", raw[1..]); }
  }

  method SplitLines(raw: string) returns (lines: seq<string>)
    ensures lines == Split(raw)
  {
    lines := [];
    var start := 0;
    for i := 0 to |raw|
      invariant start <= i && Split(raw) == lines + Lines(raw[start..i], raw[i..])
    {
      assert raw[i..][0] == raw[i] && raw[i..][1..] == raw[i + 1..];
      assert raw[start..i] + [raw[i]] == raw[start..i + 1];
      LinesOnce(lines, raw[start..i], raw[i..]);
      if raw[i] == '\n' {
        assert raw[i + 1..i + 1] == "";
        lines := lines + [raw[start..i]];
        start := i + 1;
      }
    }
    assert raw[|raw|..] == "" && raw[start..|raw|] == raw[start..];
    if start < |raw| {
      lines := lines + [raw[start..]];
    }
  }

  /** Parse one line and try it: ok when the replayer is called and accepts. */
  method ApplyLine(json: Json, line: string, accepts: bool) returns (op: Op, ok: bool)
    ensures op == Parse(json, line) && ok == (Known(op.kind) && accepts)
  {
    var parsed := json.decode(line);
    if parsed.None? {
      return Op(Other("corrupt"), line, "", 0, 0), false;
    }
    op := parsed.value;
    ok := Known(op.kind) && accepts;
  }

  /** Replay's loop: what to keep and what was applied, each in file order. */
  method AttemptAll(json: Json, lines: seq<string>, fate: nat -> bool) returns (keep: seq<Op>, done: seq<Op>)
    ensures keep == Failed(ParseAll(json, lines), fate) && done == Applied(ParseAll(json, lines), fate)
  {
    keep, done := [], [];
    ghost var ops: seq<Op> := [];
    var attempted := 0;
    for i := 0 to |lines|
      invariant ops == ParseAll(json, lines[..i]) && attempted == |ops|
      invariant keep == Failed(ops, fate) && done == Applied(ops, fate)
    {
      var line := lines[i];
      assert lines[..i + 1] == lines[..i] + [line];
      ParseSnoc(json, lines[..i], line);
      if |line| == 0 {
        continue;
      }
      var op, ok := ApplyLine(json, line, fate(attempted));
      ReplaySnoc(ops, op, fate);
      if ok {
        done := done + [op];
      } else {
        keep := keep + [op];
      }
      ops := ops + [op];
      attempted := attempted + 1;
    }
    assert lines[..|lines|] == lines;
  }

  class Buffer {
    var file: string
    var open: bool
    ghost var applied: seq<Op>
    ghost var queued: seq<Op>
    const json: Json

    ghost function Now(): (s: State)
      reads this
    {
      State(file, open, applied, queued)
    }

    constructor (json: Json, contents: string)
      ensures this.json == json && Now() == State(contents, true, [], [])
    {
      this.json, file, open, applied, queued := json, contents, true, [], [];
    }

    method Write(op: Op) returns (ok: bool)
      modifies this
      ensures Now() == Next(json, old(Now()), WriteEvent(op)) && ok == old(open)
    {
      if !open {
        return false;
      }
      file := file + json.encode(op) + "\n";
      queued := queued + [op];
      ok := true;
    }

    /** Every operation in the file is attempted once, in order; the failed ones are written back. */
    method Replay(fate: nat -> bool)
      modifies this
      ensures Now() == Next(json, old(Now()), ReplayEvent(fate))
    {
      if |file| == 0 {
        return;
      }
      var lines := SplitLines(file);
      var keep, done := AttemptAll(json, lines, fate);
      applied := applied + done;
      Rewrite(keep);
    }

    method Rewrite(keep: seq<Op>)
      modifies this`file, this`open
      ensures file == Written(json, keep) && open == (keep != [])
    {
      open := false;
      file := "";
      if |keep| == 0 {
        return;
      }
      open := true;
      for i := 0 to |keep|
        invariant file == Written(json, keep[..i]) && open
      {
        file := file + json.encode(keep[i]) + "\n";
        WrittenSnoc(json, keep[..i], keep[i]);
        assert keep[..i + 1] == keep[..i] + [keep[i]];
      }
      assert keep[..|keep|] == keep;
    }
  }

  lemma WrittenSnoc(j: Json, ops: seq<Op>, op: Op)
    ensures Written(j, ops + [op]) == Written(j, ops) + j.encode(op) + "\n"
  {
    var line := j.encode(op);
    assert EncodeAll(j, ops + [op]) == EncodeAll(j, ops) + [line];
    JoinAppend(EncodeAll(j, ops), [line]);
    assert [line][1..] == [] && Join([line]) == line + "\n";
  }
}
