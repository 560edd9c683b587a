/** Heartbeats, registrations and non-atomic sweeps interleaved on one clock: a sweep reads the clock, later copies the
    available nodes, and later still marks them one by one. */
module Liveness {
  import opened Basics
  import opened Registry

  /** Where the monitor is in its sweep; at is the clock reading the sweep compares with. */
  datatype Phase = Idle | Started(at: int) | Marking(at: int, todo: seq<Node>)

  datatype State = State(now: int, nodes: Nodes, phase: Phase)

  datatype Event =
    | Tick(elapsed: nat)
    | Registers(node: Node)
    | Beats(id: string, free: int, connections: int)
    | Begin
    | Copy(order: seq<string>)
    | Examine
    | End

  ghost predicate CanHappen(s: State, ev: Event) {
    match ev
    case Begin => s.phase.Idle?
    case Copy(order) => s.phase.Started? && Lists(order, s.nodes.Keys)
    case Examine => s.phase.Marking? && s.phase.todo != []
    case End => s.phase.Marking? && s.phase.todo == []
    case _ => true
  }

  function Next(s: State, ev: Event, timeout: int): (t: State) {
    match ev
    case Tick(d) => s.(now := s.now + d)
    case Registers(n) => s.(nodes := Register(s.nodes, n, s.now).0)
    case Beats(id, free, connections) => s.(nodes := Heartbeat(s.nodes, id, free, connections, s.now).0)
    case Begin => s.(phase := Started(s.now))
    case Copy(order) =>
      if s.phase.Started? then s.(phase := Marking(s.phase.at, Available(s.nodes, order))) else s
    case Examine =>
      if s.phase.Marking? && s.phase.todo != [] then
        var n := s.phase.todo[0];
        State(s.now,
              if s.phase.at - n.last >= timeout then MarkUnavailable(s.nodes, n.id).0 else s.nodes,
              Marking(s.phase.at, s.phase.todo[1..]))
      else s
    case End => s.(phase := Idle)
  }

  function Run(s: State, evs: seq<Event>, timeout: int): (t: State) {
    if evs == [] then s else Next(Run(s, evs[..|evs| - 1], timeout), evs[|evs| - 1], timeout)
  }

  ghost predicate Lawful(s: State, evs: seq<Event>, timeout: int) {
    evs == [] ||
    (Lawful(s, evs[..|evs| - 1], timeout) && CanHappen(Run(s, evs[..|evs| - 1], timeout), evs[|evs| - 1]))
  }

  const INITIAL := State(0, map[], Idle)

  // ---- No false alarm ----

  /** The node's last heartbeat is younger than the timeout. */
  ghost predicate Recent(s: State, id: string, timeout: int) {
    id in s.nodes ==> s.now - s.nodes[id].last < timeout
  }

  ghost predicate AlwaysRecent(s: State, evs: seq<Event>, id: string, timeout: int) {
    Recent(Run(s, evs, timeout), id, timeout) &&
    (evs == [] || AlwaysRecent(s, evs[..|evs| - 1], id, timeout))
  }

  /** The node is available, and no copy in the running sweep could condemn it. */
  ghost predicate Spared(s: State, id: string, timeout: int) {
    && WellKeyed(s.nodes)
    && (id in s.nodes ==> s.nodes[id].available)
    && (s.phase.Started? ==> s.phase.at <= s.now)
    && (s.phase.Marking? ==> forall k :: 0 <= k < |s.phase.todo| && s.phase.todo[k].id == id ==>
          s.phase.at - s.phase.todo[k].last < timeout)
  }

  lemma SparedStep(s: State, ev: Event, id: string, timeout: int)
    requires Spared(s, id, timeout) && CanHappen(s, ev) && Recent(s, id, timeout)
    ensures Spared(Next(s, ev, timeout), id, timeout)
  {
    if ev.Copy? { AvailableFacts(s.nodes, ev.order); }
  }

  /** A node whose heartbeat gaps stay below the timeout is available throughout every run. */
  lemma {:induction false} NeverMarked(evs: seq<Event>, id: string, timeout: int)
    requires Lawful(INITIAL, evs, timeout) && AlwaysRecent(INITIAL, evs, id, timeout)
    ensures Spared(Run(INITIAL, evs, timeout), id, timeout)
  {
    if evs != [] {
      var n := |evs| - 1;
      NeverMarked(evs[..n], id, timeout);
      SparedStep(Run(INITIAL, evs[..n], timeout), evs[n], id, timeout);
    }
  }

  /** Equivalently: a node found unavailable had, at some earlier moment, been silent for the timeout. */
  lemma {:induction false} UnavailableWasSilent(evs: seq<Event>, id: string, timeout: int) returns (i: nat)
    requires Lawful(INITIAL, evs, timeout)
    requires var s := Run(INITIAL, evs, timeout); id in s.nodes && !s.nodes[id].available
    ensures i <= |evs| && !Recent(Run(INITIAL, evs[..i], timeout), id, timeout)
  {
    if AlwaysRecent(INITIAL, evs, id, timeout) {
      NeverMarked(evs, id, timeout);
      assert false;
    }
    i := FirstLapse(evs, id, timeout);
  }

  lemma {:induction false} FirstLapse(evs: seq<Event>, id: string, timeout: int) returns (i: nat)
    requires !AlwaysRecent(INITIAL, evs, id, timeout)
    ensures i <= |evs| && !Recent(Run(INITIAL, evs[..i], timeout), id, timeout)
  {
    if !Recent(Run(INITIAL, evs, timeout), id, timeout) {
      i := |evs|;
      assert evs[..i] == evs;
    } else {
      i := FirstLapse(evs[..|evs| - 1], id, timeout);
      assert evs[..|evs| - 1][..i] == evs[..i];
    }
  }

  // ---- No missed failure ----

  /** The event is neither a heartbeat nor a registration of the node. */
  predicate Quiet(ev: Event, id: string) {
    !(ev.Beats? && ev.id == id) && !(ev.Registers? && ev.node.id == id)
  }

  /** The node is down, or the running sweep is bound to mark it. */
  ghost predicate Doomed(s: State, id: string, last: int, timeout: int) {
    && WellKeyed(s.nodes) && id in s.nodes && s.nodes[id].last == last
    && (s.nodes[id].available ==>
          (s.phase.Started? && s.phase.at - last >= timeout) ||
          (s.phase.Marking? && s.phase.at - last >= timeout &&
           exists k :: 0 <= k < |s.phase.todo| && s.phase.todo[k].id == id && s.phase.todo[k].last == last))
  }

  lemma DoomedStep(s: State, ev: Event, id: string, last: int, timeout: int)
    requires Doomed(s, id, last, timeout) && CanHappen(s, ev) && Quiet(ev, id)
    ensures Doomed(Next(s, ev, timeout), id, last, timeout)
    ensures ev.End? || !s.nodes[id].available ==> !Next(s, ev, timeout).nodes[id].available
  {
    var t := Next(s, ev, timeout);
    if ev.Copy? && s.nodes[id].available {
      AvailableFacts(s.nodes, ev.order);
      assert s.nodes[id] in Available(s.nodes, ev.order);
    } else if ev.Examine? && s.nodes[id].available && t.nodes[id].available {
      var k :| 0 <= k < |s.phase.todo| && s.phase.todo[k].id == id && s.phase.todo[k].last == last;
      assert k > 0;
      assert t.phase.todo[k - 1] == s.phase.todo[k];
    }
  }

  ghost predicate AllQuiet(evs: seq<Event>, id: string) {
    forall i :: 0 <= i < |evs| ==> Quiet(evs[i], id)
  }

  lemma {:induction false} DoomedRun(s: State, evs: seq<Event>, id: string, last: int, timeout: int)
    requires Doomed(s, id, last, timeout) && Lawful(s, evs, timeout) && AllQuiet(evs, id)
    ensures var t := Run(s, evs, timeout); Doomed(t, id, last, timeout) && (End in evs ==> !t.nodes[id].available)
  {
    if evs != [] {
      var n := |evs| - 1;
      DoomedRun(s, evs[..n], id, last, timeout);
      DoomedStep(Run(s, evs[..n], timeout), evs[n], id, last, timeout);
      assert evs == evs[..n] + [evs[n]];
    }
  }

  lemma {:induction false} RunWellKeyed(evs: seq<Event>, timeout: int)
    ensures WellKeyed(Run(INITIAL, evs, timeout).nodes)
  {
    if evs != [] { RunWellKeyed(evs[..|evs| - 1], timeout); }
  }

  /** In every reachable state: if a sweep begins at least the timeout after a node's last heartbeat and the node stays
      silent, then once that sweep has ended the node is unavailable, and it stays so while it is silent. */
  lemma SilentNodeIsMarked(before: seq<Event>, after: seq<Event>, id: string, timeout: int)
    requires var s := Run(INITIAL, before, timeout);
      Lawful(INITIAL, before, timeout) && CanHappen(s, Begin) && id in s.nodes && s.now - s.nodes[id].last >= timeout &&
      Lawful(Next(s, Begin, timeout), after, timeout)
    requires AllQuiet(after, id) && End in after
    ensures var t := Run(Next(Run(INITIAL, before, timeout), Begin, timeout), after, timeout);
      id in t.nodes && !t.nodes[id].available
  {
    var s := Run(INITIAL, before, timeout);
    RunWellKeyed(before, timeout);
    DoomedRun(Next(s, Begin, timeout), after, id, s.nodes[id].last, timeout);
  }

  /** The marks are not conditional on the present: a heartbeat that arrives after the copy of a silent node is
      overruled, and the node is left unavailable although its last heartbeat is this instant. */
  lemma LateHeartbeatIsOverruled(s: State, order: seq<string>, free: int, connections: int, timeout: int)
    requires s.phase.Idle? && WellKeyed(s.nodes) && Lists(order, s.nodes.Keys)
    requires var a := Available(s.nodes, order); a != [] && s.now - a[0].last >= timeout
    ensures var id := Available(s.nodes, order)[0].id;
      var copied := Next(Next(s, Begin, timeout), Copy(order), timeout);
      var t := Next(Next(copied, Beats(id, free, connections), timeout), Examine, timeout);
      id in t.nodes && t.nodes[id].last == t.now && !t.nodes[id].available
  {
    AvailableFacts(s.nodes, order);
    var n := Available(s.nodes, order)[0];
    assert n in Available(s.nodes, order) && Current(n, s.nodes);
  }

  // ---- When a heartbeat counts ----

  /** The running sweep holds a copy of the node that was already silent for the timeout. */
  ghost predicate Condemned(s: State, id: string, timeout: int) {
    s.phase.Marking? &&
    exists k :: 0 <= k < |s.phase.todo| && s.phase.todo[k].id == id && s.phase.at - s.phase.todo[k].last >= timeout
  }

  ghost predicate IsAvailable(s: State, id: string) { id in s.nodes && s.nodes[id].available }

  lemma {:induction false} ReachableFacts(evs: seq<Event>, timeout: int)
    requires Lawful(INITIAL, evs, timeout)
    ensures var s := Run(INITIAL, evs, timeout); WellKeyed(s.nodes) && (s.phase.Started? ==> s.phase.at <= s.now)
  {
    if evs != [] { ReachableFacts(evs[..|evs| - 1], timeout); }
  }

  lemma {:induction false} SparedRun(s: State, evs: seq<Event>, id: string, timeout: int)
    requires Spared(s, id, timeout) && id in s.nodes && Lawful(s, evs, timeout) && AlwaysRecent(s, evs, id, timeout)
    ensures Spared(Run(s, evs, timeout), id, timeout) && id in Run(s, evs, timeout).nodes
  {
    if evs != [] {
      var n := |evs| - 1;
      SparedRun(s, evs[..n], id, timeout);
      SparedStep(Run(s, evs[..n], timeout), evs[n], id, timeout);
    }
  }

  lemma {:induction false} RunSnoc(s: State, evs: seq<Event>, ev: Event, id: string, timeout: int)
    ensures Run(s, evs + [ev], timeout) == Next(Run(s, evs, timeout), ev, timeout)
    ensures Lawful(s, evs + [ev], timeout) <==> Lawful(s, evs, timeout) && CanHappen(Run(s, evs, timeout), ev)
    ensures AlwaysRecent(s, evs + [ev], id, timeout) <==>
            AlwaysRecent(s, evs, id, timeout) && Recent(Next(Run(s, evs, timeout), ev, timeout), id, timeout)
  {
    assert (evs + [ev])[..|evs|] == evs;
  }

  function Examines(n: nat): (evs: seq<Event>)
    ensures |evs| == n
  {
    if n == 0 then [] else Examines(n - 1) + [Examine]
  }

  lemma ExamineOne(s: State, id: string, timeout: int)
    requires s.phase.Marking? && s.phase.todo != [] && id in s.nodes
    ensures var t := Next(s, Examine, timeout); var n := s.phase.todo[0];
      && CanHappen(s, Examine) && t.now == s.now && t.phase == Marking(s.phase.at, s.phase.todo[1..])
      && id in t.nodes && t.nodes[id].last == s.nodes[id].last
      && (!s.nodes[id].available || (n.id == id && s.phase.at - n.last >= timeout) ==> !t.nodes[id].available)
  {
  }

  ghost predicate CondemnedBefore(s: State, n: nat, id: string, timeout: int)
    requires s.phase.Marking? && n <= |s.phase.todo|
  {
    exists k :: 0 <= k < n && s.phase.todo[k].id == id && s.phase.at - s.phase.todo[k].last >= timeout
  }

  /** t is s after n more copies have been examined, with nothing else happening and no time passing. */
  ghost predicate AfterExamines(s: State, n: nat, t: State, id: string, timeout: int) {
    && s.phase.Marking? && n <= |s.phase.todo| && t.now == s.now && t.phase == Marking(s.phase.at, s.phase.todo[n..])
    && id in s.nodes && id in t.nodes && t.nodes[id].last == s.nodes[id].last
    && (CondemnedBefore(s, n, id, timeout) ==> !t.nodes[id].available)
  }

  lemma AfterOneMore(s: State, n: nat, t: State, id: string, timeout: int)
    requires AfterExamines(s, n, t, id, timeout) && n < |s.phase.todo|
    ensures CanHappen(t, Examine) && AfterExamines(s, n + 1, Next(t, Examine, timeout), id, timeout)
  {
    assert t.phase.todo[0] == s.phase.todo[n] && t.phase.todo[1..] == s.phase.todo[n + 1..];
    ExamineOne(t, id, timeout);
    if CondemnedBefore(s, n + 1, id, timeout) && !CondemnedBefore(s, n, id, timeout) {
      assert s.phase.todo[n].id == id && s.phase.at - s.phase.todo[n].last >= timeout;
    }
  }

  lemma {:induction false} ExaminesRun(s: State, n: nat, id: string, timeout: int)
    requires s.phase.Marking? && n <= |s.phase.todo| && id in s.nodes && Recent(s, id, timeout)
    ensures Lawful(s, Examines(n), timeout) && AlwaysRecent(s, Examines(n), id, timeout)
    ensures AfterExamines(s, n, Run(s, Examines(n), timeout), id, timeout)
  {
    if n == 0 {
      assert s.phase.todo[0..] == s.phase.todo;
    } else {
      ExaminesRun(s, n - 1, id, timeout);
      AfterOneMore(s, n - 1, Run(s, Examines(n - 1), timeout), id, timeout);
      RunSnoc(s, Examines(n - 1), Examine, id, timeout);
    }
  }

  /** In a reachable state, an available node whose last heartbeat is recent stays available in every continuation that
      keeps it recent, exactly when the running sweep holds no copy that condemns it. */
  lemma HeartbeatHonouredIff(before: seq<Event>, id: string, timeout: int)
    requires Lawful(INITIAL, before, timeout)
    requires var s := Run(INITIAL, before, timeout); IsAvailable(s, id) && Recent(s, id, timeout)
    ensures var s := Run(INITIAL, before, timeout);
      (forall after :: Lawful(s, after, timeout) && AlwaysRecent(s, after, id, timeout) ==>
         IsAvailable(Run(s, after, timeout), id)) <==> !Condemned(s, id, timeout)
  {
    var s := Run(INITIAL, before, timeout);
    if Condemned(s, id, timeout) {
      var n := |s.phase.todo|;
      assert CondemnedBefore(s, n, id, timeout);
      ExaminesRun(s, n, id, timeout);
      assert !IsAvailable(Run(s, Examines(n), timeout), id);
    } else {
      ReachableFacts(before, timeout);
      forall after | Lawful(s, after, timeout) && AlwaysRecent(s, after, id, timeout)
        ensures IsAvailable(Run(s, after, timeout), id)
      {
        SparedRun(s, after, id, timeout);
      }
    }
  }

  // ---- Clock and sweep ----

  /** Only a tick moves the clock; a sweep takes its reading when it begins, copies the available nodes later, looks
      at the copies one by one and is over when there are none left. */
  lemma SweepAnswer(s: State, elapsed: nat, order: seq<string>, timeout: int)
    ensures Next(s, Tick(elapsed), timeout) == State(s.now + elapsed, s.nodes, s.phase)
    ensures Next(s, Begin, timeout) == State(s.now, s.nodes, Started(s.now))
    ensures s.phase.Started? ==>
              Next(s, Copy(order), timeout) == State(s.now, s.nodes, Marking(s.phase.at, Available(s.nodes, order)))
    ensures s.phase.Marking? && s.phase.todo != [] ==>
              var t := Next(s, Examine, timeout);
              t.now == s.now && t.phase == Marking(s.phase.at, s.phase.todo[1..])
    ensures Next(s, End, timeout) == State(s.now, s.nodes, Idle)
  {
  }

  // ---- Coming back ----

  /** The node is in service since this instant, and whoever lists the available nodes finds it. */
  ghost predicate InService(s: State, id: string) {
    IsAvailable(s, id) && s.nodes[id].last == s.now &&
    forall order :: Lists(order, s.nodes.Keys) ==> s.nodes[id] in Available(s.nodes, order)
  }

  ghost predicate OthersSame(s: State, t: State, id: string) {
    t.now == s.now && t.phase == s.phase && t.nodes.Keys == s.nodes.Keys + {id} &&
    forall k :: k in s.nodes && k != id ==> t.nodes[k] == s.nodes[k]
  }

  lemma AvailableIsListed(s: State, id: string)
    requires WellKeyed(s.nodes) && IsAvailable(s, id)
    ensures forall order :: Lists(order, s.nodes.Keys) ==> s.nodes[id] in Available(s.nodes, order)
  {
    forall order | Lists(order, s.nodes.Keys) ensures s.nodes[id] in Available(s.nodes, order) {
      AvailableFacts(s.nodes, order);
    }
  }

  /** A heartbeat of a known node, available or not, puts it in service with the reported figures; that of an unknown
      one does nothing. */
  lemma HeartbeatRevives(before: seq<Event>, id: string, free: int, connections: int, timeout: int)
    requires Lawful(INITIAL, before, timeout)
    ensures var s := Run(INITIAL, before, timeout);
      var t := Next(s, Beats(id, free, connections), timeout);
      if id !in s.nodes then t == s
      else OthersSame(s, t, id) && InService(t, id) &&
           var n, m := s.nodes[id], t.nodes[id];
           m == Node(id, n.address, n.totalBytes, free, n.storageUsed, n.totalStorage, connections, s.now, true)
  {
    ReachableFacts(before, timeout);
    var s := Run(INITIAL, before, timeout);
    if id in s.nodes { AvailableIsListed(Next(s, Beats(id, free, connections), timeout), id); }
  }

  /** So does a registration with an id and an address; any other does nothing. */
  lemma RegistrationRevives(before: seq<Event>, n: Node, timeout: int)
    requires Lawful(INITIAL, before, timeout)
    ensures var s := Run(INITIAL, before, timeout);
      var t := Next(s, Registers(n), timeout);
      if n.id == "" || n.address == "" then t == s
      else OthersSame(s, t, n.id) && InService(t, n.id) &&
           t.nodes[n.id] == Node(n.id, n.address, n.totalBytes, n.freeBytes, n.totalBytes - n.freeBytes, n.totalBytes,
                                 n.connections, s.now, true)
  {
    ReachableFacts(before, timeout);
    var s := Run(INITIAL, before, timeout);
    if n.id != "" && n.address != "" { AvailableIsListed(Next(s, Registers(n), timeout), n.id); }
  }

  /** A node comes into service by its own heartbeat or registration and in no other way, and goes out of service when
      the sweep examines a copy of it that is old enough, and in no other way. */
  lemma ServiceChangesIff(before: seq<Event>, ev: Event, id: string, timeout: int)
    requires Lawful(INITIAL, before, timeout) && CanHappen(Run(INITIAL, before, timeout), ev)
    ensures var s := Run(INITIAL, before, timeout);
      var t := Next(s, ev, timeout);
      && (!IsAvailable(s, id) ==>
            (IsAvailable(t, id) <==> (ev.Beats? && ev.id == id && id in s.nodes) ||
                                     (ev.Registers? && ev.node.id == id && id != "" && ev.node.address != "")))
      && (IsAvailable(s, id) ==>
            (!IsAvailable(t, id) <==> ev.Examine? && s.phase.todo[0].id == id &&
                                      s.phase.at - s.phase.todo[0].last >= timeout))
  {
  }
}
