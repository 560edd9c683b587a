/** Secondary audit log replication (internal/auditsvc/replication.go): a bounded buffer in front of a client whose
    sends may fail. */
module Replicator {

  /** The replicator, with what the replica has received and what Push has accepted as history. */
  datatype State<T> = State(attached: bool, running: bool, buffer: seq<T>, maxBuffer: nat,
                            delivered: seq<T>, accepted: seq<T>)

  /** Operations, with the outcome of the sends they make: whether Push's send works, and after how many sends Drain's
      first failure comes. */
  datatype Op<T> =
    | SetClient(present: bool)
    | Disconnect
    | Push(entry: T, sent: bool)
    | Drain(succeed: nat)

  function Next<T>(s: State<T>, op: Op<T>): (t: State<T>) {
    match op
    case SetClient(present) => s.(attached := present, running := true)
    case Disconnect => s.(attached := false, running := false)
    case Push(e, sent) =>
      if s.attached && s.running && sent then s.(delivered := s.delivered + [e], accepted := s.accepted + [e])
      else
        var r := if s.attached && s.running then s.(attached := false, running := false) else s;
        if |s.buffer| >= s.maxBuffer then r
        else r.(buffer := s.buffer + [e], accepted := s.accepted + [e])
    case Drain(n) =>
      if !s.attached || s.buffer == [] then s
      else
        var k := if n < |s.buffer| then n else |s.buffer|;
        s.(buffer := s.buffer[k..], delivered := s.delivered + s.buffer[..k])
  }

  function Run<T>(s: State<T>, ops: seq<Op<T>>): (t: State<T>) {
    if ops == [] then s else Next(Run(s, ops[..|ops| - 1]), ops[|ops| - 1])
  }

  function Initial<T>(maxBuffer: nat): (s: State<T>) {
    State(false, false, [], maxBuffer, [], [])
  }

  // ---- What each operation does ----

  /** A client is there exactly after it was set and before it is dropped; the queue is not touched. */
  lemma ClientAnswer<T>(s: State<T>, present: bool)
    ensures Next(s, SetClient(present)) == State(present, true, s.buffer, s.maxBuffer, s.delivered, s.accepted)
    ensures Next(s, Disconnect) == State(false, false, s.buffer, s.maxBuffer, s.delivered, s.accepted)
  {
  }

  /** A push that can be sent is delivered at once; any other waits in the buffer, or is refused if the buffer is
      full, and drops a client whose send failed. */
  lemma PushAnswer<T>(s: State<T>, e: T, sent: bool)
    ensures var t, live := Next(s, Push(e, sent)), s.attached && s.running;
      if live && sent then
        t == State(true, true, s.buffer, s.maxBuffer, s.delivered + [e], s.accepted + [e])
      else
        var kept := |s.buffer| < s.maxBuffer;
        t == State(s.attached && !live, s.running && !live, if kept then s.buffer + [e] else s.buffer, s.maxBuffer,
                   s.delivered, if kept then s.accepted + [e] else s.accepted)
  {
  }

  /** With a client, draining delivers the buffer from the front until a send fails, and all of it if none does. */
  lemma DrainAnswer<T>(s: State<T>, succeed: nat)
    ensures var t := Next(s, Drain(succeed));
      && t.attached == s.attached && t.running == s.running && t.maxBuffer == s.maxBuffer && t.accepted == s.accepted
      && (!s.attached ==> t == s)
      && (s.attached ==> s.delivered <= t.delivered && t.delivered[|s.delivered|..] + t.buffer == s.buffer)
      && (s.attached && succeed < |s.buffer| ==> |t.delivered| == |s.delivered| + succeed)
      && (s.attached && succeed >= |s.buffer| ==> t.buffer == [] && t.delivered == s.delivered + s.buffer)
  {
    if s.attached && s.buffer != [] {
      var k := if succeed < |s.buffer| then succeed else |s.buffer|;
      assert (s.delivered + s.buffer[..k])[|s.delivered|..] == s.buffer[..k];
      assert s.buffer[..k] + s.buffer[k..] == s.buffer;
      if k == |s.buffer| { assert s.buffer[..k] == s.buffer; }
    } else if s.attached {
      assert s.delivered[|s.delivered|..] + [] == s.buffer;
    }
  }

  /** So after any run, a new client and a drain without failure, everything accepted has been delivered. */
  lemma ReconnectDeliversAll<T>(maxBuffer: nat, ops: seq<Op<T>>, succeed: nat)
    requires succeed >= |Run(Initial(maxBuffer), ops).buffer|
    ensures var t := Next(Next(Run(Initial(maxBuffer), ops), SetClient(true)), Drain(succeed));
            t.buffer == [] && multiset(t.delivered) == multiset(t.accepted)
  {
    var s := Run(Initial(maxBuffer), ops);
    NothingLostOrDuplicated(maxBuffer, ops);
    DrainAnswer(Next(s, SetClient(true)), succeed);
    ConservedStep(s, SetClient(true));
    ConservedStep(Next(s, SetClient(true)), Drain(succeed));
  }

  // ---- Conservation ----

  ghost predicate Conserved<T>(s: State<T>) {
    multiset(s.delivered) + multiset(s.buffer) == multiset(s.accepted) && |s.buffer| <= s.maxBuffer
  }

  lemma ConservedStep<T>(s: State<T>, op: Op<T>)
    requires Conserved(s)
    ensures Conserved(Next(s, op)) && Next(s, op).maxBuffer == s.maxBuffer
  {
    if op.Drain? && s.attached && s.buffer != [] {
      var k := if op.succeed < |s.buffer| then op.succeed else |s.buffer|;
      assert s.buffer == s.buffer[..k] + s.buffer[k..];
    }
  }

  /** Over every run and every pattern of send failures, what was delivered together with what is buffered is exactly
      what was accepted, and the buffer never exceeds its limit. */
  lemma {:induction false} NothingLostOrDuplicated<T>(maxBuffer: nat, ops: seq<Op<T>>)
    ensures Conserved(Run(Initial(maxBuffer), ops)) && Run(Initial(maxBuffer), ops).maxBuffer == maxBuffer
  {
    if ops != [] {
      NothingLostOrDuplicated(maxBuffer, ops[..|ops| - 1]);
      ConservedStep(Run(Initial(maxBuffer), ops[..|ops| - 1]), ops[|ops| - 1]);
    }
  }

  // ---- Order ----

  ghost predicate InOrder<T>(s: State<T>) {
    s.delivered + s.buffer == s.accepted
  }

  /** The push goes straight to the replica, past entries that are still buffered. */
  ghost predicate Overtakes<T>(s: State<T>, op: Op<T>) {
    op.Push? && op.sent && s.attached && s.running && exists i :: 0 <= i < |s.buffer| && s.buffer[i] != op.entry
  }

  lemma {:induction false} RotationIff<T>(b: seq<T>, e: T)
    ensures [e] + b == b + [e] <==> forall i :: 0 <= i < |b| ==> b[i] == e
  {
    if b != [] {
      var c := b[1..];
      RotationIff(c, e);
      if [e] + b == b + [e] {
        assert b[0] == (b + [e])[0] == ([e] + b)[0] == e;
        assert [e] + c == b;
        assert b == ([e] + b)[1..] == (b + [e])[1..] == c + [e];
        forall i | 0 <= i < |b| ensures b[i] == e {
          if i > 0 { assert b[i] == c[i - 1]; }
        }
      }
    }
  }

  lemma SendPast<T>(d: seq<T>, b: seq<T>, e: T)
    ensures d + [e] + b == d + b + [e] <==> forall i :: 0 <= i < |b| ==> b[i] == e
  {
    RotationIff(b, e);
    var x, y := d + [e] + b, d + b + [e];
    assert x == d + ([e] + b) && y == d + (b + [e]);
    assert x[|d|..] == [e] + b && y[|d|..] == b + [e];
  }

  /** One operation keeps the order of acceptance exactly when it does not overtake. */
  lemma StepInOrderIff<T>(s: State<T>, op: Op<T>)
    requires InOrder(s)
    ensures InOrder(Next(s, op)) <==> !Overtakes(s, op)
  {
    var t := Next(s, op);
    if op.Push? {
      SendPast(s.delivered, s.buffer, op.entry);
      assert s.delivered + (s.buffer + [op.entry]) == (s.delivered + s.buffer) + [op.entry];
    } else if op.Drain? && s.attached && s.buffer != [] {
      var k := if op.succeed < |s.buffer| then op.succeed else |s.buffer|;
      assert t.delivered + t.buffer == s.delivered + (s.buffer[..k] + s.buffer[k..]);
      assert s.buffer[..k] + s.buffer[k..] == s.buffer;
    }
  }

  ghost predicate NeverOvertakes<T>(s: State<T>, ops: seq<Op<T>>) {
    ops == [] || (NeverOvertakes(s, ops[..|ops| - 1]) && !Overtakes(Run(s, ops[..|ops| - 1]), ops[|ops| - 1]))
  }

  /** The replica receives entries in the order they were accepted, followed by the buffer, as long as no push
      overtakes. */
  lemma {:induction false} DeliveredInOrder<T>(maxBuffer: nat, ops: seq<Op<T>>)
    requires NeverOvertakes(Initial(maxBuffer), ops)
    ensures InOrder(Run(Initial(maxBuffer), ops))
  {
    if ops != [] {
      DeliveredInOrder(maxBuffer, ops[..|ops| - 1]);
      StepInOrderIff(Run(Initial(maxBuffer), ops[..|ops| - 1]), ops[|ops| - 1]);
    }
  }

  // ---- Without repeated entries, what is overtaken stays overtaken ----

  /** No entry is pushed that was accepted before. */
  ghost predicate NeverRepeats<T>(s: State<T>, ops: seq<Op<T>>) {
    ops == [] ||
    var rest, op := ops[..|ops| - 1], ops[|ops| - 1];
    NeverRepeats(s, rest) && (op.Push? ==> op.entry !in Run(s, rest).accepted)
  }

  ghost predicate Before<T>(q: seq<T>, x: T, y: T) {
    exists k, l :: 0 <= k < l < |q| && q[k] == x && q[l] == y
  }

  ghost predicate NoTwice<T>(q: seq<T>) {
    forall i, j :: 0 <= i < j < |q| ==> q[i] != q[j]
  }

  /** Two entries were accepted in one order and reach the replica in the other. */
  ghost predicate Crossed<T>(s: State<T>, x: T, y: T) {
    Before(s.accepted, x, y) && Before(s.delivered + s.buffer, y, x)
  }

  lemma BeforeInserted<T>(a: seq<T>, b: seq<T>, c: seq<T>, x: T, y: T)
    requires Before(a + c, x, y)
    ensures Before(a + b + c, x, y)
  {
    var k, l :| 0 <= k < l < |a + c| && (a + c)[k] == x && (a + c)[l] == y;
    var q, m := a + b + c, |b|;
    var k', l' := if k < |a| then k else k + m, if l < |a| then l else l + m;
    assert q[k'] == x && q[l'] == y;
  }

  lemma BeforeAppended<T>(q: seq<T>, e: T, x: T, y: T)
    requires Before(q, x, y)
    ensures Before(q + [e], x, y)
  {
    assert q + [] == q && q + [e] + [] == q + [e];
    BeforeInserted(q, [e], [], x, y);
  }

  lemma CrossedStep<T>(s: State<T>, op: Op<T>, x: T, y: T)
    requires Crossed(s, x, y)
    ensures Crossed(Next(s, op), x, y)
  {
    var d, b := s.delivered, s.buffer;
    if op.Push? {
      BeforeAppended(s.accepted, op.entry, x, y);
      BeforeInserted(d, [op.entry], b, y, x);
      BeforeAppended(d + b, op.entry, y, x);
      assert d + b + [op.entry] == d + (b + [op.entry]);
    } else if op.Drain? && s.attached && b != [] {
      var k := if op.succeed < |b| then op.succeed else |b|;
      assert b == b[..k] + b[k..];
      assert d + b[..k] + b[k..] == d + b;
    }
  }

  lemma CrossedIsOutOfOrder<T>(s: State<T>, x: T, y: T)
    requires Crossed(s, x, y) && NoTwice(s.accepted)
    ensures !InOrder(s)
  {
  }

  /** An overtaking push crosses with an entry it overtakes. */
  lemma OvertakenIsCrossed<T>(s: State<T>, op: Op<T>) returns (x: T)
    requires Conserved(s) && Overtakes(s, op)
    ensures Crossed(Next(s, op), x, op.entry)
  {
    var i :| 0 <= i < |s.buffer| && s.buffer[i] != op.entry;
    x := s.buffer[i];
    var t := Next(s, op);
    assert x in multiset(s.accepted);
    var j :| 0 <= j < |s.accepted| && s.accepted[j] == x;
    assert t.accepted[j] == x && t.accepted[|s.accepted|] == op.entry;
    var q := t.delivered + t.buffer;
    assert q[|s.delivered|] == op.entry && q[|s.delivered| + 1 + i] == x;
  }

  lemma {:induction false} AcceptedOnce<T>(maxBuffer: nat, ops: seq<Op<T>>)
    requires NeverRepeats(Initial(maxBuffer), ops)
    ensures NoTwice(Run(Initial(maxBuffer), ops).accepted)
  {
    if ops != [] { AcceptedOnce(maxBuffer, ops[..|ops| - 1]); }
  }

  lemma {:induction false} OvertakingCrosses<T>(maxBuffer: nat, ops: seq<Op<T>>) returns (x: T, y: T)
    requires !NeverOvertakes(Initial(maxBuffer), ops)
    ensures Crossed(Run(Initial(maxBuffer), ops), x, y)
  {
    var rest, op := ops[..|ops| - 1], ops[|ops| - 1];
    var s := Run(Initial(maxBuffer), rest);
    if NeverOvertakes(Initial(maxBuffer), rest) {
      NothingLostOrDuplicated(maxBuffer, rest);
      y := op.entry;
      x := OvertakenIsCrossed(s, op);
    } else {
      x, y := OvertakingCrosses(maxBuffer, rest);
      CrossedStep(s, op, x, y);
    }
  }

  /** Over every run that repeats no entry, the replica is in order exactly when no push ever overtook: a later
      operation never repairs the order. */
  lemma DeliveredInOrderIff<T>(maxBuffer: nat, ops: seq<Op<T>>)
    requires NeverRepeats(Initial(maxBuffer), ops)
    ensures InOrder(Run(Initial(maxBuffer), ops)) <==> NeverOvertakes(Initial(maxBuffer), ops)
  {
    if NeverOvertakes(Initial(maxBuffer), ops) {
      DeliveredInOrder(maxBuffer, ops);
    } else {
      var x, y := OvertakingCrosses(maxBuffer, ops);
      AcceptedOnce(maxBuffer, ops);
      CrossedIsOutOfOrder(Run(Initial(maxBuffer), ops), x, y);
    }
  }

  lemma RunSnoc<T>(s: State<T>, ops: seq<Op<T>>, op: Op<T>)
    ensures Run(s, ops + [op]) == Next(Run(s, ops), op)
    ensures NeverOvertakes(s, ops + [op]) <==> NeverOvertakes(s, ops) && !Overtakes(Run(s, ops), op)
  {
    assert (ops + [op])[..|ops|] == ops;
  }

  /** With repeated entries the order can come right again: x and y wait in the buffer and are pushed past it. */
  lemma RepetitionRestoresOrder<T>(x: T, y: T)
    requires x != y
    ensures var ops := [Push(x, false), Push(y, false), SetClient(true), Push(x, true), Push(y, true)];
            !NeverOvertakes(Initial(2), ops) && InOrder(Run(Initial(2), ops))
  {
    var a: Op<T>, b: Op<T>, c: Op<T> := Push(x, false), Push(y, false), SetClient(true);
    var d, e := Push(x, true), Push(y, true);
    assert [] + [a] == [a] && [a] + [b] == [a, b] && [a, b] + [c] == [a, b, c];
    assert [a, b, c] + [d] == [a, b, c, d] && [a, b, c, d] + [e] == [a, b, c, d, e];
    RunSnoc(Initial(2), [], a);
    RunSnoc(Initial(2), [a], b);
    RunSnoc(Initial(2), [a, b], c);
    RunSnoc(Initial(2), [a, b, c], d);
    RunSnoc(Initial(2), [a, b, c, d], e);
    var s := Run(Initial(2), [a, b, c]);
    assert s == State(true, true, [x, y], 2, [], [x, y]) && s.buffer[1] == y;
    var t := Run(Initial(2), [a, b, c, d, e]);
    assert t.delivered == [x, y] && t.accepted == [x, y, x, y];
  }

  // ---- The program ----

  class Replicator<T> {
    var attached: bool
    var running: bool
    var buffer: seq<T>
    const maxBuffer: nat
    ghost var delivered: seq<T>
    ghost var accepted: seq<T>

    ghost function Now(): (s: State<T>)
      reads this
    {
      State(attached, running, buffer, maxBuffer, delivered, accepted)
    }

    constructor (maxBuffer: nat)
      ensures Now() == Initial(maxBuffer)
    {
      attached, running, buffer, this.maxBuffer := false, false, [], maxBuffer;
      delivered, accepted := [], [];
    }

    method SetClient(present: bool)
      modifies this
      ensures Now() == Next(old(Now()), Op<T>.SetClient(present))
    {
      attached := present;
      running := true;
    }

    method Disconnect()
      modifies this
      ensures Now() == Next(old(Now()), Op<T>.Disconnect)
    {
      if attached {
        attached := false;
      }
      running := false;
    }

    /** sent is what the client's Send returns, if it is called. */
    method Push(entry: T, sent: bool) returns (ok: bool)
      modifies this
      ensures Now() == Next(old(Now()), Op.Push(entry, sent))
      ensures accepted == if ok then old(accepted) + [entry] else old(accepted)
      ensures ok <==> (old(attached && running) && sent) || |old(buffer)| < maxBuffer
    {
      if attached && running {
        if !sent {
          attached := false;
          running := false;
        } else {
          delivered, accepted := delivered + [entry], accepted + [entry];
          return true;
        }
      }
      if |buffer| >= maxBuffer {
        return false;
      }
      buffer := buffer + [entry];
      accepted := accepted + [entry];
      ok := true;
    }

    /** The first failing Send comes after succeed successful ones. */
    method Drain(succeed: nat) returns (ok: bool)
      modifies this
      ensures Now() == Next(old(Now()), Op<T>.Drain(succeed))
      ensures ok <==> !old(attached) || |old(buffer)| <= succeed
    {
      if !attached || |buffer| == 0 {
        return true;
      }
      for i := 0 to |buffer|
        invariant buffer == old(buffer) && delivered == old(delivered) + buffer[..i] && i <= succeed
        invariant unchanged(this`attached, this`running, this`accepted)
      {
        if i == succeed {
          buffer := buffer[i..];
          return false;
        }
        delivered := delivered + [buffer[i]];
      }
      buffer := buffer[..0];
      ok := true;
    }
  }
}
