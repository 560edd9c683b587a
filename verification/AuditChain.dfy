/** The hash-chained audit log (internal/audit/log.go). SHA-256 (section 6.2 of FIPS 180-4) in hexadecimal and the JSON
    encoding are parameters; what is assumed of them is stated where it is used. */
module AuditChain {
  import opened Basics

  const GENESIS := "genesis"

  /** PrevHash holds the entry's own link: the hash of the entry, with the previous link in that field, and the
      previous link. */
  datatype Entry = Entry(index: int, timestamp: int, operation: string, filePath: string, hash: string,
                         identity: string, prevHash: string)

  /** What the decoder finds at each position of the file: an entry, something it cannot decode, or a stray closing
      bracket, at which it reports that there is nothing more. */
  datatype Record = Good(entry: Entry) | Corrupt | Stop

  datatype Crypto = Crypto(encode: Entry -> string, sha: string -> string)

  /** No encoding is a prefix of another, the hash is injective and never yields the genesis marker. */
  ghost predicate Sound(c: Crypto) {
    (forall a, b :: c.encode(a) <= c.encode(b) ==> a == b) &&
    (forall x, y :: c.sha(x) == c.sha(y) ==> x == y) &&
    forall x :: c.sha(x) != GENESIS
  }

  function Link(c: Crypto, e: Entry, prev: string): (h: string) {
    c.sha(c.encode(e.(prevHash := prev)) + prev)
  }

  function LastHash(file: seq<Record>): (h: string) {
    if file == [] then GENESIS
    else if file[|file| - 1].Good? then file[|file| - 1].entry.prevHash
    else LastHash(file[..|file| - 1])
  }

  /** Every record is readable and carries the link computed from the one before it. */
  predicate Intact(c: Crypto, file: seq<Record>) {
    file == [] ||
    (Intact(c, file[..|file| - 1]) && file[|file| - 1].Good? &&
     file[|file| - 1].entry.prevHash == Link(c, file[|file| - 1].entry, LastHash(file[..|file| - 1])))
  }

  /** The part of the file before the first stray bracket. */
  function Read(file: seq<Record>): (r: seq<Record>) {
    if file == [] || file[0].Stop? then [] else [file[0]] + Read(file[1..])
  }

  /** What Verify accepts. */
  predicate Accepted(c: Crypto, file: seq<Record>) { Intact(c, Read(file)) }

  predicate HasStop(file: seq<Record>) { exists i :: 0 <= i < |file| && file[i].Stop? }

  /** Nothing after a stray bracket is ever read, and without one everything is. */
  lemma {:induction false} ReadExtended(file: seq<Record>, more: seq<Record>)
    ensures Read(file + more) == if HasStop(file) then Read(file) else file + Read(more)
  {
    if file == [] {
      assert file + more == more;
    } else {
      assert (file + more)[1..] == file[1..] + more;
      ReadExtended(file[1..], more);
      if HasStop(file) && !file[0].Stop? {
        var i :| 0 <= i < |file| && file[i].Stop?;
        assert file[1..][i - 1].Stop?;
      }
      if HasStop(file[1..]) {
        var i :| 0 <= i < |file[1..]| && file[1..][i].Stop?;
        assert file[i + 1].Stop?;
      }
    }
  }

  lemma ReadAll(file: seq<Record>)
    requires !HasStop(file)
    ensures Read(file) == file
  {
    ReadExtended(file, []);
    assert file + [] == file;
  }

  // ---- Binding ----

  lemma PrefixesOfOne(x: string, p: string, y: string, q: string)
    requires x + p == y + q
    ensures x <= y || y <= x
    ensures |x| == |y| ==> p == q
  {
    assert x == (x + p)[..|x|] && y == (y + q)[..|y|];
    assert p == (x + p)[|x|..] && q == (y + q)[|y|..];
  }

  lemma PrefixFree(c: Crypto, a: Entry, p: string, b: Entry, q: string)
    requires Sound(c) && c.encode(a) + p == c.encode(b) + q
    ensures a == b && p == q
  {
    PrefixesOfOne(c.encode(a), p, c.encode(b), q);
  }

  lemma LinkBinds(c: Crypto, a: Entry, p: string, b: Entry, q: string)
    requires Sound(c) && a.prevHash == Link(c, a, p) && b.prevHash == Link(c, b, q) && a.prevHash == b.prevHash
    ensures a == b && p == q
  {
    PrefixFree(c, a.(prevHash := p), p, b.(prevHash := q), q);
    assert a.(prevHash := p).(prevHash := a.prevHash) == b.(prevHash := q).(prevHash := b.prevHash);
  }

  /** Two accepted files that end in the same hash are the same file. */
  lemma {:induction false} LastHashBindsFile(c: Crypto, a: seq<Record>, b: seq<Record>)
    requires Sound(c) && Intact(c, a) && Intact(c, b) && LastHash(a) == LastHash(b)
    ensures a == b
  {
    if a != [] && b != [] {
      var m, n := |a| - 1, |b| - 1;
      LinkBinds(c, a[m].entry, LastHash(a[..m]), b[n].entry, LastHash(b[..n]));
      LastHashBindsFile(c, a[..m], b[..n]);
      assert a == a[..m] + [a[m]] && b == b[..n] + [b[n]];
    }
  }

  lemma {:induction false} IntactPrefix(c: Crypto, file: seq<Record>, n: nat)
    requires Intact(c, file) && n <= |file|
    ensures Intact(c, file[..n])
  {
    if n == |file| {
      assert file[..n] == file;
    } else {
      IntactPrefix(c, file[..|file| - 1], n);
      assert file[..|file| - 1][..n] == file[..n];
    }
  }

  lemma IntactFront(c: Crypto, file: seq<Record>, more: seq<Record>)
    requires Intact(c, file + more)
    ensures Intact(c, file)
  {
    IntactPrefix(c, file + more, |file|);
    assert (file + more)[..|file|] == file;
  }

  /** Every prefix of an accepted file is accepted. */
  lemma AcceptedPrefix(c: Crypto, file: seq<Record>, n: nat)
    requires Accepted(c, file) && n <= |file|
    ensures Accepted(c, file[..n])
  {
    assert file == file[..n] + file[n..];
    ReadExtended(file[..n], file[n..]);
    if !HasStop(file[..n]) {
      ReadAll(file[..n]);
      IntactFront(c, file[..n], Read(file[n..]));
    }
  }

  /** So a change that keeps the final hash is rejected, wherever it is and whatever it is, if it is read at all. */
  lemma TamperingIsRejected(c: Crypto, a: seq<Record>, b: seq<Record>)
    requires Sound(c) && Accepted(c, a) && LastHash(Read(a)) == LastHash(Read(b)) && Read(a) != Read(b)
    ensures !Accepted(c, b)
  {
    if Accepted(c, b) {
      LastHashBindsFile(c, Read(a), Read(b));
    }
  }

  /** Whatever follows a stray bracket makes no difference to Verify. */
  lemma TailIsNeverChecked(c: Crypto, file: seq<Record>, tail: seq<Record>)
    ensures Accepted(c, file + [Stop] + tail) <==> Accepted(c, file)
  {
    ReadExtended(file, [Stop] + tail);
    ReadExtended(file, []);
    assert file + [Stop] + tail == file + ([Stop] + tail) && file + [] == file;
  }

  // ---- The open chain ----

  datatype State = State(file: seq<Record>, lastHash: string, index: int)

  /** How an append's write ends: done, failed with nothing written, failed half-way, or written and then not synced. */
  datatype Io = Done | Lost | Torn | Unsynced

  datatype Event =
    | AppendEvent(operation: string, path: string, contentHash: string, identity: string, now: int, io: Io)
    | ReopenEvent(readable: bool)

  function NewEntry(c: Crypto, s: State, ev: Event): (e: Entry)
    requires ev.AppendEvent?
  {
    var e := Entry(s.index + 1, ev.now, ev.operation, ev.path, ev.contentHash, ev.identity, s.lastHash);
    e.(prevHash := Link(c, e, s.lastHash))
  }

  /** recoverState's loop: the last hash and index read before the end or the first unreadable record. */
  function Scan(rest: seq<Record>, lastHash: string, index: int): (r: (string, int)) {
    if rest == [] || !rest[0].Good? then (lastHash, index)
    else Scan(rest[1..], rest[0].entry.prevHash, rest[0].entry.index)
  }

  function Recover(file: seq<Record>): (s: State) {
    var (lastHash, index) := Scan(file, GENESIS, -1);
    State(file, lastHash, index)
  }

  /** Opening the chain; a file that cannot be opened for reading is taken for an empty one. */
  function Reopen(file: seq<Record>, readable: bool): (s: State) {
    if readable then Recover(file) else State(file, GENESIS, -1)
  }

  function Written(e: Entry, io: Io): (r: seq<Record>) {
    match io
    case Done => [Good(e)]
    case Unsynced => [Good(e)]
    case Torn => [Corrupt]
    case Lost => []
  }

  function Next(c: Crypto, s: State, ev: Event): (t: State) {
    match ev
    case AppendEvent(_, _, _, _, _, io) =>
      var e := NewEntry(c, s, ev);
      State(s.file + Written(e, io), if io == Done then e.prevHash else s.lastHash, e.index)
    case ReopenEvent(readable) => Reopen(s.file, readable)
  }

  function Run(c: Crypto, s: State, evs: seq<Event>): (t: State) {
    if evs == [] then s else Next(c, Run(c, s, evs[..|evs| - 1]), evs[|evs| - 1])
  }

  ghost predicate Numbered(file: seq<Record>) {
    forall i :: 0 <= i < |file| ==> file[i].Good? && file[i].entry.index == i
  }

  lemma {:induction false} ScanAll(file: seq<Record>, lastHash: string, index: int)
    requires forall i :: 0 <= i < |file| ==> file[i].Good?
    ensures Scan(file, lastHash, index) ==
            if file == [] then (lastHash, index) else (file[|file| - 1].entry.prevHash, file[|file| - 1].entry.index)
  {
    if file != [] { ScanAll(file[1..], file[0].entry.prevHash, file[0].entry.index); }
  }

  lemma {:induction false} IntactIsReadable(c: Crypto, file: seq<Record>)
    requires Intact(c, file)
    ensures forall i :: 0 <= i < |file| ==> file[i].Good?
  {
    if file != [] { IntactIsReadable(c, file[..|file| - 1]); }
  }

  lemma RecoverIntact(c: Crypto, file: seq<Record>)
    requires Intact(c, file)
    ensures Recover(file).lastHash == LastHash(file)
    ensures Numbered(file) ==> Recover(file).index == |file| - 1
  {
    IntactIsReadable(c, file);
    ScanAll(file, GENESIS, -1);
  }

  lemma LinkedEntry(c: Crypto, s: State, ev: Event)
    requires ev.AppendEvent?
    ensures NewEntry(c, s, ev).prevHash == Link(c, NewEntry(c, s, ev), s.lastHash)
  {
    var e := Entry(s.index + 1, ev.now, ev.operation, ev.path, ev.contentHash, ev.identity, s.lastHash);
    assert NewEntry(c, s, ev).(prevHash := s.lastHash) == e;
  }

  lemma IntactSnoc(c: Crypto, file: seq<Record>, r: Record)
    ensures Intact(c, file + [r]) <==>
            Intact(c, file) && r.Good? && r.entry.prevHash == Link(c, r.entry, LastHash(file))
    ensures LastHash(file + [r]) == if r.Good? then r.entry.prevHash else LastHash(file)
  {
    assert (file + [r])[..|file|] == file;
  }

  /** The file is accepted, its entries are numbered from 0, and the live hash and index are those of its end. */
  ghost predicate Whole(c: Crypto, s: State) {
    Intact(c, s.file) && Numbered(s.file) && s.lastHash == LastHash(s.file) && s.index == |s.file| - 1
  }

  lemma AppendDone(c: Crypto, s: State, ev: Event)
    requires ev.AppendEvent? && ev.io == Done && Whole(c, s)
    ensures Whole(c, Next(c, s, ev))
  {
    LinkedEntry(c, s, ev);
    IntactSnoc(c, s.file, Good(NewEntry(c, s, ev)));
  }

  lemma RecoverWhole(c: Crypto, s: State)
    requires Whole(c, s)
    ensures Recover(s.file) == s
  {
    RecoverIntact(c, s.file);
  }

  ghost predicate NoFailure(evs: seq<Event>) {
    forall i :: 0 <= i < |evs| ==> if evs[i].AppendEvent? then evs[i].io == Done else evs[i].readable
  }

  /** Every run of successful appends and reopenings from an empty file: the file is accepted, indices are 0..n-1, and
      reopening would restore exactly the live hash and index. */
  lemma {:induction false} ChainComplete(c: Crypto, evs: seq<Event>)
    requires NoFailure(evs)
    ensures var s := Run(c, Recover([]), evs); Whole(c, s) && Recover(s.file) == s
  {
    if evs != [] {
      var n := |evs| - 1;
      var s := Run(c, Recover([]), evs[..n]);
      ChainComplete(c, evs[..n]);
      if evs[n].AppendEvent? { AppendDone(c, s, evs[n]); }
    }
    RecoverWhole(c, Run(c, Recover([]), evs));
  }

  // ---- Failed appends ----

  /** Something has got into the file. */
  predicate Wrote(evs: seq<Event>) {
    evs != [] &&
    (Wrote(evs[..|evs| - 1]) || (evs[|evs| - 1].AppendEvent? && evs[|evs| - 1].io != Lost))
  }

  /** The live hash is not that of the file (which was empty at first, or not): an entry was written and not synced,
      or the chain was reopened on a file with entries that could not be read, and it has not been reopened since. */
  predicate Pending(empty: bool, evs: seq<Event>) {
    evs != [] &&
    var rest, ev := evs[..|evs| - 1], evs[|evs| - 1];
    if ev.AppendEvent? then ev.io == Unsynced || (ev.io == Lost && Pending(empty, rest))
    else !ev.readable && (!empty || Wrote(rest))
  }

  /** A write was torn, or an entry was written while the live hash was not that of the file. */
  predicate Broken(empty: bool, evs: seq<Event>) {
    evs != [] &&
    var rest, ev := evs[..|evs| - 1], evs[|evs| - 1];
    Broken(empty, rest) || (ev.AppendEvent? && (ev.io == Torn || (ev.io != Lost && Pending(empty, rest))))
  }

  lemma {:induction false} EmptyIff(c: Crypto, s: State, evs: seq<Event>)
    ensures Run(c, s, evs).file == [] <==> s.file == [] && !Wrote(evs)
  {
    if evs != [] { EmptyIff(c, s, evs[..|evs| - 1]); }
  }

  lemma GenesisIff(c: Crypto, file: seq<Record>)
    requires Sound(c) && Intact(c, file)
    ensures LastHash(file) == GENESIS <==> file == []
  {
  }

  /** An append to an accepted file, whatever becomes of its write. */
  lemma AppendAcceptedIff(c: Crypto, s: State, ev: Event)
    requires Sound(c) && ev.AppendEvent? && Intact(c, s.file)
    ensures var t := Next(c, s, ev);
      && (Intact(c, t.file) <==> ev.io == Lost || (ev.io != Torn && s.lastHash == LastHash(s.file)))
      && (Intact(c, t.file) ==>
            (t.lastHash == LastHash(t.file) <==> ev.io == Done || (ev.io == Lost && s.lastHash == LastHash(s.file))))
  {
    var t, e := Next(c, s, ev), NewEntry(c, s, ev);
    LinkedEntry(c, s, ev);
    if ev.io == Lost {
      assert t.file == s.file;
    } else if ev.io == Torn {
      IntactSnoc(c, s.file, Corrupt);
    } else {
      IntactSnoc(c, s.file, Good(e));
      if Intact(c, t.file) {
        LinkBinds(c, e, s.lastHash, e, LastHash(s.file));
        if LastHash(t.file) == s.lastHash { LastHashBindsFile(c, s.file, t.file); }
      }
    }
  }

  lemma {:induction false} RunExtends(c: Crypto, s: State, evs: seq<Event>) returns (more: seq<Record>)
    ensures Run(c, s, evs).file == s.file + more && !HasStop(more)
  {
    if evs == [] {
      more := [];
    } else {
      more := RunExtends(c, s, evs[..|evs| - 1]);
      var ev := evs[|evs| - 1];
      if ev.AppendEvent? { more := more + Written(NewEntry(c, Run(c, s, evs[..|evs| - 1]), ev), ev.io); }
    }
  }

  /** An append numbers its entry one up, whatever becomes of the write; the live hash moves on only if all went well.
      An opening that cannot read the file starts from nothing. */
  lemma AppendAnswer(c: Crypto, s: State, ev: Event)
    requires ev.AppendEvent?
    ensures var e, t := NewEntry(c, s, ev), Next(c, s, ev);
      && e.index == t.index == s.index + 1 && Carries(e, ev) && e.prevHash == Link(c, e, s.lastHash)
      && t.lastHash == (if ev.io == Done then e.prevHash else s.lastHash)
    ensures Next(c, s, ReopenEvent(false)) == State(s.file, "genesis", -1)
  {
    LinkedEntry(c, s, ev);
  }

  /** The entry records what the append was given. */
  ghost predicate Carries(e: Entry, ev: Event) {
    ev.AppendEvent? && e.operation == ev.operation && e.filePath == ev.path && e.hash == ev.contentHash &&
    e.identity == ev.identity && e.timestamp == ev.now
  }

  ghost predicate Records(r: Record, ev: Event) {
    ev.AppendEvent? && if ev.io == Torn then r.Corrupt? else r.Good? && Carries(r.entry, ev)
  }

  predicate Reaches(ev: Event) { ev.AppendEvent? && ev.io != Lost }

  /** more has a record for each append whose write was not lost; idx says which. */
  ghost predicate RecordsAll(more: seq<Record>, idx: seq<nat>, evs: seq<Event>) {
    && |more| == |idx| && Increasing(idx, |evs|)
    && (forall i :: 0 <= i < |evs| ==> (i in idx <==> Reaches(evs[i])))
    && forall k :: 0 <= k < |idx| ==> Records(more[k], evs[idx[k]])
  }

  lemma RecordsSnoc(more: seq<Record>, idx: seq<nat>, evs: seq<Event>, ev: Event, r: seq<Record>)
    requires RecordsAll(more, idx, evs)
    requires if Reaches(ev) then |r| == 1 && Records(r[0], ev) else r == []
    ensures RecordsAll(more + r, if r == [] then idx else idx + [|evs|], evs + [ev])
  {
    var n, all := |evs|, evs + [ev];
    IncreasingSnoc(idx, n);
    assert all[n] == ev && forall i :: 0 <= i < n ==> all[i] == evs[i];
    if r == [] {
      assert more + r == more;
      forall k | 0 <= k < |idx| ensures Records(more[k], all[idx[k]]) { assert idx[k] < n; }
    } else {
      var jdx, now := idx + [n], more + r;
      forall k | 0 <= k < |jdx| ensures Records(now[k], all[jdx[k]]) {
        if k < |idx| {
          assert now[k] == more[k] && jdx[k] == idx[k] < n;
        } else {
          assert now[k] == r[0] && jdx[k] == n;
        }
      }
    }
  }

  /** After any run the file has gained one record for each append whose write was not lost, in order: a corrupt one
      for a torn write, else an entry with the operation, path, content hash, identity and time of that append. */
  lemma {:induction false} AppendsAreRecorded(c: Crypto, s: State, evs: seq<Event>)
    returns (more: seq<Record>, idx: seq<nat>)
    ensures Run(c, s, evs).file == s.file + more && RecordsAll(more, idx, evs)
  {
    if evs == [] {
      more, idx := [], [];
    } else {
      var n := |evs| - 1;
      var rest, ev := evs[..n], evs[n];
      more, idx := AppendsAreRecorded(c, s, rest);
      var t := Run(c, s, rest);
      var r := if ev.AppendEvent? then Written(NewEntry(c, t, ev), ev.io) else [];
      if ev.AppendEvent? { AppendAnswer(c, t, ev); }
      assert Run(c, s, evs).file == t.file + r;
      assert evs == rest + [ev] && s.file + more + r == s.file + (more + r);
      RecordsSnoc(more, idx, rest, ev, r);
      more, idx := more + r, if r == [] then idx else idx + [n];
    }
  }

  lemma IntactHasNoStop(c: Crypto, file: seq<Record>)
    requires Intact(c, file)
    ensures !HasStop(file)
  {
    IntactIsReadable(c, file);
  }

  lemma {:induction false} RunIntactIff(c: Crypto, file: seq<Record>, evs: seq<Event>)
    requires Sound(c) && Intact(c, file)
    ensures var s := Run(c, Recover(file), evs);
      && (Intact(c, s.file) <==> !Broken(file == [], evs))
      && (!Broken(file == [], evs) ==> (s.lastHash == LastHash(s.file) <==> !Pending(file == [], evs)))
  {
    if evs == [] {
      RecoverIntact(c, file);
    } else {
      var rest, ev := evs[..|evs| - 1], evs[|evs| - 1];
      RunIntactIff(c, file, rest);
      var s := Run(c, Recover(file), rest);
      if !Intact(c, s.file) {
        if Intact(c, Next(c, s, ev).file) {
          var more := RunExtends(c, s, [ev]);
          OneEvent(c, s, ev);
          IntactFront(c, s.file, more);
        }
      } else if ev.AppendEvent? {
        AppendAcceptedIff(c, s, ev);
      } else {
        RecoverIntact(c, s.file);
        GenesisIff(c, s.file);
        EmptyIff(c, Recover(file), rest);
      }
    }
  }

  lemma OneEvent(c: Crypto, s: State, ev: Event)
    ensures Run(c, s, [ev]) == Next(c, s, ev)
  {
    assert [ev][..0] == [] && Run(c, s, []) == s;
  }

  /** Opening any file and appending to it, with any failures and reopenings (the first of which may stand for an
      opening that could not read the file): Verify accepts the result exactly when it accepted the file and either
      nothing is read of what was appended, or no write was torn and after every failed sync, and every opening that
      could not read a file with entries, the chain was reopened before the next entry was written. In particular a
      corrupt tail is never healed. */
  lemma AcceptedIff(c: Crypto, file: seq<Record>, evs: seq<Event>)
    requires Sound(c)
    ensures Accepted(c, Run(c, Recover(file), evs).file) <==>
            Accepted(c, file) && (HasStop(file) || !Broken(file == [], evs))
  {
    var t := Run(c, Recover(file), evs).file;
    var more := RunExtends(c, Recover(file), evs);
    ReadExtended(file, more);
    if !HasStop(file) {
      ReadAll(file);
      ReadAll(more);
      if Intact(c, file) { RunIntactIff(c, file, evs); }
      if Intact(c, t) { IntactFront(c, file, more); }
    }
  }

  // ---- The program ----

  class Chain {
    var file: seq<Record>
    var lastHash: string
    var index: int
    const crypto: Crypto

    ghost function Now(): (s: State)
      reads this
    {
      State(file, lastHash, index)
    }

    constructor Open(crypto: Crypto, contents: seq<Record>, readable: bool)
      ensures this.crypto == crypto && Now() == Reopen(contents, readable)
    {
      this.crypto, file, lastHash, index := crypto, contents, GENESIS, -1;
      new;
      RecoverState(readable);
    }

    method RecoverState(readable: bool)
      requires lastHash == GENESIS && index == -1
      modifies this`lastHash, this`index
      ensures Now() == Reopen(file, readable)
    {
      if !readable {
        return;
      }
      for i := 0 to |file|
        invariant Scan(file, GENESIS, -1) == Scan(file[i..], lastHash, index)
      {
        assert file[i..][0] == file[i] && file[i..][1..] == file[i + 1..];
        if !file[i].Good? {
          break;
        }
        index := file[i].entry.index;
        lastHash := file[i].entry.prevHash;
      }
    }

    method Append(operation: string, path: string, contentHash: string, identity: string, now: int, io: Io)
      returns (r: Option<Entry>)
      modifies this
      ensures var ev := AppendEvent(operation, path, contentHash, identity, now, io);
              Now() == Next(crypto, old(Now()), ev) &&
              r == if io == Done then Some(NewEntry(crypto, old(Now()), ev)) else None
    {
      index := index + 1;
      var e := Entry(index, now, operation, path, contentHash, identity, lastHash);
      var data := crypto.encode(e);
      assert e.(prevHash := lastHash) == e;
      e := e.(prevHash := crypto.sha(data + lastHash));
      file := file + Written(e, io);
      if io != Done {
        return None;
      }
      lastHash := e.prevHash;
      r := Some(e);
    }

    method Verify(readable: bool) returns (ok: bool)
      ensures ok == (readable && Accepted(crypto, file))
    {
      if !readable {
        return false;
      }
      ReadExtended(file, []);
      assert file + [] == file;
      var prevHash := GENESIS;
      for i := 0 to |file|
        invariant Intact(crypto, file[..i]) && prevHash == LastHash(file[..i])
      {
        assert file[..i + 1] == file[..i] + [file[i]];
        IntactSnoc(crypto, file[..i], file[i]);
        Boundary(crypto, file, i);
        if file[i].Stop? {
          return true;
        }
        if file[i].Corrupt? {
          return false;
        }
        var e := file[i].entry;
        var linked := Entry(e.index, e.timestamp, e.operation, e.filePath, e.hash, e.identity, prevHash);
        var data := crypto.encode(linked);
        assert linked == e.(prevHash := prevHash);
        var expected := crypto.sha(data + prevHash);
        if e.prevHash != expected {
          return false;
        }
        prevHash := e.prevHash;
      }
      assert file[..|file|] == file;
      IntactHasNoStop(crypto, file);
      ok := true;
    }
  }

  /** The loop's verdict at position i is the whole file's, when it ends there. */
  lemma Boundary(c: Crypto, file: seq<Record>, i: nat)
    requires i < |file| && Intact(c, file[..i])
    ensures file[i].Stop? ==> Accepted(c, file)
    ensures !file[i].Stop? && !Intact(c, file[..i + 1]) ==> !Accepted(c, file)
  {
    IntactHasNoStop(c, file[..i]);
    assert file == file[..i] + file[i..];
    ReadExtended(file[..i], file[i..]);
    if file[i].Stop? {
      assert file[..i] + [] == file[..i];
    } else if Accepted(c, file) {
      assert file[i..][0] == file[i];
      assert Read(file)[..i + 1] == file[..i + 1];
      IntactPrefix(c, Read(file), i + 1);
    }
  }
}
