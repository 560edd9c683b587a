/** Chunk transfer between client and datanode (internal/datanode/server.go): assembling a chunk from received blocks
    and streaming a stored chunk back in blocks. The chunk files are a map from id to bytes. */
module ChunkStream {
  import opened Basics
  import opened Modular

  type Bytes = seq<Byte>

  const BLOCK_SIZE := 1048576

  // ---- Receiving ----

  /** What Recv may return before the end of the stream. */
  datatype Recv = Block(chunkID: string, data: Bytes, isLast: bool) | Broken

  /** The id (the first non-empty one) and bytes received, or None when the stream breaks before the last block. */
  function Assemble(stream: seq<Recv>, id: string, buf: Bytes): (r: Option<(string, Bytes)>)
    decreases |stream|
  {
    if stream == [] then Some((id, buf))
    else if stream[0].Broken? then None
    else
      var id' := if id == "" then stream[0].chunkID else id;
      if stream[0].isLast then Some((id', buf + stream[0].data))
      else Assemble(stream[1..], id', buf + stream[0].data)
  }

  function Concat(blocks: seq<Bytes>): (data: Bytes) {
    if blocks == [] then [] else blocks[0] + Concat(blocks[1..])
  }

  /** The stream a client sends for one chunk: its id on every block, IsLast on the final one or nowhere. */
  function Sent(id: string, blocks: seq<Bytes>, mark: bool): (stream: seq<Recv>)
    ensures |stream| == |blocks|
  {
    seq(|blocks|, i requires 0 <= i < |blocks| => Block(id, blocks[i], mark && i == |blocks| - 1))
  }

  /** However a chunk is cut into blocks, the receiver assembles exactly its bytes under its id. */
  lemma {:induction false} AssembleInvertsSent(id: string, blocks: seq<Bytes>, mark: bool, got: string, buf: Bytes)
    requires got == "" || got == id
    ensures Assemble(Sent(id, blocks, mark), got, buf) ==
            Some((if blocks == [] then got else id, buf + Concat(blocks)))
    decreases |blocks|
  {
    var stream := Sent(id, blocks, mark);
    if blocks == [] {
      assert buf + [] == buf;
    } else {
      assert buf + Concat(blocks) == (buf + blocks[0]) + Concat(blocks[1..]);
      if |blocks| == 1 {
        assert Concat(blocks[1..]) == [] && stream[1..] == [];
        assert (buf + blocks[0]) + [] == buf + blocks[0];
      } else {
        assert stream[1..] == Sent(id, blocks[1..], mark);
        AssembleInvertsSent(id, blocks[1..], mark, id, buf + blocks[0]);
      }
    }
  }

  /** The first non-empty id on the blocks, if any. */
  ghost predicate FirstID(blocks: seq<Recv>, id: string) {
    if id == "" then forall i :: 0 <= i < |blocks| && blocks[i].Block? ==> blocks[i].chunkID == ""
    else exists i :: 0 <= i < |blocks| && blocks[i].Block? && blocks[i].chunkID == id &&
                     forall j :: 0 <= j < i && blocks[j].Block? ==> blocks[j].chunkID == ""
  }

  ghost predicate Open(blocks: seq<Recv>) { forall i :: 0 <= i < |blocks| ==> blocks[i].Block? && !blocks[i].isLast }

  function Payload(blocks: seq<Recv>): (data: Bytes) {
    if blocks == [] then []
    else
      var rest, x := blocks[..|blocks| - 1], blocks[|blocks| - 1];
      Payload(rest) + if x.Block? then x.data else []
  }

  lemma FirstIDSnoc(blocks: seq<Recv>, id: string, x: Recv)
    requires FirstID(blocks, id) && x.Block?
    ensures FirstID(blocks + [x], if id == "" then x.chunkID else id)
  {
    if id != "" {
      var i :| 0 <= i < |blocks| && blocks[i].Block? && blocks[i].chunkID == id &&
               forall j :: 0 <= j < i && blocks[j].Block? ==> blocks[j].chunkID == "";
      assert (blocks + [x])[i].chunkID == id;
    } else if x.chunkID != "" {
      assert (blocks + [x])[|blocks|].chunkID == x.chunkID;
    }
  }

  /** Blocks before the last one are collected under the first non-empty id. */
  lemma {:induction false} Collects(blocks: seq<Recv>, rest: seq<Recv>) returns (id: string)
    requires Open(blocks)
    ensures FirstID(blocks, id) && Assemble(blocks + rest, "", []) == Assemble(rest, id, Payload(blocks))
  {
    if blocks == [] {
      id := "";
      assert blocks + rest == rest;
    } else {
      var n := |blocks| - 1;
      var x := blocks[n];
      id := Collects(blocks[..n], [x] + rest);
      assert blocks[..n] + ([x] + rest) == blocks + rest && ([x] + rest)[1..] == rest;
      assert blocks == blocks[..n] + [x];
      FirstIDSnoc(blocks[..n], id, x);
      if id == "" { id := x.chunkID; }
    }
  }

  /** The stream fails if it breaks before a last block; otherwise the blocks up to the last one, or the end, are the
      chunk, under the first non-empty id among them. */
  lemma AssembleMeaning(blocks: seq<Recv>, last: Recv, rest: seq<Recv>) returns (id: string, all: string)
    requires Open(blocks) && last.Block? && last.isLast
    ensures Assemble(blocks + [Broken] + rest, "", []) == None
    ensures FirstID(blocks + [last], id)
    ensures Assemble(blocks + [last] + rest, "", []) == Some((id, Payload(blocks + [last])))
    ensures FirstID(blocks, all) && Assemble(blocks, "", []) == Some((all, Payload(blocks)))
  {
    assert blocks + [Broken] + rest == blocks + ([Broken] + rest) && blocks + [last] + rest == blocks + ([last] + rest);
    assert blocks + [] == blocks && (blocks + [last])[..|blocks|] == blocks;
    var a := Collects(blocks, [Broken] + rest);
    var b := Collects(blocks, [last] + rest);
    all := Collects(blocks, []);
    id := if b == "" then last.chunkID else b;
    FirstIDSnoc(blocks, b, last);
  }

  // ---- Sending ----

  datatype Resp = Resp(data: Bytes, index: int, isLast: bool)

  /** The block counter is a 32-bit signed integer. */
  function Wrap32(k: nat): (i: int)
    ensures -0x8000_0000 <= i < 0x8000_0000 && (k < 0x8000_0000 ==> i == k)
  {
    var m := k % 0x1_0000_0000;
    if m < 0x8000_0000 then m else m - 0x1_0000_0000
  }

  /** How much the k-th read returns when rest is left: at least one byte, at most a block, otherwise as it pleases. */
  function ReadSize(sizes: nat -> nat, k: nat, rest: Bytes): (n: nat)
    requires rest != []
    ensures 1 <= n <= |rest| && n <= BLOCK_SIZE
  {
    var most := if |rest| < BLOCK_SIZE then |rest| else BLOCK_SIZE;
    if sizes(k) < 1 then 1 else if sizes(k) > most then most else sizes(k)
  }

  function Stream(rest: Bytes, remaining: int, k: nat, sizes: nat -> nat): (out: seq<Resp>)
    decreases |rest|
  {
    if remaining <= 0 || rest == [] then []
    else
      var n := ReadSize(sizes, k, rest);
      [Resp(rest[..n], Wrap32(k), n >= remaining)] + Stream(rest[n..], remaining - n, k + 1, sizes)
  }

  lemma {:induction false} StreamStep(rest: Bytes, remaining: int, k: nat, sizes: nat -> nat)
    requires remaining > 0 && rest != []
    ensures var n := ReadSize(sizes, k, rest);
            Stream(rest, remaining, k, sizes) ==
            [Resp(rest[..n], Wrap32(k), n >= remaining)] + Stream(rest[n..], remaining - n, k + 1, sizes)
  {
  }

  function Datas(out: seq<Resp>): (blocks: seq<Bytes>)
    ensures |blocks| == |out|
  {
    seq(|out|, i requires 0 <= i < |out| => out[i].data)
  }

  function Received(out: seq<Resp>): (data: Bytes) { Concat(Datas(out)) }

  lemma {:induction false} ReceivedCons(r: Resp, out: seq<Resp>)
    ensures Received([r] + out) == r.data + Received(out)
  {
    assert Datas([r] + out)[1..] == Datas(out);
  }

  /** The data is a prefix of what is left, covers what was asked for, and overshoots by less than one block. */
  ghost predicate Covers(data: Bytes, rest: Bytes, remaining: int) {
    && data <= rest
    && (|data| >= remaining || data == rest)
    && (remaining > 0 ==> |data| < remaining + BLOCK_SIZE)
    && (remaining <= 0 ==> data == [])
  }

  lemma CoversCons(rest: Bytes, n: nat, data: Bytes, remaining: int)
    requires 1 <= n <= |rest| && n <= BLOCK_SIZE && remaining > 0 && Covers(data, rest[n..], remaining - n)
    ensures Covers(rest[..n] + data, rest, remaining)
  {
    assert rest == rest[..n] + rest[n..];
  }

  lemma {:induction false} StreamIsPrefix(rest: Bytes, remaining: int, k: nat, sizes: nat -> nat)
    ensures Covers(Received(Stream(rest, remaining, k, sizes)), rest, remaining)
    decreases |rest|
  {
    if remaining > 0 && rest != [] {
      var n := ReadSize(sizes, k, rest);
      var out := Stream(rest[n..], remaining - n, k + 1, sizes);
      StreamIsPrefix(rest[n..], remaining - n, k + 1, sizes);
      ReceivedCons(Resp(rest[..n], Wrap32(k), n >= remaining), out);
      CoversCons(rest, n, Received(out), remaining);
    }
  }

  ghost predicate Shape(out: seq<Resp>, k: nat) {
    forall i :: 0 <= i < |out| ==> out[i].index == Wrap32(k + i) && (out[i].isLast <==> i == |out| - 1)
  }

  lemma ShapeCons(r: Resp, out: seq<Resp>, k: nat)
    requires Shape(out, k + 1) && r.index == Wrap32(k) && (r.isLast <==> out == [])
    ensures Shape([r] + out, k)
  {
    forall i | 0 <= i < |[r] + out|
      ensures ([r] + out)[i].index == Wrap32(k + i) && (([r] + out)[i].isLast <==> i == |out|)
    {
      if i > 0 { assert ([r] + out)[i] == out[i - 1] && k + i == k + 1 + (i - 1); }
    }
  }

  /** Blocks are numbered consecutively, and IsLast is set on exactly the final block. */
  lemma {:induction false} StreamShape(rest: Bytes, remaining: int, k: nat, sizes: nat -> nat)
    requires remaining <= |rest|
    ensures var out := Stream(rest, remaining, k, sizes);
      && (out == [] <==> remaining <= 0)
      && Shape(out, k)
    decreases |rest|
  {
    if remaining > 0 {
      var n := ReadSize(sizes, k, rest);
      StreamShape(rest[n..], remaining - n, k + 1, sizes);
      ShapeCons(Resp(rest[..n], Wrap32(k), n >= remaining), Stream(rest[n..], remaining - n, k + 1, sizes), k);
    }
  }

  /** Where a read starts and how many bytes it is to cover, for a request's offset and limit. */
  function From(content: Bytes, offset: int): (rest: Bytes) {
    if offset <= 0 then content else if offset >= |content| then [] else content[offset..]
  }

  function Amount(content: Bytes, offset: int, limit: int): (n: int) {
    var size := if offset > 0 then |content| - offset else |content|;
    if limit > 0 && limit < size then limit else size
  }

  lemma AmountFits(content: Bytes, offset: int, limit: int)
    ensures Amount(content, offset, limit) <= |From(content, offset)|
    ensures limit <= 0 || limit >= |From(content, offset)| ==>
            Amount(content, offset, limit) == |From(content, offset)| ||
            Amount(content, offset, limit) <= 0 == |From(content, offset)|
  {
  }

  /** Without a limit exactly the bytes from the offset on are sent. */
  lemma UnlimitedReadIsExact(content: Bytes, offset: int, limit: int, sizes: nat -> nat)
    requires limit <= 0 || limit >= |From(content, offset)|
    ensures Received(Stream(From(content, offset), Amount(content, offset, limit), 0, sizes)) == From(content, offset)
  {
    AmountFits(content, offset, limit);
    StreamIsPrefix(From(content, offset), Amount(content, offset, limit), 0, sizes);
  }

  /** Writing a chunk in any blocks and reading it back without limit gives its bytes from the offset on. */
  lemma ReadBackWhatWasWritten(id: string, blocks: seq<Bytes>, mark: bool, offset: int, sizes: nat -> nat)
    requires blocks != []
    ensures var r := Assemble(Sent(id, blocks, mark), "", []);
      r.Some? && r.value.0 == id &&
      Received(Stream(From(r.value.1, offset), Amount(r.value.1, offset, 0), 0, sizes)) == From(Concat(blocks), offset)
  {
    AssembleInvertsSent(id, blocks, mark, "", []);
    assert [] + Concat(blocks) == Concat(blocks);
    UnlimitedReadIsExact(Concat(blocks), offset, 0, sizes);
  }

  // ---- A limit is honoured only in whole blocks ----

  function RoundUp(n: int): (m: int) {
    if n <= 0 then 0 else (n + BLOCK_SIZE - 1) / BLOCK_SIZE * BLOCK_SIZE
  }

  /** When every read fills its buffer as far as possible, whole blocks are sent. */
  lemma {:induction false} FullReads(rest: Bytes, remaining: int, k: nat, sizes: nat -> nat)
    requires forall i: nat :: i >= k ==> sizes(i) >= BLOCK_SIZE
    ensures var n := |Received(Stream(rest, remaining, k, sizes))|;
            n == if RoundUp(remaining) < |rest| then RoundUp(remaining) else |rest|
    decreases |rest|
  {
    if remaining > 0 && rest != [] {
      var n := ReadSize(sizes, k, rest);
      ReceivedCons(Resp(rest[..n], Wrap32(k), n >= remaining), Stream(rest[n..], remaining - n, k + 1, sizes));
      FullReads(rest[n..], remaining - n, k + 1, sizes);
    }
  }

  /** So, for full reads, a limited read returns exactly the asked bytes exactly when the limit is a multiple of the
      block size or reaches the end. */
  lemma LimitIsExactIff(content: Bytes, offset: int, limit: int, sizes: nat -> nat)
    requires limit > 0 && forall i: nat :: sizes(i) >= BLOCK_SIZE
    ensures var rest := From(content, offset);
      |Received(Stream(rest, Amount(content, offset, limit), 0, sizes))| ==
      (if limit < |rest| then limit else |rest|) <==>
      (limit % BLOCK_SIZE == 0 || limit >= |rest|)
  {
    var rest := From(content, offset);
    if limit >= |rest| {
      UnlimitedReadIsExact(content, offset, limit, sizes);
    } else {
      FullReads(rest, limit, 0, sizes);
    }
  }

  /** Every pattern of reads returns exactly the asked bytes exactly when the limit reaches the end. */
  lemma LimitIsExactForAllReadsIff(content: Bytes, offset: int, limit: int)
    requires limit > 0
    ensures var rest := From(content, offset);
      (forall sizes: nat -> nat ::
         |Received(Stream(rest, Amount(content, offset, limit), 0, sizes))| == if limit < |rest| then limit else |rest|)
      <==> limit >= |rest|
  {
    var rest := From(content, offset);
    if limit >= |rest| {
      forall sizes: nat -> nat
        ensures |Received(Stream(rest, Amount(content, offset, limit), 0, sizes))| == |rest|
      {
        UnlimitedReadIsExact(content, offset, limit, sizes);
      }
    } else {
      var sizes := Overshooting(limit);
      Overshoots(rest, limit);
      assert |Received(Stream(rest, Amount(content, offset, limit), 0, sizes))| != limit;
    }
  }

  /** Full reads, after a first read of one byte when full reads alone would meet the limit. */
  function Overshooting(limit: int): (sizes: nat -> nat) {
    k => if k == 0 && limit % BLOCK_SIZE == 0 then 1 else BLOCK_SIZE
  }

  lemma FirstShort(rest: Bytes, limit: int, sizes: nat -> nat)
    requires limit > 0 && rest != [] && sizes(0) == 1
    ensures |Received(Stream(rest, limit, 0, sizes))| == 1 + |Received(Stream(rest[1..], limit - 1, 1, sizes))|
  {
    StreamStep(rest, limit, 0, sizes);
    assert ReadSize(sizes, 0, rest) == 1;
    ReceivedCons(Resp(rest[..1], Wrap32(0), 1 >= limit), Stream(rest[1..], limit - 1, 1, sizes));
  }

  lemma Overshoots(rest: Bytes, limit: int)
    requires 0 < limit < |rest|
    ensures |Received(Stream(rest, limit, 0, Overshooting(limit)))| > limit
  {
    var sizes := Overshooting(limit);
    if limit % BLOCK_SIZE == 0 {
      FirstShort(rest, limit, sizes);
      FullReads(rest[1..], limit - 1, 1, sizes);
    } else {
      FullReads(rest, limit, 0, sizes);
    }
  }

  // ---- The program ----

  /** Ids that chunkPath accepts. */
  predicate ValidID(id: string) {
    id != "" && !HasDots(id) && '/' !in id && '\\' !in id
  }

  predicate HasDots(id: string) {
    exists i :: 0 <= i < |id| - 1 && id[i] == '.' && id[i + 1] == '.'
  }

  datatype Ack = Done(id: string, written: int) | Failed

  type Chunks = map<string, Bytes>

  /** How the disk answers a write: the file cannot be created, the copy fails on the way and the file is removed, or
      all is stored. */
  datatype Disk = NotCreated | CopyFailed | Stored

  /** ChunkStore.Write. The id "." passes the check but names the data directory, which cannot be created as a file. */
  function Write(chunks: Chunks, id: string, data: Bytes, disk: Disk): (r: (Chunks, Ack)) {
    if !ValidID(id) || id == "." || disk == NotCreated then (chunks, Failed)
    else if disk == CopyFailed then (chunks - {id}, Failed)
    else (chunks[id := data], Done(id, |data|))
  }

  /** ChunkStore.Exists. */
  predicate Exists(chunks: Chunks, id: string) {
    ValidID(id) && (id == "." || id in chunks)
  }

  /** Replicating into a store leaves every chunk it had as it was, whatever the disk does; writing does so exactly
      when the id is not taken, or the file could not be created, or the same bytes were stored. */
  lemma KeepsChunksIff(chunks: Chunks, id: string, data: Bytes, disk: Disk)
    requires forall k :: k in chunks ==> ValidID(k) && k != "."
    ensures var t := Write(chunks, id, data, disk).0;
      && ((forall k :: k in chunks ==> k in t && t[k] == chunks[k])
          <==> id !in chunks || disk == NotCreated || (disk == Stored && chunks[id] == data))
      && (!Exists(chunks, id) ==> forall k :: k in chunks ==> k in t && t[k] == chunks[k])
  {
    var t := Write(chunks, id, data, disk).0;
    assert forall k :: k in chunks && k != id ==> k in t && t[k] == chunks[k];
  }

  /** Ids a chunk can be stored under. */
  ghost predicate Storable(id: string) {
    id != "" && id != "." && '/' !in id && '\\' !in id &&
    forall i :: 0 <= i < |id| - 1 ==> id[i] != '.' || id[i + 1] != '.'
  }

  ghost predicate OthersKept(before: Chunks, after: Chunks, id: string) {
    forall k :: k != id ==> (k in after <==> k in before) && (k in before ==> after[k] == before[k])
  }

  /** A write is acknowledged exactly when the id is acceptable and the disk stores it all; the chunk is then exactly
      the data. Otherwise the chunk is as before, or gone if the copy failed; no other chunk is touched. */
  lemma WriteAnswer(chunks: Chunks, id: string, data: Bytes, disk: Disk)
    ensures var (t, ack) := Write(chunks, id, data, disk);
      && OthersKept(chunks, t, id)
      && (ack == Done(id, |data|) <==> Storable(id) && disk == Stored)
      && (ack == Done(id, |data|) ==> id in t && t[id] == data)
      && (ack != Done(id, |data|) ==> ack == Failed)
      && (ack == Failed && Storable(id) && disk == CopyFailed ==> id !in t)
      && (ack == Failed && !(Storable(id) && disk == CopyFailed) ==> t == chunks)
  {
    assert Storable(id) <==> ValidID(id) && id != ".";
  }

  /** What replication takes for present: the stored chunks, and the data directory itself. */
  lemma ExistsIff(chunks: Chunks, id: string)
    requires forall k :: k in chunks ==> Storable(k)
    ensures Exists(chunks, id) <==> id == "." || id in chunks
  {
    if id in chunks { assert Storable(id); }
  }

  /** What is left of the content from the offset on, as the caller counts. */
  ghost predicate IsRest(rest: Bytes, content: Bytes, offset: int) {
    if offset <= 0 then rest == content
    else if offset >= |content| then rest == []
    else |rest| == |content| - offset && forall i :: 0 <= i < |rest| ==> rest[i] == content[offset + i]
  }

  /** What a reader asks for: all of the rest, or a prefix that covers the limit and overshoots it by less than a
      block. */
  ghost predicate Delivers(data: Bytes, rest: Bytes, limit: int) {
    data <= rest && (limit <= 0 ==> data == rest) &&
    (limit > 0 ==> (|data| >= limit || data == rest) && |data| < limit + 1048576)
  }

  lemma ReadAnswer(content: Bytes, offset: int, limit: int, sizes: nat -> nat)
    ensures IsRest(From(content, offset), content, offset)
    ensures Delivers(Received(Stream(From(content, offset), Amount(content, offset, limit), 0, sizes)),
                     From(content, offset), limit)
  {
    var rest, n := From(content, offset), Amount(content, offset, limit);
    StreamIsPrefix(rest, n, 0, sizes);
    if limit <= 0 || limit >= |rest| { UnlimitedReadIsExact(content, offset, limit, sizes); }
  }

  /** Through the server: a chunk written in any blocks and read back. */
  method WriteThenRead(server: Server, id: string, blocks: seq<Bytes>, mark: bool, offset: int, limit: int,
                       sizes: nat -> nat)
    returns (ack: Ack, out: Option<seq<Resp>>, ghost rest: Bytes)
    requires server.Valid() && Storable(id) && blocks != []
    modifies server
    ensures server.Valid() && ack == Done(id, |Concat(blocks)|) && OthersKept(old(server.chunks), server.chunks, id)
    ensures IsRest(rest, Concat(blocks), offset) && out.Some? && Delivers(Received(out.value), rest, limit)
  {
    ack := server.WriteChunk(Sent(id, blocks, mark), Stored);
    AssembleInvertsSent(id, blocks, mark, "", []);
    assert [] + Concat(blocks) == Concat(blocks);
    WriteAnswer(old(server.chunks), id, Concat(blocks), Stored);
    out := server.ReadChunk(id, offset, limit, sizes);
    rest := From(Concat(blocks), offset);
    ReadAnswer(Concat(blocks), offset, limit, sizes);
  }

  /** Likewise a chunk received from a peer, if it was not there; one that was there is read back as it was. */
  method ReplicateThenRead(server: Server, id: string, blocks: seq<Bytes>, mark: bool, offset: int, limit: int,
                           sizes: nat -> nat)
    returns (ack: Ack, out: Option<seq<Resp>>, ghost rest: Bytes)
    requires server.Valid() && Storable(id) && blocks != []
    modifies server
    ensures server.Valid() && OthersKept(old(server.chunks), server.chunks, id)
    ensures ack == Done(id, if id in old(server.chunks) then 0 else |Concat(blocks)|)
    ensures IsRest(rest, if id in old(server.chunks) then old(server.chunks)[id] else Concat(blocks), offset)
    ensures out.Some? && Delivers(Received(out.value), rest, limit)
  {
    ghost var content := if id in server.chunks then server.chunks[id] else Concat(blocks);
    ack := server.ReplicateChunk(Sent(id, blocks, mark), Stored);
    AssembleInvertsSent(id, blocks, mark, "", []);
    assert [] + Concat(blocks) == Concat(blocks) && ValidID(id);
    WriteAnswer(old(server.chunks), id, Concat(blocks), Stored);
    out := server.ReadChunk(id, offset, limit, sizes);
    rest := From(content, offset);
    ReadAnswer(content, offset, limit, sizes);
  }

  class Server {
    var chunks: Chunks

    ghost predicate Valid()
      reads this
    {
      forall k :: k in chunks ==> ValidID(k) && k != "."
    }

    constructor ()
      ensures Valid() && chunks == map[]
    {
      chunks := map[];
    }

    method Receive(stream: seq<Recv>) returns (r: Option<(string, Bytes)>)
      ensures r == Assemble(stream, "", [])
    {
      var buf: Bytes := [];
      var chunkID := "";
      for i := 0 to |stream|
        invariant Assemble(stream, "", []) == Assemble(stream[i..], chunkID, buf)
      {
        var req := stream[i];
        assert stream[i..][0] == req && stream[i..][1..] == stream[i + 1..];
        if req.Broken? {
          return None;
        }
        if chunkID == "" {
          chunkID := req.chunkID;
        }
        buf := buf + req.data;
        if req.isLast {
          return Some((chunkID, buf));
        }
      }
      r := Some((chunkID, buf));
    }

    method WriteChunk(stream: seq<Recv>, disk: Disk) returns (ack: Ack)
      requires Valid()
      modifies this
      ensures Valid()
      ensures var r := Assemble(stream, "", []);
        if r.None? then ack == Failed && chunks == old(chunks)
        else (chunks, ack) == Write(old(chunks), r.value.0, r.value.1, disk)
    {
      var r := Receive(stream);
      if r.None? {
        return Failed;
      }
      ack := Persist(r.value.0, r.value.1, disk);
    }

    method Persist(id: string, data: Bytes, disk: Disk) returns (ack: Ack)
      requires Valid()
      modifies this
      ensures Valid() && (chunks, ack) == Write(old(chunks), id, data, disk)
    {
      if !ValidID(id) || id == "." || disk == NotCreated {
        return Failed;
      }
      if disk == CopyFailed {
        chunks := chunks - {id};
        return Failed;
      }
      chunks := chunks[id := data];
      ack := Done(id, |data|);
    }

    /** Replication of a chunk that is already there acknowledges and changes nothing. */
    method ReplicateChunk(stream: seq<Recv>, disk: Disk) returns (ack: Ack)
      requires Valid()
      modifies this
      ensures Valid() && forall id :: id in old(chunks) ==> id in chunks && chunks[id] == old(chunks)[id]
      ensures var r := Assemble(stream, "", []);
        if r.None? then ack == Failed && chunks == old(chunks)
        else if Exists(old(chunks), r.value.0) then ack == Done(r.value.0, 0) && chunks == old(chunks)
        else (chunks, ack) == Write(old(chunks), r.value.0, r.value.1, disk)
    {
      var r := Receive(stream);
      if r.None? {
        return Failed;
      }
      if Exists(chunks, r.value.0) {
        return Done(r.value.0, 0);
      }
      KeepsChunksIff(chunks, r.value.0, r.value.1, disk);
      ack := Persist(r.value.0, r.value.1, disk);
    }

    /** None: no such chunk, or the data directory itself, of which nothing can be read. The reader's position is the
        part of the content still unread. */
    method ReadChunk(id: string, offset: int, limit: int, sizes: nat -> nat) returns (out: Option<seq<Resp>>)
      ensures out == if id in chunks
        then Some(Stream(From(chunks[id], offset), Amount(chunks[id], offset, limit), 0, sizes)) else None
    {
      if id !in chunks {
        return None;
      }
      var rest, size := chunks[id], |chunks[id]|;
      if offset > 0 {
        rest := if offset >= |rest| then [] else rest[offset..];
        size := size - offset;
      }
      if limit > 0 && limit < size {
        size := limit;
      }
      var sent := SendBlocks(rest, size, sizes);
      out := Some(sent);
    }

    /** ReadChunk's loop. */
    method SendBlocks(content: Bytes, size: int, sizes: nat -> nat) returns (sent: seq<Resp>)
      ensures sent == Stream(content, size, 0, sizes)
    {
      sent := [];
      var rest, index, remaining, count := content, 0, size, 0;
      while remaining > 0 && rest != []
        invariant Stream(content, size, 0, sizes) == sent + Stream(rest, remaining, count, sizes)
        invariant index == Wrap32(count) && count >= 0
        decreases |rest|
      {
        var n := ReadSize(sizes, count, rest);
        var isLast := n >= remaining;
        SendOne(sent, rest, remaining, count, sizes);
        sent := sent + [Resp(rest[..n], index, isLast)];
        remaining := remaining - n;
        index := Increment32(index, count);
        rest, count := rest[n..], count + 1;
      }
    }
  }

  lemma SendOne(sent: seq<Resp>, rest: Bytes, remaining: int, k: nat, sizes: nat -> nat)
    requires remaining > 0 && rest != []
    ensures var n := ReadSize(sizes, k, rest);
            sent + Stream(rest, remaining, k, sizes) ==
            (sent + [Resp(rest[..n], Wrap32(k), n >= remaining)]) + Stream(rest[n..], remaining - n, k + 1, sizes)
  {
    StreamStep(rest, remaining, k, sizes);
    var n := ReadSize(sizes, k, rest);
    var r, out := Resp(rest[..n], Wrap32(k), n >= remaining), Stream(rest[n..], remaining - n, k + 1, sizes);
    assert sent + ([r] + out) == (sent + [r]) + out;
  }

  /** index++ on a 32-bit signed integer that has counted k blocks. */
  function Increment32(index: int, ghost k: nat): (next: int)
    requires index == Wrap32(k)
    ensures next == Wrap32(k + 1)
  {
    WrapNext(k);
    if index == 0x7fff_ffff then -0x8000_0000 else index + 1
  }

  lemma WrapNext(k: nat)
    ensures Wrap32(k + 1) == if Wrap32(k) == 0x7fff_ffff then -0x8000_0000 else Wrap32(k) + 1
  {
    var m := 0x1_0000_0000;
    if k % m == m - 1 {
      DivisionUnique(k + 1, k / m + 1, 0, m);
    } else {
      DivisionUnique(k + 1, k / m, k % m + 1, m);
    }
  }
}
