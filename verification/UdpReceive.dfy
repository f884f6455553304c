// The UDP receiver: a pool of fragment buffers, each in one io_uring operation at a time,
// with submissions batched by a threshold.
//
// The kernel completes any submitted operation, in any order. `arrivals` is how many
// datagrams the network still delivers; it is arbitrary, and so are the datagrams. A write
// that completes without error has written everything it was asked to.
module UdpReceive {
  import opened Bytes
  import opened Files
  import opened UdpWire
  import opened Wrappers
  import Chunks

  // The operation a buffer is in: prepared but not submitted, or submitted. A buffer is idle
  // only between its completion and what replaces it.
  datatype Kind = Idle | RecvQueued | RecvPosted | WriteQueued | WritePosted

  // For a write: fragment `index`, `len` bytes to file offset `at`.
  datatype Op = Op(kind: Kind, index: nat, at: nat, len: nat)

  const IDLE := Op(Idle, 0, 0, 0)
  const RECV := Op(RecvQueued, 0, 0, 0)

  datatype Tag = RecvDone | WriteDone
  datatype Cqe = Cqe(tag: Tag, buf: nat, res: int)
  datatype Outcome = Done | Threw | Starved

  function Tally(ops: seq<Op>, kind: Kind): (n: nat)
    ensures n <= |ops|
  {
    if ops == [] then 0 else Tally(ops[..|ops| - 1], kind) + if ops[|ops| - 1].kind == kind then 1 else 0
  }

  lemma {:induction false} Retally(ops: seq<Op>, b: nat, op: Op, kind: Kind)
    requires b < |ops|
    ensures Tally(ops[b := op], kind)
         == Tally(ops, kind) - (if ops[b].kind == kind then 1 else 0) + if op.kind == kind then 1 else 0
  {
    var n := |ops| - 1;
    if b < n {
      Retally(ops[..n], b, op, kind);
      assert ops[b := op][..n] == ops[..n][b := op];
    } else {
      assert ops[b := op][..n] == ops[..n];
    }
  }

  // The five counts cover the pool: an operation has one kind. That a buffer is in one operation
  // only is what Prepare demands of its callers.
  lemma {:induction false} TallySum(ops: seq<Op>)
    ensures Tally(ops, Idle) + Tally(ops, RecvQueued) + Tally(ops, RecvPosted)
            + Tally(ops, WriteQueued) + Tally(ops, WritePosted) == |ops|
  {
    if ops != [] { TallySum(ops[..|ops| - 1]); }
  }

  lemma {:induction false} TallyZero(ops: seq<Op>, kind: Kind)
    ensures Tally(ops, kind) == 0 <==> forall b :: 0 <= b < |ops| ==> ops[b].kind != kind
  {
    if ops != [] { TallyZero(ops[..|ops| - 1], kind); }
  }

  lemma {:induction false} TallyAll(ops: seq<Op>, kind: Kind)
    ensures Tally(ops, kind) == |ops| <==> forall b :: 0 <= b < |ops| ==> ops[b].kind == kind
  {
    if ops != [] { TallyAll(ops[..|ops| - 1], kind); }
  }

  function Post(op: Op): Op {
    match op.kind
    case RecvQueued => op.(kind := RecvPosted)
    case WriteQueued => op.(kind := WritePosted)
    case _ => op
  }

  // io_uring_submit: everything prepared is handed to the kernel.
  function Submitted(ops: seq<Op>): (r: seq<Op>)
    ensures |r| == |ops| && forall b :: 0 <= b < |ops| ==> r[b] == Post(ops[b])
  {
    seq(|ops|, b requires 0 <= b < |ops| => Post(ops[b]))
  }

  lemma {:induction false} TallySubmitted(ops: seq<Op>)
    ensures Tally(Submitted(ops), RecvQueued) == 0 && Tally(Submitted(ops), WriteQueued) == 0
    ensures Tally(Submitted(ops), RecvPosted) == Tally(ops, RecvQueued) + Tally(ops, RecvPosted)
    ensures Tally(Submitted(ops), WritePosted) == Tally(ops, WriteQueued) + Tally(ops, WritePosted)
    ensures Tally(Submitted(ops), Idle) == Tally(ops, Idle)
  {
    if ops != [] {
      var n := |ops| - 1;
      TallySubmitted(ops[..n]);
      assert Submitted(ops)[..n] == Submitted(ops[..n]);
    }
  }

  // What holds at every wait: the two counters cover the whole pool; a prepared operation
  // waits only below its threshold; nothing is left to write but what is submitted once the
  // last fragment is in.
  ghost predicate PoolOk(ops: seq<Op>, recvs: int, writes: int, remaining: nat) {
    && Tally(ops, Idle) == 0
    && recvs == Tally(ops, RecvQueued) + Tally(ops, RecvPosted)
    && writes == Tally(ops, WriteQueued) + Tally(ops, WritePosted)
    && (Tally(ops, RecvQueued) > 0 ==> recvs < |ops| / 2)
    && (Tally(ops, WriteQueued) > 0 ==> writes < |ops| / 2 && remaining > 0)
  }

  // So the loop never waits on operations it has not submitted: something is submitted; what
  // is not is of one kind only; once the last fragment is in, only submitted writes are
  // waited for; and at a chunk boundary every buffer is receiving again.
  lemma WaitMakesProgress(ops: seq<Op>, recvs: int, writes: int, remaining: nat)
    requires PoolOk(ops, recvs, writes, remaining) && ops != []
    ensures recvs + writes == |ops|
    ensures Tally(ops, RecvPosted) + Tally(ops, WritePosted) > 0
    ensures Tally(ops, RecvQueued) == 0 || Tally(ops, WriteQueued) == 0
    ensures remaining == 0 ==> Tally(ops, WritePosted) == writes
    ensures remaining == 0 && writes == 0 ==> forall b :: 0 <= b < |ops| ==> ops[b].kind == RecvPosted
  {
    TallySum(ops);
    TallyAll(ops, RecvPosted);
  }

  // The submission queue has room for one more.
  lemma QueueHasRoom(ops: seq<Op>, recvs: int, writes: int, remaining: nat)
    requires PoolOk(ops, recvs, writes, remaining) && ops != [] && |ops| <= QUEUE_DEPTH
    ensures Tally(ops, RecvQueued) + Tally(ops, WriteQueued) < QUEUE_DEPTH
  {
    WaitMakesProgress(ops, recvs, writes, remaining);
  }

  function Flushed(ops: seq<Op>, submit: bool): seq<Op> {
    if submit then Submitted(ops) else ops
  }

  // A completed write, or a duplicate fragment: its buffer goes back to receiving.
  lemma ReclaimKeeps(ops: seq<Op>, recvs: int, writes: int, remaining: nat, b: nat)
    requires PoolOk(ops, recvs, writes, remaining) && b < |ops| && ops[b].kind in {RecvPosted, WritePosted}
    ensures var wasWrite := ops[b].kind == WritePosted;
            var recvs', writes' := recvs + (if wasWrite then 1 else 0), writes - if wasWrite then 1 else 0;
            PoolOk(Flushed(ops[b := Op(RecvQueued, 0, 0, 0)], recvs' >= |ops| / 2), recvs', writes', remaining)
  {
    Retallied(ops, b, Op(RecvQueued, 0, 0, 0));
    TallySubmitted(ops[b := Op(RecvQueued, 0, 0, 0)]);
  }

  // A new fragment: its buffer goes from receiving to writing.
  lemma WriteKeeps(ops: seq<Op>, recvs: int, writes: int, remaining: nat, b: nat, op: Op)
    requires PoolOk(ops, recvs, writes, remaining) && b < |ops| && ops[b].kind == RecvPosted
    requires remaining > 0 && op.kind == WriteQueued
    ensures PoolOk(Flushed(ops[b := op], writes + 1 >= |ops| / 2 || remaining - 1 == 0), recvs - 1, writes + 1, remaining - 1)
  {
    Retallied(ops, b, op);
    TallySubmitted(ops[b := op]);
  }

  lemma Retallied(ops: seq<Op>, b: nat, op: Op)
    requires b < |ops|
    ensures forall kind :: Tally(ops[b := op], kind)
              == Tally(ops, kind) - (if ops[b].kind == kind then 1 else 0) + if op.kind == kind then 1 else 0
  {
    forall kind
      ensures Tally(ops[b := op], kind)
           == Tally(ops, kind) - (if ops[b].kind == kind then 1 else 0) + if op.kind == kind then 1 else 0
    {
      Retally(ops, b, op, kind);
    }
  }

  // ---- the fragments of one chunk ----

  function Unset(received: seq<bool>): (n: nat)
    ensures n <= |received|
  {
    if received == [] then 0 else Unset(received[..|received| - 1]) + if received[|received| - 1] then 0 else 1
  }

  lemma {:induction false} SetOne(received: seq<bool>, i: nat)
    requires i < |received| && !received[i]
    ensures Unset(received[i := true]) == Unset(received) - 1
  {
    var n := |received| - 1;
    if i < n {
      SetOne(received[..n], i);
      assert received[i := true][..n] == received[..n][i := true];
    } else {
      assert received[i := true][..n] == received[..n];
    }
  }

  lemma {:induction false} UnsetIsZero(received: seq<bool>)
    ensures Unset(received) == 0 <==> forall i :: 0 <= i < |received| ==> received[i]
    ensures (forall i :: 0 <= i < |received| ==> !received[i]) ==> Unset(received) == |received|
  {
    if received != [] { UnsetIsZero(received[..|received| - 1]); }
  }

  // ---- what the datagrams of one loop amount to ----

  // A datagram as process_fragment reads it: a fragment number, and a payload that the header
  // delimits. Its chunk number plays no part: the receiver does not look at it.
  predicate Numbered(d: bytes, i: nat) {
    |d| >= HDR && ParseHdr(d).index == i
  }

  function Payload(d: bytes): bytes
    requires |d| >= HDR
  {
    if HDR + ParseHdr(d).len <= |d| then d[HDR..HDR + ParseHdr(d).len] else d[HDR..]
  }

  // If it is taken for one of n fragments, its header tells the truth about its length, and
  // the payload fits a fragment's place.
  predicate Fits(d: bytes, n: nat) {
    |d| >= HDR && ParseHdr(d).index < n ==> HDR + ParseHdr(d).len <= |d| && ParseHdr(d).len <= PAYLOAD
  }

  ghost predicate AllFit(seen: seq<bytes>, n: nat) {
    forall j :: 0 <= j < |seen| ==> Fits(seen[j], n)
  }

  // The payload of the first datagram with number i.
  function FirstOf(seen: seq<bytes>, i: nat): Option<bytes> {
    if seen == [] then None
    else
      var before := FirstOf(seen[..|seen| - 1], i);
      if before.None? && Numbered(seen[|seen| - 1], i) then Some(Payload(seen[|seen| - 1])) else before
  }

  function Firsts(seen: seq<bytes>, n: nat): (first: seq<Option<bytes>>)
    ensures |first| == n && forall i :: 0 <= i < n ==> first[i] == FirstOf(seen, i)
  {
    seq(n, (i: nat) => FirstOf(seen, i))
  }

  lemma FirstsMore(seen: seq<bytes>, d: bytes, n: nat)
    ensures Firsts(seen + [d], n)
         == if |d| >= HDR && ParseHdr(d).index < n && FirstOf(seen, ParseHdr(d).index).None?
            then Firsts(seen, n)[ParseHdr(d).index := Some(Payload(d))] else Firsts(seen, n)
    ensures AllFit(seen + [d], n) <==> AllFit(seen, n) && Fits(d, n)
  {
    var more := seen + [d];
    assert more[..|seen|] == seen && more[|seen|] == d;
    forall j | 0 <= j < |seen| ensures more[j] == seen[j] {}
  }

  // ---- where their payloads are ----

  // Byte x of the data is in the file, which has the data from `at` on.
  ghost predicate Holds(file: bytes, at: nat, data: bytes, x: nat) {
    x < |data| && at + x < |file| && file[at + x] == data[x]
  }

  // Fragment i of the chunk at `at` is in the file.
  ghost predicate Landed(file: bytes, at: nat, data: bytes, i: nat) {
    HoldsAll(file, at + i * PAYLOAD, data)
  }

  ghost predicate HoldsAll(file: bytes, at: nat, data: bytes) {
    forall x: nat :: x < |data| ==> Holds(file, at, data, x)
  }

  ghost predicate CoveredBy(x: int, at: nat, first: seq<Option<bytes>>, i: nat) {
    i < |first| && first[i].Some? && at + i * PAYLOAD <= x < at + i * PAYLOAD + |first[i].value|
  }

  ghost predicate Covered(x: int, at: nat, first: seq<Option<bytes>>) {
    exists i: nat :: CoveredBy(x, at, first, i)
  }

  // Nothing but the places of these payloads has been written.
  ghost predicate Untouched(file: bytes, before: bytes, at: nat, first: seq<Option<bytes>>) {
    && |before| <= |file|
    && (|before| < |file| ==> Covered(|file| - 1, at, first))
    && forall x :: 0 <= x < |before| ==> file[x] == before[x] || Covered(x, at, first)
  }

  ghost predicate Outside(file: bytes, before: bytes, at: nat, len: nat) {
    && |before| <= |file| && (|file| <= |before| || |file| <= at + len)
    && forall x :: 0 <= x < |before| && !(at <= x < at + len) ==> file[x] == before[x]
  }

  predicate Writing(op: Op) {
    op.kind == WriteQueued || op.kind == WritePosted
  }

  // A buffer being written still holds the first payload with its number.
  ghost predicate BufferOk(op: Op, mem: bytes, at: nat, first: seq<Option<bytes>>) {
    Writing(op) ==>
      && op.at == at + op.index * PAYLOAD && op.index < |first| && first[op.index].Some?
      && op.len == |first[op.index].value| <= PAYLOAD && HDR + op.len <= |mem|
      && mem[HDR..HDR + op.len] == first[op.index].value
  }

  ghost predicate InFlight(ops: seq<Op>, i: nat) {
    exists b :: 0 <= b < |ops| && Writing(ops[b]) && ops[b].index == i
  }

  // Every fragment received is in the file or in a buffer on its way there; nothing else has
  // been written.
  ghost predicate ContentOk(ops: seq<Op>, mem: seq<bytes>, file: bytes, before: bytes, at: nat, first: seq<Option<bytes>>) {
    && |ops| == |mem|
    && (forall b :: 0 <= b < |ops| ==> BufferOk(ops[b], mem[b], at, first))
    && (forall i :: 0 <= i < |first| && first[i].Some? ==>
          |first[i].value| <= PAYLOAD && (Landed(file, at, first[i].value, i) || InFlight(ops, i)))
    && Untouched(file, before, at, first)
  }

  lemma ContentFlushed(ops: seq<Op>, mem: seq<bytes>, file: bytes, before: bytes, at: nat, first: seq<Option<bytes>>)
    requires ContentOk(ops, mem, file, before, at, first)
    ensures ContentOk(Submitted(ops), mem, file, before, at, first)
  {
    hide Landed, Untouched;
    forall i | 0 <= i < |first| && first[i].Some? && InFlight(ops, i) ensures InFlight(Submitted(ops), i) {
      var b :| 0 <= b < |ops| && Writing(ops[b]) && ops[b].index == i;
      assert Writing(Submitted(ops)[b]);
    }
  }

  // A buffer that is not being written may change hands freely.
  lemma ContentRecv(ops: seq<Op>, mem: seq<bytes>, file: bytes, before: bytes, at: nat, first: seq<Option<bytes>>,
                    b: nat, op: Op, data: bytes)
    requires ContentOk(ops, mem, file, before, at, first)
    requires b < |ops| && !Writing(ops[b]) && !Writing(op)
    ensures ContentOk(ops[b := op], mem[b := data], file, before, at, first)
  {
    hide Landed, Untouched;
    forall i | InFlight(ops, i) ensures InFlight(ops[b := op], i) {
      var c :| 0 <= c < |ops| && Writing(ops[c]) && ops[c].index == i;
      assert Writing(ops[b := op][c]);
    }
  }

  // A fragment not received before is on its way once its buffer is.
  lemma ContentWrite(ops: seq<Op>, mem: seq<bytes>, file: bytes, before: bytes, at: nat, first: seq<Option<bytes>>,
                     b: nat, op: Op, data: bytes)
    requires ContentOk(ops, mem, file, before, at, first) && b < |ops| && !Writing(ops[b]) && Writing(op)
    requires op.index < |first| && first[op.index].None? && BufferOk(op, mem[b], at, first[op.index := Some(data)])
    ensures ContentOk(ops[b := op], mem, file, before, at, first[op.index := Some(data)])
  {
    hide Landed, Untouched;
    var ops', first' := ops[b := op], first[op.index := Some(data)];
    assert Writing(ops'[b]);
    forall c | 0 <= c < |ops'| ensures BufferOk(ops'[c], mem[c], at, first') {
      assert BufferOk(ops[c], mem[c], at, first);
    }
    forall i | InFlight(ops, i) ensures InFlight(ops', i) {
      var c :| 0 <= c < |ops| && Writing(ops[c]) && ops[c].index == i;
      assert Writing(ops'[c]);
    }
    UntouchedMore(file, before, at, first, op.index, data);
  }

  lemma UntouchedMore(file: bytes, before: bytes, at: nat, first: seq<Option<bytes>>, i: nat, data: bytes)
    requires Untouched(file, before, at, first) && i < |first| && first[i].None?
    ensures Untouched(file, before, at, first[i := Some(data)])
  {
    var first' := first[i := Some(data)];
    forall x | Covered(x, at, first) ensures Covered(x, at, first') {
      var j: nat :| CoveredBy(x, at, first, j);
      assert CoveredBy(x, at, first', j);
    }
  }

  lemma HoldsStays(file: bytes, file': bytes, at: nat, data: bytes, lo: nat, hi: nat)
    requires HoldsAll(file, at, data) && |file| <= |file'| && (at + |data| <= lo || hi <= at)
    requires forall x :: 0 <= x < |file| && !(lo <= x < hi) ==> file'[x] == file[x]
    ensures HoldsAll(file', at, data)
  {
    forall x: nat | x < |data| ensures Holds(file', at, data, x) { assert Holds(file, at, data, x); }
  }

  // Writing a payload in its place puts it there, keeps every other, and touches nothing else.
  lemma PieceLands(file: bytes, before: bytes, at: nat, first: seq<Option<bytes>>, i: nat)
    requires i < |first| && first[i].Some? && |first[i].value| <= PAYLOAD && Untouched(file, before, at, first)
    ensures var file' := Put(file, at + i * PAYLOAD, first[i].value);
            && Landed(file', at, first[i].value, i) && Untouched(file', before, at, first)
            && forall j: nat, data: bytes :: j != i && |data| <= PAYLOAD && Landed(file, at, data, j) ==> Landed(file', at, data, j)
  {
    hide Put;
    var start, p := at + i * PAYLOAD, first[i].value;
    var file' := Put(file, start, p);
    PutReads(file, start, p);
    forall x: nat | x < |p| ensures Holds(file', start, p, x) {
      assert file'[start + x] == file'[start..start + |p|][x];
    }
    forall j: nat, data: bytes | j != i && |data| <= PAYLOAD && Landed(file, at, data, j) ensures Landed(file', at, data, j) {
      HoldsStays(file, file', at + j * PAYLOAD, data, start, start + |p|);
    }
    forall x | start <= x < start + |p| ensures Covered(x, at, first) { assert CoveredBy(x, at, first, i); }
    forall x | 0 <= x < |before| ensures file'[x] == before[x] || Covered(x, at, first) {
      if !(start <= x < start + |p|) { assert file'[x] == file[x]; }
    }
  }

  // A completed write lands its fragment.
  lemma ContentLands(ops: seq<Op>, mem: seq<bytes>, file: bytes, before: bytes, at: nat, first: seq<Option<bytes>>, b: nat)
    requires ContentOk(ops, mem, file, before, at, first) && b < |ops| && Writing(ops[b])
    ensures |mem[b]| >= HDR + ops[b].len && ops[b].len <= PAYLOAD
    ensures var file' := Put(file, ops[b].at, mem[b][HDR..HDR + ops[b].len]);
            ContentOk(ops[b := IDLE], mem, file', before, at, first)
  {
    hide Landed, Untouched, Put;
    var i := ops[b].index;
    assert BufferOk(ops[b], mem[b], at, first);
    PieceLands(file, before, at, first, i);
    var ops' := ops[b := IDLE];
    var file' := Put(file, ops[b].at, mem[b][HDR..HDR + ops[b].len]);
    forall j | 0 <= j < |first| && first[j].Some? ensures Landed(file', at, first[j].value, j) || InFlight(ops', j) {
      if !Landed(file, at, first[j].value, j) && j != i {
        var c :| 0 <= c < |ops| && Writing(ops[c]) && ops[c].index == j;
        assert Writing(ops'[c]);
      }
    }
  }

  // All fragments received and none in flight: each place holds the first payload taken with
  // its number.
  ghost predicate AllLanded(file: bytes, before: bytes, at: nat, first: seq<Option<bytes>>) {
    && (forall i :: 0 <= i < |first| ==> first[i].Some? && |first[i].value| <= PAYLOAD && Landed(file, at, first[i].value, i))
    && Untouched(file, before, at, first)
  }

  lemma ContentComplete(ops: seq<Op>, mem: seq<bytes>, file: bytes, before: bytes, at: nat, first: seq<Option<bytes>>)
    requires ContentOk(ops, mem, file, before, at, first)
    requires forall i :: 0 <= i < |first| ==> first[i].Some?
    requires forall b :: 0 <= b < |ops| ==> !Writing(ops[b])
    ensures AllLanded(file, before, at, first)
  {
    hide BufferOk, Untouched, Landed;
    forall i | 0 <= i < |first| ensures Landed(file, at, first[i].value, i) {
      assert !InFlight(ops, i);
    }
  }

  // ---- the chunk ----

  // A datagram that, if it is taken for a fragment of this chunk, carries the chunk's bytes.
  ghost predicate Genuine(d: bytes, chunk: bytes) {
    |d| >= HDR && ParseHdr(d).index < FragCount(|chunk|) ==>
      Fits(d, FragCount(|chunk|)) && Payload(d) == Piece(chunk, ParseHdr(d).index)
  }

  lemma FragmentIsGenuine(chunk: bytes, k: P.u32, i: nat)
    requires i < FragCount(|chunk|) && i < P.TWO32
    ensures var d := Fragment(chunk, k, i);
            Genuine(d, chunk) && Numbered(d, i) && Payload(d) == Piece(chunk, i)
  {
    FragsTile(|chunk|, i);
    HdrRoundTrip(FragHdr(k, i, |Piece(chunk, i)|), Piece(chunk, i));
    var d := Fragment(chunk, k, i);
    assert d[HDR..HDR + ParseHdr(d).len] == d[HDR..];
  }

  ghost predicate AllGenuine(seen: seq<bytes>, chunk: bytes) {
    forall j :: 0 <= j < |seen| ==> Genuine(seen[j], chunk)
  }

  // Genuine datagrams fit, and the first with each number is the chunk's fragment.
  lemma {:induction false} GenuineFirsts(seen: seq<bytes>, chunk: bytes, i: nat)
    requires AllGenuine(seen, chunk) && i < FragCount(|chunk|)
    ensures AllFit(seen, FragCount(|chunk|))
    ensures FirstOf(seen, i).Some? ==> FirstOf(seen, i).value == Piece(chunk, i)
  {
    if seen != [] {
      var last := |seen| - 1;
      assert Genuine(seen[last], chunk);
      GenuineFirsts(seen[..last], chunk, i);
      forall j | 0 <= j < |seen| ensures Fits(seen[j], FragCount(|chunk|)) { assert Genuine(seen[j], chunk); }
    }
  }

  // Payloads of the right lengths stay inside the chunk's range.
  ghost predicate Sized(first: seq<Option<bytes>>, len: nat) {
    |first| == FragCount(len) && forall i :: 0 <= i < |first| && first[i].Some? ==> |first[i].value| == FragLen(len, i)
  }

  lemma UntouchedOutside(file: bytes, before: bytes, at: nat, first: seq<Option<bytes>>, len: nat)
    requires Untouched(file, before, at, first) && Sized(first, len)
    ensures Outside(file, before, at, len)
  {
    forall x | Covered(x, at, first) ensures at <= x < at + len {
      var i: nat :| CoveredBy(x, at, first, i);
      FragsTile(len, i);
    }
  }

  // The first payload with each number is the chunk's fragment.
  ghost predicate FirstsRight(first: seq<Option<bytes>>, chunk: bytes) {
    |first| == FragCount(|chunk|) && forall i :: 0 <= i < |first| ==> first[i] == Some(Piece(chunk, i))
  }

  lemma PieceOf(len: nat, x: nat)
    requires x < len
    ensures var i := x / PAYLOAD;
            i < FragCount(len) && i * PAYLOAD <= x < i * PAYLOAD + FragLen(len, i)
  {
  }

  // The range holds the chunk exactly when those payloads, being of the right lengths, are the
  // chunk's fragments.
  lemma RangeIsChunkIff(file: bytes, before: bytes, at: nat, first: seq<Option<bytes>>, chunk: bytes)
    requires AllLanded(file, before, at, first) && Sized(first, |chunk|)
    ensures HoldsAll(file, at, chunk) <==> FirstsRight(first, chunk)
  {
    hide HoldsAll, Untouched, FragCount, FragLen, Piece;
    if FirstsRight(first, chunk) {
      forall i | 0 <= i < |first| ensures HoldsAll(file, at + i * PAYLOAD, Piece(chunk, i)) {
        assert Landed(file, at, first[i].value, i);
      }
      PiecesHold(file, at, chunk);
    } else {
      var i :| 0 <= i < |first| && first[i] != Some(Piece(chunk, i));
      assert Landed(file, at, first[i].value, i);
      WrongPiece(file, at, chunk, i, first[i].value);
    }
  }

  lemma PiecesHold(file: bytes, at: nat, chunk: bytes)
    requires forall i :: 0 <= i < FragCount(|chunk|) ==> HoldsAll(file, at + i * PAYLOAD, Piece(chunk, i))
    ensures HoldsAll(file, at, chunk)
  {
    forall x: nat | x < |chunk| ensures Holds(file, at, chunk, x) {
      PieceOf(|chunk|, x);
      var i := x / PAYLOAD;
      assert HoldsAll(file, at + i * PAYLOAD, Piece(chunk, i));
      assert Holds(file, at + i * PAYLOAD, Piece(chunk, i), x - i * PAYLOAD);
    }
  }

  lemma Differ(p: bytes, q: bytes) returns (y: nat)
    requires |p| == |q| && p != q
    ensures y < |p| && p[y] != q[y]
  {
    y := 0;
    while p[..y + 1] == q[..y + 1]
      invariant y < |p| && p[..y] == q[..y]
      decreases |p| - y
    {
      assert p[..|p|] == p && q[..|q|] == q;
      y := y + 1;
    }
    assert p[..y + 1] == p[..y] + [p[y]] && q[..y + 1] == q[..y] + [q[y]];
  }

  lemma WrongPiece(file: bytes, at: nat, chunk: bytes, i: nat, p: bytes)
    requires i < FragCount(|chunk|) && |p| == FragLen(|chunk|, i) && p != Piece(chunk, i)
    requires HoldsAll(file, at + i * PAYLOAD, p)
    ensures !HoldsAll(file, at, chunk)
  {
    FragsTile(|chunk|, i);
    var q := Piece(chunk, i);
    var y := Differ(p, q);
    assert Holds(file, at + i * PAYLOAD, p, y) && q[y] == chunk[i * PAYLOAD + y];
    assert !Holds(file, at, chunk, i * PAYLOAD + y);
  }

  // What a receive leaves in the buffer: the datagram, then what was there before.
  function Filled(mem: bytes, d: bytes): bytes
    requires |d| <= |mem|
  {
    d + mem[|d|..]
  }

  lemma FilledHdr(mem: bytes, d: bytes)
    requires HDR <= |d| <= |mem|
    ensures ParseHdr(Filled(mem, d)) == ParseHdr(d)
  {
    var m := Filled(mem, d);
    assert m[..4] == d[..4] && m[4..8] == d[4..8] && m[8..10] == d[8..10];
  }

  // The bytes that a write of `len` bytes takes from buffer b: for a length past the buffer's
  // end, registered buffers make the kernel refuse it, and otherwise the next buffer's bytes
  // follow, because the buffers are one piece of memory.
  function WriteData(mem: seq<bytes>, b: nat, len: nat, registered: bool): Option<bytes>
    requires b < |mem|
  {
    if HDR + len <= |mem[b]| then Some(mem[b][HDR..HDR + len])
    else if registered || |mem[b]| < HDR || b + 1 >= |mem| || HDR + len - |mem[b]| > |mem[b + 1]| then None
    else Some(mem[b][HDR..] + mem[b + 1][..HDR + len - |mem[b]|])
  }

  // A completion that ends the chunk's loop with an exception: a failed write, or a datagram
  // that is short or out of range.
  predicate Fatal(c: Cqe, d: bytes, n: nat) {
    match c.tag
    case RecvDone => |d| < HDR || ParseHdr(d).index >= n
    case WriteDone => c.res < 0
  }

  ghost predicate Spoilt(history: seq<(Cqe, bytes)>, from: nat, n: nat) {
    exists i :: from <= i < |history| && Fatal(history[i].0, history[i].1, n)
  }

  lemma SpoiltMore(h0: seq<(Cqe, bytes)>, h1: seq<(Cqe, bytes)>, c: Cqe, d: bytes, n: nat)
    requires h0 <= h1
    ensures Spoilt(h1 + [(c, d)], |h0|, n) <==> Spoilt(h1, |h0|, n) || Fatal(c, d, n)
  {
    var h2 := h1 + [(c, d)];
    assert h2[|h1|] == (c, d);
    if i :| |h0| <= i < |h1| && Fatal(h1[i].0, h1[i].1, n) { assert h2[i] == h1[i]; }
  }

  lemma FatalMeans(c: Cqe, d: bytes, n: nat)
    ensures c.tag.RecvDone? ==> (Fatal(c, d, n) <==> |d| < HDR || ParseHdr(d).index >= n)
    ensures c.tag.WriteDone? ==> (Fatal(c, d, n) <==> c.res < 0)
  {
  }

  lemma NotSpoilt(history: seq<(Cqe, bytes)>, n: nat)
    ensures !Spoilt(history, |history|, n)
  {
  }

  class UdpReceiver {
    const pool: nat
    const registered: bool
    var ops: seq<Op>
    var mem: seq<bytes>
    var file: bytes
    var arrivals: nat
    var acks: seq<nat>
    var ready: nat
    // recv_file's counters and the RecvState of the chunk being received.
    var pendingRecvs: int
    var pendingWrites: int
    var chunkOffset: nat
    var fragCount: nat
    var received: seq<bool>
    var fragRemaining: nat
    // Every datagram taken in this chunk's loop.
    ghost var seen: seq<bytes>
    // History: every completion, with the datagram a receive brought, and the control messages
    // that could not be sent.
    ghost var history: seq<(Cqe, bytes)>
    ghost var unsent: nat

    ghost predicate Buffers()
      reads `ops, `mem
    {
      |ops| == |mem| == pool && pool > 0 && forall b :: 0 <= b < pool ==> |mem[b]| == MTU
    }

    // A fragment's bit is set exactly when a datagram with its number was taken, and the
    // counter is the number of bits not set.
    ghost predicate Bits()
      reads `received, `fragCount, `fragRemaining, `seen
    {
      && |received| == fragCount && fragRemaining == Unset(received)
      && forall i :: 0 <= i < fragCount ==> (received[i] <==> FirstOf(seen, i).Some?)
    }

    ghost predicate Pool()
      reads `ops, `pendingRecvs, `pendingWrites, `fragRemaining
    {
      PoolOk(ops, pendingRecvs, pendingWrites, fragRemaining)
    }

    ghost predicate Valid()
      reads this
    {
      Buffers() && Bits() && Pool() && pool <= QUEUE_DEPTH
    }

    ghost function First(): seq<Option<bytes>>
      reads `seen, `fragCount
    {
      Firsts(seen, fragCount)
    }

    ghost predicate Content(before: bytes)
      reads this
    {
      AllFit(seen, fragCount) ==> ContentOk(ops, mem, file, before, chunkOffset, First())
    }

    // Whatever happened, datagrams that fit were written in their places and nowhere else.
    ghost predicate Contained(before: bytes)
      reads `seen, `fragCount, `file, `chunkOffset
    {
      AllFit(seen, fragCount) ==> Untouched(file, before, chunkOffset, First())
    }

    constructor (pool: nat, registered: bool, output: bytes, arrivals: nat)
      requires pool > 0
      ensures this.pool == pool && this.registered == registered && Buffers() && file == output && acks == [] && ready == 0
      ensures forall b :: 0 <= b < pool ==> ops[b] == IDLE
    {
      this.pool, this.registered, file, this.arrivals, acks, ready := pool, registered, output, arrivals, [], 0;
      ops, mem := seq(pool, _ => IDLE), seq(pool, _ => Zeros(MTU));
      pendingRecvs, pendingWrites, chunkOffset, fragCount, received, fragRemaining := 0, 0, 0, 0, [], 0;
      seen, history, unsent := [], [], 0;
    }

    method Find(kind: Kind) returns (b: nat)
      ensures b <= |ops| && (b < |ops| ==> ops[b].kind == kind)
      ensures b == |ops| ==> Tally(ops, kind) == 0
    {
      b := 0;
      while b < |ops| && ops[b].kind != kind
        invariant b <= |ops| && forall c :: 0 <= c < b ==> ops[c].kind != kind
      {
        b := b + 1;
      }
      TallyZero(ops, kind);
    }

    // io_uring_wait_cqe: any submitted operation completes. Without one, it would never return.
    // `d` is the datagram a receive brought.
    method WaitCqe() returns (starved: bool, cqe: Cqe, ghost d: bytes)
      requires Buffers() && Tally(ops, RecvPosted) + Tally(ops, WritePosted) > 0
      modifies `ops, `mem, `file, `arrivals, `history
      ensures history == if starved then old(history) else old(history) + [(cqe, d)]
      ensures cqe.tag.WriteDone? ==> d == []
      ensures Buffers()
      ensures starved ==> arrivals == 0 && ops == old(ops) && mem == old(mem) && file == old(file) && Tally(ops, WritePosted) == 0
      ensures !starved ==> cqe.buf < pool && ops == old(ops)[cqe.buf := IDLE]
      ensures !starved && cqe.tag.RecvDone? ==>
                && old(ops)[cqe.buf].kind == RecvPosted && arrivals < old(arrivals) && file == old(file)
                && cqe.res <= MTU && |d| == (if cqe.res > 0 then cqe.res else 0)
                && mem == old(mem)[cqe.buf := Filled(old(mem)[cqe.buf], d)] && d == mem[cqe.buf][..|d|]
      ensures !starved && cqe.tag.WriteDone? ==>
                && old(ops)[cqe.buf].kind == WritePosted && arrivals == old(arrivals) && mem == old(mem)
                && (cqe.res < 0 ==> file == old(file))
                && (cqe.res >= 0 ==>
                      var op := old(ops)[cqe.buf];
                      var data := WriteData(mem, cqe.buf, op.len, registered);
                      data.Some? && file == Put(old(file), op.at, data.value))
    {
      starved, cqe, d := false, Cqe(RecvDone, 0, 0), [];
      var b: nat :| true;
      if b >= |ops| || !((ops[b].kind == RecvPosted && arrivals > 0) || ops[b].kind == WritePosted) {
        b := Find(WritePosted);
        if b == |ops| {
          if arrivals == 0 { return true, cqe, d; }
          b := Find(RecvPosted);
        }
      }
      var res: int, data: bytes :| true;
      if ops[b].kind == RecvPosted {
        if |data| > MTU { data := []; }
        if res >= 0 { res := |data|; } else { data := []; }
        cqe, d := Cqe(RecvDone, b, res), data;
        mem := mem[b := Filled(mem[b], data)];
        arrivals := arrivals - 1;
      } else {
        var taken := WriteData(mem, b, ops[b].len, registered);
        if taken.None? && res >= 0 { res := -14; }            // EFAULT
        if res >= 0 { file := Put(file, ops[b].at, taken.value); }
        cqe := Cqe(WriteDone, b, res);
      }
      ops := ops[b := IDLE];
      history := history + [(cqe, d)];
    }

    // io_uring_submit
    method Submit()
      modifies `ops
      ensures ops == Submitted(old(ops))
    {
      ops := Submitted(ops);
    }

    // io_uring_get_sqe and io_uring_prep_recv or io_uring_prep_write; false when the queue is
    // full. The buffer must not be in another operation.
    method Prepare(b: nat, op: Op) returns (ok: bool)
      requires b < |ops| && ops[b].kind == Idle
      modifies `ops
      ensures ok <==> Tally(old(ops), RecvQueued) + Tally(old(ops), WriteQueued) < QUEUE_DEPTH
      ensures ops == if ok then old(ops)[b := op] else old(ops)
    {
      ok := Tally(ops, RecvQueued) + Tally(ops, WriteQueued) < QUEUE_DEPTH;
      if ok { ops := ops[b := op]; }
    }

    // process_fragment: prepares the write of a fragment not seen before. A duplicate changes
    // nothing.
    method ProcessFragment(b: nat, res: int, ghost d: bytes) returns (r: Outcome, isNew: bool)
      requires Buffers() && |received| == fragCount && fragRemaining == Unset(received)
      requires b < pool && ops[b].kind == Idle && res <= MTU && |d| == (if res > 0 then res else 0)
      requires d == mem[b][..|d|]
      requires Tally(ops, RecvQueued) + Tally(ops, WriteQueued) < QUEUE_DEPTH
      modifies `ops, `received, `fragRemaining
      ensures Buffers() && |received| == fragCount && fragRemaining == Unset(received)
      ensures r == if |d| < HDR || ParseHdr(d).index >= fragCount then Threw else Done
      ensures r.Done? ==>
                var h := ParseHdr(d);
                && (isNew <==> !old(received)[h.index])
                && (isNew ==> received == old(received)[h.index := true] && fragRemaining == old(fragRemaining) - 1
                              && ops == old(ops)[b := Op(WriteQueued, h.index, chunkOffset + h.index * PAYLOAD, h.len)])
      ensures !r.Done? || !isNew ==> ops == old(ops) && received == old(received) && fragRemaining == old(fragRemaining)
    {
      isNew := false;
      if res < HDR { return Threw, false; }
      assert mem[b] == Filled(mem[b], d);
      FilledHdr(mem[b], d);
      var h := ParseHdr(mem[b]);
      if h.index >= fragCount { return Threw, false; }
      if received[h.index] { return Done, false; }
      var ok := Prepare(b, Op(WriteQueued, h.index, chunkOffset + h.index * PAYLOAD, h.len));
      SetOne(received, h.index);
      received := received[h.index := true];
      fragRemaining := fragRemaining - 1;
      return Done, true;
    }

    // A buffer whose operation is over goes back to receiving. `was` is the pool before the
    // completion, whose counter has been lowered.
    method Reclaim(b: nat, ghost was: seq<Op>, ghost before: bytes)
      requires Buffers() && Bits() && pool <= QUEUE_DEPTH && b < pool == |was|
      requires was[b].kind in {RecvPosted, WritePosted} && ops == was[b := IDLE]
      requires var w := if was[b].kind == WritePosted then 1 else 0;
               PoolOk(was, pendingRecvs + 1 - w, pendingWrites + w, fragRemaining)
      requires Content(before)
      modifies `ops, `pendingRecvs
      ensures Valid() && Content(before) && pendingRecvs == old(pendingRecvs) + 1
    {
      hide PoolOk, Unset, ContentOk, AllFit, FirstOf, Firsts;
      ghost var w := if was[b].kind == WritePosted then 1 else 0;
      QueueHasRoom(was, pendingRecvs + 1 - w, pendingWrites + w, fragRemaining);
      Retallied(was, b, IDLE);
      var ok := Prepare(b, RECV);
      assert ops == was[b := RECV];
      pendingRecvs := pendingRecvs + 1;
      ReclaimKeeps(was, pendingRecvs - w, pendingWrites + w, fragRemaining, b);
      Reclaimed(was[b := IDLE], mem, file, before, chunkOffset, First(), b);
      ContentMayFlush(ops, mem, file, before, chunkOffset, First());
      if pendingRecvs >= pool / 2 { Submit(); }
    }

    // A new fragment's write has been prepared; submit at the threshold or on the last one.
    method Launch(b: nat, ghost was: seq<Op>, ghost before: bytes)
      requires Buffers() && Bits() && pool <= QUEUE_DEPTH && b < pool == |was|
      requires was[b].kind == RecvPosted && ops == was[b := ops[b]] && ops[b].kind == WriteQueued
      requires PoolOk(was, pendingRecvs + 1, pendingWrites, fragRemaining + 1)
      requires Content(before)
      modifies `ops, `pendingWrites
      ensures Valid() && Content(before)
    {
      hide PoolOk, Unset, ContentOk, AllFit, FirstOf, Firsts;
      pendingWrites := pendingWrites + 1;
      WriteKeeps(was, pendingRecvs + 1, pendingWrites - 1, fragRemaining + 1, b, ops[b]);
      ContentMayFlush(ops, mem, file, before, chunkOffset, First());
      if pendingWrites >= pool / 2 || fragRemaining == 0 { Submit(); }
    }

    // A RECV completion. `was` is the pool before it.
    method OnRecv(cqe: Cqe, ghost d: bytes, ghost was: seq<Op>, ghost before: bytes) returns (r: Outcome)
      requires Buffers() && Bits() && pool <= QUEUE_DEPTH && cqe.buf < pool == |was|
      requires PoolOk(was, pendingRecvs, pendingWrites, fragRemaining)
      requires was[cqe.buf].kind == RecvPosted && ops == was[cqe.buf := IDLE]
      requires cqe.res <= MTU && |d| == (if cqe.res > 0 then cqe.res else 0) && d == mem[cqe.buf][..|d|]
      requires Content(before) && Contained(before)
      modifies `ops, `received, `fragRemaining, `pendingRecvs, `pendingWrites, `seen
      ensures r.Done? || r.Threw?
      ensures seen == old(seen) + [d] && Contained(before)
      ensures r.Done? ==> Valid() && Content(before)
      ensures r.Done? <==> HDR <= |d| && ParseHdr(d).index < fragCount
    {
      hide PoolOk, Unset, Untouched, ContentOk, AllFit, Tally, Firsts, FirstOf, Fits, Payload;
      var b := cqe.buf;
      ghost var first := First();
      pendingRecvs := pendingRecvs - 1;
      TakenKeeps(file, before, chunkOffset, seen, d, fragCount);
      if cqe.res <= 0 {
        seen := seen + [d];
        return Threw;
      }
      QueueHasRoom(was, pendingRecvs + 1, pendingWrites, fragRemaining);
      Retallied(was, b, IDLE);
      var isNew;
      r, isNew := ProcessFragment(b, cqe.res, d);
      seen := seen + [d];
      if r.Threw? { return; }
      FirstsMore(old(seen), d, fragCount);
      BitsMore(old(seen), d, fragCount, old(received), received);
      if isNew {
        NewFragment(was[b := IDLE], mem, file, before, chunkOffset, first, b, ops[b], d);
        assert ops == was[b := ops[b]];
        Launch(b, was, before);
      } else {
        Reclaim(b, was, before);
      }
    }

    // A WRITE completion that did not fail: its buffer receives again.
    method OnWrite(b: nat, ghost was: seq<Op>, ghost before: bytes)
      requires Buffers() && Bits() && pool <= QUEUE_DEPTH && b < pool == |was|
      requires PoolOk(was, pendingRecvs, pendingWrites, fragRemaining)
      requires was[b].kind == WritePosted && ops == was[b := IDLE]
      requires Content(before)
      modifies `ops, `pendingRecvs, `pendingWrites
      ensures Valid() && Content(before) && pendingWrites == old(pendingWrites) - 1
    {
      hide PoolOk, ContentOk, AllFit, FirstOf, Firsts;
      pendingWrites := pendingWrites - 1;
      Reclaim(b, was, before);
    }

    // Every buffer is receiving and submitted, as at each chunk boundary.
    ghost predicate AllReceiving()
      reads `ops, `pendingRecvs, `pendingWrites
    {
      pendingRecvs == pool && pendingWrites == 0 && forall b :: 0 <= b < |ops| ==> ops[b].kind == RecvPosted
    }

    // The CQE loop for one chunk. When it is done, each fragment's place holds the first
    // payload taken with its number, and nothing else was written, provided the datagrams fit.
    // It starves only while a fragment is missing and nothing is left for the kernel to do by
    // itself.
    method RecvChunk(at: nat, len: nat) returns (r: Outcome)
      requires Valid() && AllReceiving() && 0 < len <= Chunks.CHUNK_SIZE
      modifies `ops, `mem, `file, `arrivals, `pendingRecvs, `pendingWrites, `chunkOffset, `fragCount, `received, `fragRemaining, `seen, `history
      ensures chunkOffset == at && fragCount == FragCount(len) && Contained(old(file))
      ensures r.Done? ==> Valid() && AllReceiving() && forall i :: 0 <= i < fragCount ==> FirstOf(seen, i).Some?
      ensures r.Done? && AllFit(seen, fragCount) ==> AllLanded(file, old(file), at, First())
      // It throws exactly at a completion that ends the loop so, and starves only when nothing
      // more arrives.
      ensures old(history) <= history && (r.Threw? <==> Spoilt(history, |old(history)|, FragCount(len)))
      ensures r.Starved? ==> Valid() && arrivals == 0 && fragRemaining > 0 && Tally(ops, WritePosted) == 0
    {
      hide PoolOk, Unset, Untouched, ContentOk, AllFit, Tally, Put, Filled, FragCount, ParseHdr, Firsts, FirstOf, WriteData, Spoilt, Fatal;
      Begin(at, len);
      NotSpoilt(history, fragCount);
      while fragRemaining > 0 || pendingWrites > 0
        invariant Valid() && Content(old(file)) && Contained(old(file))
        invariant chunkOffset == at && fragCount == FragCount(len)
        invariant old(history) <= history && !Spoilt(history, |old(history)|, fragCount)
        decreases arrivals, pendingWrites
      {
        WaitMakesProgress(ops, pendingRecvs, pendingWrites, fragRemaining);
        WritesAreCounted(ops, pendingRecvs, pendingWrites, fragRemaining);
        ghost var was, mem0, file0, history0 := ops, mem, file, history;
        var starved, cqe;
        ghost var d;
        starved, cqe, d := WaitCqe();
        if starved { return Starved; }
        SpoiltMore(old(history), history0, cqe, d, fragCount);
        FatalMeans(cqe, d, fragCount);
        var b := cqe.buf;
        if cqe.tag.RecvDone? {
          RecvArrived(was, mem0, file, old(file), at, First(), b, mem[b]);
          r := OnRecv(cqe, d, was, old(file));
          if r.Threw? { return; }
        } else {
          if cqe.res < 0 { return Threw; }
          WriteArrived(was, mem, file0, old(file), at, First(), b, registered, file);
          OnWrite(b, was, old(file));
        }
      }
      WaitMakesProgress(ops, pendingRecvs, pendingWrites, fragRemaining);
      UnsetIsZero(received);
      FirstsAre(seen, fragCount);
      Complete(ops, mem, file, old(file), at, First(), AllFit(seen, fragCount));
      return Done;
    }

    // RecvState for a new chunk.
    method Begin(at: nat, len: nat)
      requires Valid() && AllReceiving() && 0 < len
      modifies `chunkOffset, `fragCount, `received, `fragRemaining, `pendingWrites, `seen
      ensures Valid() && Content(file) && Contained(file) && seen == []
      ensures chunkOffset == at && fragCount == FragCount(len) && AllReceiving() && fragRemaining > 0
    {
      hide Tally, ContentOk, Untouched, Unset, PoolOk, AllFit;
      chunkOffset, fragCount := at, FragCount(len);
      received, fragRemaining := seq(fragCount, _ => false), fragCount;
      pendingWrites, seen := 0, [];
      UnsetIsZero(received);
      AllPosted(ops, fragRemaining);
      NothingTaken(ops, mem, file, at, fragCount);
    }

    // The cold start: every buffer receives, in one submission. False when the queue is full.
    method PostAll() returns (ok: bool)
      requires Buffers() && forall b :: 0 <= b < pool ==> ops[b] == IDLE
      modifies `ops, `pendingRecvs, `pendingWrites, `received, `fragCount, `fragRemaining
      ensures ok <==> pool <= QUEUE_DEPTH
      ensures ok ==> Valid() && AllReceiving()
    {
      hide PoolOk, FirstOf;
      pendingRecvs, pendingWrites, received, fragCount, fragRemaining := pool, 0, [], 0, 0;
      TallyZero(ops, RecvQueued);
      TallyZero(ops, WriteQueued);
      var i := 0;
      while i < pool
        invariant 0 <= i <= pool && Buffers() && Bits() && i <= QUEUE_DEPTH
        invariant pendingRecvs == pool && pendingWrites == 0 && fragRemaining == 0
        invariant forall b :: 0 <= b < pool ==> ops[b] == if b < i then RECV else IDLE
        invariant Tally(ops, RecvQueued) == i && Tally(ops, WriteQueued) == 0
      {
        Retallied(ops, i, RECV);
        ok := Prepare(i, RECV);
        if !ok { return; }
        i := i + 1;
      }
      Submit();
      AllPosted(ops, fragRemaining);
      return true;
    }

    // One turn of recv_file's loop: chunk k of the range.
    method RecvOne(offset: nat, len: nat, k: nat, ghost source: bytes, ghost before: bytes, ghost seenBy: seq<seq<bytes>>)
      returns (r: Outcome)
      requires Valid() && AllReceiving() && k < Chunks.ChunkCount(len) && |source| == len && |seenBy| == k
      requires GenuineBy(seenBy, source) ==> Filling(file, before, offset, source, Upto(len, k))
      modifies `ops, `mem, `file, `arrivals, `pendingRecvs, `pendingWrites, `chunkOffset, `fragCount, `received, `fragRemaining, `seen, `history
      ensures old(history) <= history && (r.Threw? <==> Spoilt(history, |old(history)|, FragCount(|Chunks.ChunkAt(source, k)|)))
      ensures r.Starved? ==> arrivals == 0
      ensures r.Done? ==> Valid() && AllReceiving() && AllTaken(seen, FragCount(|Chunks.ChunkAt(source, k)|))
      ensures GenuineBy(seenBy + [seen], source) ==> Present(file, offset, source, Upto(len, if r.Done? then k + 1 else k))
      ensures r.Done? && GenuineBy(seenBy + [seen], source) ==> Filling(file, before, offset, source, Upto(len, k + 1))
      ensures GenuineBy(seenBy + [seen], source) ==> Outside(file, before, offset, len)
    {
      hide PoolOk, Spoilt, AllGenuine, GenuineBy, Outside, Holds, Tally, Untouched, AllLanded, AllFit, FirstOf, Firsts, Present;
      ghost var was := file;
      var at, n := offset + k * Chunks.CHUNK_SIZE, Chunks.ChunkLen(len, k);
      Upto1(len, k);
      r := RecvChunk(at, n);
      GenuineMore(seenBy, seen, source);
      if GenuineBy(seenBy + [seen], source) {
        ChunkTaken(file, was, at, seen, Chunks.ChunkAt(source, k), r.Done?);
        if r.Done? { NextFilled(was, file, before, offset, source, k); }
        Partly(was, file, before, offset, source, k);
        if r.Done? { FillingIsPresent(file, before, offset, source, Upto(len, k + 1)); }
      }
    }

    // The ready byte goes to the sender only when every buffer is receiving.
    method SendReady() returns (ok: bool)
      requires AllReceiving()
      modifies `ready, `unsent
      ensures ready == if ok then old(ready) + 1 else old(ready)
      ensures unsent == if ok then old(unsent) else old(unsent) + 1
    {
      ok :| true;
      if ok { ready := ready + 1; } else { unsent := unsent + 1; }
    }

    method SendAck(k: nat) returns (ok: bool)
      modifies `acks, `unsent
      ensures acks == if ok then old(acks) + [k] else old(acks)
      ensures unsent == if ok then old(unsent) else old(unsent) + 1
    {
      ok :| true;
      if ok { acks := acks + [k]; } else { unsent := unsent + 1; }
    }

    // recv_file over a fresh ring. `done` chunks were acknowledged, each once, in order, and
    // each only after every one of its fragments had been taken; if every chunk's loop takes
    // only that chunk's datagrams, each acknowledged chunk is on disk, however the call ends,
    // and at the end the output range is the source.
    method RecvFile(offset: nat, len: nat, ghost source: bytes) returns (r: Outcome, ghost seenBy: seq<seq<bytes>>, ghost done: nat)
      requires Buffers() && (forall b :: 0 <= b < pool ==> ops[b] == IDLE) && |source| == len
      modifies this
      ensures done <= |seenBy| <= done + 1 && |seenBy| <= Chunks.ChunkCount(len) && acks == old(acks) + seq(done, k => k)
      ensures ChunksTaken(seenBy, done, source)
      ensures GenuineBy(seenBy, source) ==> Present(file, offset, source, Upto(len, done))
      ensures if |seenBy| > 0 || r.Done? then ready == old(ready) + 1 else old(ready) <= ready <= old(ready) + 1
      ensures r.Done? ==> |seenBy| == Chunks.ChunkCount(len) == done
      ensures r.Done? && GenuineBy(seenBy, source) && len <= 0xFFFF_FFFF * Chunks.CHUNK_SIZE
              ==> Filling(file, old(file), offset, source, len)
      ensures GenuineBy(seenBy, source) ==> Outside(file, old(file), offset, len)
      ensures pool > QUEUE_DEPTH ==> r.Threw? && ready == old(ready)
      // Nothing else makes it fail: a control message that could not be sent, a completion that
      // ended the last chunk's loop, or nothing more arriving.
      ensures r.Threw? ==> pool > QUEUE_DEPTH || unsent == old(unsent) + 1 || (|seenBy| == done + 1 && Ended(history, |old(history)|, source, done))
      ensures r.Starved? ==> arrivals == 0
      ensures r.Done? ==> unsent == old(unsent)
    {
      hide PoolOk, AllGenuine, GenuineBy, Outside, Holds, Tally, FirstOf, Firsts, Filling, AllTaken, Present, FragCount, ChunksTaken, Chunks.ChunkAt, Spoilt;
      seenBy, done := [], 0;
      NoChunks(source);
      NothingFilled(file, offset, source);
      FillingIsPresent(file, file, offset, source, 0);
      var ok := PostAll();
      if !ok { return Threw, seenBy, done; }
      ok := SendReady();
      if !ok { return Threw, seenBy, done; }
      var chunks := Chunks.ChunkCount(len);
      var k := 0;
      while k < chunks
        invariant 0 <= k <= chunks == Chunks.ChunkCount(len) && Valid() && AllReceiving() && ready == old(ready) + 1
        invariant old(history) <= history && unsent == old(unsent)
        invariant |seenBy| == k == done && acks == old(acks) + seq(k, j => j)
        invariant ChunksTaken(seenBy, done, source)
        invariant GenuineBy(seenBy, source) ==> Filling(file, old(file), offset, source, Upto(len, k))
        invariant GenuineBy(seenBy, source) ==> Present(file, offset, source, Upto(len, k))
        invariant GenuineBy(seenBy, source) ==> Outside(file, old(file), offset, len)
      {
        ghost var history0 := history;
        r := RecvOne(offset, len, k, source, old(file), seenBy);
        if r.Threw? { LastEnded(old(history), history0, history, source, k); }
        TakenMore(seenBy, seen, source);
        seenBy := seenBy + [seen];
        if !r.Done? { return; }
        ok := SendAck(k);
        if !ok {
          PresentLess(file, offset, source, Upto(len, k), Upto(len, k + 1));
          return Threw, seenBy, done;
        }
        done := done + 1;
        k := k + 1;
      }
      if len <= 0xFFFF_FFFF * Chunks.CHUNK_SIZE { UptoAll(len); }
      return Done, seenBy, done;
    }
  }

  // A completion that is fatal for chunk k, from `from` on.
  ghost predicate Ended(history: seq<(Cqe, bytes)>, from: nat, source: bytes, k: nat) {
    Spoilt(history, from, FragCount(|Chunks.ChunkAt(source, k)|))
  }

  lemma LastEnded(h0: seq<(Cqe, bytes)>, h1: seq<(Cqe, bytes)>, h2: seq<(Cqe, bytes)>, source: bytes, k: nat)
    requires h0 <= h1 <= h2 && Spoilt(h2, |h1|, FragCount(|Chunks.ChunkAt(source, k)|))
    ensures Ended(h2, |h0|, source, k)
  {
    hide FragCount, Chunks.ChunkAt, Fatal;
  }

  // Every fragment number of a chunk has been taken.
  ghost predicate AllTaken(seen: seq<bytes>, n: nat) {
    forall i :: 0 <= i < n ==> FirstOf(seen, i).Some?
  }

  // Every fragment number of each of the first n chunks has been taken in that chunk's loop.
  ghost predicate ChunksTaken(seenBy: seq<seq<bytes>>, n: nat, source: bytes) {
    n <= |seenBy| && forall k :: 0 <= k < n ==> AllTaken(seenBy[k], FragCount(|Chunks.ChunkAt(source, k)|))
  }

  lemma NoChunks(source: bytes)
    ensures ChunksTaken([], 0, source)
  {
  }

  lemma TakenMore(seenBy: seq<seq<bytes>>, seen: seq<bytes>, source: bytes)
    requires ChunksTaken(seenBy, |seenBy|, source)
    ensures ChunksTaken(seenBy + [seen], |seenBy|, source)
    ensures AllTaken(seen, FragCount(|Chunks.ChunkAt(source, |seenBy|)|)) ==> ChunksTaken(seenBy + [seen], |seenBy| + 1, source)
  {
    hide AllTaken, FragCount, Chunks.ChunkAt;
  }

  // The first n bytes of the source are in place.
  ghost predicate Present(file: bytes, offset: nat, source: bytes, n: nat) {
    forall x: nat :: x < n ==> Holds(file, offset, source, x)
  }

  lemma FillingIsPresent(file: bytes, before: bytes, offset: nat, source: bytes, n: nat)
    requires Filling(file, before, offset, source, n)
    ensures Present(file, offset, source, n)
  {
  }

  lemma PresentLess(file: bytes, offset: nat, source: bytes, n: nat, m: nat)
    requires n <= m
    ensures Present(file, offset, source, m) ==> Present(file, offset, source, n)
  {
  }

  // Receiving into every buffer, all submitted, is in order for any number of fragments.
  lemma AllPosted(ops: seq<Op>, remaining: nat)
    requires forall b :: 0 <= b < |ops| ==> ops[b].kind == RecvPosted
    ensures PoolOk(ops, |ops|, 0, remaining)
  {
    TallyAll(ops, RecvPosted);
    TallySum(ops);
  }

  lemma NothingTaken(ops: seq<Op>, mem: seq<bytes>, file: bytes, at: nat, n: nat)
    requires |ops| == |mem| && forall b :: 0 <= b < |ops| ==> ops[b].kind == RecvPosted
    ensures ContentOk(ops, mem, file, file, at, Firsts([], n)) && Untouched(file, file, at, Firsts([], n))
  {
  }

  lemma TakenKeeps(file: bytes, before: bytes, at: nat, seen: seq<bytes>, d: bytes, n: nat)
    ensures (AllFit(seen, n) ==> Untouched(file, before, at, Firsts(seen, n)))
            ==> (AllFit(seen + [d], n) ==> Untouched(file, before, at, Firsts(seen + [d], n)))
    ensures |d| < HDR ==> forall i :: 0 <= i < n ==> FirstOf(seen + [d], i) == FirstOf(seen, i)
  {
    hide Untouched, FirstOf, Firsts, Fits, Payload;
    FirstsMore(seen, d, n);
    if |d| >= HDR && ParseHdr(d).index < n && FirstOf(seen, ParseHdr(d).index).None? {
      var first := Firsts(seen, n);
      FirstsAre(seen, n);
      if Untouched(file, before, at, first) { UntouchedMore(file, before, at, first, ParseHdr(d).index, Payload(d)); }
    }
    if |d| < HDR {
      FirstsAre(seen, n);
      FirstsAre(seen + [d], n);
    }
  }

  lemma FirstsAre(seen: seq<bytes>, n: nat)
    ensures |Firsts(seen, n)| == n && forall i :: 0 <= i < n ==> Firsts(seen, n)[i] == FirstOf(seen, i)
  {
  }

  lemma BitsMore(seen: seq<bytes>, d: bytes, n: nat, received: seq<bool>, received': seq<bool>)
    requires |d| >= HDR && ParseHdr(d).index < n == |received|
    requires forall i :: 0 <= i < n ==> (received[i] <==> FirstOf(seen, i).Some?)
    requires received' == received[ParseHdr(d).index := true]
    ensures forall i :: 0 <= i < n ==> (received'[i] <==> FirstOf(seen + [d], i).Some?)
  {
    hide FirstOf, Firsts, Fits, Payload;
    FirstsMore(seen, d, n);
    FirstsAre(seen, n);
    FirstsAre(seen + [d], n);
  }

  lemma NewFragment(ops: seq<Op>, mem: seq<bytes>, file: bytes, before: bytes, at: nat, first: seq<Option<bytes>>,
                    b: nat, op: Op, d: bytes)
    requires b < |ops| == |mem| && ops[b] == IDLE && HDR <= |d| <= |mem[b]| && d == mem[b][..|d|]
    requires ParseHdr(d).index < |first| && first[ParseHdr(d).index].None?
    requires op == Op(WriteQueued, ParseHdr(d).index, at + ParseHdr(d).index * PAYLOAD, ParseHdr(d).len)
    ensures ContentOk(ops, mem, file, before, at, first) && Fits(d, |first|)
            ==> ContentOk(ops[b := op], mem, file, before, at, first[ParseHdr(d).index := Some(Payload(d))])
  {
    hide ContentOk, ParseHdr;
    if ContentOk(ops, mem, file, before, at, first) && Fits(d, |first|) {
      assert mem[b][HDR..HDR + op.len] == Payload(d);
      ContentWrite(ops, mem, file, before, at, first, b, op, Payload(d));
    }
  }

  lemma Reclaimed(ops: seq<Op>, mem: seq<bytes>, file: bytes, before: bytes, at: nat, first: seq<Option<bytes>>, b: nat)
    requires b < |ops| == |mem| && ops[b] == IDLE
    ensures ContentOk(ops, mem, file, before, at, first) ==> ContentOk(ops[b := RECV], mem, file, before, at, first)
  {
    if ContentOk(ops, mem, file, before, at, first) {
      hide ContentOk;
      ContentRecv(ops, mem, file, before, at, first, b, RECV, mem[b]);
      assert mem[b := mem[b]] == mem;
    }
  }

  lemma ContentMayFlush(ops: seq<Op>, mem: seq<bytes>, file: bytes, before: bytes, at: nat, first: seq<Option<bytes>>)
    ensures ContentOk(ops, mem, file, before, at, first) ==> ContentOk(Submitted(ops), mem, file, before, at, first)
  {
    if ContentOk(ops, mem, file, before, at, first) {
      hide ContentOk;
      ContentFlushed(ops, mem, file, before, at, first);
    }
  }

  lemma WritesAreCounted(ops: seq<Op>, recvs: int, writes: int, remaining: nat)
    requires PoolOk(ops, recvs, writes, remaining)
    ensures writes >= 0
  {
  }

  lemma RecvArrived(ops: seq<Op>, mem: seq<bytes>, file: bytes, before: bytes, at: nat, first: seq<Option<bytes>>, b: nat, data: bytes)
    requires b < |ops| == |mem| && ops[b].kind == RecvPosted
    ensures ContentOk(ops, mem, file, before, at, first) ==> ContentOk(ops[b := IDLE], mem[b := data], file, before, at, first)
  {
    if ContentOk(ops, mem, file, before, at, first) {
      hide ContentOk;
      ContentRecv(ops, mem, file, before, at, first, b, IDLE, data);
    }
  }

  lemma WriteArrived(ops: seq<Op>, mem: seq<bytes>, file: bytes, before: bytes, at: nat, first: seq<Option<bytes>>,
                     b: nat, registered: bool, file': bytes)
    requires b < |ops| == |mem| && ops[b].kind == WritePosted
    requires var data := WriteData(mem, b, ops[b].len, registered); data.Some? && file' == Put(file, ops[b].at, data.value)
    ensures ContentOk(ops, mem, file, before, at, first)
            ==> ContentOk(ops[b := IDLE], mem, file', before, at, first) && Untouched(file', before, at, first)
  {
    if ContentOk(ops, mem, file, before, at, first) {
      hide Put, BufferOk, Untouched, Landed;
      ContentLands(ops, mem, file, before, at, first, b);
    }
  }

  lemma Complete(ops: seq<Op>, mem: seq<bytes>, file: bytes, before: bytes, at: nat, first: seq<Option<bytes>>, fit: bool)
    requires fit ==> ContentOk(ops, mem, file, before, at, first)
    requires forall i :: 0 <= i < |first| ==> first[i].Some?
    requires forall b :: 0 <= b < |ops| ==> ops[b].kind == RecvPosted
    ensures fit ==> AllLanded(file, before, at, first)
  {
    if fit {
      hide ContentOk, AllLanded;
      ContentComplete(ops, mem, file, before, at, first);
    }
  }

  // Genuine datagrams put the chunk in its range, and until it is complete write nothing else.
  lemma ChunkTaken(file: bytes, before: bytes, at: nat, seen: seq<bytes>, chunk: bytes, done: bool)
    requires AllGenuine(seen, chunk)
    requires var n := FragCount(|chunk|); AllFit(seen, n) ==> Untouched(file, before, at, Firsts(seen, n))
    requires var n := FragCount(|chunk|);
             done ==> (forall i :: 0 <= i < n ==> FirstOf(seen, i).Some?)
                      && (AllFit(seen, n) ==> AllLanded(file, before, at, Firsts(seen, n)))
    ensures Outside(file, before, at, |chunk|) && (done ==> HoldsAll(file, at, chunk))
  {
    hide Untouched, AllLanded, AllGenuine, FirstOf, Outside, HoldsAll, Piece, FragCount, AllFit;
    var n := FragCount(|chunk|);
    var first := Firsts(seen, n);
    GenuineFit(seen, chunk);
    forall i | 0 <= i < n && first[i].Some? ensures first[i].value == Piece(chunk, i) { GenuineFirsts(seen, chunk, i); }
    UntouchedOutside(file, before, at, first, |chunk|);
    if done { RangeIsChunkIff(file, before, at, first, chunk); }
  }

  lemma GenuineFit(seen: seq<bytes>, chunk: bytes)
    requires AllGenuine(seen, chunk)
    ensures AllFit(seen, FragCount(|chunk|))
  {
    forall j | 0 <= j < |seen| ensures Fits(seen[j], FragCount(|chunk|)) { assert Genuine(seen[j], chunk); }
  }

  function Upto(len: nat, k: nat): nat {
    if k * Chunks.CHUNK_SIZE < len then k * Chunks.CHUNK_SIZE else len
  }

  lemma Upto1(len: nat, k: nat)
    requires k < Chunks.ChunkCount(len)
    ensures Upto(len, k) == k * Chunks.CHUNK_SIZE < len && Upto(len, k + 1) == Upto(len, k) + Chunks.ChunkLen(len, k)
    ensures 0 < Chunks.ChunkLen(len, k) <= Chunks.CHUNK_SIZE
  {
    if len > 0 { Chunks.ChunksTile(len); }
  }

  lemma UptoAll(len: nat)
    requires len <= 0xFFFF_FFFF * Chunks.CHUNK_SIZE
    ensures Upto(len, Chunks.ChunkCount(len)) == len
  {
    if len > 0 { Chunks.ChunksTile(len); }
  }

  ghost predicate GenuineBy(seenBy: seq<seq<bytes>>, source: bytes) {
    forall k :: 0 <= k < |seenBy| ==> AllGenuine(seenBy[k], Chunks.ChunkAt(source, k))
  }

  // The first n bytes of the source are in place, and nothing outside their range changed.
  ghost predicate Filling(file: bytes, before: bytes, offset: nat, source: bytes, n: nat) {
    Outside(file, before, offset, n) && forall x: nat :: x < n ==> Holds(file, offset, source, x)
  }

  lemma NothingFilled(file: bytes, offset: nat, source: bytes)
    ensures Filling(file, file, offset, source, 0) && Outside(file, file, offset, |source|)
  {
  }

  lemma GenuineMore(seenBy: seq<seq<bytes>>, seen: seq<bytes>, source: bytes)
    ensures GenuineBy(seenBy + [seen], source) <==> GenuineBy(seenBy, source) && AllGenuine(seen, Chunks.ChunkAt(source, |seenBy|))
  {
    var more := seenBy + [seen];
    if GenuineBy(more, source) {
      forall k | 0 <= k < |seenBy| ensures AllGenuine(seenBy[k], Chunks.ChunkAt(source, k)) { assert more[k] == seenBy[k]; }
      assert more[|seenBy|] == seen;
    }
  }

  lemma NextFilled(was: bytes, file: bytes, before: bytes, offset: nat, source: bytes, k: nat)
    requires k < Chunks.ChunkCount(|source|)
    requires Filling(was, before, offset, source, Upto(|source|, k))
    requires var chunk := Chunks.ChunkAt(source, k); var at := offset + k * Chunks.CHUNK_SIZE;
             Outside(file, was, at, |chunk|) && HoldsAll(file, at, chunk)
    ensures Filling(file, before, offset, source, Upto(|source|, k + 1))
  {
    Upto1(|source|, k);
    var lo, chunk := Upto(|source|, k), Chunks.ChunkAt(source, k);
    forall x: nat | x < Upto(|source|, k + 1) ensures Holds(file, offset, source, x) {
      if x < lo {
        assert Holds(was, offset, source, x) && file[offset + x] == was[offset + x];
      } else {
        assert Holds(file, offset + lo, chunk, x - lo) && chunk[x - lo] == source[x];
      }
    }
    forall x | 0 <= x < |before| && !(offset <= x < offset + Upto(|source|, k + 1)) ensures file[x] == before[x] {
      assert file[x] == was[x];
    }
  }

  lemma Partly(was: bytes, file: bytes, before: bytes, offset: nat, source: bytes, k: nat)
    requires k < Chunks.ChunkCount(|source|)
    requires Filling(was, before, offset, source, Upto(|source|, k))
    requires Outside(file, was, offset + k * Chunks.CHUNK_SIZE, |Chunks.ChunkAt(source, k)|)
    ensures Outside(file, before, offset, |source|) && Present(file, offset, source, Upto(|source|, k))
  {
    Upto1(|source|, k);
    forall x: nat | x < Upto(|source|, k) ensures Holds(file, offset, source, x) {
      assert Holds(was, offset, source, x) && file[offset + x] == was[offset + x];
    }
    forall x | 0 <= x < |before| && !(offset <= x < offset + |source|) ensures file[x] == before[x] {
      assert file[x] == was[x];
    }
  }
}
