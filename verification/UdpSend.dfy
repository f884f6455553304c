// The UDP sender: chunk n is sent from one buffer while chunk n+1 is read into the other.
//
// The kernel completes submitted operations in any order. A READ that does not fail has read
// all of its range that the file holds. A sendmsg looks at its slot when it completes, the
// latest moment it may.
module UdpSend {
  import opened Bytes
  import opened Wrappers
  import opened UdpWire
  import Chunks
  import P = Protocol

  datatype Read = Read(buf: nat, offset: nat, len: nat)

  // One entry of the slot pool: the two iovecs of a sendmsg.
  datatype Slot = Slot(hdr: bytes, buf: nat, start: nat, len: nat)

  // A sendmsg that has not completed.
  datatype Flight = Flight(slot: nat, frag: nat, posted: bool)

  datatype Tag = ReadDone | SendDone
  datatype Cqe = Cqe(tag: Tag, res: int)
  datatype Outcome = Ok | Failed | UnexpectedTag

  // The two chunk buffers.
  type Pair = s: seq<bytes> | |s| == 2 witness [[], []]

  // What a sendmsg puts on the wire.
  function Gather(slot: Slot, bufs: Pair): bytes {
    if slot.buf < 2 && slot.start + slot.len <= |bufs[slot.buf]| then
      slot.hdr + bufs[slot.buf][slot.start..slot.start + slot.len]
    else []
  }

  // The datagrams still to come, as the slots stand.
  function Coming(flights: seq<Flight>, slots: seq<Slot>, bufs: Pair): (r: seq<bytes>)
    requires forall f :: 0 <= f < |flights| ==> flights[f].slot < |slots|
    ensures |r| == |flights| && forall f :: 0 <= f < |flights| ==> r[f] == Gather(slots[flights[f].slot], bufs)
  {
    seq(|flights|, f requires 0 <= f < |flights| => Gather(slots[flights[f].slot], bufs))
  }

  // The first n fragments of chunk k.
  function Fragments(chunk: bytes, k: P.u32, n: nat): (r: seq<bytes>)
    requires n <= FragCount(|chunk|) && n <= P.TWO32
    ensures |r| == n && forall i :: 0 <= i < n ==> r[i] == Fragment(chunk, k, i)
  {
    seq(n, i requires 0 <= i < n => Fragment(chunk, k, i))
  }

  // What a READ leaves in its buffer.
  function Loaded(buf: bytes, source: bytes, rd: Read): bytes {
    var there := if rd.offset <= |source| then source[rd.offset..] else [];
    var n := if rd.len <= |there| then rd.len else |there|;
    if n <= |buf| then there[..n] + buf[n..] else buf
  }

  // How the reading side may change while something is sent from the other buffer: it
  // stays as it is, or the outstanding READ completes into the stash.
  ghost predicate ReadMoves(source: bytes, rd0: Option<Read>, done0: bool, res0: int, bufs0: Pair,
                            rd1: Option<Read>, done1: bool, res1: int, bufs1: Pair) {
    || (rd1 == rd0 && done1 == done0 && res1 == res0 && bufs1 == bufs0)
    || (rd0.Some? && rd1.None? && done1 && rd0.value.buf < 2
        && bufs1 == if res1 < 0 then bufs0 else bufs0[rd0.value.buf := Loaded(bufs0[rd0.value.buf], source, rd0.value)])
  }

  // One of the completions from `from` on reports an error.
  ghost predicate Bad(cqes: seq<Cqe>, from: nat) {
    exists i :: from <= i < |cqes| && cqes[i].res < 0
  }

  // The last completion was a send that failed.
  ghost predicate EndsWithBadSend(cqes: seq<Cqe>) {
    cqes != [] && cqes[|cqes| - 1].tag.SendDone? && cqes[|cqes| - 1].res < 0
  }

  // Between two moments: an error that was reported has ended the call, or is in the stash.
  ghost predicate Told(cqes0: seq<Cqe>, stashBad0: bool, cqes1: seq<Cqe>, stashBad1: bool, ok: bool) {
    cqes0 <= cqes1 && (Bad(cqes1, |cqes0|) || stashBad0 <==> !ok || stashBad1)
  }

  // Control messages taken, each with the number of datagrams on the wire by then: from `from`
  // on the acknowledgements 0 .. m-1, number k when exactly the chunks up to k had gone out.
  ghost predicate Paced(taken: seq<(nat, nat)>, from: nat, m: nat, wire0: nat, batches: seq<seq<bytes>>) {
    m <= |batches| && from + m <= |taken| && forall k :: 0 <= k < m ==> OnPace(taken, from, k, wire0, batches)
  }

  ghost predicate OnPace(taken: seq<(nat, nat)>, from: nat, k: nat, wire0: nat, batches: seq<seq<bytes>>)
    requires k < |batches| && from + k < |taken|
  {
    taken[from + k] == (k, wire0 + |Flat(batches[..k + 1])|)
  }

  // The control messages taken since `from` are the first of those that were to arrive.
  ghost predicate InOrder(arriving0: seq<nat>, arriving: seq<nat>, taken: seq<(nat, nat)>, from: nat) {
    && from <= |taken| && |taken| - from <= |arriving0| && arriving == arriving0[|taken| - from..]
    && forall i :: 0 <= i < |taken| - from ==> taken[from + i].0 == arriving0[i]
  }

  class UdpSender {
    const source: bytes
    var bufs: Pair
    // The READ in the kernel, and the stash for its completion.
    var reading: Option<Read>
    var readCompleted: bool
    var readResult: int
    var slots: seq<Slot>
    var flights: seq<Flight>
    var wire: seq<bytes>
    // What is still to arrive on the control connection: the ready byte, then acknowledgements.
    var arriving: seq<nat>
    // History: completions taken; control messages taken and READs submitted, each with the
    // number of datagrams on the wire by then.
    ghost var cqes: seq<Cqe>
    ghost var taken: seq<(nat, nat)>
    ghost var loads: seq<(Read, nat)>

    // Nothing outstanding and nothing stashed, as between calls.
    ghost predicate Quiet()
      reads this
    {
      reading.None? && !readCompleted && flights == []
    }

    // At most one READ, not already stashed, and not into buffer b.
    ghost predicate ReadOk(b: nat)
      reads `reading, `readCompleted
    {
      reading.Some? ==> !readCompleted && reading.value.buf < 2 && reading.value.buf != b
    }

    ghost predicate StashBad()
      reads `readCompleted, `readResult
    {
      readCompleted && readResult < 0
    }

    twostate predicate Tells(ok: bool)
      reads `cqes, `readCompleted, `readResult
    {
      Told(old(cqes), old(StashBad()), cqes, StashBad(), ok)
    }

    // What sending may do to the reading side.
    twostate predicate ReadKept()
      reads `reading, `readCompleted, `readResult, `bufs
    {
      ReadMoves(source, old(reading), old(readCompleted), old(readResult), old(bufs), reading, readCompleted, readResult, bufs)
    }

    ghost predicate FlightsOk()
      reads `flights, `slots
    {
      |slots| == QUEUE_DEPTH && |flights| <= QUEUE_DEPTH
      && forall f :: 0 <= f < |flights| ==> flights[f].slot < QUEUE_DEPTH
    }

    constructor (source: bytes, bufSize: nat, arriving: seq<nat>)
      ensures this.source == source && Quiet() && FlightsOk() && wire == [] && this.arriving == arriving
      ensures cqes == [] && taken == [] && loads == []
      ensures |bufs[0]| == |bufs[1]| == bufSize
    {
      this.source, this.arriving := source, arriving;
      cqes, taken, loads := [], [], [];
      bufs := [seq(bufSize, _ => 0), seq(bufSize, _ => 0)];
      reading, readCompleted, readResult := None, false, 0;
      slots, flights, wire := seq(QUEUE_DEPTH, _ => Slot([], 0, 0, 0)), [], [];
    }

    // submit_read. The previous READ is over, its completion consumed, and nothing is being
    // sent from the buffer.
    method SubmitRead(b: nat, offset: nat, len: nat)
      requires b < 2 && Quiet()
      modifies `reading, `loads
      ensures reading == Some(Read(b, offset, len)) && loads == old(loads) + [(Read(b, offset, len), |wire|)]
    {
      reading := Some(Read(b, offset, len));
      loads := loads + [(Read(b, offset, len), |wire|)];
    }

    // io_uring_wait_cqe: the READ or any submitted send completes.
    method WaitCqe() returns (cqe: Cqe, ghost f: nat)
      requires reading.Some? || exists g :: 0 <= g < |flights| && flights[g].posted
      requires FlightsOk() && (reading.Some? ==> reading.value.buf < 2)
      modifies `reading, `bufs, `flights, `wire, `cqes
      ensures cqes == old(cqes) + [cqe]
      ensures cqe.tag.ReadDone? ==>
                && old(reading).Some? && reading.None? && flights == old(flights) && wire == old(wire)
                && bufs == (var rd := old(reading).value;
                            if cqe.res < 0 then old(bufs) else old(bufs)[rd.buf := Loaded(old(bufs)[rd.buf], source, rd)])
      ensures cqe.tag.SendDone? ==>
                && f < |old(flights)| && old(flights)[f].posted && flights == old(flights)[..f] + old(flights)[f + 1..]
                && reading == old(reading) && bufs == old(bufs)
                && wire == old(wire) + if cqe.res < 0 then [] else [Gather(slots[old(flights)[f].slot], bufs)]
    {
      var pickRead: bool, g: nat, res: int :| true;
      if pickRead || g >= |flights| || !flights[g].posted {
        if reading.Some? {
          var rd := reading.value;
          if res >= 0 { bufs := bufs[rd.buf := Loaded(bufs[rd.buf], source, rd)]; }
          reading := None;
          cqes := cqes + [Cqe(ReadDone, res)];
          return Cqe(ReadDone, res), 0;
        }
        g := 0;
        while !flights[g].posted
          invariant g < |flights| && flights == old(flights)
          invariant exists h :: g <= h < |flights| && flights[h].posted
          invariant cqes == old(cqes) && reading == old(reading) && bufs == old(bufs) && wire == old(wire)
          decreases |flights| - g
        {
          g := g + 1;
        }
      }
      if res >= 0 { wire := wire + [Gather(slots[flights[g].slot], bufs)]; }
      flights := flights[..g] + flights[g + 1..];
      cqes := cqes + [Cqe(SendDone, res)];
      return Cqe(SendDone, res), g;
    }

    // recv_exact on the control connection: the next message, or none when it ends.
    method RecvControl() returns (m: Option<nat>)
      modifies `arriving, `taken
      ensures old(arriving) == [] ==> m.None? && arriving == [] && taken == old(taken)
      ensures old(arriving) != [] ==>
                m == Some(old(arriving)[0]) && arriving == old(arriving)[1..] && taken == old(taken) + [(old(arriving)[0], |wire|)]
    {
      if arriving == [] { return None; }
      m := Some(arriving[0]);
      taken := taken + [(arriving[0], |wire|)];
      arriving := arriving[1..];
    }

    // wait_read: the stash first, then the ring. With no send in flight the completion can
    // only be the READ's, so the "unexpected tag" branch is never taken.
    method WaitRead() returns (r: Outcome)
      requires flights == [] && FlightsOk() && (readCompleted <==> reading.None?) && (reading.Some? ==> reading.value.buf < 2)
      modifies `reading, `readCompleted, `bufs, `flights, `wire, `cqes
      ensures old(cqes) <= cqes && (r.Ok? <==> !Bad(cqes, |old(cqes)|) && !old(StashBad()))
      ensures old(readCompleted) ==> cqes == old(cqes)
      ensures r != UnexpectedTag && Quiet() && wire == old(wire)
      ensures old(readCompleted) ==> bufs == old(bufs) && (r.Ok? <==> readResult >= 0)
      ensures !old(readCompleted) && r.Ok? ==>
                var rd := old(reading).value; bufs == old(bufs)[rd.buf := Loaded(old(bufs)[rd.buf], source, rd)]
    {
      if readCompleted {
        readCompleted := false;
        return if readResult < 0 then Failed else Ok;
      }
      var cqe;
      ghost var f;
      cqe, f := WaitCqe();
      assert cqes[|old(cqes)|] == cqe;
      if cqe.tag.ReadDone? {
        return if cqe.res < 0 then Failed else Ok;
      }
      return UnexpectedTag;
    }

    // Every send in flight takes its bytes from buffer b.
    ghost predicate AllFrom(b: nat)
      requires FlightsOk()
      reads `flights, `slots
    {
      forall f :: 0 <= f < |flights| ==> slots[flights[f].slot].buf == b
    }

    // One completion in send_chunk's two drain loops.
    method Reap(b: nat) returns (ok: bool)
      requires b < 2 && FlightsOk() && ReadOk(b) && AllFrom(b) && exists g :: 0 <= g < |flights| && flights[g].posted
      modifies `reading, `readCompleted, `readResult, `bufs, `flights, `wire, `cqes
      ensures FlightsOk() && ReadOk(b) && AllFrom(b) && bufs[b] == old(bufs)[b]
      ensures ReadKept() && Tells(ok) && (!ok ==> EndsWithBadSend(cqes))
      ensures old(wire) <= wire
      ensures ok ==> |wire| + |flights| == |old(wire)| + |old(flights)|
      ensures ok ==> multiset(wire) + multiset(Coming(flights, slots, bufs))
                     == multiset(old(wire)) + multiset(Coming(old(flights), slots, old(bufs)))
      ensures ok ==> (flights == old(flights) && old(reading).Some? && reading.None?)
                     || (|flights| == |old(flights)| - 1 && reading == old(reading))
      ensures forall g :: 0 <= g < |flights| ==> flights[g] in old(flights)
    {
      hide Gather, Loaded, Coming;
      var cqe;
      ghost var f;
      cqe, f := WaitCqe();
      assert cqes[|old(cqes)|] == cqe;
      if cqe.tag.ReadDone? {
        readCompleted, readResult := true, cqe.res;
        ComingSame(flights, slots, old(bufs), bufs, b);
        return true;
      }
      Taken(old(flights), slots, old(bufs), f);
      return cqe.res >= 0;
    }

    // io_uring_submit
    method Submit()
      modifies `flights
      ensures flights == AllPosted(old(flights))
    {
      flights := AllPosted(flights);
    }

    // send_chunk. While the chunk has no more fragments than there are slots, what it puts on
    // the wire is exactly the chunk's fragments, each once; READ completions that it reaps
    // go to the stash.
    method SendChunk(b: nat, k: P.u32, len: nat) returns (ok: bool, ghost batch: seq<bytes>)
      requires b < 2 && len <= |bufs[b]| && len < P.TWO32 && flights == [] && ReadOk(b)
      modifies `reading, `readCompleted, `readResult, `bufs, `flights, `wire, `cqes, `slots
      ensures FlightsOk() && ReadOk(b) && bufs[b] == old(bufs)[b] && wire == old(wire) + batch
      ensures ReadKept() && Tells(ok) && (!ok ==> EndsWithBadSend(cqes))
      ensures ok ==> flights == [] && |batch| == FragCount(len)
      ensures ok && FragCount(len) <= QUEUE_DEPTH ==> multiset(batch) == multiset(Fragments(bufs[b][..len], k, FragCount(len)))
    {
      hide ReadMoves, Gather, FragCount, Fragments, Laid, Coming, AllPosted, UdpSender.ReadOk, Told, UdpSender.StashBad;
      slots := seq(QUEUE_DEPTH, _ => Slot([], b, 0, 0));
      ok := Lay(b, k, len);
      if !ok { return false, wire[|old(wire)|..]; }
      Submit();
      ghost var rd, dn, rs, bf, fl, w, cs, sb := reading, readCompleted, readResult, bufs, flights, wire, cqes, StashBad();
      if FragCount(len) <= QUEUE_DEPTH { LaidIsChunk(flights, slots, bufs, b, k, len); }
      ok := Drain(b);
      ReadTrans(source, old(reading), old(readCompleted), old(readResult), old(bufs), rd, dn, rs, bf,
                reading, readCompleted, readResult, bufs);
      TellTrans(old(cqes), old(StashBad()), cs, sb, cqes, StashBad(), ok);
      batch := wire[|old(wire)|..];
      if ok && FragCount(len) <= QUEUE_DEPTH {
        BatchIs(w, wire, flights, slots, bufs, Coming(fl, slots, bf));
      }
    }

    // The first part of send_chunk: prepare a send for each fragment.
    method Lay(b: nat, k: P.u32, len: nat) returns (ok: bool)
      requires b < 2 && len <= |bufs[b]| && len < P.TWO32 && flights == [] && ReadOk(b) && |slots| == QUEUE_DEPTH
      modifies `reading, `readCompleted, `readResult, `bufs, `flights, `wire, `cqes, `slots
      ensures FlightsOk() && ReadOk(b) && AllFrom(b) && old(wire) <= wire && bufs[b] == old(bufs)[b]
      ensures ReadKept() && Tells(ok) && (!ok ==> EndsWithBadSend(cqes))
      ensures ok ==> |wire| + |flights| == |old(wire)| + FragCount(len)
      ensures ok && FragCount(len) <= QUEUE_DEPTH ==> wire == old(wire) && Laid(flights, slots, b, k, len, FragCount(len))
    {
      hide ReadMoves, FragCount, Laid, SlotFor, UdpSender.ReadOk, Told, UdpSender.StashBad, EndsWithBadSend, UdpSender.FlightsOk, UdpSender.AllFrom;
      var n := FragCount(len);
      TellStart(cqes, StashBad());
      ReadStill(source, reading, readCompleted, readResult, bufs);
      NoFlights(b);
      LaidNone(slots, b, k, len);
      var frag := 0;
      while frag < n
        invariant 0 <= frag <= n && FlightsOk() && ReadOk(b) && AllFrom(b) && old(wire) <= wire
        invariant bufs[b] == old(bufs)[b]
        invariant ReadKept() && Tells(true)
        invariant |wire| + |flights| == |old(wire)| + frag
        invariant n <= QUEUE_DEPTH ==> wire == old(wire) && Laid(flights, slots, b, k, len, frag)
      {
        ghost var rd, dn, rs, bf, cs, sb := reading, readCompleted, readResult, bufs, cqes, StashBad();
        if n <= QUEUE_DEPTH { LaidCount(flights, slots, b, k, len, frag); }
        ok := MakeRoom(b);
        ReadTrans(source, old(reading), old(readCompleted), old(readResult), old(bufs), rd, dn, rs, bf,
                  reading, readCompleted, readResult, bufs);
        TellTrans(old(cqes), old(StashBad()), cs, sb, cqes, StashBad(), ok);
        if !ok { return; }
        FewFrags(len, frag);
        PrepareSend(b, k, len, frag);
        frag := frag + 1;
      }
      return true;
    }

    lemma NoFlights(b: nat)
      requires flights == [] && |slots| == QUEUE_DEPTH
      ensures FlightsOk() && AllFrom(b)
    {
    }

    // One sendmsg is prepared in the next slot.
    method PrepareSend(b: nat, k: P.u32, len: nat, frag: nat)
      requires b < 2 && FlightsOk() && AllFrom(b) && |flights| < QUEUE_DEPTH && frag < FragCount(len) && frag < P.TWO32
      modifies `slots, `flights
      ensures FlightsOk() && AllFrom(b) && |flights| == |old(flights)| + 1
      ensures Laid(old(flights), old(slots), b, k, len, frag) ==> frag < QUEUE_DEPTH && Laid(flights, slots, b, k, len, frag + 1)
    {
      hide FragCount, SlotFor, Laid;
      if Laid(flights, slots, b, k, len, frag) {
        LaidCount(flights, slots, b, k, len, frag);
        LayOne(flights, slots, b, k, len, frag);
      }
      var slot := |flights| % QUEUE_DEPTH;
      slots := slots[slot := SlotFor(b, k, len, frag)];
      flights := flights + [Flight(slot, frag, false)];
    }

    // send_chunk's wait for a free slot.
    method MakeRoom(b: nat) returns (ok: bool)
      requires b < 2 && FlightsOk() && ReadOk(b) && AllFrom(b)
      modifies `reading, `readCompleted, `readResult, `bufs, `flights, `wire, `cqes
      ensures FlightsOk() && ReadOk(b) && AllFrom(b) && old(wire) <= wire && bufs[b] == old(bufs)[b]
      ensures ReadKept() && Tells(ok) && (!ok ==> EndsWithBadSend(cqes))
      ensures ok ==> |flights| < QUEUE_DEPTH && |wire| + |flights| == |old(wire)| + |old(flights)|
      ensures |old(flights)| < QUEUE_DEPTH ==>
                ok && flights == old(flights) && wire == old(wire) && bufs == old(bufs) && reading == old(reading)
                && readCompleted == old(readCompleted) && readResult == old(readResult)
    {
      hide ReadMoves, Told, UdpSender.StashBad;
      TellStart(cqes, StashBad());
      ReadStill(source, reading, readCompleted, readResult, bufs);
      if |flights| >= QUEUE_DEPTH {
        Submit();
        while |flights| >= QUEUE_DEPTH
          invariant FlightsOk() && ReadOk(b) && AllFrom(b) && old(wire) <= wire && bufs[b] == old(bufs)[b]
          invariant ReadKept() && Tells(true)
          invariant |wire| + |flights| == |old(wire)| + |old(flights)|
          invariant forall f :: 0 <= f < |flights| ==> flights[f].posted
          decreases |flights|, if reading.Some? then 1 else 0
        {
          assert flights[0].posted;
          ghost var rd, dn, rs, bf, cs, sb := reading, readCompleted, readResult, bufs, cqes, StashBad();
          ok := Reap(b);
          ReadTrans(source, old(reading), old(readCompleted), old(readResult), old(bufs), rd, dn, rs, bf,
                    reading, readCompleted, readResult, bufs);
          TellTrans(old(cqes), old(StashBad()), cs, sb, cqes, StashBad(), ok);
          if !ok { return; }
        }
      }
      return true;
    }

    // The final drain: every send completes.
    method Drain(b: nat) returns (ok: bool)
      requires b < 2 && FlightsOk() && ReadOk(b) && AllFrom(b) && forall f :: 0 <= f < |flights| ==> flights[f].posted
      modifies `reading, `readCompleted, `readResult, `bufs, `flights, `wire, `cqes
      ensures FlightsOk() && ReadOk(b) && old(wire) <= wire && bufs[b] == old(bufs)[b]
      ensures ReadKept() && Tells(ok) && (!ok ==> EndsWithBadSend(cqes))
      ensures ok ==> flights == [] && |wire| == |old(wire)| + |old(flights)|
      ensures ok ==> multiset(wire) + multiset(Coming(flights, slots, bufs))
                     == multiset(old(wire)) + multiset(Coming(old(flights), slots, old(bufs)))
    {
      hide ReadMoves, Told, UdpSender.StashBad;
      TellStart(cqes, StashBad());
      ReadStill(source, reading, readCompleted, readResult, bufs);
      while flights != []
        invariant FlightsOk() && ReadOk(b) && AllFrom(b) && old(wire) <= wire && bufs[b] == old(bufs)[b]
        invariant ReadKept() && Tells(true)
        invariant |wire| + |flights| == |old(wire)| + |old(flights)|
        invariant multiset(wire) + multiset(Coming(flights, slots, bufs))
                  == multiset(old(wire)) + multiset(Coming(old(flights), slots, old(bufs)))
        invariant forall f :: 0 <= f < |flights| ==> flights[f].posted
        decreases |flights|, if reading.Some? then 1 else 0
      {
        assert flights[0].posted;
        ghost var rd, dn, rs, bf, cs, sb := reading, readCompleted, readResult, bufs, cqes, StashBad();
        ok := Reap(b);
        ReadTrans(source, old(reading), old(readCompleted), old(readResult), old(bufs), rd, dn, rs, bf,
                  reading, readCompleted, readResult, bufs);
        TellTrans(old(cqes), old(StashBad()), cs, sb, cqes, StashBad(), ok);
        if !ok { return; }
      }
      return true;
    }

    // The acknowledgement of chunk k: whatever else arrives, or nothing, is an exception.
    method TakeAck(k: nat) returns (ok: bool)
      modifies `arriving, `taken
      ensures old(taken) <= taken && |taken| <= |old(taken)| + 1 && InOrder(old(arriving), arriving, taken, |old(taken)|)
      ensures taken == old(taken) ==> !ok && old(arriving) == []
      ensures |taken| > |old(taken)| ==> taken[|old(taken)|].1 == |wire| && (ok <==> taken[|old(taken)|].0 == k)
    {
      var ack := RecvControl();
      if ack.None? { return false; }
      return ack.value == k;
    }

    // One turn of send_file's loop: start to read chunk k+1, send chunk k, take its
    // acknowledgement, wait for the read. `content` is what was sent as chunk k.
    method SendOne(offset: nat, len: nat, k: nat) returns (r: Outcome, ghost batch: seq<bytes>, ghost content: bytes)
      requires Quiet() && FlightsOk() && |bufs[0]| == |bufs[1]| == Chunks.CHUNK_SIZE
      requires k < Chunks.ChunkCount(len) && Has(bufs[k % 2], source, offset + Chunks.Offset(k), Chunks.ChunkLen(len, k))
      modifies this
      ensures r != UnexpectedTag && wire == old(wire) + batch
      ensures r.Ok? ==> Quiet() && FlightsOk() && |bufs[0]| == |bufs[1]| == Chunks.CHUNK_SIZE
      ensures r.Ok? ==> IsChunk(content, source, offset, len, k) && Sends(batch, content, k)
      ensures r.Ok? && k + 1 < Chunks.ChunkCount(len) ==>
                Has(bufs[(k + 1) % 2], source, offset + Chunks.Offset(k + 1), Chunks.ChunkLen(len, k + 1))
      // The next chunk's READ is submitted before any of this chunk goes out.
      ensures loads == old(loads) + if k + 1 < Chunks.ChunkCount(len)
                                    then [(Read((k + 1) % 2, offset + Chunks.Offset(k + 1), Chunks.ChunkLen(len, k + 1)), |old(wire)|)] else []
      // At most one control message is taken, after all of the chunk has gone out; the turn
      // succeeds exactly when that is acknowledgement k and no completion reported an error.
      ensures old(cqes) <= cqes && (taken == old(taken) || (|taken| == |old(taken)| + 1 && Sends(batch, content, k)))
      ensures InOrder(old(arriving), arriving, taken, |old(taken)|) && old(taken) <= taken
      ensures |taken| > |old(taken)| ==> taken[|old(taken)|].1 == |wire|
      ensures r.Ok? <==> |taken| > |old(taken)| && taken[|old(taken)|].0 == k && !Bad(cqes, |old(cqes)|)
      ensures taken == old(taken) ==> (Bad(cqes, |old(cqes)|) && EndsWithBadSend(cqes)) || old(arriving) == []
    {
      hide FragCount, Sends, ReadMoves, Loaded, Fragments, Reads, Bad, Told, InOrder, IsChunk, Has;
      var n := Chunks.ChunkCount(len);
      NothingTaken(arriving, taken);
      ChunkSizes(len, k);
      var clen := Chunks.ChunkLen(len, k);
      HasIsChunk(bufs[k % 2], source, offset, len, k);
      content := bufs[k % 2][..clen];
      if k + 1 < n {
        ChunkSizes(len, k + 1);
        SubmitRead((k + 1) % 2, offset + Chunks.Offset(k + 1), Chunks.ChunkLen(len, k + 1));
      }
      ghost var rd, bufs1 := reading, bufs;
      var ok;
      ok, batch := SendChunk(k % 2, k, clen);
      ToldMeans(old(cqes), cqes, StashBad(), ok);
      if !ok { return Failed, batch, content; }
      IsSent(batch, content, k);
      StashOrRing(source, rd, bufs1, reading, readCompleted, readResult, bufs);
      ok := TakeAck(k);
      if !ok { return Failed, batch, content; }
      if k + 1 < n {
        ghost var cs, sb := cqes, StashBad();
        r := WaitRead();
        WaitTells(cs, sb, cqes, r.Ok?);
        TellTrans(old(cqes), false, cs, sb, cqes, false, r.Ok?);
        ToldMeans(old(cqes), cqes, false, r.Ok?);
        LoadedHas(bufs1[(k + 1) % 2], source, rd.value);
        return;
      }
      return Ok, batch, content;
    }

    // The cold start: the ready byte, then the first READ.
    method Begin(offset: nat, len: nat) returns (r: Outcome)
      requires Quiet() && FlightsOk() && |bufs[0]| == |bufs[1]| == Chunks.CHUNK_SIZE
      modifies this
      ensures r != UnexpectedTag && wire == old(wire) && old(cqes) <= cqes && old(taken) <= taken
      ensures r.Ok? <==> |taken| > |old(taken)| && !Bad(cqes, |old(cqes)|)
      ensures taken == old(taken) ==> old(arriving) == []
      ensures InOrder(old(arriving), arriving, taken, |old(taken)|) && |taken| <= |old(taken)| + 1
      ensures |taken| > |old(taken)| ==> taken[|old(taken)|].1 == |wire|
      ensures loads == old(loads) + if |taken| > |old(taken)| then [(Read(0, offset, Chunks.Min(len, Chunks.CHUNK_SIZE)), |wire|)] else []
      ensures r.Ok? ==> Quiet() && FlightsOk() && |bufs[0]| == |bufs[1]| == Chunks.CHUNK_SIZE
      ensures r.Ok? ==> Has(bufs[0], source, offset, Chunks.Min(len, Chunks.CHUNK_SIZE))
    {
      hide Loaded, Has, Bad;
      var ready := RecvControl();
      if ready.None? { return Failed; }
      SubmitRead(0, offset, Chunks.Min(len, Chunks.CHUNK_SIZE));
      ghost var bufs0 := bufs;
      r := WaitRead();
      LoadedHas(bufs0[0], source, Read(0, offset, Chunks.Min(len, Chunks.CHUNK_SIZE)));
    }

    // send_file: two buffers, chunk n in buffer n&1 whenever send_chunk(n) starts. `batches`
    // is what each send_chunk put on the wire, `contents` the bytes it sent. Nothing goes out
    // before the ready byte has arrived, and nothing of chunk n+1 before acknowledgement n:
    // `acked` acknowledgements were taken in order, and whatever else arrives ends the call
    // with nothing more sent. A range in the file is sent chunk by chunk; of one that reaches
    // past its end, what the file has.
    method SendFile(offset: nat, len: nat)
      returns (r: Outcome, ghost batches: seq<seq<bytes>>, ghost contents: seq<bytes>, ghost acked: nat)
      requires Quiet() && FlightsOk() && |bufs[0]| == |bufs[1]| == Chunks.CHUNK_SIZE
      modifies this
      ensures r != UnexpectedTag
      ensures wire == old(wire) + Flat(batches)
      ensures r.Ok? ==> Quiet() && FlightsOk() && acked == |batches| == |contents| == Chunks.ChunkCount(len)
      ensures r.Ok? ==> forall k :: 0 <= k < |batches| ==>
                          IsChunk(contents[k], source, offset, len, k) && Sends(batches[k], contents[k], k)
      ensures r.Ok? && offset + len <= |source| ==>
                forall k :: 0 <= k < |batches| ==> contents[k] == Chunks.ChunkAt(source[offset..offset + len], k)
      ensures InOrder(old(arriving), arriving, taken, |old(taken)|)
      ensures taken == old(taken) ==> r.Failed? && old(arriving) == [] && wire == old(wire)
      ensures |taken| > |old(taken)| ==>
                && taken[|old(taken)|].1 == |old(wire)| && Paced(taken, |old(taken)| + 1, acked, |old(wire)|, batches)
                && acked <= |batches| <= acked + 1
      ensures |taken| > |old(taken)| + 1 + acked ==>
                && r.Failed? && |taken| == |old(taken)| + 2 + acked
                && taken[|taken| - 1].0 != acked && taken[|taken| - 1].1 == |wire|
      ensures r.Failed? ==> old(arriving) == [] || Bad(cqes, |old(cqes)|) || arriving == [] || |taken| > |old(taken)| + 1 + acked
    {
      hide FragCount, Sends, ReadMoves, Loaded, IsChunk, Has, Bad, Flat, Paced, InOrder;
      batches, contents, acked := [], [], 0;
      var n := Chunks.ChunkCount(len);
      FlatNone();
      r := Begin(offset, len);
      PacedNone(taken, |old(taken)| + 1, |old(wire)|);
      if !r.Ok? { return; }
      var k := 0;
      while k < n
        invariant 0 <= k <= n == Chunks.ChunkCount(len) && acked == |batches| == |contents| == k && Quiet() && FlightsOk()
        invariant |bufs[0]| == |bufs[1]| == Chunks.CHUNK_SIZE
        invariant wire == old(wire) + Flat(batches)
        invariant k < n ==> Has(bufs[k % 2], source, offset + Chunks.Offset(k), Chunks.ChunkLen(len, k))
        invariant forall j :: 0 <= j < k ==> IsChunk(contents[j], source, offset, len, j) && Sends(batches[j], contents[j], j)
        invariant |taken| == |old(taken)| + 1 + k && taken[|old(taken)|].1 == |old(wire)|
        invariant old(cqes) <= cqes && InOrder(old(arriving), arriving, taken, |old(taken)|)
        invariant Paced(taken, |old(taken)| + 1, k, |old(wire)|, batches)
      {
        ghost var batch, content;
        ghost var taken0, arriving0, cqes0 := taken, arriving, cqes;
        r, batch, content := SendOne(offset, len, k);
        FlatMore(batches, batch);
        InOrderMore(old(arriving), arriving0, arriving, taken0, taken, |old(taken)|);
        BadMore(old(cqes), cqes0, cqes);
        PacedMore(taken0, taken, |old(taken)| + 1, k, |old(wire)|, batches, batch);
        batches, contents := batches + [batch], contents + [content];
        if |taken| > |taken0| && taken[|taken0|].0 == k { acked := k + 1; }
        if !r.Ok? { return; }
        k := k + 1;
      }
      if offset + len <= |source| {
        forall j | 0 <= j < k ensures contents[j] == Chunks.ChunkAt(source[offset..offset + len], j) {
          InFileIsSource(contents[j], source, offset, len, j);
        }
      }
      return Ok, batches, contents, acked;
    }
  }

  lemma FlatNone()
    ensures Flat([]) == []
  {
  }

  lemma PacedNone(taken: seq<(nat, nat)>, from: nat, wire0: nat)
    ensures from <= |taken| ==> Paced(taken, from, 0, wire0, [])
  {
  }

  lemma BadMore(c0: seq<Cqe>, c1: seq<Cqe>, c2: seq<Cqe>)
    requires c0 <= c1 <= c2
    ensures Bad(c2, |c1|) ==> Bad(c2, |c0|)
  {
  }

  lemma InOrderMore(a0: seq<nat>, a1: seq<nat>, a2: seq<nat>, t1: seq<(nat, nat)>, t2: seq<(nat, nat)>, from: nat)
    requires InOrder(a0, a1, t1, from) && InOrder(a1, a2, t2, |t1|) && t1 <= t2
    ensures InOrder(a0, a2, t2, from)
    ensures |t2| == |t1| && a1 == [] ==> a2 == []
  {
  }

  // One more chunk has gone out, and perhaps one more message been taken after it.
  lemma PacedMore(t1: seq<(nat, nat)>, t2: seq<(nat, nat)>, from: nat, k: nat, wire0: nat, batches: seq<seq<bytes>>, batch: seq<bytes>)
    requires Paced(t1, from, k, wire0, batches) && t1 <= t2 && k == |batches| && |t1| == from + k
    ensures Paced(t2, from, k, wire0, batches + [batch])
    ensures |t2| > |t1| && t2[|t1|] == (k, wire0 + |Flat(batches + [batch])|) ==> Paced(t2, from, k + 1, wire0, batches + [batch])
  {
    hide Flat;
    var more := batches + [batch];
    assert more[..k + 1] == more;
    forall j | 0 <= j < k ensures OnPace(t2, from, j, wire0, more) {
      assert OnPace(t1, from, j, wire0, batches) && more[..j + 1] == batches[..j + 1];
    }
  }

  function AllPosted(flights: seq<Flight>): (r: seq<Flight>)
    ensures |r| == |flights| && forall f :: 0 <= f < |r| ==> r[f] == flights[f].(posted := true)
  {
    seq(|flights|, f requires 0 <= f < |flights| => flights[f].(posted := true))
  }

  lemma ToldMeans(c0: seq<Cqe>, c1: seq<Cqe>, stashBad: bool, ok: bool)
    requires Told(c0, false, c1, stashBad, ok)
    ensures c0 <= c1 && (!ok ==> Bad(c1, |c0|)) && (ok && !stashBad ==> !Bad(c1, |c0|))
  {
  }

  lemma WaitTells(c0: seq<Cqe>, stashBad: bool, c1: seq<Cqe>, ok: bool)
    requires c0 <= c1 && (ok <==> !Bad(c1, |c0|) && !stashBad)
    ensures Told(c0, stashBad, c1, false, ok)
  {
  }

  lemma HasIsChunk(buf: bytes, source: bytes, offset: nat, len: nat, k: nat)
    requires Has(buf, source, offset + Chunks.Offset(k), Chunks.ChunkLen(len, k))
    ensures 0 <= Chunks.ChunkLen(len, k) <= |buf| && IsChunk(buf[..Chunks.ChunkLen(len, k)], source, offset, len, k)
  {
  }

  lemma NothingTaken(arriving: seq<nat>, taken: seq<(nat, nat)>)
    ensures InOrder(arriving, arriving, taken, |taken|)
  {
  }

  lemma TellStart(cqes: seq<Cqe>, bad: bool)
    ensures Told(cqes, bad, cqes, bad, true)
  {
  }

  lemma TellTrans(c0: seq<Cqe>, b0: bool, c1: seq<Cqe>, b1: bool, c2: seq<Cqe>, b2: bool, ok: bool)
    requires Told(c0, b0, c1, b1, true) && Told(c1, b1, c2, b2, ok)
    ensures Told(c0, b0, c2, b2, ok)
  {
    if i :| |c0| <= i < |c1| && c1[i].res < 0 { assert c2[i].res < 0; }
    if i :| |c0| <= i < |c2| && c2[i].res < 0 && i < |c1| { assert c1[i].res < 0; }
  }

  lemma ReadStill(source: bytes, rd: Option<Read>, done: bool, res: int, bufs: Pair)
    ensures ReadMoves(source, rd, done, res, bufs, rd, done, res, bufs)
  {
  }

  lemma ReadTrans(source: bytes, rd0: Option<Read>, done0: bool, res0: int, bufs0: Pair, rd1: Option<Read>, done1: bool,
                  res1: int, bufs1: Pair, rd2: Option<Read>, done2: bool, res2: int, bufs2: Pair)
    requires ReadMoves(source, rd0, done0, res0, bufs0, rd1, done1, res1, bufs1)
    requires ReadMoves(source, rd1, done1, res1, bufs1, rd2, done2, res2, bufs2)
    ensures ReadMoves(source, rd0, done0, res0, bufs0, rd2, done2, res2, bufs2)
  {
  }

  // The slot for fragment i of the chunk in buffer b.
  function SlotFor(b: nat, k: P.u32, len: nat, i: nat): (s: Slot)
    requires i < FragCount(len) && i < P.TWO32
    ensures s.buf == b
  {
    FragsTile(len, i);
    Slot(EncodeHdr(FragHdr(k, i, FragLen(len, i))), b, i * PAYLOAD, FragLen(len, i))
  }

  // Fragments 0 .. n-1 are in flight, each in the slot of its own number.
  ghost predicate Laid(flights: seq<Flight>, slots: seq<Slot>, b: nat, k: P.u32, len: nat, n: nat) {
    && |flights| == n <= FragCount(len) && |slots| == QUEUE_DEPTH && n <= QUEUE_DEPTH
    && forall i :: 0 <= i < n ==> flights[i].slot == i && slots[i] == SlotFor(b, k, len, i)
  }

  lemma LaidNone(slots: seq<Slot>, b: nat, k: P.u32, len: nat)
    requires |slots| == QUEUE_DEPTH
    ensures Laid([], slots, b, k, len, 0)
  {
  }

  lemma LaidCount(flights: seq<Flight>, slots: seq<Slot>, b: nat, k: P.u32, len: nat, n: nat)
    requires Laid(flights, slots, b, k, len, n)
    ensures |flights| == n
  {
  }

  lemma FewFrags(len: nat, i: nat)
    requires i < FragCount(len) && len < P.TWO32
    ensures i < P.TWO32
  {
  }

  lemma LayOne(flights: seq<Flight>, slots: seq<Slot>, b: nat, k: P.u32, len: nat, n: nat)
    requires Laid(flights, slots, b, k, len, n) && n < FragCount(len) && n < QUEUE_DEPTH
    ensures Laid(flights + [Flight(n, n, false)], slots[n := SlotFor(b, k, len, n)], b, k, len, n + 1)
  {
    hide SlotFor;
  }

  // Slots laid out in order carry exactly the chunk's fragments.
  lemma LaidIsChunk(flights: seq<Flight>, slots: seq<Slot>, bufs: Pair, b: nat, k: P.u32, len: nat)
    requires b < 2 && len <= |bufs[b]| && |flights| == FragCount(len) <= QUEUE_DEPTH == |slots|
    requires exists before: seq<Flight> :: flights == AllPosted(before) && Laid(before, slots, b, k, len, FragCount(len))
    ensures Coming(flights, slots, bufs) == Fragments(bufs[b][..len], k, FragCount(len))
  {
    var chunk := bufs[b][..len];
    forall i | 0 <= i < |flights| ensures Gather(slots[flights[i].slot], bufs) == Fragment(chunk, k, i) {
      FragsTile(len, i);
      assert flights[i].slot == i && slots[i] == SlotFor(b, k, len, i);
      assert bufs[b][i * PAYLOAD..i * PAYLOAD + FragLen(len, i)] == Piece(chunk, i);
    }
  }

  lemma ComingSame(flights: seq<Flight>, slots: seq<Slot>, bufs: Pair, bufs': Pair, b: nat)
    requires b < 2 && bufs[b] == bufs'[b]
    requires forall f :: 0 <= f < |flights| ==> flights[f].slot < |slots| && slots[flights[f].slot].buf == b
    ensures Coming(flights, slots, bufs) == Coming(flights, slots, bufs')
  {
  }

  // With nothing left to come, what was added to the wire is what was to come.
  lemma BatchIs(w0: seq<bytes>, w1: seq<bytes>, flights: seq<Flight>, slots: seq<Slot>, bufs: Pair, all: seq<bytes>)
    requires w0 <= w1 && flights == []
    requires multiset(w1) + multiset(Coming(flights, slots, bufs)) == multiset(w0) + multiset(all)
    ensures multiset(w1[|w0|..]) == multiset(all)
  {
    assert Coming(flights, slots, bufs) == [];
    assert w1 == w0 + w1[|w0|..];
    assert multiset(w1) == multiset(w0) + multiset(all);
    forall d ensures multiset(w1[|w0|..])[d] == multiset(all)[d] {
      assert multiset(w1)[d] == multiset(w0)[d] + multiset(w1[|w0|..])[d];
      assert multiset(w1)[d] == multiset(w0)[d] + multiset(all)[d];
    }
  }

  lemma Taken(flights: seq<Flight>, slots: seq<Slot>, bufs: Pair, f: nat)
    requires f < |flights| && forall g :: 0 <= g < |flights| ==> flights[g].slot < |slots|
    ensures var rest := flights[..f] + flights[f + 1..];
            multiset(Coming(flights, slots, bufs)) == multiset(Coming(rest, slots, bufs)) + multiset{Gather(slots[flights[f].slot], bufs)}
  {
    var all := Coming(flights, slots, bufs);
    var rest := flights[..f] + flights[f + 1..];
    assert Coming(rest, slots, bufs) == all[..f] + all[f + 1..];
    assert all == all[..f] + [all[f]] + all[f + 1..];
  }

  function Flat(batches: seq<seq<bytes>>): seq<bytes> {
    if batches == [] then [] else Flat(batches[..|batches| - 1]) + batches[|batches| - 1]
  }

  lemma FlatMore(batches: seq<seq<bytes>>, batch: seq<bytes>)
    ensures Flat(batches + [batch]) == Flat(batches) + batch
  {
    assert (batches + [batch])[..|batches|] == batches;
  }

  // The content agrees with the file from `at` on, as far as the file goes.
  ghost predicate Reads(content: bytes, source: bytes, at: nat) {
    forall x :: 0 <= x < |content| && at + x < |source| ==> content[x] == source[at + x]
  }

  // The buffer starts with n bytes read at `at`.
  ghost predicate Has(buf: bytes, source: bytes, at: nat, n: int) {
    0 <= n <= |buf| && Reads(buf[..n], source, at)
  }

  // What was sent as chunk k of the range was read there.
  ghost predicate IsChunk(content: bytes, source: bytes, offset: nat, len: nat, k: nat) {
    |content| == Chunks.ChunkLen(len, k) && Reads(content, source, offset + Chunks.Offset(k))
  }

  // The batch is the fragments of the content, numbered k, each once, in some order.
  ghost predicate Sends(batch: seq<bytes>, content: bytes, k: nat) {
    k < P.TWO32 && FragCount(|content|) <= QUEUE_DEPTH
    && multiset(batch) == multiset(Fragments(content, k, FragCount(|content|)))
  }

  lemma IsSent(batch: seq<bytes>, content: bytes, k: P.u32)
    requires |content| <= Chunks.CHUNK_SIZE
    requires FragCount(|content|) <= QUEUE_DEPTH ==> multiset(batch) == multiset(Fragments(content, k, FragCount(|content|)))
    ensures Sends(batch, content, k)
  {
    assert FragCount(|content|) <= 17;
  }

  lemma ChunkSizes(len: nat, k: nat)
    requires k < Chunks.ChunkCount(len)
    ensures 0 < Chunks.ChunkLen(len, k) <= Chunks.CHUNK_SIZE && k < P.TWO32
    ensures Chunks.Offset(k) + Chunks.ChunkLen(len, k) <= len
  {
    if len > 0 { Chunks.ChunksTile(len); }
  }

  lemma LoadedHas(buf: bytes, source: bytes, rd: Read)
    requires rd.len <= |buf|
    ensures |Loaded(buf, source, rd)| == |buf| && Has(Loaded(buf, source, rd), source, rd.offset, rd.len)
  {
  }

  lemma InFileIsSource(content: bytes, source: bytes, offset: nat, len: nat, k: nat)
    requires IsChunk(content, source, offset, len, k) && offset + len <= |source| && k < Chunks.ChunkCount(len)
    ensures content == Chunks.ChunkAt(source[offset..offset + len], k)
  {
    ChunkSizes(len, k);
    var data := source[offset..offset + len];
    forall x | 0 <= x < |content| ensures content[x] == data[Chunks.Offset(k) + x] {
      assert offset + Chunks.Offset(k) + x < |source|;
    }
  }

  // After a send, the READ is either still in the ring or in the stash.
  lemma StashOrRing(source: bytes, rd0: Option<Read>, bufs0: Pair, rd1: Option<Read>, done1: bool, res1: int, bufs1: Pair)
    requires exists res0 :: ReadMoves(source, rd0, false, res0, bufs0, rd1, done1, res1, bufs1)
    ensures rd0.None? ==> rd1.None? && !done1 && bufs1 == bufs0
    ensures rd0.Some? ==> (rd1 == rd0 && !done1 && bufs1 == bufs0)
                          || (rd1.None? && done1 && rd0.value.buf < 2
                              && bufs1 == if res1 < 0 then bufs0 else bufs0[rd0.value.buf := Loaded(bufs0[rd0.value.buf], source, rd0.value)])
  {
  }

  // ---- how many slots are enough ----

  // Slot number and fragment number of each send in flight, and the fragment each slot was
  // last set up for. The sender prepares the next fragment, or, when the slots are all in use
  // or no fragment is left, reaps a send.
  datatype Slots = Slots(flights: seq<(nat, nat)>, holds: seq<nat>, next: nat)
  datatype Step = Prepare | ReapOne(f: nat)

  function Go(n: nat, s: Slots, step: Step): Slots
    requires |s.holds| == QUEUE_DEPTH
    ensures |Go(n, s, step).holds| == QUEUE_DEPTH
  {
    match step
    case Prepare =>
      if s.next < n && |s.flights| < QUEUE_DEPTH then
        var slot := |s.flights| % QUEUE_DEPTH;
        Slots(s.flights + [(slot, s.next)], s.holds[slot := s.next], s.next + 1)
      else s
    case ReapOne(f) =>
      if f < |s.flights| && (|s.flights| >= QUEUE_DEPTH || s.next >= n) then
        s.(flights := s.flights[..f] + s.flights[f + 1..])
      else s
  }

  function Steps(n: nat, run: seq<Step>): (s: Slots)
    ensures |s.holds| == QUEUE_DEPTH
  {
    if run == [] then Slots([], seq(QUEUE_DEPTH, _ => 0), 0) else Go(n, Steps(n, run[..|run| - 1]), run[|run| - 1])
  }

  // No slot of a send in flight has been set up for another fragment.
  ghost predicate Intact(n: nat, run: seq<Step>) {
    var s := Steps(n, run);
    forall f :: 0 <= f < |s.flights| ==> s.flights[f].0 < QUEUE_DEPTH && s.holds[s.flights[f].0] == s.flights[f].1
  }

  // While a chunk has no more fragments than slots, each is set up in the slot of its number.
  ghost predicate Small(n: nat, s: Slots) {
    && |s.holds| == QUEUE_DEPTH && s.next <= n && (s.next < n ==> |s.flights| == s.next)
    && (forall f :: 0 <= f < |s.flights| ==> s.flights[f].0 == s.flights[f].1 < s.next)
    && (forall i :: 0 <= i < s.next && i < QUEUE_DEPTH ==> s.holds[i] == i)
  }

  lemma SmallStep(n: nat, s: Slots, step: Step)
    requires n <= QUEUE_DEPTH && Small(n, s)
    ensures Small(n, Go(n, s, step))
  {
  }

  lemma {:induction false} SmallRun(n: nat, run: seq<Step>)
    requires n <= QUEUE_DEPTH
    ensures Small(n, Steps(n, run))
  {
    hide Go, Small;
    if run == [] {
      SmallStart(n);
    } else {
      SmallRun(n, run[..|run| - 1]);
      SmallStep(n, Steps(n, run[..|run| - 1]), run[|run| - 1]);
    }
  }

  lemma SmallStart(n: nat)
    ensures Small(n, Slots([], seq(QUEUE_DEPTH, _ => 0), 0))
  {
  }

  lemma {:induction false} PrepareMany(n: nat, m: nat) returns (run: seq<Step>)
    requires m <= QUEUE_DEPTH && m <= n
    ensures var s := Steps(n, run);
            |s.flights| == m == s.next && forall f :: 0 <= f < m ==> s.flights[f] == (f, f) && s.holds[f] == f
  {
    if m == 0 {
      run := [];
    } else {
      var before := PrepareMany(n, m - 1);
      run := before + [Prepare];
      assert run[..|before|] == before;
      assert Steps(n, run) == Go(n, Steps(n, before), Prepare);
    }
  }

  // A slot in flight is never overwritten, in any run, exactly when a chunk has no more
  // fragments than there are slots.
  lemma SlotsSufficeIff(n: nat)
    ensures n <= QUEUE_DEPTH <==> forall run: seq<Step> :: Intact(n, run)
  {
    if n <= QUEUE_DEPTH {
      forall run: seq<Step> ensures Intact(n, run) { SmallRun(n, run); }
    } else {
      var full := PrepareMany(n, QUEUE_DEPTH);
      var reaped := full + [ReapOne(0)];
      var run := reaped + [Prepare];
      assert run[..|reaped|] == reaped && reaped[..|full|] == full;
      var s := Go(n, Steps(n, full), ReapOne(0));
      assert Steps(n, reaped) == s && Steps(n, run) == Go(n, s, Prepare);
      assert s.flights[QUEUE_DEPTH - 2] == (QUEUE_DEPTH - 1, QUEUE_DEPTH - 1);
      assert Steps(n, run).flights[QUEUE_DEPTH - 2] == (QUEUE_DEPTH - 1, QUEUE_DEPTH - 1);
      assert !Intact(n, run);
    }
  }
}
