// The QUIC transport: blocks retained until acknowledged, two landing places for received
// data, and a close that calls back into the pump.
//
// ngtcp2 is the environment. It accepts any prefix of what it is offered and remembers the
// caller's pointer for each accepted byte, acknowledges only accepted bytes, and delivers
// the peer's bytes in order. `budget` is the number of wake-ups left before the idle timeout
// closes the connection; it is arbitrary.
module Quic {
  import opened Bytes
  import opened Files
  import opened Wrappers

  // A retained block: `end` is the stream offset after its last byte, `buf` its memory.
  // Blocks are numbered as they are pushed; popping block `id` frees that memory.
  datatype Unacked = Unacked(end: nat, id: nat, buf: bytes) {
    function Start(): int { end - |buf| }
  }

  // Where ngtcp2 will read an accepted byte from if it has to send it again.
  datatype Src = Src(id: nat, at: nat)

  // The mapping that recv_file is filling: [offset, offset+len) of the output file.
  datatype Dest = Dest(offset: nat, len: nat, got: nat)

  datatype Wrote = DataBlocked | Failed(code: int) | NoRoom | Packet(accepted: int)
  datatype Sent = SentOk | SentBlocked | SentFailed
  datatype Readiness = SelectFailed | TimedOut | Readable
  datatype Feed = RecvFailed | NoDatagram | Draining | Fed(rv: int)
  datatype Timer = NotDue | IdleClose | Handled(rv: int)

  // What the socket, the clock, the memory map and ngtcp2 answered, in order.
  datatype Happening =
    | Selected(s: Readiness)            // select
    | Got(f: Feed)                      // recvmsg and ngtcp2_conn_read_pkt
    | Expiry(t: Timer)                  // ngtcp2_conn_handle_expiry, if it is due
    | Control(n: int)                   // ngtcp2_conn_writev_stream without data
    | PacketOut(r: Sent)                // a packet handed to the socket
    | Wrote(w: Wrote)                   // ngtcp2_conn_writev_stream with data
    | WroteFin(w: Wrote)                // and with FIN
    | InClosing(b: bool)                // ngtcp2_conn_in_closing_period or draining period
    | Lingered(expired: bool)           // a graceful close looks at its deadline
    | Closing(code: int, n: int)        // ngtcp2_conn_write_connection_close
    | Mapped(ok: bool)                  // mmap

  predicate IsMishap(h: Happening) {
    match h
    case Selected(s) => s == SelectFailed
    case Got(f) => f.RecvFailed? || f.Draining? || (f.Fed? && f.rv != 0)
    case Expiry(t) => t.IdleClose? || (t.Handled? && t.rv != 0)
    case Control(n) => n < 0
    case PacketOut(r) => r == SentFailed
    case Wrote(w) => w.Failed?
    case WroteFin(w) => w.Failed?
    case Mapped(ok) => !ok
    case _ => false
  }

  // Something has gone wrong since `from`.
  ghost predicate Mishap(log: seq<Happening>, from: nat) {
    exists i :: from <= i < |log| && IsMishap(log[i])
  }

  lemma MishapSplit(log0: seq<Happening>, log1: seq<Happening>, log2: seq<Happening>)
    requires log0 <= log1 <= log2
    ensures Mishap(log2, |log0|) <==> Mishap(log1, |log0|) || Mishap(log2, |log1|)
  {
    if i :| |log0| <= i < |log1| && IsMishap(log1[i]) { assert IsMishap(log2[i]); }
    if i :| |log0| <= i < |log2| && IsMishap(log2[i]) && i < |log1| { assert IsMishap(log1[i]); }
  }

  lemma NoMishap(log: seq<Happening>)
    ensures !Mishap(log, |log|)
  {
  }

  lemma OneMore(log: seq<Happening>, h: Happening)
    ensures Mishap(log + [h], |log|) <==> IsMishap(h)
  {
    assert (log + [h])[|log|] == h;
  }

  // i packets from a on, each written by ngtcp2 and taken by the socket.
  ghost predicate Drained(log: seq<Happening>, a: nat, i: nat) {
    i == 0 || (&& Drained(log, a, i - 1) && a + 2 * i <= |log|
               && log[a + 2 * i - 2].Control? && log[a + 2 * i - 2].n > 0 && log[a + 2 * i - 1] == PacketOut(SentOk))
  }

  // drain_packets from a to the end: after i packets that went out it stops, at ten, when
  // ngtcp2 has nothing more, or at the first refusal, which is an error unless the socket was
  // only blocked.
  ghost predicate DrainTrace(log: seq<Happening>, a: nat, i: nat, rv: int) {
    && Drained(log, a, i) && i <= 10
    && var b := a + 2 * i;
       if i == 10 then |log| == b && rv == 0
       else
         && b < |log| && log[b].Control?
         && if log[b].n <= 0 then |log| == b + 1 && rv == log[b].n
            else |log| == b + 2 && log[b + 1].PacketOut? && log[b + 1].r != SentOk
                 && rv == if log[b + 1].r == SentFailed then -1 else 0
  }

  ghost predicate DrainEnds(log: seq<Happening>, a: nat, rv: int) {
    exists i: nat :: DrainTrace(log, a, i, rv)
  }

  // pump_once from a to the end: one select; a readable socket is read; then the timer; then
  // packets out. Whatever goes wrong ends it with -1; an error from ngtcp2 also closes the
  // connection, which a draining peer or the idle timeout closes without a word.
  ghost predicate PumpTrace(log: seq<Happening>, a: nat, rv: int, closed: bool) {
    && a < |log| && log[a].Selected?
    && match log[a].s
       case SelectFailed => |log| == a + 1 && rv == -1 && !closed
       case TimedOut => TimerTrace(log, a + 1, rv, closed)
       case Readable =>
         && a + 1 < |log| && log[a + 1].Got?
         && match log[a + 1].f
            case RecvFailed => |log| == a + 2 && rv == -1 && !closed
            case NoDatagram => TimerTrace(log, a + 2, rv, closed)
            case Draining => |log| == a + 2 && rv == -1 && closed
            case Fed(code) => if code == 0 then TimerTrace(log, a + 2, rv, closed) else ErrorTrace(log, a + 2, code) && rv == -1 && closed
  }

  ghost predicate TimerTrace(log: seq<Happening>, a: nat, rv: int, closed: bool) {
    && a < |log| && log[a].Expiry?
    && match log[a].t
       case NotDue => !closed && DrainEnds(log, a + 1, rv)
       case IdleClose => |log| == a + 1 && rv == -1 && closed
       case Handled(code) =>
         if code == 0 then !closed && DrainEnds(log, a + 1, rv) else ErrorTrace(log, a + 1, code) && rv == -1 && closed
  }

  ghost predicate TookIn(log: seq<Happening>, a: nat) {
    || (|log| == a + 1 && log[a] == Selected(TimedOut))
    || (|log| == a + 2 && log[a] == Selected(Readable) && (log[a + 1] == Got(NoDatagram) || log[a + 1] == Got(Fed(0))))
  }

  lemma IntakeThenTimers(log0: seq<Happening>, log: seq<Happening>, a: nat, rv: int, closed: bool)
    requires TookIn(log0, a) && log0 <= log && TimerTrace(log, |log0|, rv, closed)
    ensures PumpTrace(log, a, rv, closed)
  {
    hide TimerTrace;
    assert log[a] == log0[a];
  }

  // An error is reported to the peer, unless the connection is closing already.
  ghost predicate ErrorTrace(log: seq<Happening>, a: nat, code: int) {
    || (|log| == a + 1 && log[a] == InClosing(true))
    || (|log| == a + 2 && log[a] == InClosing(false) && log[a + 1].Closing? && log[a + 1].code == code)
  }

  predicate EndsClosing(log: seq<Happening>) {
    log != [] && log[|log| - 1].Closing?
  }

  // How a graceful close from a on ended; `nothing`: no block is retained any more. Its
  // CONNECTION_CLOSE is written while blocks are retained only right after the deadline, or
  // when something went wrong; it is left out only if the connection is closing already, or if
  // the pump, for which something went wrong, closed it.
  ghost predicate GracefulEnd(log: seq<Happening>, a: nat, nothing: bool) {
    && a < |log| && Closes(log[|log| - 1]) && StopsAtDeadline(log, a)
    && if EndsClosing(log) && log[|log| - 1].code == 0
       then |log| > a + 1 && (nothing || log[|log| - 2] == Lingered(true) || Mishap(log, a))
       else log[|log| - 1] == InClosing(true) || Mishap(log, a)
  }

  // How the wait for the retained blocks ended.
  ghost predicate LingerEnd(log: seq<Happening>, a: nat, closed: bool, nothing: bool) {
    && a < |log|
    && (closed ==> Mishap(log, a) && Closes(log[|log| - 1]) && (EndsClosing(log) ==> log[|log| - 1].code != 0))
    && (nothing || log[|log| - 1] == Lingered(true) || Mishap(log, a))
    && forall i :: a <= i < |log| && log[i] == Lingered(true) ==> i == |log| - 1
  }

  lemma QuietEnd(log: seq<Happening>, nothing: bool)
    ensures GracefulEnd(log + [InClosing(true)], |log|, nothing)
  {
  }

  lemma ClosedWhileLingering(log0: seq<Happening>, log: seq<Happening>, nothing: bool)
    requires log0 <= log && |log0| > 0 && log0[|log0| - 1] == InClosing(false) && LingerEnd(log, |log0|, true, nothing)
    ensures GracefulEnd(log, |log0| - 1, nothing)
  {
    var i :| |log0| <= i < |log| && IsMishap(log[i]);
    assert log[|log0| - 1] == log0[|log0| - 1];
    assert Mishap(log, |log0| - 1);
    assert !Closes(Lingered(true));
  }

  lemma ClosedAfterLingering(log0: seq<Happening>, log1: seq<Happening>, h: Happening, nothing: bool)
    requires log0 <= log1 && |log0| > 0 && log0[|log0| - 1] == InClosing(false) && LingerEnd(log1, |log0|, false, nothing)
    requires h.Closing? && h.code == 0
    ensures GracefulEnd(log1 + [h], |log0| - 1, nothing)
  {
    var log := log1 + [h];
    assert log[|log0| - 1] == log0[|log0| - 1];
    if Mishap(log1, |log0|) {
      var i :| |log0| <= i < |log1| && IsMishap(log1[i]);
      assert IsMishap(log[i]);
    }
  }

  // Once the deadline has been seen to have passed only the close itself follows.
  ghost predicate StopsAtDeadline(log: seq<Happening>, from: nat) {
    forall i :: from <= i < |log| && log[i] == Lingered(true) ==> i == |log| - 2 && log[i + 1].Closing?
  }

  // What has just happened when a connection is closed.
  predicate Closes(h: Happening) {
    h == InClosing(true) || h.Closing? || h == Got(Draining) || h == Expiry(IdleClose)
  }

  // One round of write_stream's loop: what ngtcp2 wrote goes to the socket; when either cannot
  // take more for now, one pump.
  ghost predicate WriteTrace(log: seq<Happening>, a: nat, ok: bool, n: nat, closed: bool) {
    && a < |log| && log[a].Wrote?
    && match log[a].w
       case Failed(code) => ErrorTrace(log, a + 1, code) && !ok && n == 0 && closed
       case DataBlocked => n == 0 && PumpEnds(log, a + 1, ok, closed)
       case NoRoom => n == 0 && PumpEnds(log, a + 1, ok, closed)
       case Packet(accepted) =>
         && n == (if accepted > 0 then accepted else 0) && a + 1 < |log| && log[a + 1].PacketOut?
         && match log[a + 1].r
            case SentFailed => |log| == a + 2 && !ok
            case SentOk => |log| == a + 2 && ok
            case SentBlocked => PumpEnds(log, a + 2, ok, closed)
  }

  // One round of send_fin's loop; `done` when it ends there, with 0 exactly if the FIN is out.
  ghost predicate FinTrace(log: seq<Happening>, a: nat, r: int, done: bool, closed: bool) {
    && a < |log| && log[a].WroteFin?
    && match log[a].w
       case Failed(code) => ErrorTrace(log, a + 1, code) && done && r == -1 && closed
       case DataBlocked => PumpEnds(log, a + 1, !done, closed) && (done ==> r == -1)
       case NoRoom => PumpEnds(log, a + 1, !done, closed) && (done ==> r == -1)
       case Packet(accepted) =>
         && |log| == a + 2 && log[a + 1].PacketOut?
         && if log[a + 1].r == SentFailed then done && r == -1 else (done <==> accepted >= 0) && (done ==> r == 0)
  }

  // The same up to the pump: ngtcp2 or the socket could not take more.
  ghost predicate Written(log: seq<Happening>, a: nat, n: nat) {
    && a < |log| && log[a].Wrote?
    && match log[a].w
       case Failed(code) => false
       case DataBlocked => n == 0 && |log| == a + 1
       case NoRoom => n == 0 && |log| == a + 1
       case Packet(accepted) =>
         n == (if accepted > 0 then accepted else 0) && |log| == a + 2 && log[a + 1] == PacketOut(SentBlocked)
  }

  lemma WriteThenPump(log0: seq<Happening>, log: seq<Happening>, a: nat, n: nat, rv: int, closed: bool)
    requires Written(log0, a, n) && log0 <= log && PumpTrace(log, |log0|, rv, closed)
    ensures WriteTrace(log, a, rv == 0, n, closed)
  {
    hide PumpTrace;
    assert log[a] == log0[a];
    assert PumpEnds(log, |log0|, rv == 0, closed);
  }

  ghost predicate PumpEnds(log: seq<Happening>, a: nat, ok: bool, closed: bool) {
    exists rv: int :: PumpTrace(log, a, rv, closed) && (ok <==> rv == 0)
  }

  // Stream offset at which the bytes of block j end that ngtcp2 has accepted.
  function Limit(q: seq<Unacked>, j: nat, streamOffset: nat): int
    requires j < |q|
  {
    if j + 1 < |q| then q[j + 1].Start() else streamOffset
  }

  // The retained blocks cover everything accepted and not acknowledged. `popped` counts the
  // blocks already freed.
  ghost predicate ChainOk(q: seq<Unacked>, acked: nat, streamOffset: nat, popped: nat) {
    && acked <= streamOffset
    && (q == [] ==> acked == streamOffset)
    && (q != [] ==> q[0].Start() <= acked)
    && (forall j :: 0 <= j < |q| ==>
          q[j].id == popped + j && q[j].buf != []
          && 0 <= q[j].Start() <= Limit(q, j, streamOffset) <= q[j].end)
  }

  // The accepted bytes of block b are those before `limit`: ngtcp2 points into b for them,
  // and b still holds what was accepted.
  ghost predicate BlockOk(b: Unacked, limit: int, src: seq<Src>, content: bytes) {
    && |src| == |content| && 0 <= b.Start() <= limit <= b.end && limit <= |content|
    && (forall o :: b.Start() <= o < limit ==> src[o] == Src(b.id, o - b.Start()))
    && content[b.Start()..limit] == b.buf[..limit - b.Start()]
  }

  ghost predicate MemoryOk(q: seq<Unacked>, src: seq<Src>, content: bytes) {
    && |src| == |content|
    && forall j :: 0 <= j < |q| ==> BlockOk(q[j], Limit(q, j, |content|), src, content)
  }

  // `furthest` is the largest end of any block ever retained: it is acknowledged, or a block
  // that ends there is still retained.
  ghost predicate FurthestOk(q: seq<Unacked>, acked: nat, furthest: nat) {
    && (forall j :: 0 <= j < |q| ==> q[j].end <= furthest)
    && (furthest <= acked || exists j :: 0 <= j < |q| && q[j].end == furthest)
  }

  // No gaps and no overlaps between the retained blocks.
  ghost predicate Contiguous(q: seq<Unacked>) {
    forall j :: 0 <= j < |q| - 1 ==> q[j + 1].Start() == q[j].end
  }

  lemma FindBlock(q: seq<Unacked>, acked: nat, streamOffset: nat, popped: nat, o: nat) returns (j: nat)
    requires ChainOk(q, acked, streamOffset, popped) && acked <= o < streamOffset
    ensures j < |q| && q[j].Start() <= o < Limit(q, j, streamOffset) <= q[j].end
  {
    j := 0;
    while o >= Limit(q, j, streamOffset)
      invariant j < |q| && q[j].Start() <= o
      decreases |q| - j
    {
      j := j + 1;
    }
  }

  lemma BlockReads(b: Unacked, limit: int, src: seq<Src>, content: bytes, o: nat)
    requires BlockOk(b, limit, src, content) && b.Start() <= o < limit
    ensures src[o] == Src(b.id, o - b.Start()) && o - b.Start() < |b.buf| && b.buf[o - b.Start()] == content[o]
  {
    assert content[o] == content[b.Start()..limit][o - b.Start()];
  }

  // A byte that may still have to be sent again is read from a block that is still held, and
  // reads as it was accepted.
  lemma RetransmitReadsSame(q: seq<Unacked>, src: seq<Src>, content: bytes, acked: nat, popped: nat, o: nat)
    requires ChainOk(q, acked, |content|, popped) && MemoryOk(q, src, content) && acked <= o < |content|
    ensures popped <= src[o].id < popped + |q| && src[o].at < |q[src[o].id - popped].buf|
    ensures q[src[o].id - popped].buf[src[o].at] == content[o]
  {
    hide BlockOk;
    var j := FindBlock(q, acked, |content|, popped, o);
    BlockReads(q[j], Limit(q, j, |content|), src, content, o);
  }

  // Popping a block whose end is acknowledged.
  lemma PopKeeps(q: seq<Unacked>, src: seq<Src>, content: bytes, acked: nat, popped: nat)
    requires ChainOk(q, acked, |content|, popped) && MemoryOk(q, src, content) && q != [] && q[0].end <= acked
    ensures ChainOk(q[1..], acked, |content|, popped + 1) && MemoryOk(q[1..], src, content)
  {
    hide BlockOk;
    var t := q[1..];
    forall j | 0 <= j < |t|
      ensures t[j] == q[j + 1] && Limit(t, j, |content|) == Limit(q, j + 1, |content|)
      ensures BlockOk(t[j], Limit(t, j, |content|), src, content)
    {
      assert BlockOk(q[j + 1], Limit(q, j + 1, |content|), src, content);
    }
    assert Limit(q, 0, |content|) <= acked;
  }

  // A new block starts where the stream stands.
  lemma PushKeeps(q: seq<Unacked>, src: seq<Src>, content: bytes, acked: nat, popped: nat, data: bytes)
    requires ChainOk(q, acked, |content|, popped) && MemoryOk(q, src, content) && data != []
    ensures var q' := q + [Unacked(|content| + |data|, popped + |q|, data)];
            ChainOk(q', acked, |content|, popped) && MemoryOk(q', src, content)
  {
    var b := Unacked(|content| + |data|, popped + |q|, data);
    var q' := q + [b];
    assert BlockOk(b, |content|, src, content);
    hide BlockOk;
    forall j | 0 <= j < |q'|
      ensures BlockOk(q'[j], Limit(q', j, |content|), src, content)
    {
      if j < |q| {
        assert Limit(q', j, |content|) == Limit(q, j, |content|);
        assert BlockOk(q[j], Limit(q, j, |content|), src, content);
      }
    }
  }

  function Pointers(b: Unacked, at: nat, n: nat): (s: seq<Src>)
    ensures |s| == n && forall k :: 0 <= k < n ==> s[k] == Src(b.id, at + k)
  {
    if n == 0 then [] else Pointers(b, at, n - 1) + [Src(b.id, at + n - 1)]
  }

  // Bytes of the last block are accepted.
  lemma AcceptKeeps(q: seq<Unacked>, src: seq<Src>, content: bytes, acked: nat, popped: nat, n: nat)
    requires ChainOk(q, acked, |content|, popped) && MemoryOk(q, src, content)
    requires q != [] && |content| + n <= q[|q| - 1].end
    ensures var b := q[|q| - 1]; var at := |content| - b.Start();
            && 0 <= at && at + n <= |b.buf|
            && ChainOk(q, acked, |content| + n, popped)
            && MemoryOk(q, src + Pointers(b, at, n), content + b.buf[at..at + n])
  {
    hide BlockOk, Pointers;
    var last := |q| - 1;
    var b := q[last];
    assert Limit(q, last, |content|) == |content|;
    AcceptMemory(q, src, content, n);
  }

  lemma AcceptMemory(q: seq<Unacked>, src: seq<Src>, content: bytes, n: nat)
    requires MemoryOk(q, src, content) && q != [] && |content| + n <= q[|q| - 1].end
    requires 0 <= q[|q| - 1].Start() <= |content|
    ensures var b := q[|q| - 1]; var at := |content| - b.Start();
            MemoryOk(q, src + Pointers(b, at, n), content + b.buf[at..at + n])
  {
    hide BlockOk, Pointers;
    var last := |q| - 1;
    var b := q[last];
    var at := |content| - b.Start();
    var src', content' := src + Pointers(b, at, n), content + b.buf[at..at + n];
    assert Limit(q, last, |content|) == |content| && Limit(q, last, |content'|) == |content'|;
    forall j | 0 <= j < |q| ensures BlockOk(q[j], Limit(q, j, |content'|), src', content') {
      assert BlockOk(q[j], Limit(q, j, |content|), src, content);
      if j < last {
        StillOk(q[j], Limit(q, j, |content|), src, content, src', content');
      } else {
        AcceptBlock(b, src, content, n);
      }
    }
  }

  lemma StillOk(b: Unacked, limit: int, src: seq<Src>, content: bytes, src': seq<Src>, content': bytes)
    requires BlockOk(b, limit, src, content) && src <= src' && content <= content' && |src'| == |content'|
    ensures BlockOk(b, limit, src', content')
  {
    assert content'[b.Start()..limit] == content[b.Start()..limit];
  }

  lemma AcceptBlock(b: Unacked, src: seq<Src>, content: bytes, n: nat)
    requires BlockOk(b, |content|, src, content) && |content| + n <= b.end
    ensures var at := |content| - b.Start();
            BlockOk(b, |content| + n, src + Pointers(b, at, n), content + b.buf[at..at + n])
  {
    var at := |content| - b.Start();
    var content' := content + b.buf[at..at + n];
    assert content[b.Start()..|content|] == content[b.Start()..];
    assert b.buf[..at] + b.buf[at..at + n] == b.buf[..at + n];
    assert content'[b.Start()..|content'|] == content[b.Start()..] + b.buf[at..at + n];
  }

  class QuicTransport {
    // QuicTransport's own fields.
    var closed: bool
    var hasStream: bool
    var finSent: bool
    var finReceived: bool
    var unacked: seq<Unacked>
    var streamOffset: nat
    var recvBuf: bytes
    var recvDest: Option<Dest>
    // The output file that recv_file maps.
    var file: bytes
    // The environment: ngtcp2's view of the send stream, wake-ups left, calls to write a
    // CONNECTION_CLOSE, and those that gave a packet to send.
    ghost var content: bytes
    ghost var src: seq<Src>
    var acked: nat
    var budget: nat
    ghost var closeCalls: nat
    ghost var closePackets: nat
    // History: blocks freed, the largest end of any block retained, whether a send has failed, bytes ngtcp2 delivered, and bytes
    // handed to the caller or landed in the file.
    var popped: nat
    ghost var furthest: nat
    // FIN frames that ngtcp2 has written, flow control credit given to the peer, and all that
    // has happened.
    ghost var finFrames: nat
    var credit: nat
    ghost var log: seq<Happening>
    ghost var sendFailed: bool
    ghost var delivered: bytes
    ghost var consumed: bytes

    // Retention. While a write is under way the last block may be only partly accepted.
    ghost predicate SendOk()
      reads `streamOffset, `content, `src, `unacked, `acked, `popped, `sendFailed, `furthest
    {
      && acked <= streamOffset == |content|
      && ChainOk(unacked, acked, streamOffset, popped) && MemoryOk(unacked, src, content)
      && (unacked != [] ==> unacked[0].end > acked)
      && FurthestOk(unacked, acked, furthest)
      && (!sendFailed ==> Contiguous(unacked))
    }

    // Delivery. Whatever ngtcp2 delivered has been consumed or is queued, in order.
    ghost predicate RecvOk()
      reads `recvBuf, `recvDest, `file, `delivered, `consumed, `credit
    {
      consumed + recvBuf == delivered && credit == |delivered| && DestOk(recvDest, file, consumed, recvBuf)
    }

    ghost predicate Valid()
      reads this
    {
      && SendOk() && RecvOk()
      && closePackets <= closeCalls <= 1 && (closeCalls == 1 ==> closed)
      && (finSent ==> hasStream && finFrames > 0)
    }

    // Between sends, unless one has failed, everything retained has been accepted.
    ghost predicate Idle()
      reads this
    {
      Valid() && (!sendFailed && unacked != [] ==> unacked[|unacked| - 1].end == streamOffset)
    }

    // A connection after its handshake; a client has opened its stream, a server has not.
    constructor (wakeUps: nat, output: bytes, client: bool)
      ensures Idle() && !closed && hasStream == client && recvDest.None? && file == output
      ensures content == [] && consumed == [] && delivered == [] && unacked == [] && !sendFailed && !finSent && log == []
      ensures !finReceived && acked == 0 && credit == 0 && closeCalls == 0 && finFrames == 0
    {
      hide ChainOk, MemoryOk, FurthestOk, DestOk, Contiguous;
      closed, hasStream, finSent, finReceived := false, client, false, false;
      unacked, streamOffset, recvBuf, recvDest, file := [], 0, [], None, output;
      content, src, acked, budget, closeCalls, closePackets := [], [], 0, wakeUps, 0, 0;
      popped, furthest, sendFailed, delivered, consumed := 0, 0, false, [], [];
      finFrames, credit, log := 0, 0, [];
      new;
      Nothing();
      NoDest(file, consumed, recvBuf);
    }

    // What a call that may pump can change on the sending side: blocks leave the front,
    // more is acknowledged; nothing else.
    twostate predicate SendKept()
      reads this
    {
      && content == old(content) && src == old(src) && streamOffset == old(streamOffset)
      && sendFailed == old(sendFailed) && furthest == old(furthest) && old(acked) <= acked
      && Freed(old(unacked), old(popped), unacked, popped, acked)
    }

    // On the receiving side: more is delivered, and lands in order.
    twostate predicate RecvKept()
      reads this
    {
      old(delivered) <= delivered && Landed(old(recvDest), old(file), old(consumed), recvDest, file, consumed)
    }

    twostate predicate PumpKept()
      reads this
    {
      && SendKept() && RecvKept()
      && (old(closed) ==> closed) && old(closeCalls) <= closeCalls
      && budget <= old(budget) && old(log) <= log
    }

    // The pump may learn of the stream; it never sends the FIN.
    twostate predicate StreamKept()
      reads this
    {
      (old(hasStream) ==> hasStream) && finSent == old(finSent) && finFrames == old(finFrames)
    }

    // on_acked_stream_data_offset: pop every block whose end is acknowledged, and no other.
    method OnAcked(offset: nat, datalen: nat)
      requires SendOk() && offset == acked && offset + datalen <= streamOffset
      modifies `unacked, `acked, `popped
      ensures SendOk() && SendKept() && acked == offset + datalen
    {
      hide MemoryOk, ChainOk, Contiguous, FurthestOk;
      var ackedEnd := offset + datalen;
      MoreAcked(unacked, acked, ackedEnd, streamOffset, popped);
      acked := ackedEnd;
      ghost var k := 0;
      while unacked != [] && unacked[0].end <= ackedEnd
        invariant acked == ackedEnd && popped == old(popped) + k
        invariant 0 <= k <= |old(unacked)| && unacked == old(unacked)[k..]
        invariant ChainOk(unacked, acked, streamOffset, popped) && MemoryOk(unacked, src, content)
        invariant forall j :: 0 <= j < k ==> old(unacked)[j].end <= acked
      {
        PopKeeps(unacked, src, content, acked, popped);
        unacked := unacked[1..];
        popped := popped + 1;
        k := k + 1;
      }
      if !sendFailed { SuffixContiguous(old(unacked), k); }
      PopKeepsFurthest(old(unacked), old(acked), furthest, k, acked);
    }

    // on_recv_stream_data: into the mapping while it has room and nothing is queued ahead,
    // the rest into the queue.
    method OnRecvStreamData(data: bytes, fin: bool)
      requires RecvOk()
      modifies `recvBuf, `recvDest, `file, `finReceived, `delivered, `consumed, `credit
      ensures RecvOk() && RecvKept() && delivered == old(delivered) + data && credit == old(credit) + |data|
      ensures finReceived == (old(finReceived) || fin)
    {
      hide DestOk, Landed, Put;
      var taken := 0;
      if recvDest.Some? && recvBuf == [] {
        var d := recvDest.value;
        DestRoom(d, file, consumed, recvBuf);
        taken := if |data| < d.len - d.got then |data| else d.len - d.got;
        file := Put(file, d.offset + d.got, data[..taken]);
        recvDest := Some(d.(got := d.got + taken));
      }
      Receive(old(recvDest), old(file), consumed, recvBuf, data, taken);
      consumed := consumed + data[..taken];
      if taken < |data| {
        recvBuf := recvBuf + data[taken..];
      }
      delivered := delivered + data;
      if fin { finReceived := true; }
      credit := credit + |data|;                             // given back at once: recvBuf is ours
    }

    // One callback: the stream opens, bytes are acknowledged, or bytes arrive.
    method Callback()
      requires Valid() && !closed
      modifies this
      ensures Valid() && PumpKept() && StreamKept()
      ensures !closed && closeCalls == old(closeCalls) && budget == old(budget) && log == old(log)
    {
      hide ChainOk, MemoryOk, Contiguous, FurthestOk, DestOk, Landed, Freed;
      FreedStart(unacked, popped, acked);
      LandedStart(recvDest, file, consumed);
      var which: int, n: nat, data: bytes, fin: bool :| true;
      if which == 0 {
        hasStream := true;
      } else if which == 1 {
        if acked + n <= streamOffset { OnAcked(acked, n); }
      } else {
        OnRecvStreamData(data, fin);
      }
    }

    // recvmsg, and ngtcp2_conn_read_pkt for a datagram: any number of callbacks, then its result.
    method ReadDatagram() returns (f: Feed)
      requires Valid() && !closed
      modifies this
      ensures Valid() && PumpKept() && StreamKept()
      ensures !closed && closeCalls == old(closeCalls) && budget == old(budget) && log == old(log) + [Got(f)]
    {
      hide SendOk, RecvOk, Landed, Freed;
      FreedStart(unacked, popped, acked);
      LandedStart(recvDest, file, consumed);
      f :| true;
      var callbacks: nat :| true;
      if f.RecvFailed? || f.NoDatagram? { callbacks := 0; }
      while callbacks > 0
        invariant Valid() && PumpKept() && StreamKept()
        invariant !closed && closeCalls == old(closeCalls) && budget == old(budget) && log == old(log)
      {
        ghost var q, p, a := unacked, popped, acked;
        ghost var d, g, c := recvDest, file, consumed;
        Callback();
        FreedTrans(old(unacked), old(popped), q, p, a, unacked, popped, acked);
        LandedTrans(old(recvDest), old(file), old(consumed), d, g, c, recvDest, file, consumed);
        callbacks := callbacks - 1;
      }
      log := log + [Got(f)];
    }

    // select: `budget` is how often it still returns before the idle timeout.
    method Select() returns (s: Readiness)
      modifies `budget, `log
      ensures log == old(log) + [Selected(s)]
      ensures budget == (if old(budget) == 0 then 0 else old(budget) - 1) && (old(budget) == 0 ==> s == TimedOut)
    {
      s :| true;
      if budget == 0 { s := TimedOut; } else { budget := budget - 1; }
      log := log + [Selected(s)];
    }

    // ngtcp2_conn_get_expiry and ngtcp2_conn_handle_expiry.
    method HandleExpiry() returns (t: Timer)
      modifies `log
      ensures log == old(log) + [Expiry(t)] && (budget == 0 ==> t.IdleClose?)
    {
      t :| true;
      if budget == 0 { t := IdleClose; }
      log := log + [Expiry(t)];
    }

    // Any egress path: a datagram goes out, is refused for now, or fails.
    method SendPacket() returns (r: Sent)
      modifies `log
      ensures log == old(log) + [PacketOut(r)]
    {
      r :| true;
      log := log + [PacketOut(r)];
    }

    // ngtcp2_conn_writev_stream with no data. Every ngtcp2 write requires an open connection.
    method WriteControl() returns (n: int)
      requires !closed
      modifies `log
      ensures log == old(log) + [Control(n)]
    {
      n :| true;
      log := log + [Control(n)];
    }

    // ngtcp2_conn_writev_stream with data: it may accept any prefix, or none when other
    // frames filled the packet; the latter happens only finitely often.
    method WriteData(len: nat) returns (w: Wrote)
      requires !closed && len > 0
      modifies `budget, `log
      ensures log == old(log) + [Wrote(w)]
      ensures w.Packet? ==> w.accepted <= len
      ensures budget <= old(budget) && (w.Packet? && w.accepted <= 0 ==> budget < old(budget))
      ensures w.Failed? ==> w.code != 0
    {
      w :| (w.Packet? ==> w.accepted <= len) && (w.Failed? ==> w.code != 0);
      if w.Packet? && w.accepted <= 0 {
        if budget == 0 { w := NoRoom; } else { budget := budget - 1; }
      }
      log := log + [Wrote(w)];
    }

    // drain_packets: at most ten datagrams of ACKs and the like, none once closed.
    method DrainPackets() returns (rv: int, packets: nat)
      modifies `log
      ensures old(log) <= log && (closed ==> rv == 0 && packets == 0 && log == old(log))
      ensures packets <= 10 && 2 * packets <= |log| - |old(log)| <= 2 * packets + 1
      ensures !closed ==> DrainEnds(log, |old(log)|, rv) && (rv != 0 <==> Mishap(log, |old(log)|))
    {
      hide Drained, Mishap;
      packets := 0;
      if closed { return 0, 0; }
      NoMishap(log);
      DrainedNone(log);
      var i := 0;
      while i < 10
        invariant packets == i <= 10 && old(log) <= log && |log| == |old(log)| + 2 * i
        invariant Drained(log, |old(log)|, i) && !Mishap(log, |old(log)|)
      {
        ghost var log0 := log;
        var n := WriteControl();
        OneMore(log0, Control(n));
        MishapSplit(old(log), log0, log);
        DrainedStays(log0, log, |old(log)|, i);
        assert log[|log0|] == Control(n);
        if n == 0 { assert DrainTrace(log, |old(log)|, i, 0); break; }
        if n < 0 { assert DrainTrace(log, |old(log)|, i, n); return n, packets; }
        packets := packets + 1;
        ghost var log1 := log;
        var sr := SendPacket();
        OneMore(log1, PacketOut(sr));
        MishapSplit(old(log), log1, log);
        DrainedStays(log1, log, |old(log)|, i);
        assert log[|log0|] == Control(n) && log[|log1|] == PacketOut(sr);
        if sr == SentBlocked { assert DrainTrace(log, |old(log)|, i, 0); break; }
        if sr == SentFailed { assert DrainTrace(log, |old(log)|, i, -1); return -1, packets; }
        DrainedMore(log, |old(log)|, i);
        i := i + 1;
      }
      assert i == 10 ==> DrainTrace(log, |old(log)|, 10, 0);
      return 0, packets;
    }

    // One wait, at most one packet in, timers, then packets out. `depth` counts the frames
    // of pump_once and close_connection below this one.
    method PumpOnce(ghost depth: nat) returns (rv: int)
      requires Valid() && depth <= 1
      modifies this
      ensures Valid() && PumpKept() && StreamKept()
      ensures rv == 0 ==> !closed && budget < old(budget)
      ensures old(closed) ==> rv == -1 && closeCalls == old(closeCalls) && log == old(log)
      ensures !old(closed) ==> closeCalls == old(closeCalls) + if closed && EndsClosing(log) then 1 else 0
      ensures !old(closed) ==> PumpTrace(log, |old(log)|, rv, closed) && (rv != 0 <==> Mishap(log, |old(log)|))
      decreases 1, budget
    {
      hide SendOk, RecvOk, Landed, Freed, TimerTrace, PumpTrace, Mishap;
      FreedStart(unacked, popped, acked);
      LandedStart(recvDest, file, consumed);
      if closed { return -1; }
      var go := Intake(depth);
      if !go { return -1; }
      ghost var q, p, a := unacked, popped, acked;
      ghost var d, g, c, log1 := recvDest, file, consumed, log;
      rv := PumpTimers(depth);
      FreedTrans(old(unacked), old(popped), q, p, a, unacked, popped, acked);
      LandedTrans(old(recvDest), old(file), old(consumed), d, g, c, recvDest, file, consumed);
      MishapSplit(old(log), log1, log);
      IntakeThenTimers(log1, log, |old(log)|, rv, closed);
    }

    // The wait and the packet in; false when the pump ends there.
    method Intake(ghost depth: nat) returns (go: bool)
      requires Valid() && depth <= 1 && !closed
      modifies this
      ensures Valid() && PumpKept() && StreamKept()
      ensures closeCalls == old(closeCalls) + if closed && EndsClosing(log) then 1 else 0
      ensures go ==> !closed && TookIn(log, |old(log)|) && budget == if old(budget) == 0 then 0 else old(budget) - 1
      ensures !go ==> PumpTrace(log, |old(log)|, -1, closed)
      ensures go <==> !Mishap(log, |old(log)|)
    {
      hide SendOk, RecvOk, Landed, Freed, TimerTrace, Mishap;
      FreedStart(unacked, popped, acked);
      LandedStart(recvDest, file, consumed);
      var s := Select();
      OneMore(old(log), Selected(s));
      if s == SelectFailed { return false; }
      if s == TimedOut { return true; }
      ghost var log0 := log;
      var f := ReadDatagram();
      OneMore(log0, Got(f));
      MishapSplit(old(log), log0, log);
      if f.RecvFailed? { return false; }
      if f.Draining? { closed := true; return false; }       // the peer closed: silence
      if f.Fed? && f.rv != 0 {
        ghost var log1 := log;
        Abort(f.rv, depth + 1);
        MishapSplit(old(log), log1, log);
        return false;
      }
      return true;
    }

    // The timer, which may be due although a packet has arrived, and packets out.
    method PumpTimers(ghost depth: nat) returns (rv: int)
      requires Valid() && depth <= 1 && !closed
      modifies this
      ensures Valid() && PumpKept() && StreamKept()
      ensures rv == 0 ==> !closed && old(budget) > 0
      ensures closeCalls == old(closeCalls) + if closed && EndsClosing(log) then 1 else 0
      ensures TimerTrace(log, |old(log)|, rv, closed) && (rv != 0 <==> Mishap(log, |old(log)|))
    {
      hide SendOk, RecvOk, Landed, Freed, DrainEnds, Mishap;
      FreedStart(unacked, popped, acked);
      LandedStart(recvDest, file, consumed);
      NoMishap(log);
      var t := HandleExpiry();
      OneMore(old(log), Expiry(t));
      ghost var log1 := log;
      if t.IdleClose? { closed := true; return -1; }
      if t.Handled? && t.rv != 0 {
        Abort(t.rv, depth + 1);
        MishapSplit(old(log), log1, log);
        return -1;
      }
      var packets;
      rv, packets := DrainPackets();
      MishapSplit(old(log), log1, log);
    }

    // ngtcp2_conn_in_closing_period, ngtcp2_conn_in_draining_period.
    method ClosingAlready() returns (b: bool)
      modifies `log
      ensures log == old(log) + [InClosing(b)]
    {
      b :| true;
      log := log + [InClosing(b)];
    }

    // A close that does not wait: for an error, or with nothing retained. Nothing is pumped.
    method Abort(liberr: int, ghost depth: nat)
      requires Valid() && !closed && depth <= 2
      modifies `closeCalls, `closePackets, `closed, `log
      ensures Valid() && closed
      ensures ErrorTrace(log, |old(log)|, liberr) && old(log) <= log && !Mishap(log, |old(log)|)
      ensures closeCalls == old(closeCalls) + if EndsClosing(log) then 1 else 0
      ensures closePackets == old(closePackets) + if EndsClosing(log) && log[|log| - 1].n > 0 then 1 else 0
    {
      hide SendOk, RecvOk, Mishap;
      var quiet := ClosingAlready();
      OneMore(old(log), InClosing(quiet));
      if quiet {
        closed := true;
        return;
      }
      ghost var log0 := log;
      WriteClose(liberr);
      assert log == log0 + [log[|log0|]];
      OneMore(log0, log[|log0|]);
      MishapSplit(old(log), log0, log);
    }

    // ngtcp2_conn_write_connection_close: 0 or an error when there is nothing to send.
    method WriteClose(code: int)
      requires Valid() && !closed
      modifies `closeCalls, `closePackets, `closed, `log
      ensures Valid() && closed && closeCalls == old(closeCalls) + 1
      ensures |log| == |old(log)| + 1 && old(log) <= log && log[|old(log)|].Closing? && log[|old(log)|].code == code
      ensures closePackets == old(closePackets) + if log[|old(log)|].n > 0 then 1 else 0
    {
      hide SendOk, RecvOk;
      closeCalls := closeCalls + 1;
      var written: int :| true;
      log := log + [Closing(code, written)];
      if written > 0 { closePackets := closePackets + 1; }
      closed := true;
    }

    // The clock against the deadline of a graceful close, which only looks at it while blocks
    // are retained.
    method DeadlinePassed() returns (expired: bool)
      requires unacked != []
      modifies `log
      ensures log == old(log) + [Lingered(expired)]
    {
      expired :| true;
      log := log + [Lingered(expired)];
    }

    // close_connection: at most one CONNECTION_CLOSE, and the connection is closed after it.
    // A graceful close first waits for the retained blocks; a close for an error never pumps.
    method CloseConnection(liberr: int, ghost depth: nat)
      requires Valid() && (if liberr == 0 then depth == 0 else depth <= 2)
      modifies this
      ensures Valid() && PumpKept() && StreamKept() && closed
      ensures old(closed) ==> closeCalls == old(closeCalls) && log == old(log)
      ensures !old(closed) ==> closeCalls == old(closeCalls) + if EndsClosing(log) then 1 else 0
      ensures !old(closed) && (liberr != 0 || old(unacked) == []) ==> ErrorTrace(log, |old(log)|, liberr) && !Mishap(log, |old(log)|)
      ensures !old(closed) && liberr == 0 && old(unacked) != [] ==> GracefulEnd(log, |old(log)|, unacked == [])
      ensures old(closePackets) <= closePackets <= old(closePackets) + (closeCalls - old(closeCalls))
      ensures liberr != 0 ==> unacked == old(unacked) && acked == old(acked) && recvDest == old(recvDest)
                              && file == old(file) && consumed == old(consumed) && delivered == old(delivered)
                              && popped == old(popped) && recvBuf == old(recvBuf)
      decreases if liberr == 0 then 2 else 0, budget
    {
      hide SendOk, RecvOk, Landed, Freed, Mishap, PumpTrace, GracefulEnd, ErrorTrace;
      FreedStart(unacked, popped, acked);
      LandedStart(recvDest, file, consumed);
      if closed { return; }
      if liberr == 0 && unacked != [] { GracefulClose(); } else { Abort(liberr, depth); }
    }

    method GracefulClose()
      requires Valid() && !closed && unacked != []
      modifies this
      ensures Valid() && PumpKept() && StreamKept() && closed
      ensures closeCalls == old(closeCalls) + if EndsClosing(log) then 1 else 0
      ensures GracefulEnd(log, |old(log)|, unacked == [])
      ensures old(closePackets) <= closePackets <= old(closePackets) + (closeCalls - old(closeCalls))
      decreases 1, budget, 2
    {
      hide SendOk, RecvOk, Landed, Freed, Mishap, PumpTrace, GracefulEnd, LingerEnd;
      FreedStart(unacked, popped, acked);
      LandedStart(recvDest, file, consumed);
      var quiet := ClosingAlready();
      if quiet {
        closed := true;
        QuietEnd(old(log), unacked == []);
        return;
      }
      ghost var log1 := log;
      Linger(0);
      if closed {
        ClosedWhileLingering(log1, log, unacked == []);
        return;
      }
      ghost var log2 := log;
      WriteClose(0);
      assert log == log2 + [log[|log2|]];
      ClosedAfterLingering(log1, log2, log[|log2|], unacked == []);
    }

    // The wait of a graceful close for the retained blocks.
    method Linger(ghost depth: nat)
      requires Valid() && !closed && unacked != [] && depth == 0
      modifies this
      ensures Valid() && PumpKept() && StreamKept() && closeCalls <= 1
      ensures closeCalls == if closed && EndsClosing(log) then 1 else 0
      ensures LingerEnd(log, |old(log)|, closed, unacked == [])
      decreases 1, budget, 1
    {
      hide SendOk, RecvOk, Landed, Freed, Mishap, PumpTrace;
      FreedStart(unacked, popped, acked);
      LandedStart(recvDest, file, consumed);
      NoMishap(log);
      while unacked != [] && !closed
        invariant Valid() && PumpKept() && StreamKept() && closeCalls == 0
        invariant !Mishap(log, |old(log)|) && !closed
        invariant |log| > |old(log)| || unacked != []
        invariant forall i :: |old(log)| <= i < |log| ==> log[i] != Lingered(true)
        decreases budget
      {
        ghost var log0 := log;
        var expired := DeadlinePassed();
        OneMore(log0, Lingered(expired));
        MishapSplit(old(log), log0, log);
        if expired { break; }
        ghost var q, p, a := unacked, popped, acked;
        ghost var d, f, c := recvDest, file, consumed;
        ghost var log1 := log;
        var rv := PumpOnce(depth + 1);
        FreedTrans(old(unacked), old(popped), q, p, a, unacked, popped, acked);
        LandedTrans(old(recvDest), old(file), old(consumed), d, f, c, recvDest, file, consumed);
        MishapSplit(old(log), log1, log);
        PumpLogs(log, |log1|, rv, closed);
        if rv != 0 { break; }
      }
    }

    // ngtcp2 accepts the next n bytes of the last block, keeping pointers into it.
    method TakeAccepted(n: nat)
      requires Valid() && unacked != [] && streamOffset + n <= unacked[|unacked| - 1].end
      modifies `src, `content, `streamOffset
      ensures Valid() && streamOffset == old(streamOffset) + n
      ensures var b := unacked[|unacked| - 1]; var at := old(streamOffset) - b.Start();
              0 <= at && at + n <= |b.buf| && content == old(content) + b.buf[at..at + n]
    {
      hide ChainOk, MemoryOk, Contiguous, FurthestOk, RecvOk, Pointers;
      ghost var b := unacked[|unacked| - 1];
      AcceptKeeps(unacked, src, content, acked, popped, n);
      src := src + Pointers(b, streamOffset - b.Start(), n);
      content := content + b.buf[streamOffset - b.Start()..streamOffset - b.Start() + n];
      streamOffset := streamOffset + n;
    }

    // What a step of write_stream keeps: it may free acknowledged blocks and let data in.
    twostate predicate WriteKept()
      reads this
    {
      && RecvKept() && sendFailed == old(sendFailed) && furthest == old(furthest) && old(content) <= content
      && (old(closed) ==> closed) && old(closeCalls) <= closeCalls && budget <= old(budget) && old(log) <= log
      && finSent == old(finSent) && finFrames == old(finFrames) && (old(hasStream) ==> hasStream)
      && old(acked) <= acked && Freed(old(unacked), old(popped), unacked, popped, acked)
    }

    // The body of write_stream's loop. `n` is how much more ngtcp2 accepted.
    method WriteStep(remaining: nat) returns (ok: bool, n: nat)
      requires Valid() && !closed && unacked != [] && remaining > 0
      requires unacked[|unacked| - 1].end == streamOffset + remaining
      modifies this
      ensures Valid() && WriteKept() && n <= remaining && streamOffset == old(streamOffset) + n
      ensures var b := old(unacked)[|old(unacked)| - 1]; var at := old(streamOffset) - b.Start();
              0 <= at && at + n <= |b.buf| && content == old(content) + b.buf[at..at + n]
      ensures ok ==> !closed && (n > 0 || budget < old(budget))
      ensures ok && n < remaining ==> unacked != [] && unacked[|unacked| - 1] == old(unacked)[|old(unacked)| - 1]
      ensures WriteTrace(log, |old(log)|, ok, n, closed) && (ok <==> !Mishap(log, |old(log)|))
    {
      hide ChainOk, MemoryOk, Contiguous, FurthestOk, RecvOk, Landed, Freed, Mishap, PumpTrace, WriteTrace, Written;
      FreedStart(unacked, popped, acked);
      LandedStart(recvDest, file, consumed);
      LastStarts(unacked, acked, streamOffset, popped);
      var pumpNow;
      ok, n, pumpNow := WriteOnce(remaining);
      if !pumpNow {
        if ok && n < remaining { LastStays(old(unacked), old(popped), unacked, popped, acked, streamOffset); }
        return;
      }
      ghost var log2 := log;
      ghost var q, p, a := unacked, popped, acked;
      var rv := PumpOnce(0);
      FreedTrans(old(unacked), old(popped), q, p, a, unacked, popped, acked);
      MishapSplit(old(log), log2, log);
      WriteThenPump(log2, log, |old(log)|, n, rv, closed);
      if rv != 0 { return false, n; }
      if n < remaining { LastStays(old(unacked), old(popped), unacked, popped, acked, streamOffset); }
      return true, n;
    }

    // One ngtcp2 write and, if it gave a packet, the packet. `pumpNow`: either cannot take
    // more for now.
    method WriteOnce(remaining: nat) returns (ok: bool, n: nat, pumpNow: bool)
      requires Valid() && !closed && unacked != [] && remaining > 0
      requires unacked[|unacked| - 1].end == streamOffset + remaining
      modifies `budget, `log, `src, `content, `streamOffset, `closed, `closeCalls, `closePackets
      ensures Valid() && old(log) <= log && budget <= old(budget) && (closed ==> !ok) && old(closeCalls) <= closeCalls
      ensures n <= remaining && streamOffset == old(streamOffset) + n
      ensures var b := unacked[|unacked| - 1]; var at := old(streamOffset) - b.Start();
              0 <= at && at + n <= |b.buf| && content == old(content) + b.buf[at..at + n]
      ensures ok && !pumpNow ==> n > 0 || budget < old(budget)
      ensures !pumpNow ==> WriteTrace(log, |old(log)|, ok, n, closed)
      ensures pumpNow ==> ok && Written(log, |old(log)|, n)
      ensures ok <==> !Mishap(log, |old(log)|)
    {
      hide ChainOk, MemoryOk, Contiguous, FurthestOk, RecvOk, Mishap, PumpEnds;
      LastStarts(unacked, acked, streamOffset, popped);
      n := 0;
      var w := WriteData(remaining);
      OneMore(old(log), Wrote(w));
      ghost var log1 := log;
      if w.Failed? {
        Abort(w.code, 0);
        MishapSplit(old(log), log1, log);
        return false, 0, false;
      }
      if !w.Packet? { return true, 0, true; }
      if w.accepted > 0 {
        n := w.accepted;
        TakeAccepted(n);
      }
      var sr := SendPacket();
      OneMore(log1, PacketOut(sr));
      MishapSplit(old(log), log1, log);
      return sr != SentFailed, n, sr == SentBlocked;
    }

    // write_stream: drive the last retained block until ngtcp2 has accepted every byte. The
    // block stays retained for as long as that takes, whatever the pump does meanwhile. Only
    // something that went wrong stops it.
    method WriteStream(len: nat) returns (ok: bool)
      requires Valid() && !closed && unacked != []
      requires unacked[|unacked| - 1].end == streamOffset + len && len == |unacked[|unacked| - 1].buf|
      modifies this
      ensures Valid() && WriteKept()
      ensures ok ==> content == old(content) + old(unacked)[|old(unacked)| - 1].buf
      ensures content <= old(content) + old(unacked)[|old(unacked)| - 1].buf
      ensures ok <==> !Mishap(log, |old(log)|)
    {
      hide SendOk, RecvOk, Landed, Freed, Mishap, WriteTrace;
      ghost var block := unacked[|unacked| - 1];
      FreedStart(unacked, popped, acked);
      LandedStart(recvDest, file, consumed);
      NoMishap(log);
      var accepted := 0;
      while accepted < len
        invariant Valid() && WriteKept() && !closed && !Mishap(log, |old(log)|)
        invariant accepted <= len && content == old(content) + block.buf[..accepted]
        invariant block.end == streamOffset + (len - accepted)
        invariant accepted < len ==> unacked != [] && unacked[|unacked| - 1] == block
        decreases len - accepted, budget
      {
        ghost var q, p, a := unacked, popped, acked;
        ghost var d, f, c := recvDest, file, consumed;
        ghost var log0 := log;
        var n: nat;
        ok, n := WriteStep(len - accepted);
        FreedTrans(old(unacked), old(popped), q, p, a, unacked, popped, acked);
        LandedTrans(old(recvDest), old(file), old(consumed), d, f, c, recvDest, file, consumed);
        MishapSplit(old(log), log0, log);
        assert block.buf[..accepted] + block.buf[accepted..accepted + n] == block.buf[..accepted + n];
        if !ok { return; }
        accepted := accepted + n;
      }
      assert block.buf[..accepted] == block.buf;
      return true;
    }

    // The common part of send and send_file: retain the block, then write all of it.
    // Nothing accepted of a failed write is forgotten; its block stays retained.
    method Retain(data: bytes) returns (ok: bool)
      requires Idle() && !closed && data != []
      modifies this
      ensures Idle() && RecvKept()
      ensures old(acked) <= acked && closeCalls >= old(closeCalls)
      ensures furthest == Larger(old(furthest), old(streamOffset) + |data|)
      ensures sendFailed == (old(sendFailed) || !ok)
      ensures ok ==> content == old(content) + data
      ensures content <= old(content) + data && old(content) <= content
      ensures old(log) <= log && (ok <==> !Mishap(log, |old(log)|))
      ensures finSent == old(finSent) && finFrames == old(finFrames) && (old(hasStream) ==> hasStream) && budget <= old(budget)
    {
      hide ChainOk, MemoryOk, Contiguous, FurthestOk, RecvOk, Landed, Freed, Mishap;
      PushKeeps(unacked, src, content, acked, popped, data);
      PushKeepsFurthest(unacked, acked, furthest, Unacked(streamOffset + |data|, popped + |unacked|, data));
      furthest := Larger(furthest, streamOffset + |data|);
      if !sendFailed { ExtendContiguous(unacked, Unacked(streamOffset + |data|, popped + |unacked|, data)); }
      unacked := unacked + [Unacked(streamOffset + |data|, popped + |unacked|, data)];
      ghost var q := unacked;
      ok := WriteStream(|data|);
      if !ok { sendFailed := true; }
      EndStays(q, old(popped), unacked, popped, acked);
    }

    // send: the bytes are copied into the retained block, the caller's may die at return.
    // It throws on an open connection that has no stream.
    method Send(buf: bytes) returns (r: int, threw: bool)
      requires Idle()
      modifies this
      ensures Idle() && RecvKept()
      ensures threw <==> !old(closed) && !old(hasStream)
      ensures threw || old(closed) ==> r == -1 && content == old(content) && unacked == old(unacked)
      ensures sendFailed == (old(sendFailed) || (r == -1 && !old(closed) && !threw))
      ensures r == |buf| ==> content == old(content) + buf
      ensures r != |buf| ==> r == -1 && old(content) <= content <= old(content) + buf
      ensures old(closed) || !old(hasStream) ==> log == old(log)
      ensures !old(closed) && old(hasStream) ==> old(log) <= log && (r == |buf| <==> !Mishap(log, |old(log)|))
    {
      hide SendOk, RecvOk, Landed, Mishap;
      NoMishap(log);
      LandedStart(recvDest, file, consumed);
      if closed { return -1, false; }
      if !hasStream { return -1, true; }
      if |buf| == 0 { return 0, false; }
      var ok := Retain(buf);
      return if ok then |buf| else -1, false;
    }

    method Map() returns (ok: bool)
      modifies `log
      ensures log == old(log) + [Mapped(ok)]
    {
      ok :| true;
      log := log + [Mapped(ok)];
    }

    // send_file: the block is a mapping of the file range. False when it throws: for a range
    // that is not empty exactly on a closed connection, without a stream, or when something
    // goes wrong.
    method SendFile(source: bytes, offset: nat, len: nat) returns (ok: bool)
      requires Idle() && offset + len <= |source|
      modifies this
      ensures Idle() && RecvKept() && old(log) <= log
      ensures len == 0 ==> ok && log == old(log)
      ensures len > 0 ==> (ok <==> !old(closed) && old(hasStream) && !Mishap(log, |old(log)|))
      ensures len > 0 && !old(closed) && old(hasStream) ==> |log| > |old(log)| && log[|old(log)|].Mapped?
      ensures sendFailed == (old(sendFailed) || (!ok && !old(closed) && old(hasStream) && log[|old(log)|] == Mapped(true)))
      ensures ok ==> content == old(content) + source[offset..offset + len]
      ensures len > 0 && (old(closed) || !old(hasStream)) ==> content == old(content) && log == old(log)
      ensures !ok && sendFailed == old(sendFailed) ==> old(sendFailed) || content == old(content)
      ensures !ok ==> old(content) <= content <= old(content) + source[offset..offset + len]
    {
      hide SendOk, RecvOk, Landed, Mishap;
      LandedStart(recvDest, file, consumed);
      NoMishap(log);
      if len == 0 { return true; }
      if closed || !hasStream { return false; }
      var mapped := Map();
      OneMore(old(log), Mapped(mapped));
      if !mapped { return false; }
      ghost var log0 := log;
      ok := Retain(source[offset..offset + len]);
      MishapSplit(old(log), log0, log);
    }

    // ngtcp2_conn_writev_stream with FIN: a packet may go out without it.
    method WriteFin() returns (w: Wrote)
      requires !closed && hasStream
      modifies `budget, `log, `finFrames
      ensures log == old(log) + [WroteFin(w)]
      ensures finFrames == old(finFrames) + if w.Packet? && w.accepted >= 0 then 1 else 0
      ensures budget <= old(budget) && (w.Packet? && w.accepted < 0 ==> budget < old(budget))
      ensures w.Failed? ==> w.code != 0
    {
      w :| w.Failed? ==> w.code != 0;
      if w.Packet? && w.accepted < 0 {
        if budget == 0 { w := NoRoom; } else { budget := budget - 1; }
      }
      log := log + [WroteFin(w)];
      if w.Packet? && w.accepted >= 0 { finFrames := finFrames + 1; }
    }

    // send_fin: the FIN is written once, on an open connection with a stream, in a packet that
    // went to the socket; after that the call does nothing. It fails only on a closed
    // connection, without a stream, or when something goes wrong.
    method SendFin() returns (r: int)
      requires Valid()
      modifies this
      ensures Valid() && PumpKept() && (old(finSent) ==> finSent) && (old(hasStream) ==> hasStream)
      ensures r == 0 || r == -1
      ensures r == 0 <==> hasStream && finSent
      ensures !old(hasStream) || old(finSent) || old(closed) ==> log == old(log) && finFrames == old(finFrames) && finSent == old(finSent)
      ensures old(hasStream) && !old(finSent) && !old(closed) ==> (r == 0 <==> !Mishap(log, |old(log)|))
      ensures r == 0 && !old(finSent) ==>
                && finFrames == old(finFrames) + 1 && |log| >= |old(log)| + 2
                && log[|log| - 2].WroteFin? && log[|log| - 2].w.Packet? && log[|log| - 2].w.accepted >= 0 && log[|log| - 1].PacketOut?
      ensures r == -1 ==> finFrames == old(finFrames) || (finFrames == old(finFrames) + 1 && log[|log| - 1] == PacketOut(SentFailed))
    {
      hide SendOk, RecvOk, Landed, Freed, Mishap, PumpTrace;
      FreedStart(unacked, popped, acked);
      LandedStart(recvDest, file, consumed);
      NoMishap(log);
      if !hasStream { return -1; }
      if finSent { return 0; }
      if closed { return -1; }
      while true
        invariant Valid() && PumpKept() && !finSent && hasStream && old(hasStream) && finFrames == old(finFrames)
        invariant !Mishap(log, |old(log)|) && !closed
        decreases budget
      {
        ghost var log0 := log;
        ghost var q, p, a := unacked, popped, acked;
        ghost var d, f, c := recvDest, file, consumed;
        var done;
        r, done := FinStep();
        FreedTrans(old(unacked), old(popped), q, p, a, unacked, popped, acked);
        LandedTrans(old(recvDest), old(file), old(consumed), d, f, c, recvDest, file, consumed);
        MishapSplit(old(log), log0, log);
        if done { return; }
      }
    }

    // The body of send_fin's loop; `done` when it returns from there.
    method FinStep() returns (r: int, done: bool)
      requires Valid() && !closed && hasStream && !finSent
      modifies this
      ensures Valid() && PumpKept() && hasStream && (done ==> r == 0 || r == -1)
      ensures done <==> finSent || Mishap(log, |old(log)|)
      ensures finSent <==> done && r == 0
      ensures finSent ==>
                && finFrames == old(finFrames) + 1 && |log| >= |old(log)| + 2 && !Mishap(log, |old(log)|)
                && log[|log| - 2].WroteFin? && log[|log| - 2].w.Packet? && log[|log| - 2].w.accepted >= 0 && log[|log| - 1].PacketOut?
      ensures !finSent ==> finFrames == old(finFrames) || (done && finFrames == old(finFrames) + 1 && |log| > 0 && log[|log| - 1] == PacketOut(SentFailed))
      ensures !done ==> !closed && budget < old(budget)
      ensures FinTrace(log, |old(log)|, r, done, closed)
    {
      hide SendOk, RecvOk, Landed, Freed, Mishap, PumpTrace;
      FreedStart(unacked, popped, acked);
      LandedStart(recvDest, file, consumed);
      var w := WriteFin();
      OneMore(old(log), WroteFin(w));
      ghost var log1 := log;
      if w.Failed? {
        Abort(w.code, 0);
        MishapSplit(old(log), log1, log);
        return -1, true;
      }
      if !w.Packet? {
        var rv := PumpOnce(0);
        MishapSplit(old(log), log1, log);
        assert log[|old(log)|] == log1[|old(log)|];
        assert PumpTrace(log, |log1|, rv, closed);
        return -1, rv != 0;
      }
      var sr := SendPacket();
      OneMore(log1, PacketOut(sr));
      MishapSplit(old(log), log1, log);
      if sr == SentFailed { return -1, true; }
      if w.accepted >= 0 {
        finSent := true;
        return 0, true;
      }
      return -1, false;
    }

    // What both receiving loops do: they wait for bytes only on an open connection whose peer
    // has not ended the stream.
    method PumpForData() returns (rv: int)
      requires Valid() && !closed && !finReceived
      modifies this
      ensures Valid() && PumpKept() && StreamKept() && |log| > |old(log)|
      ensures rv == 0 ==> !closed && budget < old(budget)
      ensures rv != 0 <==> Mishap(log, |old(log)|)
    {
      hide SendOk, RecvOk, Landed, Freed, Mishap, PumpTrace;
      rv := PumpOnce(0);
      PumpLogs(log, |old(log)|, rv, closed);
    }

    // recv's loop: pump until something is queued, the stream ends, or the connection does.
    method AwaitData()
      requires Valid() && recvDest.None?
      modifies this
      ensures Valid() && SendKept() && StreamKept() && recvDest.None? && file == old(file) && consumed == old(consumed)
      ensures (old(closed) ==> closed) && old(log) <= log
      ensures old(recvBuf) != [] || old(finReceived) || old(closed) ==> log == old(log) && recvBuf == old(recvBuf) && finReceived == old(finReceived)
      ensures recvBuf != [] || finReceived || old(closed) || Mishap(log, |old(log)|)
    {
      hide SendOk, RecvOk, Landed, Freed, Mishap, PumpTrace;
      NoMishap(log);
      FreedStart(unacked, popped, acked);
      while recvBuf == [] && !finReceived && !closed
        invariant Valid() && SendKept() && StreamKept() && recvDest.None? && file == old(file) && consumed == old(consumed)
        invariant (old(closed) <==> closed) && old(log) <= log && !Mishap(log, |old(log)|)
        invariant log == old(log) ==> recvBuf == old(recvBuf) && finReceived == old(finReceived)
        invariant log != old(log) ==> old(recvBuf) == [] && !old(finReceived) && !old(closed)
        decreases budget
      {
        ghost var f, c, log0 := file, consumed, log;
        ghost var q, p, a := unacked, popped, acked;
        var rv := PumpForData();
        FreedTrans(old(unacked), old(popped), q, p, a, unacked, popped, acked);
        NothingLands(f, c, recvDest, file, consumed);
        MishapSplit(old(log), log0, log);
        if rv != 0 { break; }
      }
    }

    // recv: the next bytes of the stream, whether or not the connection still stands; 0 for
    // a clean end, -1 for a broken one, both only when nothing is queued.
    method Recv(len: nat) returns (r: int, buf: bytes)
      requires Valid() && recvDest.None?
      modifies this
      ensures Valid() && SendKept() && recvDest.None? && file == old(file)
      ensures consumed == old(consumed) + buf && |buf| <= len
      ensures r == |buf| || (r == -1 && buf == [])
      ensures len > 0 && buf == [] ==> recvBuf == [] && (r == 0 <==> finReceived)
      ensures |buf| < len ==> recvBuf == []
      ensures (old(closed) ==> closed) && old(log) <= log && StreamKept()
      ensures old(recvBuf) != [] || old(finReceived) || old(closed) ==> log == old(log)
      ensures r == -1 ==> old(closed) || Mishap(log, |old(log)|)
    {
      hide SendOk, Freed, DestOk, Mishap;
      AwaitData();
      if recvBuf != [] {
        var n := if len < |recvBuf| then len else |recvBuf|;
        buf := recvBuf[..n];
        assert recvBuf == recvBuf[..n] + recvBuf[n..];
        recvBuf := recvBuf[n..];
        consumed := consumed + buf;
        NoDest(file, consumed, recvBuf);
        return n, buf;
      }
      return if finReceived then 0 else -1, [];
    }

    // recv_file: on success the next len bytes of the stream are in [offset, offset+len) of
    // the file and nowhere else. The mapping is given up on every way out.
    method RecvFile(offset: nat, len: nat) returns (ok: bool)
      requires Valid() && recvDest.None? && offset + len <= |file|
      modifies this
      ensures Valid() && SendKept() && recvDest.None?
      ensures SameOutside(file, old(file), offset, len)
      ensures old(consumed) <= consumed && |consumed| - |old(consumed)| <= len
      ensures ok ==> |consumed| == |old(consumed)| + len && file[offset..offset + len] == consumed[|old(consumed)|..]
      ensures (old(closed) ==> closed) && old(log) <= log && StreamKept()
      ensures !ok ==> len > 0 && (finReceived || old(closed) || Mishap(log, |old(log)|))
      ensures 0 < len <= |old(recvBuf)| ==> |log| == |old(log)| + 1 && (ok <==> log[|old(log)|] == Mapped(true))
      ensures len == 0 ==> ok && log == old(log)
    {
      hide SendOk, Landed, Freed, DestOk, Put, SameOutside, Mishap;
      FreedStart(unacked, popped, acked);
      if len == 0 {
        NothingOutside(file, offset);
        return true;
      }
      ok := Map();
      OneMore(old(log), Mapped(ok));
      if !ok {
        SameAll(file, offset, len);
        return;
      }
      ghost var log0 := log;
      ok := RecvMapped(offset, len);
      MishapSplit(old(log), log0, log);
    }

    // With the mapping in place.
    method RecvMapped(offset: nat, len: nat) returns (ok: bool)
      requires Valid() && recvDest.None? && offset + len <= |file|
      modifies this
      ensures Valid() && SendKept() && recvDest.None?
      ensures SameOutside(file, old(file), offset, len)
      ensures old(consumed) <= consumed && |consumed| - |old(consumed)| <= len
      ensures ok ==> |consumed| == |old(consumed)| + len && file[offset..offset + len] == consumed[|old(consumed)|..]
      ensures (old(closed) ==> closed) && old(log) <= log && StreamKept()
      ensures !ok ==> finReceived || old(closed) || Mishap(log, |old(log)|)
      ensures len <= |old(recvBuf)| ==> ok && log == old(log)
    {
      hide SendOk, Landed, Freed, DestOk, Put, SameOutside, Mishap;
      FreedStart(unacked, popped, acked);
      // bytes queued before this call come first
      var got := if len < |recvBuf| then len else |recvBuf|;
      BeginDest(file, offset, len, consumed, recvBuf, got);
      file := Put(file, offset, recvBuf[..got]);
      consumed := consumed + recvBuf[..got];
      recvBuf := recvBuf[got..];
      recvDest := Some(Dest(offset, len, got));
      ghost var q, p, a := unacked, popped, acked;
      ghost var d0, f0, c0 := recvDest, file, consumed;
      ok := FillDest();
      FreedTrans(old(unacked), old(popped), q, p, a, unacked, popped, acked);
      EndDest(old(file), old(consumed), d0, f0, c0, recvDest.value, file, consumed, recvBuf);
      recvDest := None;
      NoDest(file, consumed, recvBuf);
    }

    // recv_file's loop: pump until the mapping is full.
    method FillDest() returns (ok: bool)
      requires Valid() && recvDest.Some?
      modifies this
      ensures Valid() && SendKept() && RecvKept() && recvDest.Some?
      ensures recvDest.value.offset == old(recvDest).value.offset && recvDest.value.len == old(recvDest).value.len
      ensures ok ==> recvDest.value.got >= recvDest.value.len
      ensures (old(closed) ==> closed) && old(log) <= log && StreamKept()
      ensures !ok ==> finReceived || old(closed) || Mishap(log, |old(log)|)
      ensures old(recvDest).value.got >= old(recvDest).value.len ==> ok && log == old(log)
    {
      hide SendOk, RecvOk, Landed, Freed, Mishap, PumpTrace;
      NoMishap(log);
      FreedStart(unacked, popped, acked);
      LandedStart(recvDest, file, consumed);
      while recvDest.value.got < recvDest.value.len
        invariant Valid() && SendKept() && RecvKept() && StreamKept() && recvDest.Some?
        invariant recvDest.value.offset == old(recvDest).value.offset && recvDest.value.len == old(recvDest).value.len
        invariant (old(closed) <==> closed) && old(log) <= log && !Mishap(log, |old(log)|)
        invariant old(recvDest).value.got >= old(recvDest).value.len ==> recvDest == old(recvDest) && log == old(log)
        decreases budget
      {
        if finReceived || closed { return false; }
        ghost var d, f, c, log0 := recvDest, file, consumed, log;
        ghost var q, p, a := unacked, popped, acked;
        var rv := PumpForData();
        MishapSplit(old(log), log0, log);
        FreedTrans(old(unacked), old(popped), q, p, a, unacked, popped, acked);
        SameDest(d, f, c, recvDest, file, consumed);
        LandedTrans(old(recvDest), old(file), old(consumed), d, f, c, recvDest, file, consumed);
        if rv != 0 { return false; }
      }
      return true;
    }

    // A whole run of a connection: any calls in any order, then the destructor. Unless a send
    // failed, the stream carries exactly what was sent; what the calls took, followed by the
    // queue, is exactly what ngtcp2 delivered.
    method Run(calls: nat) returns (ghost sent: bytes, ghost taken: bytes)
      requires Idle() && recvDest.None? && content == [] && consumed == [] && !sendFailed && unacked == []
      modifies this
      ensures Valid() && closed && closeCalls <= 1
      ensures !sendFailed ==> content == sent
      ensures taken + recvBuf == delivered
    {
      hide SendOk, Landed, Freed, DestOk, SameOutside;
      sent, taken := [], [];
      for i := 0 to calls
        invariant Idle() && recvDest.None? && taken == consumed && (!sendFailed ==> content == sent)
      {
        var what: int, buf: bytes, offset: nat, len: nat :| true;
        label L:
        if what == 0 {
          var r, threw := Send(buf);
          if r == |buf| { sent := sent + buf; }
          NothingLands(old@L(file), old@L(consumed), recvDest, file, consumed);
        } else if what == 1 && offset + len <= |buf| {
          var ok := SendFile(buf, offset, len);
          if ok { sent := sent + buf[offset..offset + len]; }
          NothingLands(old@L(file), old@L(consumed), recvDest, file, consumed);
        } else if what == 2 {
          var r, got := Recv(len);
          IdleStays@L();
          taken := taken + got;
        } else if what == 3 && offset + len <= |file| {
          var ok := RecvFile(offset, len);
          IdleStays@L();
          taken := taken + consumed[|taken|..];
        } else if what == 4 {
          var r := SendFin();
          IdleStays@L();
          NothingLands(old@L(file), old@L(consumed), recvDest, file, consumed);
        } else {
          CloseConnection(0, 0);
          IdleStays@L();
          NothingLands(old@L(file), old@L(consumed), recvDest, file, consumed);
        }
      }
      label End:
      Destroy();
      NothingLands(old@End(file), old@End(consumed), recvDest, file, consumed);
    }

    twostate lemma IdleStays()
      requires old(Idle()) && Valid() && SendKept()
      ensures Idle()
    {
      EndStays(old(unacked), old(popped), unacked, popped, acked);
    }

    // The destructor: a graceful close unless the connection is closed already.
    method Destroy()
      requires Valid()
      modifies this
      ensures Valid() && PumpKept() && closed && closeCalls <= 1
      ensures old(closed) ==> closeCalls == old(closeCalls) && log == old(log)
      ensures !old(closed) ==>
                && closeCalls == (if EndsClosing(log) then 1 else 0)
                && if old(unacked) == [] then ErrorTrace(log, |old(log)|, 0) else GracefulEnd(log, |old(log)|, unacked == [])
    {
      hide SendOk, RecvOk, Landed, Freed, Mishap, GracefulEnd, ErrorTrace;
      FreedStart(unacked, popped, acked);
      LandedStart(recvDest, file, consumed);
      if !closed { CloseConnection(0, 0); }
    }

    // Nothing is retained exactly when the acknowledgements have reached the end of every block
    // ever retained. A block of a failed send ends past what ngtcp2 accepted of it, so it is
    // freed only once later sends have carried the stream that far.
    lemma EmptyIffFurthestAcked()
      requires Valid()
      ensures unacked == [] <==> furthest <= acked
      ensures acked == streamOffset ==> (unacked == [] <==> furthest <= streamOffset)
    {
    }

    // In a connection whose sends have not failed, once everything sent is acknowledged
    // nothing is retained.
    lemma AllAckedIsEmpty()
      requires Idle() && !sendFailed && acked == streamOffset
      ensures unacked == []
    {
      if unacked != [] { EndsGrow(unacked, acked, streamOffset, popped); }
    }
  }

  lemma DrainedNone(log: seq<Happening>)
    ensures Drained(log, |log|, 0)
  {
  }

  lemma {:induction false} DrainedStays(log0: seq<Happening>, log1: seq<Happening>, a: nat, i: nat)
    requires Drained(log0, a, i) && log0 <= log1
    ensures Drained(log1, a, i)
  {
    if i > 0 { DrainedStays(log0, log1, a, i - 1); }
  }

  lemma DrainedMore(log: seq<Happening>, a: nat, i: nat)
    requires Drained(log, a, i) && |log| == a + 2 * i + 2
    requires log[a + 2 * i].Control? && log[a + 2 * i].n > 0 && log[a + 2 * i + 1] == PacketOut(SentOk)
    ensures Drained(log, a, i + 1)
  {
  }

  lemma PumpLogs(log: seq<Happening>, a: nat, rv: int, closed: bool)
    requires PumpTrace(log, a, rv, closed)
    ensures |log| > a && (closed ==> Closes(log[|log| - 1]))
    ensures closed && log[|log| - 1].Closing? ==> log[|log| - 1].code != 0
    ensures forall i :: a <= i < |log| ==> !log[i].Lingered?
  {
    if a + 1 < |log| && log[a] == Selected(Readable) {
      if log[a + 1] == Got(NoDatagram) || log[a + 1] == Got(Fed(0)) { TimerLogs(log, a + 2, rv, closed); }
    } else if log[a] == Selected(TimedOut) {
      TimerLogs(log, a + 1, rv, closed);
    }
  }

  lemma TimerLogs(log: seq<Happening>, a: nat, rv: int, closed: bool)
    requires TimerTrace(log, a, rv, closed)
    ensures |log| > a && (closed ==> Closes(log[|log| - 1]))
    ensures closed && log[|log| - 1].Closing? ==> log[|log| - 1].code != 0
    ensures forall i :: a <= i < |log| ==> !log[i].Lingered?
  {
    if DrainEnds(log, a + 1, rv) {
      var k: nat :| DrainTrace(log, a + 1, k, rv);
      DrainLogs(log, a + 1, k);
    }
  }

  lemma {:induction false} DrainLogs(log: seq<Happening>, a: nat, k: nat)
    requires Drained(log, a, k)
    ensures forall i :: a <= i < a + 2 * k && i < |log| ==> !log[i].Lingered?
  {
    if k > 0 { DrainLogs(log, a, k - 1); }
  }

  lemma SameAll(file: bytes, offset: nat, len: nat)
    requires offset + len <= |file|
    ensures SameOutside(file, file, offset, len)
  {
  }

  function Larger(a: nat, b: nat): nat {
    if a < b then b else a
  }

  lemma PopKeepsFurthest(q: seq<Unacked>, acked: nat, furthest: nat, k: nat, acked': nat)
    requires FurthestOk(q, acked, furthest) && acked <= acked' && k <= |q|
    requires forall j :: 0 <= j < k ==> q[j].end <= acked'
    ensures FurthestOk(q[k..], acked', furthest)
  {
    if furthest > acked' {
      var j :| 0 <= j < |q| && q[j].end == furthest;
      assert q[k..][j - k] == q[j];
    }
  }

  lemma PushKeepsFurthest(q: seq<Unacked>, acked: nat, furthest: nat, b: Unacked)
    requires FurthestOk(q, acked, furthest)
    ensures FurthestOk(q + [b], acked, Larger(furthest, b.end))
  {
    var q' := q + [b];
    assert q'[|q|] == b;
    if furthest > acked && b.end <= furthest {
      var j :| 0 <= j < |q| && q[j].end == furthest;
      assert q'[j] == q[j];
    }
  }

  // Three bytes are sent, one of them is accepted, and the send fails.
  lemma AfterFailedSend(a: bytes)
    requires |a| == 3
    ensures ChainOk([Unacked(3, 0, a)], 0, 1, 0) && MemoryOk([Unacked(3, 0, a)], [Src(0, 0)], [a[0]])
  {
    hide BlockOk, MemoryOk, ChainOk, Pointers;
    var q := [Unacked(3, 0, a)];
    Nothing();
    PushKeeps([], [], [], 0, 0, a);
    assert [] + q == q;
    AcceptKeeps(q, [], [], 0, 0, 1);
    var p := Pointers(q[0], 0, 1);
    assert p == [Src(0, 0)];
    assert [] + p == [Src(0, 0)] && [] + a[0..1] == [a[0]];
  }

  lemma Nothing()
    ensures ChainOk([], 0, 0, 0) && MemoryOk([], [], []) && FurthestOk([], 0, 0) && Contiguous([])
  {
  }

  // Then its byte is acknowledged, and two more bytes are sent and accepted.
  lemma AfterNextSend(a: bytes, b: bytes)
    requires |a| == 3 && |b| == 2
    ensures var q := [Unacked(3, 0, a), Unacked(3, 1, b)];
            ChainOk(q, 1, 3, 0) && MemoryOk(q, [Src(0, 0), Src(1, 0), Src(1, 1)], [a[0], b[0], b[1]])
  {
    hide BlockOk, MemoryOk, ChainOk, Pointers;
    var q1, src1, content1 := [Unacked(3, 0, a)], [Src(0, 0)], [a[0]];
    AfterFailedSend(a);
    MoreAcked(q1, 0, 1, 1, 0);
    PushKeeps(q1, src1, content1, 1, 0, b);
    var q := [Unacked(3, 0, a), Unacked(3, 1, b)];
    assert q1 + [Unacked(3, 1, b)] == q;
    AcceptKeeps(q, src1, content1, 1, 0, 2);
    var p := Pointers(q[1], 0, 2);
    assert p == [Src(1, 0), Src(1, 1)];
    assert src1 + p == [Src(0, 0), Src(1, 0), Src(1, 1)] && content1 + b[0..2] == [a[0], b[0], b[1]];
  }

  // A failed send leaves a gap between the blocks, and its block is freed all the same once
  // later sends have carried the stream to its end: until then it is retained although all
  // that was accepted is acknowledged; then both blocks end at 3, and one acknowledgement
  // frees both.
  lemma FailedBlockFreed(a: bytes, b: bytes)
    requires |a| == 3 && |b| == 2
    ensures var q := [Unacked(3, 0, a), Unacked(3, 1, b)];
            && ChainOk(q[..1], 1, 1, 0) && q[0].end > 1
            && ChainOk(q, 1, 3, 0) && !Contiguous(q) && FurthestOk(q, 1, 3)
            && ChainOk(q, 3, 3, 0) && q[0].end <= 3
            && ChainOk(q[1..], 3, 3, 1) && q[1].end <= 3
            && ChainOk(q[2..], 3, 3, 2)
  {
    hide BlockOk, MemoryOk, ChainOk;
    var q := [Unacked(3, 0, a), Unacked(3, 1, b)];
    var src, content := [Src(0, 0), Src(1, 0), Src(1, 1)], [a[0], b[0], b[1]];
    assert q[..1] == [Unacked(3, 0, a)];
    AfterFailedSend(a);
    MoreAcked(q[..1], 0, 1, 1, 0);
    AfterNextSend(a, b);
    assert q[1].Start() != q[0].end;
    MoreAcked(q, 1, 3, 3, 0);
    PopKeeps(q, src, content, 3, 0);
    assert q[1..][0] == q[1] && q[2..] == q[1..][1..];
    PopKeeps(q[1..], src, content, 3, 1);
  }

  lemma ExtendContiguous(q: seq<Unacked>, b: Unacked)
    requires Contiguous(q) && (q != [] ==> b.Start() == q[|q| - 1].end)
    ensures Contiguous(q + [b])
  {
  }

  // The block being written is not acknowledged in full, so the pump cannot have freed it.
  lemma LastStays(q0: seq<Unacked>, p0: nat, q1: seq<Unacked>, p1: nat, acked: nat, streamOffset: nat)
    requires q0 != [] && Freed(q0, p0, q1, p1, acked) && acked <= streamOffset < q0[|q0| - 1].end
    ensures q1 != [] && q1[|q1| - 1] == q0[|q0| - 1]
  {
    var last := q0[|q0| - 1];
    assert last.end > acked;
  }

  lemma LastStarts(q: seq<Unacked>, acked: nat, streamOffset: nat, popped: nat)
    requires ChainOk(q, acked, streamOffset, popped) && q != []
    ensures 0 <= q[|q| - 1].Start() <= streamOffset
  {
    assert Limit(q, |q| - 1, streamOffset) == streamOffset;
  }

  lemma EndStays(q0: seq<Unacked>, p0: nat, q1: seq<Unacked>, p1: nat, acked: nat)
    requires Freed(q0, p0, q1, p1, acked)
    ensures q1 != [] ==> q0 != [] && q1[|q1| - 1] == q0[|q0| - 1]
  {
  }

  lemma MoreAcked(q: seq<Unacked>, acked: nat, acked': nat, streamOffset: nat, popped: nat)
    requires ChainOk(q, acked, streamOffset, popped) && acked <= acked' <= streamOffset
    ensures ChainOk(q, acked', streamOffset, popped)
  {
  }

  lemma SuffixContiguous(q: seq<Unacked>, k: nat)
    requires Contiguous(q) && k <= |q|
    ensures Contiguous(q[k..])
  {
  }

  lemma {:induction false} EndsGrow(q: seq<Unacked>, acked: nat, streamOffset: nat, popped: nat)
    requires ChainOk(q, acked, streamOffset, popped) && Contiguous(q) && q != []
    ensures q[0].end <= q[|q| - 1].end
  {
    var j := 0;
    while j + 1 < |q|
      invariant 0 <= j < |q| && q[0].end <= q[j].end
    {
      assert q[j + 1].Start() == q[j].end;
      j := j + 1;
    }
  }

  ghost predicate SameOutside(file: bytes, before: bytes, offset: nat, len: nat) {
    && |file| == |before| && offset + len <= |file|
    && file[..offset] == before[..offset] && file[offset + len..] == before[offset + len..]
  }

  // Landing the next bytes extends the filled part of the mapping and stays inside it.
  lemma LandKeeps(file: bytes, d: Dest, consumed: bytes, data: bytes)
    requires d.got + |data| <= d.len && d.offset + d.len <= |file|
    requires d.got <= |consumed| && file[d.offset..d.offset + d.got] == consumed[|consumed| - d.got..]
    ensures var file' := Put(file, d.offset + d.got, data); var consumed' := consumed + data; var got' := d.got + |data|;
            && file'[d.offset..d.offset + got'] == consumed'[|consumed'| - got'..]
            && SameOutside(file', file, d.offset, d.len)
  {
    var at := d.offset + d.got;
    var file' := Put(file, at, data);
    assert file'[..at] == file[..at] && file'[at..at + |data|] == data && file'[at + |data|..] == file[at + |data|..];
    assert file'[d.offset..at] == file'[..at][d.offset..] == file[..at][d.offset..] == file[d.offset..at];
    assert file'[d.offset..at + |data|] == file'[d.offset..at] + file'[at..at + |data|];
    assert (consumed + data)[|consumed| - d.got..] == consumed[|consumed| - d.got..] + data;
    assert file'[..d.offset] == file'[..at][..d.offset] == file[..d.offset];
    var rest := d.offset + d.len - (at + |data|);
    assert file'[d.offset + d.len..] == file'[at + |data|..][rest..] == file[at + |data|..][rest..] == file[d.offset + d.len..];
  }

  // The mapping being filled holds the latest consumed bytes; bytes are queued only once
  // it is full.
  ghost predicate DestOk(dest: Option<Dest>, file: bytes, consumed: bytes, recvBuf: bytes) {
    dest.Some? ==>
      var d := dest.value;
      && d.got <= d.len && d.offset + d.len <= |file|
      && (recvBuf != [] ==> d.got == d.len)
      && d.got <= |consumed| && file[d.offset..d.offset + d.got] == consumed[|consumed| - d.got..]
  }

  lemma DestRoom(d: Dest, file: bytes, consumed: bytes, recvBuf: bytes)
    requires DestOk(Some(d), file, consumed, recvBuf)
    ensures d.got <= d.len && d.offset + d.len <= |file|
  {
  }

  // Between two moments the same mapping, if any, was filled further, with what was
  // consumed meanwhile, and nothing outside it was written.
  ghost predicate Landed(d0: Option<Dest>, f0: bytes, c0: bytes, d1: Option<Dest>, f1: bytes, c1: bytes) {
    && c0 <= c1 && |f1| == |f0| && (d1.None? <==> d0.None?)
    && (d0.None? ==> f1 == f0 && c1 == c0)
    && (d0.Some? ==>
          var d, d' := d0.value, d1.value;
          && d'.offset == d.offset && d'.len == d.len && d.got <= d'.got
          && |c1| - |c0| == d'.got - d.got
          && (d.offset + d.len <= |f0| ==> SameOutside(f1, f0, d.offset, d.len)))
  }

  lemma LandedStart(d: Option<Dest>, f: bytes, c: bytes)
    ensures Landed(d, f, c, d, f, c)
  {
  }

  lemma LandedTrans(d0: Option<Dest>, f0: bytes, c0: bytes, d1: Option<Dest>, f1: bytes, c1: bytes,
                    d2: Option<Dest>, f2: bytes, c2: bytes)
    requires Landed(d0, f0, c0, d1, f1, c1) && Landed(d1, f1, c1, d2, f2, c2)
    ensures Landed(d0, f0, c0, d2, f2, c2)
  {
  }

  // One delivery: `taken` bytes land, the rest is queued.
  lemma Receive(dest: Option<Dest>, file: bytes, consumed: bytes, recvBuf: bytes, data: bytes, taken: nat)
    requires DestOk(dest, file, consumed, recvBuf)
    requires taken == if dest.Some? && recvBuf == [] then
                        (if |data| < dest.value.len - dest.value.got then |data| else dest.value.len - dest.value.got)
                      else 0
    ensures var landing := dest.Some? && recvBuf == [];
            var dest' := if landing then Some(dest.value.(got := dest.value.got + taken)) else dest;
            var file' := if landing then Put(file, dest.value.offset + dest.value.got, data[..taken]) else file;
            var queue' := if taken < |data| then recvBuf + data[taken..] else recvBuf;
            && DestOk(dest', file', consumed + data[..taken], queue')
            && Landed(dest, file, consumed, dest', file', consumed + data[..taken])
            && (consumed + data[..taken]) + queue' == (consumed + recvBuf) + data
  {
    hide Put, DestOk, Landed, SameOutside;
    if dest.Some? { DestRoom(dest.value, file, consumed, recvBuf); }
    ReceiveInOrder(consumed, recvBuf, data, taken);
    if dest.Some? && recvBuf == [] {
      ReceiveLands(dest.value, file, consumed, data, taken);
    } else {
      QueueMore(dest, file, consumed, recvBuf, data);
      LandedStart(dest, file, consumed);
    }
  }

  lemma ReceiveInOrder(consumed: bytes, recvBuf: bytes, data: bytes, taken: nat)
    requires taken <= |data| && (taken > 0 ==> recvBuf == [])
    ensures (consumed + data[..taken]) + (if taken < |data| then recvBuf + data[taken..] else recvBuf) == (consumed + recvBuf) + data
    ensures taken == 0 ==> consumed + data[..taken] == consumed && (if taken < |data| then recvBuf + data[taken..] else recvBuf) == recvBuf + data
    ensures recvBuf == [] ==> (if taken < |data| then recvBuf + data[taken..] else recvBuf) == if taken < |data| then data[taken..] else []
  {
    assert data[..taken] + data[taken..] == data;
  }

  lemma ReceiveLands(d: Dest, file: bytes, consumed: bytes, data: bytes, taken: nat)
    requires DestOk(Some(d), file, consumed, []) && d.got <= d.len
    requires taken == if |data| < d.len - d.got then |data| else d.len - d.got
    ensures var d' := d.(got := d.got + taken); var file' := Put(file, d.offset + d.got, data[..taken]);
            && DestOk(Some(d'), file', consumed + data[..taken], if taken < |data| then data[taken..] else [])
            && Landed(Some(d), file, consumed, Some(d'), file', consumed + data[..taken])
  {
    hide Put;
    LandKeeps(file, d, consumed, data[..taken]);
  }

  lemma QueueMore(dest: Option<Dest>, file: bytes, consumed: bytes, recvBuf: bytes, data: bytes)
    requires DestOk(dest, file, consumed, recvBuf) && (dest.Some? ==> recvBuf != [])
    ensures DestOk(dest, file, consumed, recvBuf + data)
  {
  }

  // The queue q1 is q0 without the blocks freed in between, each of which was acknowledged
  // to its end.
  ghost predicate Freed(q0: seq<Unacked>, p0: nat, q1: seq<Unacked>, p1: nat, acked: nat) {
    && p0 <= p1 <= p0 + |q0| && q1 == q0[p1 - p0..]
    && forall j :: 0 <= j < p1 - p0 ==> q0[j].end <= acked
  }

  lemma FreedStart(q: seq<Unacked>, p: nat, acked: nat)
    ensures Freed(q, p, q, p, acked)
  {
  }

  lemma FreedTrans(q0: seq<Unacked>, p0: nat, q1: seq<Unacked>, p1: nat, a1: nat, q2: seq<Unacked>, p2: nat, a2: nat)
    requires Freed(q0, p0, q1, p1, a1) && Freed(q1, p1, q2, p2, a2) && a1 <= a2
    ensures Freed(q0, p0, q2, p2, a2)
  {
    forall j | 0 <= j < p2 - p0 ensures q0[j].end <= a2 {
      if j >= p1 - p0 { assert q0[j] == q1[j - (p1 - p0)]; }
    }
  }

  lemma NothingLands(f: bytes, c: bytes, d1: Option<Dest>, f1: bytes, c1: bytes)
    requires Landed(None, f, c, d1, f1, c1)
    ensures f1 == f && c1 == c && d1.None?
  {
  }

  lemma NoDest(file: bytes, consumed: bytes, recvBuf: bytes)
    ensures DestOk(None, file, consumed, recvBuf)
  {
  }

  lemma NothingOutside(file: bytes, offset: nat)
    requires offset <= |file|
    ensures SameOutside(file, file, offset, 0)
  {
  }

  lemma SameDest(d0: Option<Dest>, f0: bytes, c0: bytes, d1: Option<Dest>, f1: bytes, c1: bytes)
    requires d0.Some? && Landed(d0, f0, c0, d1, f1, c1)
    ensures d1.Some? && d1.value.offset == d0.value.offset && d1.value.len == d0.value.len
  {
  }

  // Setting up the mapping with what was already queued.
  lemma BeginDest(file: bytes, offset: nat, len: nat, consumed: bytes, recvBuf: bytes, got: nat)
    requires offset + len <= |file| && got == if len < |recvBuf| then len else |recvBuf|
    ensures var file' := Put(file, offset, recvBuf[..got]);
            && DestOk(Some(Dest(offset, len, got)), file', consumed + recvBuf[..got], recvBuf[got..])
            && SameOutside(file', file, offset, len)
            && (consumed + recvBuf[..got]) + recvBuf[got..] == consumed + recvBuf
  {
    LandKeeps(file, Dest(offset, len, 0), consumed, recvBuf[..got]);
    assert recvBuf[..got] + recvBuf[got..] == recvBuf;
  }

  // What a filled, or partly filled, mapping amounts to.
  lemma EndDest(file0: bytes, consumed0: bytes, d0: Option<Dest>, f0: bytes, c0: bytes,
                d: Dest, file: bytes, consumed: bytes, recvBuf: bytes)
    requires d0.Some? && Landed(d0, f0, c0, Some(d), file, consumed) && DestOk(Some(d), file, consumed, recvBuf)
    requires d.offset + d.len <= |file0| && SameOutside(f0, file0, d.offset, d.len)
    requires consumed0 <= c0 && |c0| - |consumed0| == d0.value.got
    ensures SameOutside(file, file0, d.offset, d.len)
    ensures consumed0 <= consumed && |consumed| - |consumed0| == d.got <= d.len
    ensures d.got == d.len ==> file[d.offset..d.offset + d.len] == consumed[|consumed0|..]
  {
  }
}
