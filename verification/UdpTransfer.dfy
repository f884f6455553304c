// A whole UDP transfer: the sender's send_file and the receiver's recv_file, joined by a run of
// the lock-step between them.
module UdpTransfer {
  import opened Bytes
  import opened UdpWire
  import opened UdpSend
  import opened UdpReceive
  import opened UdpLockstep
  import Chunks
  import P = Protocol

  // What a loop took, as bytes: each datagram the channel delivered is one that the sender put
  // on the wire for that chunk, with that fragment number.
  ghost predicate CarriedIn(batches: seq<seq<bytes>>, loop: seq<Dgram>, seen: seq<bytes>) {
    && |seen| == |loop|
    && forall j :: 0 <= j < |seen| ==>
         loop[j].chunk < |batches| && seen[j] in batches[loop[j].chunk] && Numbered(seen[j], loop[j].index)
  }

  // The receiver's loops took what the channel delivered in this run, all from the sender.
  ghost predicate Carried(batches: seq<seq<bytes>>, loops: seq<seq<Dgram>>, seenBy: seq<seq<bytes>>) {
    |seenBy| == |loops| && forall k :: 0 <= k < |loops| ==> CarriedIn(batches, loops[k], seenBy[k])
  }

  // A datagram of a batch is the fragment that its number says.
  lemma FromBatch(batch: seq<bytes>, content: bytes, k: P.u32, d: bytes, i: nat)
    requires Sends(batch, content, k) && d in batch && Numbered(d, i)
    ensures i < FragCount(|content|) && i < P.TWO32 && d == Fragment(content, k, i)
  {
    hide FragCount, Fragment, ParseHdr;
    var all := Fragments(content, k, FragCount(|content|));
    assert d in multiset(batch) && d in multiset(all) && d in all;
    var m :| 0 <= m < |all| && all[m] == d;
    FragmentIsGenuine(content, k, m);
  }

  ghost predicate AllSent(batches: seq<seq<bytes>>, source: bytes) {
    && |batches| == Chunks.ChunkCount(|source|)
    && forall k :: 0 <= k < |batches| ==> Sends(batches[k], Chunks.ChunkAt(source, k), k)
  }

  lemma CarriedIsTaken(batches: seq<seq<bytes>>, source: bytes, loop: seq<Dgram>, seen: seq<bytes>)
    requires AllSent(batches, source) && CarriedIn(batches, loop, seen)
    ensures UdpLockstep.Taken(source, loop, seen)
  {
    hide FragCount, Fragment, ParseHdr, Sends;
    forall j | 0 <= j < |loop| ensures IsDgram(source, loop[j], seen[j]) {
      var k := loop[j].chunk;
      assert Sends(batches[k], Chunks.ChunkAt(source, k), k);
      FromBatch(batches[k], Chunks.ChunkAt(source, k), k, seen[j], loop[j].index);
    }
  }

  lemma CarriedIsGenuine(batches: seq<seq<bytes>>, source: bytes, run: seq<UdpLockstep.Step>, seenBy: seq<seq<bytes>>)
    requires AllSent(batches, source) && PromptRun(FragCounts(source), run)
    requires Carried(batches, Run(FragCounts(source), run).loops, seenBy)
    ensures GenuineBy(seenBy, source)
  {
    hide AllSent, PromptRun, UdpLockstep.Taken, CarriedIn, Run, GenuineBy;
    var loops := Run(FragCounts(source), run).loops;
    forall k | 0 <= k < |seenBy| ensures UdpLockstep.Taken(source, loops[k], seenBy[k]) {
      CarriedIsTaken(batches, source, loops[k], seenBy[k]);
    }
    LockstepIsGenuine(source, run, seenBy);
  }

  // Both ends of one transfer. Whatever each does on its own, if both return normally and the
  // channel between them behaved as in some prompt run of the lock-step, then the output range
  // is the source range, nothing outside it changed, and every chunk was acknowledged once, in
  // order.
  method Transfer(s: UdpSender, r: UdpReceiver, from: nat, to: nat, len: nat, ghost run: seq<UdpLockstep.Step>)
    returns (sent: UdpSend.Outcome, got: UdpReceive.Outcome, ghost batches: seq<seq<bytes>>, ghost seenBy: seq<seq<bytes>>)
    requires s.Quiet() && s.FlightsOk() && |s.bufs[0]| == |s.bufs[1]| == Chunks.CHUNK_SIZE
    requires r.Buffers() && forall b :: 0 <= b < r.pool ==> r.ops[b] == IDLE
    requires from + len <= |s.source| && len <= 0xFFFF_FFFF * Chunks.CHUNK_SIZE
    modifies s, r
    ensures s.wire == old(s.wire) + Flat(batches)
    ensures var source := s.source[from..from + len];
            sent.Ok? && got.Done? && PromptRun(FragCounts(source), run)
            && Carried(batches, Run(FragCounts(source), run).loops, seenBy)
            ==> Filling(r.file, old(r.file), to, source, len)
                && r.acks == old(r.acks) + seq(Chunks.ChunkCount(len), k => k)
  {
    hide PromptRun, Carried, Run, Filling, GenuineBy, AllSent;
    ghost var source := s.source[from..from + len];
    ghost var contents;
    ghost var acked;
    sent, batches, contents, acked := s.SendFile(from, len);
    ghost var done;
    got, seenBy, done := r.RecvFile(to, len, source);
    if sent.Ok? && PromptRun(FragCounts(source), run) && Carried(batches, Run(FragCounts(source), run).loops, seenBy) {
      SentIsAll(batches, contents, s.source, source);
      CarriedIsGenuine(batches, source, run, seenBy);
    }
  }

  lemma SentIsAll(batches: seq<seq<bytes>>, contents: seq<bytes>, file: bytes, source: bytes)
    requires |batches| == |contents| == Chunks.ChunkCount(|source|)
    requires forall k :: 0 <= k < |batches| ==> Sends(batches[k], contents[k], k) && contents[k] == Chunks.ChunkAt(source, k)
    ensures AllSent(batches, source)
  {
    hide Sends;
  }
}
