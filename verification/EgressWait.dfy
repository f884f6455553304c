// When reserve's wait never ends: the part of reap(true) before the wait, against a kernel
// that obeys the completion rule. Only a flush that left entries unsubmitted makes it flush
// again, and only that flush can take the completions the wait is for.
module EgressWait {
  import opened Bytes
  import opened Egress

  datatype Snap = Snap(entries: seq<Entry>, k: Kernel, hurt: bool)

  // A submit takes one more entry, the kernel posts, or the flush's reap takes a completion.
  datatype Move = Take | Posts(e: Event) | ReapOldest(copySent: bool)

  function Apply(s: Snap, slab: seq<bytes>, m: Move): Snap {
    match m
    case Take => s.(k := SubmitOne(s.k))
    case Posts(e) => s.(k := Post(s.k, slab, e))
    case ReapOldest(copySent) =>
      if s.k.cq == [] || s.k.cq[0].slot >= |s.entries| || |s.entries| != |slab| then s
      else
        var c := s.k.cq[0];
        Snap(EntriesAfter(s.entries, c),
             s.k.(cq := s.k.cq[1..], tx := TxAfter(s.entries, slab, s.k.tx, c, copySent)),
             s.hurt || (c.Sent? && c.res < 0))
  }

  function Play(s: Snap, slab: seq<bytes>, moves: seq<Move>): Snap
    decreases moves
  {
    if moves == [] then s else Play(Apply(s, slab, moves[0]), slab, moves[1..])
  }

  // What may happen between the check of the free list and the wait: with an empty queue
  // reap(true) goes straight to the wait; otherwise it flushes first, which submits and then
  // reaps without blocking.
  ghost predicate Legal(s: Snap, moves: seq<Move>) {
    if s.k.queue == [] then forall j :: 0 <= j < |moves| ==> moves[j].Posts?
    else exists n: nat :: SplitAt(moves, n)
  }

  ghost predicate SplitAt(moves: seq<Move>, n: nat) {
    && n <= |moves|
    && (forall j :: 0 <= j < n ==> !moves[j].ReapOldest?)
    && (forall j :: n <= j < |moves| ==> !moves[j].Take?)
  }

  // The wait never returns: nothing posted, and nothing that the kernel still owes.
  ghost predicate WaitsForEver(k: Kernel) {
    k.cq == [] && forall i :: 0 <= i < |k.phase| ==> k.phase[i].Idle? || k.phase[i].Queued?
  }

  ghost predicate SomeFree(s: Snap) {
    exists i :: 0 <= i < |s.entries| && s.entries[i].Empty?
  }

  // The pool is in order; at the check no slot is free or reserved.
  ghost predicate Good(s: Snap, slab: seq<bytes>, log: seq<bytes>) {
    RingOk(s.entries, slab, log, s.hurt, s.k) && Settled(s.entries, log, s.hurt, s.k.tx)
  }

  ghost predicate NoneFree(s: Snap) {
    s.entries != [] && forall i :: 0 <= i < |s.entries| ==> s.entries[i].Held?
  }

  lemma ApplyOk(s: Snap, slab: seq<bytes>, log: seq<bytes>, m: Move)
    requires Good(s, slab, log)
    ensures Good(Apply(s, slab, m), slab, log)
  {
    hide RingOk, Settled, EntriesAfter, TxAfter;
    match m
    case Take => if s.k.queue != [] { SubmitKeeps(s.entries, slab, log, s.hurt, s.k); }
    case Posts(e) =>
      PostKeeps(s.entries, slab, log, s.hurt, s.k, e);
      PostSettles(s.entries, slab, log, s.hurt, s.k, e);
    case ReapOldest(copySent) =>
      if s.k.cq != [] {
        ReapKeeps(s.entries, slab, log, s.hurt, s.hurt || (s.k.cq[0].Sent? && s.k.cq[0].res < 0), s.k, copySent);
      }
  }

  lemma {:induction false} PlayOk(s: Snap, slab: seq<bytes>, log: seq<bytes>, moves: seq<Move>)
    requires Good(s, slab, log)
    ensures Good(Play(s, slab, moves), slab, log)
    decreases moves
  {
    hide Good, Apply;
    if moves != [] {
      ApplyOk(s, slab, log, moves[0]);
      PlayOk(Apply(s, slab, moves[0]), slab, log, moves[1..]);
    }
  }

  // A slot in flight that the kernel owes nothing for, with nothing posted, was never
  // submitted.
  lemma QuietIsQueued(s: Snap, slab: seq<bytes>, log: seq<bytes>, i: nat)
    requires Good(s, slab, log) && WaitsForEver(s.k) && i < |s.entries| && s.entries[i].Held?
    ensures i < |s.k.phase| && s.k.phase[i].Queued? && i in s.k.queue
  {
    assert SlotOk(s.entries[i], slab[i], log, s.k.tx, s.k.phase[i], For(s.k.cq, i), s.hurt);
  }

  // Posts leave table and queue alone.
  lemma {:induction false} PostsOnly(s: Snap, slab: seq<bytes>, moves: seq<Move>)
    requires forall j :: 0 <= j < |moves| ==> moves[j].Posts?
    ensures var t := Play(s, slab, moves); t.entries == s.entries && t.k.queue == s.k.queue
    decreases moves
  {
    if moves != [] { PostsOnly(Apply(s, slab, moves[0]), slab, moves[1..]); }
  }

  // A slot that is queued at the end was queued all along.
  lemma {:induction false} QueuedBefore(s: Snap, slab: seq<bytes>, moves: seq<Move>, i: nat)
    requires i < |Play(s, slab, moves).k.phase| && Play(s, slab, moves).k.phase[i].Queued?
    ensures i < |s.k.phase| && s.k.phase[i].Queued?
    decreases moves
  {
    if moves != [] { QueuedBefore(Apply(s, slab, moves[0]), slab, moves[1..], i); }
  }

  lemma {:induction false} PlayTwo(s: Snap, slab: seq<bytes>, first: seq<Move>, second: seq<Move>)
    ensures Play(s, slab, first + second) == Play(Play(s, slab, first), slab, second)
    decreases first
  {
    hide Apply;
    if first == [] {
      assert first + second == second;
    } else {
      assert (first + second)[1..] == first[1..] + second;
      PlayTwo(Apply(s, slab, first[0]), slab, first[1..], second);
    }
  }

  // Submits take everything.
  lemma {:induction false} TakeAll(s: Snap, slab: seq<bytes>) returns (moves: seq<Move>)
    ensures Play(s, slab, moves).k.queue == [] && forall j :: 0 <= j < |moves| ==> moves[j] == Take
    decreases |s.k.queue|
  {
    if s.k.queue == [] { return []; }
    var rest := TakeAll(Apply(s, slab, Take), slab);
    moves := [Take] + rest;
    assert moves[1..] == rest;
  }

  // From an empty queue the kernel can complete everything and the reap take all of it.
  lemma {:induction false} CompleteAll(s: Snap, slab: seq<bytes>, log: seq<bytes>) returns (moves: seq<Move>)
    requires Good(s, slab, log) && s.k.queue == []
    ensures Good(Play(s, slab, moves), slab, log)
    ensures var t := Play(s, slab, moves); t.k.queue == [] && WaitsForEver(t.k) && |t.entries| == |s.entries|
    ensures forall j :: 0 <= j < |moves| ==> !moves[j].Take?
    decreases Outstanding(s.k), TotalDue(s.k.phase)
  {
    hide Good, Apply;
    var m: Move;
    if s.k.cq != [] {
      m := ReapOldest(false);
      ReapLowers(s, slab, log);
    } else if i :| 0 <= i < |s.k.phase| && (s.k.phase[i].Sending? || s.k.phase[i].Notifying?) {
      m := Posts(if s.k.phase[i].Sending? then Complete(i, 0, false) else Notify(i, false));
      PostLowers(s, slab, log, i);
    } else {
      QueueIsEmpty(s, slab, log);
      return [];
    }
    ApplyOk(s, slab, log, m);
    var rest := CompleteAll(Apply(s, slab, m), slab, log);
    moves := [m] + rest;
    assert moves[1..] == rest;
  }

  lemma QueueIsEmpty(s: Snap, slab: seq<bytes>, log: seq<bytes>)
    requires Good(s, slab, log) && s.k.queue == []
    ensures forall i :: 0 <= i < |s.k.phase| ==> !s.k.phase[i].Queued?
  {
  }

  lemma ReapLowers(s: Snap, slab: seq<bytes>, log: seq<bytes>)
    requires Good(s, slab, log) && s.k.cq != []
    ensures var t := Apply(s, slab, ReapOldest(false));
            Outstanding(t.k) == Outstanding(s.k) - 1 && t.k.queue == s.k.queue && |t.entries| == |s.entries|
  {
    hide RingOk, Settled, TxAfter;
    ReapKeeps(s.entries, slab, log, s.hurt, s.hurt || (s.k.cq[0].Sent? && s.k.cq[0].res < 0), s.k, false);
    RingSizes(s, slab, log);
  }

  lemma RingSizes(s: Snap, slab: seq<bytes>, log: seq<bytes>)
    requires Good(s, slab, log)
    ensures |s.entries| == |slab| == |s.k.phase|
  {
  }

  lemma PostLowers(s: Snap, slab: seq<bytes>, log: seq<bytes>, i: nat)
    requires Good(s, slab, log) && i < |s.k.phase| && (s.k.phase[i].Sending? || s.k.phase[i].Notifying?)
    ensures var m := Posts(if s.k.phase[i].Sending? then Complete(i, 0, false) else Notify(i, false));
            var t := Apply(s, slab, m);
            && Outstanding(t.k) <= Outstanding(s.k) && TotalDue(t.k.phase) < TotalDue(s.k.phase)
            && t.k.queue == s.k.queue && t.entries == s.entries
  {
    RingSizes(s, slab, log);
    hide Good;
    TotalDueUpdate(s.k.phase, i, Idle);
  }

  // Some slots are in flight, none is free: the wait that follows can go on for ever with a
  // slot free by then, exactly when the flush before it left entries in the queue.
  lemma LostWakeupIff(s: Snap, slab: seq<bytes>, log: seq<bytes>)
    requires Good(s, slab, log) && NoneFree(s)
    ensures (exists moves: seq<Move> :: Legal(s, moves) && WaitsForEver(Play(s, slab, moves).k) && SomeFree(Play(s, slab, moves)))
            <==> s.k.queue != []
  {
    if s.k.queue != [] {
      var moves := LostWakeup(s, slab, log);
    } else {
      forall moves: seq<Move> | Legal(s, moves) ensures !WaitsForEver(Play(s, slab, moves).k) {
        EmptyQueueReturns(s, slab, log, moves);
      }
    }
  }

  // With nothing left in the queue the wait returns, whatever the kernel does.
  lemma EmptyQueueReturns(s: Snap, slab: seq<bytes>, log: seq<bytes>, moves: seq<Move>)
    requires Good(s, slab, log) && NoneFree(s) && s.k.queue == [] && Legal(s, moves)
    ensures !WaitsForEver(Play(s, slab, moves).k)
  {
    hide Good;
    PlayOk(s, slab, log, moves);
    PostsOnly(s, slab, moves);
    var t := Play(s, slab, moves);
    if WaitsForEver(t.k) { QuietIsQueued(t, slab, log, 0); }
  }

  // The run that loses the wake-up: the second flush submits everything, the kernel completes
  // everything, and the flush's own reap takes it all before the wait.
  lemma LostWakeup(s: Snap, slab: seq<bytes>, log: seq<bytes>) returns (moves: seq<Move>)
    requires Good(s, slab, log) && NoneFree(s) && s.k.queue != []
    ensures Legal(s, moves) && WaitsForEver(Play(s, slab, moves).k) && SomeFree(Play(s, slab, moves))
  {
    hide Good, Apply;
    var takes := TakeAll(s, slab);
    PlayOk(s, slab, log, takes);
    var mid := Play(s, slab, takes);
    var rest := CompleteAll(mid, slab, log);
    moves := takes + rest;
    PlayTwo(s, slab, takes, rest);
    assert SplitAt(moves, |takes|);
    var t := Play(mid, slab, rest);
    TakesKeepTable(s, slab, takes);
    if t.entries[0].Held? { QuietIsQueued(t, slab, log, 0); }
  }

  lemma {:induction false} TakesKeepTable(s: Snap, slab: seq<bytes>, moves: seq<Move>)
    requires forall j :: 0 <= j < |moves| ==> moves[j] == Take
    ensures Play(s, slab, moves).entries == s.entries
    decreases moves
  {
    if moves != [] { TakesKeepTable(Apply(s, slab, moves[0]), slab, moves[1..]); }
  }

  // It can go on for ever with still no slot free exactly when not one slot in flight has been
  // submitted.
  lemma StuckIff(s: Snap, slab: seq<bytes>, log: seq<bytes>)
    requires Good(s, slab, log) && NoneFree(s)
    ensures (exists moves: seq<Move> :: Legal(s, moves) && WaitsForEver(Play(s, slab, moves).k) && !SomeFree(Play(s, slab, moves)))
            <==> (forall i :: 0 <= i < |s.k.phase| ==> s.k.phase[i].Queued?)
  {
    RingSizes(s, slab, log);
    if forall i :: 0 <= i < |s.k.phase| ==> s.k.phase[i].Queued? {
      AllQueuedIsQuiet(s, slab, log);
      var none: seq<Move> := [];
      assert SplitAt(none, 0);
      assert Legal(s, none) && Play(s, slab, none) == s;
    } else {
      forall moves: seq<Move> | Legal(s, moves) && WaitsForEver(Play(s, slab, moves).k) && !SomeFree(Play(s, slab, moves))
        ensures false
      {
        var t := Play(s, slab, moves);
        PlayOk(s, slab, log, moves);
        SizesKept(s, slab, moves);
        forall i | 0 <= i < |s.k.phase| ensures s.k.phase[i].Queued? {
          QuietIsQueued(t, slab, log, i);
          QueuedBefore(s, slab, moves, i);
        }
      }
    }
  }

  lemma AllQueuedIsQuiet(s: Snap, slab: seq<bytes>, log: seq<bytes>)
    requires Good(s, slab, log) && NoneFree(s) && forall i :: 0 <= i < |s.k.phase| ==> s.k.phase[i].Queued?
    ensures WaitsForEver(s.k) && s.k.queue != []
  {
    if s.k.cq != [] {
      var i := s.k.cq[0].slot;
      assert s.k.cq[0] in s.k.cq;
      assert SlotOk(s.entries[i], slab[i], log, s.k.tx, s.k.phase[i], For(s.k.cq, i), s.hurt);
    }
    assert 0 in s.k.queue;
  }

  lemma {:induction false} SizesKept(s: Snap, slab: seq<bytes>, moves: seq<Move>)
    ensures |Play(s, slab, moves).entries| == |s.entries|
    decreases moves
  {
    if moves != [] { SizesKept(Apply(s, slab, moves[0]), slab, moves[1..]); }
  }

  // In terms of the pool: with no slot free or reserved after the flush in reserve's loop, the
  // wait can go on for ever exactly when that flush left entries in the submission queue.
  lemma ReserveWaitIff(e: ZcEgress, slab: seq<bytes>)
    requires e.Valid() && e.free == [] && e.reserved == -1 && slab == e.slab
    ensures var s := Snap(e.inflight, e.ring, e.Hurt());
            && Good(s, slab, e.log) && NoneFree(s)
            && ((exists moves: seq<Move> :: Legal(s, moves) && WaitsForEver(Play(s, slab, moves).k)) <==> e.ring.queue != [])
  {
    hide WaitsForEver, Legal, Play;
    var s := Snap(e.inflight, e.ring, e.Hurt());
    NobodyFree(e);
    hide Good;
    if s.k.queue != [] {
      var moves := LostWakeup(s, slab, e.log);
    } else {
      forall moves: seq<Move> | Legal(s, moves) ensures !WaitsForEver(Play(s, slab, moves).k) {
        EmptyQueueReturns(s, slab, e.log, moves);
      }
    }
  }

  lemma NobodyFree(e: ZcEgress)
    requires e.Valid() && e.free == [] && e.reserved == -1
    ensures NoneFree(Snap(e.inflight, e.ring, e.Hurt()))
  {
    hide RingOk, Settled;
  }

  // A pool of two slots with one datagram of one byte committed in slot 0.
  method OneCommitted() returns (e: ZcEgress)
    ensures fresh(e) && e.Valid() && e.free == [1] && e.reserved == -1 && e.err == 0 && e.slots == 2 && e.slotSize == 1
    ensures e.ring.queue == [0] && e.ring.cq == [] && e.ring.phase == [Queued(1, 0), Idle]
  {
    hide RingOk, Settled, Occupied, FreeOk, Outstanding;
    e := new ZcEgress(1, 2, 0);
    assert e.ring.phase == [Idle, Idle];
    var r := e.Reserve();
    e.Write([7]);
    var c := e.Commit(1);
    assert [] + [0] == [0];
  }

  // The kernel takes the entry and posts EPERM for it.
  lemma FailsAtOnce(k: Kernel, slab: seq<bytes>)
    requires k.queue == [0] && k.cq == [] && k.phase == [Queued(1, 0), Idle] && |slab| == 2
    ensures SubmitOne(k).tx == k.tx
    ensures var after := Post(SubmitOne(k), slab, Complete(0, -1, false));
            after.cq == [Sent(0, -1, false)] && |after.phase| == 2
  {
    assert SubmitOne(k).phase[0] == Sending(1, 0);
    assert [] + [Sent(0, -1, false)] == [Sent(0, -1, false)];
  }

  method FailedSend() returns (e: ZcEgress)
    ensures fresh(e) && e.Valid() && e.ring.cq == [Sent(0, -1, false)]
    ensures e.free == [1] && e.reserved == -1 && e.err == 0 && e.slots == 2 && e.slotSize == 1
  {
    hide RingOk, Settled, Occupied, FreeOk, Outstanding, Post, SubmitOne;
    e := OneCommitted();
    var failed := Complete(0, -1, false);
    FailsAtOnce(e.ring, e.slab);
    SubmitKeeps(e.inflight, e.slab, e.log, e.Hurt(), e.ring);
    e.ring := SubmitOne(e.ring);
    PostKeeps(e.inflight, e.slab, e.log, e.Hurt(), e.ring, failed);
    PostSettles(e.inflight, e.slab, e.log, e.Hurt(), e.ring, failed);
    e.ring := Post(e.ring, e.slab, failed);
  }

  // With an error latched reserve gives nullptr only when nothing is reserved or free. Here
  // the send's error is latched and its slot freed, and reserve hands it out. The commit that
  // follows fails and leaves the slot reserved, so every later reserve returns it again.
  method LatchedYetFree() returns (e: ZcEgress, first: ReserveResult, c: CommitResult, second: ReserveResult)
    ensures e.Valid() && e.err == 1
    ensures first == Slot(0) && c == LatchedError && second == first
  {
    hide RingOk, Settled, Occupied, FreeOk, Outstanding;
    e := FailedSend();
    var copyErr := e.ReapOne();
    assert e.err == 1 && e.free == [1, 0];
    first := e.Reserve();
    c := e.Commit(1);
    second := e.Reserve();
  }
}
