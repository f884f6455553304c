// The SEND_ZC slot pool: packet slots cycle free -> reserved -> in flight -> free
// while the kernel may still be reading them.
//
// `Kernel` is the environment: everything the ring and the kernel know. It moves by
// `Post`, which is the completion rule: one send completion per submitted entry, then
// exactly one notification if that completion carried F_MORE, and none otherwise.
// Every method that enters the kernel runs an arbitrary number of arbitrary posts, so a
// contract proved here holds for every kernel that obeys the rule.
module Egress {
  import opened Bytes

  // What the kernel still has to do for one slot.
  datatype Phase =
    | Idle                                        // nothing: the kernel will not touch the slot
    | Queued(len: nat, id: nat)                   // entry written, not submitted
    | Sending(len: nat, id: nat)                  // submitted, send completion not posted
    | Notifying(len: nat, id: nat, ok: bool)      // F_MORE was posted, notification still due

  datatype Cqe = Sent(slot: nat, res: int, more: bool) | Notif(slot: nat, copied: bool)

  // The `inflight_` table: an empty owner, or the owner of `len` bytes of the slot.
  // `id` numbers the commits; it is the value of `sends` when the commit was made.
  datatype Entry = Empty | Held(len: nat, id: nat)

  datatype Stats = Stats(sends: nat, notifs: nat, copied: nat, fallback: nat, errors: nat)

  // tx[id] lists the datagrams that reached the wire for commit `id`.
  datatype Kernel = Kernel(queue: seq<nat>, phase: seq<Phase>, cq: seq<Cqe>, tx: seq<seq<bytes>>)

  datatype Event = Complete(slot: nat, res: int, more: bool) | Notify(slot: nat, copied: bool)

  function Transmit(tx: seq<seq<bytes>>, id: nat, datagram: bytes): seq<seq<bytes>> {
    if id < |tx| then tx[id := tx[id] + [datagram]] else tx
  }

  function Slice(slot: bytes, len: nat): bytes {
    if len <= |slot| then slot[..len] else slot
  }

  // One kernel move. The slot is read at the latest moment the rule allows.
  function Post(k: Kernel, slab: seq<bytes>, e: Event): Kernel {
    match e
    case Complete(i, res, more) =>
      if i < |k.phase| && i < |slab| && k.phase[i].Sending? then
        var p := k.phase[i];
        Kernel(k.queue,
               k.phase[i := if more then Notifying(p.len, p.id, res >= 0) else Idle],
               k.cq + [Sent(i, res, more)],
               if res >= 0 && !more then Transmit(k.tx, p.id, Slice(slab[i], p.len)) else k.tx)
      else k
    case Notify(i, copied) =>
      if i < |k.phase| && i < |slab| && k.phase[i].Notifying? then
        var p := k.phase[i];
        Kernel(k.queue, k.phase[i := Idle], k.cq + [Notif(i, copied)],
               if p.ok then Transmit(k.tx, p.id, Slice(slab[i], p.len)) else k.tx)
      else k
  }

  // Submission of the first n queued entries.
  function Start(phase: seq<Phase>, i: nat): seq<Phase> {
    if i < |phase| && phase[i].Queued? then phase[i := Sending(phase[i].len, phase[i].id)] else phase
  }

  function SubmitOne(k: Kernel): Kernel {
    if k.queue == [] then k
    else k.(queue := k.queue[1..], phase := Start(k.phase, k.queue[0]))
  }

  // The completions of slot i, oldest first.
  function For(cq: seq<Cqe>, i: nat): seq<Cqe> {
    if cq == [] then []
    else (if cq[0].slot == i then [cq[0]] else []) + For(cq[1..], i)
  }

  lemma {:induction false} ForAppend(cq: seq<Cqe>, c: Cqe, i: nat)
    ensures For(cq + [c], i) == For(cq, i) + (if c.slot == i then [c] else [])
  {
    if cq == [] {
      assert cq + [c] == [c] && [c][1..] == [];
    } else {
      var head := if cq[0].slot == i then [cq[0]] else [];
      assert (cq + [c])[0] == cq[0] && (cq + [c])[1..] == cq[1..] + [c];
      assert For(cq + [c], i) == head + For(cq[1..] + [c], i);
      ForAppend(cq[1..], c, i);
    }
  }

  lemma ForAppendAll(cq: seq<Cqe>, c: Cqe)
    ensures forall i: nat :: For(cq + [c], i) == For(cq, i) + (if c.slot == i then [c] else [])
  {
    forall i: nat ensures For(cq + [c], i) == For(cq, i) + (if c.slot == i then [c] else []) {
      ForAppend(cq, c, i);
    }
  }

  // Completions still to come for a slot, and in all.
  function Due(p: Phase): nat {
    match p case Idle => 0 case Queued(_, _) => 2 case Sending(_, _) => 2 case Notifying(_, _, _) => 1
  }

  function TotalDue(phase: seq<Phase>): nat {
    if phase == [] then 0 else TotalDue(phase[..|phase| - 1]) + Due(phase[|phase| - 1])
  }

  lemma {:induction false} TotalDueUpdate(phase: seq<Phase>, i: nat, p: Phase)
    requires i < |phase|
    ensures TotalDue(phase[i := p]) == TotalDue(phase) - Due(phase[i]) + Due(p)
  {
    var n := |phase| - 1;
    if i == n {
      assert phase[i := p][..n] == phase[..n];
    } else {
      assert phase[i := p][..n] == phase[..n][i := p];
      TotalDueUpdate(phase[..n], i, p);
    }
  }

  function Outstanding(k: Kernel): nat {
    |k.cq| + TotalDue(k.phase)
  }

  function Occupied(entries: seq<Entry>): nat {
    if entries == [] then 0
    else Occupied(entries[..|entries| - 1]) + if entries[|entries| - 1].Held? then 1 else 0
  }

  lemma {:induction false} OccupiedUpdate(entries: seq<Entry>, i: nat, e: Entry)
    requires i < |entries|
    ensures Occupied(entries[i := e])
         == Occupied(entries) - (if entries[i].Held? then 1 else 0) + (if e.Held? then 1 else 0)
  {
    var n := |entries| - 1;
    if i == n {
      assert entries[i := e][..n] == entries[..n];
    } else {
      assert entries[i := e][..n] == entries[..n][i := e];
      OccupiedUpdate(entries[..n], i, e);
    }
  }

  // A commit reaches the wire at most once, and then with exactly the bytes committed.
  ghost predicate TxOk(tx: seq<bytes>, data: bytes) {
    tx == [] || tx == [data]
  }

  // What an occupied slot may look like. `hurt`: an error or a refused send was counted.
  ghost predicate HeldOk(p: Phase, posted: seq<Cqe>, e: Entry, tx: seq<bytes>, data: bytes, hurt: bool)
    requires e.Held?
  {
    match p
    case Queued(n, d) => n == e.len && d == e.id && posted == [] && tx == []
    case Sending(n, d) => n == e.len && d == e.id && posted == [] && tx == []
    case Notifying(n, d, ok) =>
      && n == e.len && d == e.id && TxOk(tx, data)
      && (ok ==> tx == [])
      && if posted == [] then ok || hurt
         else |posted| == 1 && posted[0].Sent? && posted[0].more && (posted[0].res >= 0) == ok && tx == []
    case Idle =>
      || (&& |posted| == 1 && posted[0].Sent? && !posted[0].more
          && tx == (if posted[0].res >= 0 then [data] else []))
      || (&& |posted| == 2 && posted[0].Sent? && posted[0].more && posted[1].Notif?
          && tx == (if posted[0].res >= 0 then [data] else []))
      || (|posted| == 1 && posted[0].Notif? && TxOk(tx, data) && (tx == [] ==> hurt))
  }

  ghost predicate SlotOk(e: Entry, slot: bytes, log: seq<bytes>, tx: seq<seq<bytes>>, p: Phase,
                         posted: seq<Cqe>, hurt: bool)
    requires |tx| == |log|
  {
    match e
    case Empty => p == Idle && posted == []
    case Held(len, id) =>
      && id < |log| && |log[id]| == len <= |slot| && slot[..len] == log[id]
      && HeldOk(p, posted, e, tx[id], log[id], hurt)
  }

  ghost predicate RingOk(entries: seq<Entry>, slab: seq<bytes>, log: seq<bytes>, hurt: bool, k: Kernel) {
    && |entries| == |slab| == |k.phase| && |k.tx| == |log|
    && (forall i :: 0 <= i < |entries| ==>
          SlotOk(entries[i], slab[i], log, k.tx, k.phase[i], For(k.cq, i), hurt))
    && (forall i, j :: 0 <= i < j < |entries| && entries[i].Held? && entries[j].Held? ==>
          entries[i].id != entries[j].id)
    && (forall c :: c in k.cq ==> c.slot < |entries|)
    && Distinct(k.queue)
    && (forall q :: q in k.queue ==> q < |k.phase| && k.phase[q].Queued?)
    && (forall i :: 0 <= i < |k.phase| && k.phase[i].Queued? ==> i in k.queue)
  }

  // No slot outside this set is ever read by the kernel again.
  ghost predicate Readable(k: Kernel, i: nat) {
    i < |k.phase| && k.phase[i] != Idle
  }

  // A slot other than the one a move is about stays in order: its completions and its
  // commit's transmissions are untouched.
  ghost predicate SameElsewhere(k: Kernel, k': Kernel, i: nat, id: nat) {
    && |k'.phase| == |k.phase| && |k'.tx| == |k.tx|
    && (forall j :: 0 <= j < |k.phase| && j != i ==> k'.phase[j] == k.phase[j] && For(k'.cq, j) == For(k.cq, j))
    && (forall d :: 0 <= d < |k.tx| && d != id ==> k'.tx[d] == k.tx[d])
  }

  lemma OthersKeep(entries: seq<Entry>, slab: seq<bytes>, log: seq<bytes>, hurt: bool, hurt': bool, k: Kernel, k': Kernel,
                   i: nat, j: nat)
    requires RingOk(entries, slab, log, hurt, k) && (hurt ==> hurt')
    requires i < |entries| && j < |entries| && i != j && entries[i].Held?
    requires SameElsewhere(k, k', i, entries[i].id)
    ensures SlotOk(entries[j], slab[j], log, k'.tx, k'.phase[j], For(k'.cq, j), hurt')
  {
    assert SlotOk(entries[j], slab[j], log, k.tx, k.phase[j], For(k.cq, j), hurt);
  }

  lemma PostElsewhere(k: Kernel, slab: seq<bytes>, e: Event)
    requires |slab| == |k.phase| && e.slot < |slab|
    requires e.Complete? ==> k.phase[e.slot].Sending?
    requires e.Notify? ==> k.phase[e.slot].Notifying?
    ensures SameElsewhere(k, Post(k, slab, e), e.slot, k.phase[e.slot].id)
  {
    var k' := Post(k, slab, e);
    ForAppendAll(k.cq, k'.cq[|k.cq|]);
  }

  // The completion rule takes a slot from one allowed situation to another.
  lemma PostSlot(entries: seq<Entry>, slab: seq<bytes>, log: seq<bytes>, hurt: bool, k: Kernel, e: Event)
    requires RingOk(entries, slab, log, hurt, k) && e.slot < |slab|
    requires e.Complete? ==> k.phase[e.slot].Sending?
    requires e.Notify? ==> k.phase[e.slot].Notifying?
    ensures var k' := Post(k, slab, e); var i := e.slot;
            entries[i].Held? && k.phase[i].id == entries[i].id && |k'.tx| == |log|
            && SlotOk(entries[i], slab[i], log, k'.tx, k'.phase[i], For(k'.cq, i), hurt)
  {
    var k' := Post(k, slab, e);
    var i := e.slot;
    assert SlotOk(entries[i], slab[i], log, k.tx, k.phase[i], For(k.cq, i), hurt);
    ForAppend(k.cq, k'.cq[|k.cq|], i);
  }

  // The completion rule keeps the pool consistent and never adds work.
  lemma PostKeeps(entries: seq<Entry>, slab: seq<bytes>, log: seq<bytes>, hurt: bool, k: Kernel, e: Event)
    requires RingOk(entries, slab, log, hurt, k)
    ensures RingOk(entries, slab, log, hurt, Post(k, slab, e))
    ensures Outstanding(Post(k, slab, e)) <= Outstanding(k)
  {
    hide SlotOk, HeldOk;
    var k' := Post(k, slab, e);
    if e.slot < |slab| && (if e.Complete? then k.phase[e.slot].Sending? else k.phase[e.slot].Notifying?) {
      PostSlot(entries, slab, log, hurt, k, e);
      PostElsewhere(k, slab, e);
      TotalDueUpdate(k.phase, e.slot, k'.phase[e.slot]);
      forall j | 0 <= j < |entries|
        ensures SlotOk(entries[j], slab[j], log, k'.tx, k'.phase[j], For(k'.cq, j), hurt)
      {
        if j != e.slot { OthersKeep(entries, slab, log, hurt, hurt, k, k', e.slot, j); }
      }
    }
  }

  ghost predicate InFlight(entries: seq<Entry>, id: nat) {
    exists i :: 0 <= i < |entries| && entries[i].Held? && entries[i].id == id
  }

  // Every commit so far: on the wire once and intact, or still in flight, or lost to a
  // failure that the statistics show.
  ghost predicate Settled(entries: seq<Entry>, log: seq<bytes>, hurt: bool, tx: seq<seq<bytes>>) {
    && |tx| == |log|
    && forall id :: 0 <= id < |log| ==>
         TxOk(tx[id], log[id]) && (tx[id] == [] ==> hurt || InFlight(entries, id))
  }

  lemma HeldTxOk(entries: seq<Entry>, slab: seq<bytes>, log: seq<bytes>, hurt: bool, k: Kernel, i: nat)
    requires RingOk(entries, slab, log, hurt, k) && i < |entries| && entries[i].Held?
    ensures entries[i].id < |log| && TxOk(k.tx[entries[i].id], log[entries[i].id])
  {
    assert SlotOk(entries[i], slab[i], log, k.tx, k.phase[i], For(k.cq, i), hurt);
  }

  lemma PostSettles(entries: seq<Entry>, slab: seq<bytes>, log: seq<bytes>, hurt: bool, k: Kernel, e: Event)
    requires RingOk(entries, slab, log, hurt, k) && Settled(entries, log, hurt, k.tx)
    ensures Settled(entries, log, hurt, Post(k, slab, e).tx)
  {
    var k' := Post(k, slab, e);
    if k'.tx != k.tx {
      PostKeeps(entries, slab, log, hurt, k, e);
      PostSlot(entries, slab, log, hurt, k, e);
      HeldTxOk(entries, slab, log, hurt, k', e.slot);
      PostElsewhere(k, slab, e);
    }
  }

  lemma SubmitSlot(entries: seq<Entry>, slab: seq<bytes>, log: seq<bytes>, hurt: bool, k: Kernel, j: nat)
    requires RingOk(entries, slab, log, hurt, k) && k.queue != [] && j < |entries|
    ensures SlotOk(entries[j], slab[j], log, k.tx, SubmitOne(k).phase[j], For(k.cq, j), hurt)
  {
    assert SlotOk(entries[j], slab[j], log, k.tx, k.phase[j], For(k.cq, j), hurt);
  }

  // Submission moves entries from the queue into the kernel and changes nothing else.
  lemma SubmitKeeps(entries: seq<Entry>, slab: seq<bytes>, log: seq<bytes>, hurt: bool, k: Kernel)
    requires RingOk(entries, slab, log, hurt, k) && k.queue != []
    ensures RingOk(entries, slab, log, hurt, SubmitOne(k))
    ensures Outstanding(SubmitOne(k)) == Outstanding(k)
  {
    hide SlotOk;
    var i := k.queue[0];
    var k' := SubmitOne(k);
    assert i in k.queue;
    TotalDueUpdate(k.phase, i, k'.phase[i]);
    forall j | 0 <= j < |entries|
      ensures SlotOk(entries[j], slab[j], log, k'.tx, k'.phase[j], For(k'.cq, j), hurt)
    {
      SubmitSlot(entries, slab, log, hurt, k, j);
    }
    SubmitQueue(k);
  }

  lemma SubmitQueue(k: Kernel)
    requires k.queue != [] && Distinct(k.queue)
    requires forall q :: q in k.queue ==> q < |k.phase| && k.phase[q].Queued?
    requires forall i :: 0 <= i < |k.phase| && k.phase[i].Queued? ==> i in k.queue
    ensures var k' := SubmitOne(k);
            && Distinct(k'.queue)
            && (forall q :: q in k'.queue ==> q < |k'.phase| && k'.phase[q].Queued?)
            && (forall i :: 0 <= i < |k'.phase| && k'.phase[i].Queued? ==> i in k'.queue)
  {
    var rest := k.queue[1..];
    assert k.queue == [k.queue[0]] + rest;
    forall q | q in rest ensures q != k.queue[0] && q in k.queue {}
  }

  // `commit` for slot i: the entry goes to the back of the queue, the owner into the table.
  function Enqueue(k: Kernel, i: nat, len: nat, id: nat): Kernel
    requires i < |k.phase|
  {
    Kernel(k.queue + [i], k.phase[i := Queued(len, id)], k.cq, k.tx + [[]])
  }

  lemma EnqueueKeeps(entries: seq<Entry>, slab: seq<bytes>, log: seq<bytes>, hurt: bool, k: Kernel,
                     i: nat, len: nat)
    requires RingOk(entries, slab, log, hurt, k) && Settled(entries, log, hurt, k.tx)
    requires i < |entries| && entries[i].Empty? && len <= |slab[i]|
    ensures var entries' := entries[i := Held(len, |log|)]; var log' := log + [slab[i][..len]];
            && RingOk(entries', slab, log', hurt, Enqueue(k, i, len, |log|))
            && Settled(entries', log', hurt, Enqueue(k, i, len, |log|).tx)
  {
    var entries' := entries[i := Held(len, |log|)];
    var log' := log + [slab[i][..len]];
    var k' := Enqueue(k, i, len, |log|);
    assert SlotOk(entries[i], slab[i], log, k.tx, k.phase[i], For(k.cq, i), hurt);
    forall j | 0 <= j < |entries|
      ensures SlotOk(entries'[j], slab[j], log', k'.tx, k'.phase[j], For(k'.cq, j), hurt)
      ensures entries[j].Held? ==> entries[j].id < |log|
    {
      assert SlotOk(entries[j], slab[j], log, k.tx, k.phase[j], For(k.cq, j), hurt);
    }
    EnqueueSettles(entries, log, hurt, k.tx, i, len, slab[i][..len]);
  }

  lemma EnqueueSettles(entries: seq<Entry>, log: seq<bytes>, hurt: bool, tx: seq<seq<bytes>>, i: nat, len: nat, data: bytes)
    requires Settled(entries, log, hurt, tx) && i < |entries| && entries[i].Empty?
    ensures Settled(entries[i := Held(len, |log|)], log + [data], hurt, tx + [[]])
  {
    var entries', log', tx' := entries[i := Held(len, |log|)], log + [data], tx + [[]];
    forall id | 0 <= id < |log'| && tx'[id] == [] && !hurt ensures InFlight(entries', id) {
      if id < |log| {
        var j :| 0 <= j < |entries| && entries[j].Held? && entries[j].id == id;
        assert entries'[j].Held?;
      } else {
        assert entries'[i].Held?;
      }
    }
  }

  // The results for which the datagram was never sent and `reap` sends a copy:
  // ENOMEM, ENOBUFS, EAGAIN, EINVAL, EOPNOTSUPP.
  predicate Refused(res: int) {
    res == -12 || res == -105 || res == -11 || res == -22 || res == -95
  }

  // A completion after which nothing more will come for the slot.
  predicate Final(c: Cqe) {
    c.Notif? || !c.more
  }

  // What reaping completion c does to the table and to the wire.
  function EntriesAfter(entries: seq<Entry>, c: Cqe): seq<Entry>
    requires c.slot < |entries|
  {
    if Final(c) then entries[c.slot := Empty] else entries
  }

  function TxAfter(entries: seq<Entry>, slab: seq<bytes>, tx: seq<seq<bytes>>, c: Cqe, copySent: bool): seq<seq<bytes>>
    requires c.slot < |entries| == |slab|
  {
    if c.Sent? && Refused(c.res) && copySent && entries[c.slot].Held?
    then Transmit(tx, entries[c.slot].id, Slice(slab[c.slot], entries[c.slot].len)) else tx
  }

  // The statistics after completion c; a refused send counts a fallback, and an error too when
  // the copy failed for good.
  function Scored(st: Stats, c: Cqe, copyErr: nat): Stats {
    if c.Notif? then st.(notifs := st.notifs + 1, copied := st.copied + if c.copied then 1 else 0)
    else st.(fallback := st.fallback + (if Refused(c.res) then 1 else 0),
             errors := st.errors + if Latched(c, copyErr) != 0 then 1 else 0)
  }

  // The errno that completion c latches if none is latched yet; 0 for none. EAGAIN, ENOBUFS
  // and ENOMEM for the copy are a lost datagram, not an error.
  function Latched(c: Cqe, copyErr: nat): int {
    if c.Notif? || c.res >= 0 then 0
    else if Refused(c.res) then (if copyErr in {0, 11, 105, 12} then 0 else copyErr)
    else -c.res
  }

  predicate NotSupported(c: Cqe) {
    c.Sent? && (c.res == -22 || c.res == -95)
  }

  lemma NotifScores(st: Stats, c: Cqe)
    requires c.Notif?
    ensures Scored(st, c, 1) == st.(notifs := st.notifs + 1, copied := st.copied + if c.copied then 1 else 0)
    ensures Latched(c, 1) == 0 && !NotSupported(c)
  {
  }

  // A completion hurts exactly when it is a send that failed or was refused.
  lemma ScoredHurts(st: Stats, c: Cqe, copyErr: nat)
    ensures var st' := Scored(st, c, copyErr);
            && st'.sends == st.sends && st.errors <= st'.errors && st.fallback <= st'.fallback
            && (st'.errors + st'.fallback > 0 <==> st.errors + st.fallback > 0 || (c.Sent? && c.res < 0))
  {
  }

  lemma TxAfterNotif(entries: seq<Entry>, slab: seq<bytes>, tx: seq<seq<bytes>>, c: Cqe)
    requires c.slot < |entries| == |slab| && c.Notif?
    ensures forall copySent :: TxAfter(entries, slab, tx, c, copySent) == tx
  {
  }

  lemma ReapSlot(entries: seq<Entry>, slab: seq<bytes>, log: seq<bytes>, hurt: bool, k: Kernel, copySent: bool)
    requires RingOk(entries, slab, log, hurt, k) && k.cq != []
    ensures var c := k.cq[0];
            var hurt' := hurt || (c.Sent? && c.res < 0);
            var tx' := TxAfter(entries, slab, k.tx, c, copySent);
            && c.slot < |entries| && entries[c.slot].Held? && |tx'| == |log|
            && SlotOk(EntriesAfter(entries, c)[c.slot], slab[c.slot], log, tx', k.phase[c.slot],
                      For(k.cq[1..], c.slot), hurt')
            && var id := entries[c.slot].id;
            && id < |log| && TxOk(tx'[id], log[id]) && (Final(c) && tx'[id] == [] ==> hurt')
            && (Final(c) ==> k.phase[c.slot] == Idle)
  {
    var c := k.cq[0];
    assert c in k.cq;
    var i := c.slot;
    assert SlotOk(entries[i], slab[i], log, k.tx, k.phase[i], For(k.cq, i), hurt);
    assert For(k.cq, i) == [c] + For(k.cq[1..], i);
  }

  // Reaping the oldest completion keeps the pool consistent; a final one ends the
  // kernel's claim on the slot.
  lemma ReapKeeps(entries: seq<Entry>, slab: seq<bytes>, log: seq<bytes>, hurt: bool, hurt': bool,
                  k: Kernel, copySent: bool)
    requires RingOk(entries, slab, log, hurt, k) && Settled(entries, log, hurt, k.tx) && k.cq != []
    requires hurt' == (hurt || (k.cq[0].Sent? && k.cq[0].res < 0))
    ensures var c := k.cq[0];
            && c.slot < |entries| && entries[c.slot].Held?
            && (Final(c) ==> k.phase[c.slot] == Idle)
            && var k' := k.(cq := k.cq[1..], tx := TxAfter(entries, slab, k.tx, c, copySent));
            && RingOk(EntriesAfter(entries, c), slab, log, hurt', k')
            && Settled(EntriesAfter(entries, c), log, hurt', k'.tx)
            && Outstanding(k') == Outstanding(k) - 1
  {
    hide SlotOk, HeldOk, Settled, TxOk;
    var c := k.cq[0];
    assert c in k.cq;
    var tx' := TxAfter(entries, slab, k.tx, c, copySent);
    var k' := k.(cq := k.cq[1..], tx := tx');
    var entries' := EntriesAfter(entries, c);
    ReapSlot(entries, slab, log, hurt, k, copySent);
    var id := entries[c.slot].id;
    forall j | 0 <= j < |entries| && j != c.slot
      ensures SlotOk(entries'[j], slab[j], log, tx', k'.phase[j], For(k'.cq, j), hurt')
    {
      OthersKeep(entries, slab, log, hurt, hurt', k, k', c.slot, j);
    }
    ReapSettles(entries, log, hurt, hurt', k.tx, tx', c);
  }

  lemma ReapSettles(entries: seq<Entry>, log: seq<bytes>, hurt: bool, hurt': bool, tx: seq<seq<bytes>>, tx': seq<seq<bytes>>, c: Cqe)
    requires Settled(entries, log, hurt, tx) && c.slot < |entries| && entries[c.slot].Held? && (hurt ==> hurt')
    requires |tx'| == |tx| && forall d :: 0 <= d < |tx| && d != entries[c.slot].id ==> tx'[d] == tx[d]
    requires var id := entries[c.slot].id; id < |log| && TxOk(tx'[id], log[id]) && (Final(c) && tx'[id] == [] ==> hurt')
    ensures Settled(EntriesAfter(entries, c), log, hurt', tx')
  {
    hide TxOk;
    var entries' := EntriesAfter(entries, c);
    var id := entries[c.slot].id;
    forall d | 0 <= d < |log| && d != id && tx'[d] == [] && !hurt' ensures InFlight(entries', d) {
      var j :| 0 <= j < |entries| && entries[j].Held? && entries[j].id == d;
      assert entries'[j] == entries[j];
    }
    if !Final(c) && tx'[id] == [] {
      assert entries'[c.slot].Held?;
      assert InFlight(entries', id);
    }
  }

  datatype ReserveResult =
    | Slot(index: nat)
    | NoSlot            // nullptr: nothing free and an error is latched
    | Hung              // the wait for a completion never returns: no slot was ever submitted
    | LostWakeup        // nor does it here, although a slot is free by now

  datatype CommitResult = Committed | LatchedError | NothingReserved | BadLength

  datatype WaitResult = Ready | Interrupted | NeverReady

  // What has happened at the ring: io_uring_submit and its result, io_uring_wait_cqe and its,
  // a timed wait, a completion that was acted on (with the errno of sending the copy), and a
  // peek that found no completion.
  datatype Happening =
    | Submitted(rv: int)
    | Waited(r: WaitResult)
    | Slept
    | Reaped(c: Cqe, copyErr: nat)
    | Emptied

  // What the accessors must say after a history.
  datatype Account = Account(err: int, unsupported: bool, stats: Stats)

  // The error is the first one: a submit that failed for good, or a failed send or copy.
  function AccountOf(events: seq<Happening>, sends: nat): Account {
    if events == [] then Account(0, false, Stats(sends, 0, 0, 0, 0))
    else
      var a := AccountOf(events[..|events| - 1], sends);
      match events[|events| - 1]
      case Submitted(rv) => a.(err := if a.err == 0 && Hard(rv) then -rv else a.err)
      case Reaped(c, copyErr) =>
        Account(if a.err == 0 then Latched(c, copyErr) else a.err, a.unsupported || NotSupported(c), Scored(a.stats, c, copyErr))
      case _ => a
  }

  // EINTR and EAGAIN are retried.
  predicate Hard(rv: int) {
    rv < 0 && rv != -4 && rv != -11
  }

  lemma AccountMore(events: seq<Happening>, h: Happening, sends: nat)
    ensures var a := AccountOf(events, sends);
            AccountOf(events + [h], sends)
            == match h
               case Submitted(rv) => a.(err := if a.err == 0 && Hard(rv) then -rv else a.err)
               case Reaped(c, copyErr) =>
                 Account(if a.err == 0 then Latched(c, copyErr) else a.err, a.unsupported || NotSupported(c), Scored(a.stats, c, copyErr))
               case _ => a
  {
    assert (events + [h])[..|events|] == events;
  }

  lemma {:induction false} AccountSends(events: seq<Happening>, sends: nat, sends': nat)
    ensures AccountOf(events, sends') == AccountOf(events, sends).(stats := AccountOf(events, sends).stats.(sends := sends'))
  {
    if events != [] { AccountSends(events[..|events| - 1], sends, sends'); }
  }

  function Count(events: seq<Happening>, which: Happening -> bool): nat {
    if events == [] then 0 else Count(events[..|events| - 1], which) + if which(events[|events| - 1]) then 1 else 0
  }

  predicate IsNotif(h: Happening) {
    h.Reaped? && h.c.Notif?
  }

  predicate IsCopied(h: Happening) {
    IsNotif(h) && h.c.copied
  }

  // A datagram that the kernel would not send; ENOMEM, ENOBUFS, EAGAIN, EINVAL, EOPNOTSUPP.
  predicate IsRefusal(h: Happening) {
    h.Reaped? && h.c.Sent? && h.c.res in {-12, -105, -11, -22, -95}
  }

  // A send that failed for good: any other error of its own, or of its copy one that is not
  // EAGAIN, ENOBUFS or ENOMEM.
  predicate IsLoss(h: Happening) {
    h.Reaped? && h.c.Sent? && h.c.res < 0 && if IsRefusal(h) then h.copyErr !in {0, 11, 105, 12} else true
  }

  // The errno that an event is an error with, if it is one.
  function ErrnoOf(h: Happening): int {
    if h.Submitted? && h.rv < 0 && h.rv != -4 && h.rv != -11 then -h.rv
    else if IsLoss(h) then (if IsRefusal(h) then h.copyErr else -h.c.res)
    else 0
  }

  // The statistics count what happened; the error is that of the first event which is one; the
  // kernel is known not to support SEND_ZC from the first EINVAL or EOPNOTSUPP on.
  lemma {:induction false} AccountMeans(events: seq<Happening>, sends: nat)
    ensures var a := AccountOf(events, sends);
            && a.stats.sends == sends
            && a.stats.notifs == Count(events, IsNotif)
            && a.stats.copied == Count(events, IsCopied)
            && a.stats.fallback == Count(events, IsRefusal)
            && a.stats.errors == Count(events, IsLoss)
            && (a.unsupported <==> exists i :: 0 <= i < |events| && IsUnsupported(events[i]))
            && if a.err == 0 then NoError(events, |events|) else exists i :: FirstError(events, i, a.err)
  {
    hide AccountOf, ErrnoOf, IsNotif, IsCopied, IsRefusal, IsLoss, IsUnsupported, NoError, FirstError;
    if events == [] {
      AccountNone(sends);
      NoErrorYet(events);
    } else {
      var n := |events| - 1;
      var before, a := events[..n], AccountOf(events[..n], sends);
      AccountMeans(before, sends);
      AccountLast(events, sends);
      if i :| 0 <= i < n && IsUnsupported(before[i]) { assert IsUnsupported(events[i]); }
      if i :| 0 <= i < |events| && IsUnsupported(events[i]) && i < n { assert IsUnsupported(before[i]); }
      if a.err != 0 {
        var i :| FirstError(before, i, a.err);
        ErrorStays(events, i, a.err);
      } else {
        ErrorNow(events);
      }
    }
  }

  lemma NoErrorYet(events: seq<Happening>)
    requires events == []
    ensures NoError(events, 0)
  {
  }

  lemma ErrorStays(events: seq<Happening>, i: nat, err: int)
    requires events != [] && FirstError(events[..|events| - 1], i, err)
    ensures FirstError(events, i, err)
  {
    hide ErrnoOf;
    var before := events[..|events| - 1];
    forall j | 0 <= j < i ensures ErrnoOf(events[j]) == 0 { assert events[j] == before[j]; }
  }

  lemma ErrorNow(events: seq<Happening>)
    requires events != [] && NoError(events[..|events| - 1], |events| - 1)
    ensures var e := ErrnoOf(events[|events| - 1]);
            if e == 0 then NoError(events, |events|) else FirstError(events, |events| - 1, e)
  {
    hide ErrnoOf;
    var before := events[..|events| - 1];
    forall j | 0 <= j < |before| ensures ErrnoOf(events[j]) == 0 { assert events[j] == before[j]; }
  }

  predicate IsUnsupported(h: Happening) {
    h.Reaped? && h.c.Sent? && h.c.res in {-22, -95}
  }

  ghost predicate NoError(events: seq<Happening>, n: nat) {
    n <= |events| && forall j :: 0 <= j < n ==> ErrnoOf(events[j]) == 0
  }

  ghost predicate FirstError(events: seq<Happening>, i: nat, err: int) {
    i < |events| && ErrnoOf(events[i]) == err && NoError(events, i)
  }

  lemma AccountNone(sends: nat)
    ensures AccountOf([], sends) == Account(0, false, Stats(sends, 0, 0, 0, 0))
  {
  }

  lemma AccountLast(events: seq<Happening>, sends: nat)
    requires events != []
    ensures var a, b, h := AccountOf(events[..|events| - 1], sends), AccountOf(events, sends), events[|events| - 1];
            && b.stats.sends == a.stats.sends
            && b.stats.notifs == a.stats.notifs + (if IsNotif(h) then 1 else 0)
            && b.stats.copied == a.stats.copied + (if IsCopied(h) then 1 else 0)
            && b.stats.fallback == a.stats.fallback + (if IsRefusal(h) then 1 else 0)
            && b.stats.errors == a.stats.errors + (if IsLoss(h) then 1 else 0)
            && (b.unsupported <==> a.unsupported || IsUnsupported(h))
            && b.err == if a.err == 0 then ErrnoOf(h) else a.err
  {
  }

  // From a to b only submits, each but the last with a positive count.
  ghost predicate Handed(events: seq<Happening>, a: nat, b: nat) {
    a <= b <= |events| && forall i :: a <= i < b ==> events[i].Submitted? && (i < b - 1 ==> events[i].rv > 0)
  }

  // From a to b only completions taken, until none was left.
  ghost predicate Collected(events: seq<Happening>, a: nat, b: nat) {
    a < b <= |events| && events[b - 1].Emptied? && forall i :: a <= i < b - 1 ==> events[i].Reaped?
  }

  // A submit failed, and later something was submitted again.
  ghost predicate TriedAgain(events: seq<Happening>, a: nat) {
    exists i, j :: a <= i < j < |events| && events[i].Submitted? && events[i].rv <= 0 && events[j].Submitted?
  }

  // The last thing done at the ring was to wait for a completion and take what there was.
  ghost predicate EndsWithWait(events: seq<Happening>, a: nat) {
    exists i :: a <= i < |events| && events[i].Waited? && forall j :: i < j < |events| ==> events[j].Reaped? || events[j].Emptied?
  }

  // A timed wait is always followed by a flush.
  ghost predicate NeverSleepsTwice(events: seq<Happening>, a: nat) {
    forall i :: a <= i < |events| && events[i].Slept? ==> i + 1 < |events| && !events[i + 1].Slept?
  }

  // Free, reserved and in flight are exclusive and together are all the slots.
  ghost predicate FreeOk(free: seq<nat>, inflight: seq<Entry>, reserved: int) {
    && -1 <= reserved < |inflight|
    && (reserved >= 0 ==> inflight[reserved].Empty? && reserved !in free)
    && Distinct(free)
    && (forall i :: i in free ==> i < |inflight| && inflight[i].Empty?)
    && (forall i :: 0 <= i < |inflight| && inflight[i].Empty? && i != reserved ==> i in free)
    && |free| + Occupied(inflight) + (if reserved >= 0 then 1 else 0) == |inflight|
  }

  lemma DropKeepsFree(free: seq<nat>, inflight: seq<Entry>, reserved: int, i: nat)
    requires FreeOk(free, inflight, reserved) && i < |inflight| && inflight[i].Held?
    ensures FreeOk(free + [i], inflight[i := Empty], reserved)
    ensures Occupied(inflight[i := Empty]) == Occupied(inflight) - 1
  {
    OccupiedUpdate(inflight, i, Empty);
    assert forall j :: j in free ==> j in free + [i];
  }

  lemma TakeKeepsFree(free: seq<nat>, inflight: seq<Entry>)
    requires FreeOk(free, inflight, -1) && free != []
    ensures FreeOk(free[..|free| - 1], inflight, free[|free| - 1])
  {
    var last := free[|free| - 1];
    assert free == free[..|free| - 1] + [last];
    assert last in free;
    var rest := free[..|free| - 1];
    assert forall i :: i in rest ==> i in free;
    assert last !in rest;
    assert inflight[last].Empty?;
    assert Distinct(rest);
    assert (forall i :: i in rest ==> i < |inflight| && inflight[i].Empty?);
    forall i | 0 <= i < |inflight| && inflight[i].Empty? && i != last ensures i in free[..|free| - 1] {
      assert i in free;
    }
  }

  lemma HoldKeepsFree(free: seq<nat>, inflight: seq<Entry>, i: nat, e: Entry)
    requires FreeOk(free, inflight, i) && e.Held?
    ensures FreeOk(free, inflight[i := e], -1)
    ensures Occupied(inflight[i := e]) == Occupied(inflight) + 1
  {
    OccupiedUpdate(inflight, i, e);
  }

  class ZcEgress {
    const slots: nat
    const slotSize: nat
    var slab: seq<bytes>
    var free: seq<nat>
    var inflight: seq<Entry>
    var reserved: int
    var err: int
    var unsupported: bool
    var stats: Stats
    var ring: Kernel
    var clock: nat
    var signals: nat  // how many more signals will interrupt a wait
    // History: the bytes of every commit, the slots retired by a final completion, and what
    // has happened at the ring.
    ghost var log: seq<bytes>
    ghost var retired: nat
    ghost var events: seq<Happening>

    ghost predicate Hurt()
      reads `stats
    {
      stats.errors + stats.fallback > 0
    }

    ghost predicate PoolOk()
      reads `slab, `free, `inflight, `reserved, `stats, `ring, `log, `retired
    {
      && slots > 0 && |inflight| == |slab| == |ring.phase| == slots
      && (forall i :: 0 <= i < slots ==> |slab[i]| == slotSize)
      && FreeOk(free, inflight, reserved)
      && stats.sends == |log| == Occupied(inflight) + retired
    }

    // Error, flag and statistics are what the history makes them.
    ghost predicate Accounted()
      reads `err, `unsupported, `stats, `events
    {
      Account(err, unsupported, stats) == AccountOf(events, stats.sends)
    }

    ghost predicate Sound()
      reads `slab, `free, `inflight, `reserved, `stats, `ring, `log, `retired
    {
      && PoolOk()
      && RingOk(inflight, slab, log, Hurt(), ring)
      && Settled(inflight, log, Hurt(), ring.tx)
    }

    ghost predicate Valid()
      reads this
    {
      Sound() && Accounted()
    }

    ghost predicate KernelOwesNothing()
      reads this
    {
      forall i :: 0 <= i < |ring.phase| ==> ring.phase[i].Idle? || ring.phase[i].Queued?
    }

    function Inflight(): int
      reads this
    {
      slots - |free| - (if reserved >= 0 then 1 else 0)
    }

    // What a call into the ring may have changed while it ran, apart from the caller's
    // reserved slot, the slot bytes and the commit history, which it never touches.
    twostate predicate RingCall()
      reads this
    {
      && slab == old(slab) && reserved == old(reserved) && log == old(log)
      && stats.sends == old(stats.sends)
      && old(|free|) <= |free|
      && (old(err) != 0 ==> err == old(err))
      && (old(stats.errors) <= stats.errors) && (old(stats.fallback) <= stats.fallback)
      && Outstanding(ring) <= old(Outstanding(ring))
      && |ring.queue| <= old(|ring.queue|)
      && signals <= old(signals)
      && clock == old(clock) && old(events) <= events
    }

    constructor (slotSize: nat, slots: nat, signals: nat)
      requires slots > 0 && slotSize > 0
      ensures Valid() && this.slots == slots && this.slotSize == slotSize
      ensures |free| == slots && reserved == -1 && err == 0 && log == [] && stats == Stats(0, 0, 0, 0, 0)
      ensures forall k :: 0 <= k < slots ==> free[k] == slots - 1 - k
      ensures ring.queue == [] && ring.cq == [] && forall k :: 0 <= k < slots ==> ring.phase[k] == Idle
      ensures events == []
    {
      this.slots, this.slotSize := slots, slotSize;
      this.signals, this.clock, this.log, this.retired, this.events := signals, 0, [], 0, [];
      slab := seq(slots, _ => seq(slotSize, _ => 0));
      inflight := seq(slots, _ => Empty);
      ring := Kernel([], seq(slots, _ => Idle), [], []);
      reserved, err, unsupported := -1, 0, false;
      stats := Stats(0, 0, 0, 0, 0);
      free := seq(slots, k requires 0 <= k < slots => slots - 1 - k);
      new;
      AllEmpty(inflight);
      forall i | 0 <= i < slots ensures i in free { assert free[slots - 1 - i] == i; }
    }

    // Construction fails (an exception) for an empty pool or when the ring cannot be created.
    static method Open(slotSize: nat, slots: nat, signals: nat, ringFails: bool) returns (r: ZcEgress?)
      ensures r == null <==> slots == 0 || slotSize == 0 || ringFails
      ensures r != null ==> fresh(r) && r.Valid() && r.slots == slots && r.slotSize == slotSize && r.reserved == -1 && r.log == []
    {
      if slots == 0 || slotSize == 0 { return null; }
      if ringFails { return null; }
      r := new ZcEgress(slotSize, slots, signals);
    }

    // Whatever the kernel may still read is owned by the table, is neither free nor reserved,
    // and holds exactly the bytes that were committed.
    lemma KernelReadsCommitted(i: nat)
      requires Valid() && Readable(ring, i)
      ensures i < slots && inflight[i].Held? && i !in free && i != reserved
      ensures inflight[i].id < |log| && Slice(slab[i], inflight[i].len) == log[inflight[i].id]
      ensures ring.phase[i].len == inflight[i].len && ring.phase[i].id == inflight[i].id
    {
      assert SlotOk(inflight[i], slab[i], log, ring.tx, ring.phase[i], For(ring.cq, i), Hurt());
    }

    // The kernel makes any number of moves of any kind.
    method KernelRuns()
      requires Sound()
      modifies `ring
      ensures Sound() && ring.queue == old(ring.queue)
      ensures Outstanding(ring) <= old(Outstanding(ring))
      ensures old(|ring.cq|) <= |ring.cq| && ring.cq[..old(|ring.cq|)] == old(ring.cq)
    {
      hide RingOk, Settled;
      var moves: nat :| true;
      while moves > 0
        invariant Sound() && ring.queue == old(ring.queue)
        invariant Outstanding(ring) <= old(Outstanding(ring))
        invariant old(|ring.cq|) <= |ring.cq| && ring.cq[..old(|ring.cq|)] == old(ring.cq)
      {
        var e: Event :| true;
        PostKeeps(inflight, slab, log, Hurt(), ring, e);
        PostSettles(inflight, slab, log, Hurt(), ring, e);
        ring := Post(ring, slab, e);
        moves := moves - 1;
      }
    }

    // io_uring_submit: a positive count of entries taken, or an error and none taken.
    method Submit() returns (rv: int)
      requires Valid() && ring.queue != []
      modifies `ring, `events
      ensures Sound() && events == old(events) + [Submitted(rv)]
      ensures Outstanding(ring) <= old(Outstanding(ring))
      ensures rv > 0 ==> rv <= old(|ring.queue|) && ring.queue == old(ring.queue)[rv..]
      ensures rv <= 0 ==> ring.queue == old(ring.queue)
    {
      hide RingOk, Settled;
      rv :| true;
      if rv > |ring.queue| { rv := |ring.queue|; }
      var k := 0;
      while k < rv
        invariant Sound() && Outstanding(ring) <= old(Outstanding(ring))
        invariant 0 <= k && (rv > 0 ==> k <= rv <= old(|ring.queue|)) && (rv <= 0 ==> k == 0)
        invariant ring.queue == old(ring.queue)[k..] && events == old(events)
      {
        SubmitKeeps(inflight, slab, log, Hurt(), ring);
        ring := SubmitOne(ring);
        k := k + 1;
      }
      KernelRuns();
      events := events + [Submitted(rv)];
    }

    // A wait for a completion. With nothing posted, nothing owed and no signal it never ends.
    method Await() returns (r: WaitResult)
      requires Sound()
      modifies `ring, `signals
      ensures Sound() && ring.queue == old(ring.queue)
      ensures Outstanding(ring) <= old(Outstanding(ring)) && signals <= old(signals)
      ensures r == Ready ==> ring.cq != []
      ensures r == Interrupted ==> signals < old(signals)
      ensures r == NeverReady ==> ring.cq == [] && KernelOwesNothing()
    {
      hide RingOk, Settled;
      KernelRuns();
      if ring.cq != [] { return Ready; }
      if signals > 0 {
        var interrupt: bool :| true;
        if interrupt { signals := signals - 1; return Interrupted; }
      }
      if i :| 0 <= i < slots && (ring.phase[i].Sending? || ring.phase[i].Notifying?) {
        var res: int, flag: bool :| true;
        var e := if ring.phase[i].Sending? then Complete(i, res, flag) else Notify(i, flag);
        PostKeeps(inflight, slab, log, Hurt(), ring, e);
        PostSettles(inflight, slab, log, Hurt(), ring, e);
        ring := Post(ring, slab, e);
        return Ready;
      }
      if signals > 0 { signals := signals - 1; return Interrupted; }
      return NeverReady;
    }

    // io_uring_wait_cqe.
    method WaitCqe() returns (r: WaitResult)
      requires Valid()
      modifies `ring, `signals, `events
      ensures Valid() && ring.queue == old(ring.queue) && events == old(events) + [Waited(r)]
      ensures Outstanding(ring) <= old(Outstanding(ring)) && signals <= old(signals)
      ensures r == Ready ==> ring.cq != []
      ensures r == Interrupted ==> signals < old(signals)
      ensures r == NeverReady ==> ring.cq == [] && KernelOwesNothing()
    {
      hide AccountOf, Outstanding, RingOk, Settled, ZcEgress.PoolOk;
      r := Await();
      Note(Waited(r));
    }

    // What the history records does not change the account, unless it is a submit that failed
    // or a completion taken.
    ghost method Note(h: Happening)
      requires Valid() && (h.Waited? || h.Slept? || h.Emptied? || (h.Submitted? && !Hard(h.rv)))
      modifies `events
      ensures Valid() && events == old(events) + [h]
    {
      hide AccountOf, RingOk, Settled, ZcEgress.PoolOk;
      AccountMore(events, h, stats.sends);
      events := events + [h];
    }

    // inflight_[i] = Buffer{}: destroying an owner runs its release, which frees the slot.
    method DropOwner(i: nat)
      requires i < |inflight|
      modifies `inflight, `free
      ensures inflight == old(inflight)[i := Empty]
      ensures free == if old(inflight)[i].Held? then old(free) + [i] else old(free)
    {
      if inflight[i].Held? { free := free + [i]; }
      inflight := inflight[i := Empty];
    }

    // ::send of the owner's bytes: 0 or an errno.
    method SendCopy(i: nat) returns (errno: nat)
      requires i < |inflight| == |slab|
      modifies `ring
      ensures ring == old(ring).(tx := if errno == 0 && inflight[i].Held?
                                       then Transmit(old(ring.tx), inflight[i].id, Slice(slab[i], inflight[i].len))
                                       else old(ring.tx))
    {
      errno :| true;
      if errno == 0 && inflight[i].Held? {
        ring := ring.(tx := Transmit(ring.tx, inflight[i].id, Slice(slab[i], inflight[i].len)));
      }
    }

    // The accounting of a send completion, and the copy for a refused one. `copyErr` is what
    // sending the copy gave: 0 or an errno.
    method ScoreSent(c: Cqe) returns (ghost copyErr: nat)
      requires c.Sent? && c.slot < |inflight| == |slab|
      modifies `stats, `err, `unsupported, `ring
      ensures ring == old(ring).(tx := TxAfter(inflight, slab, old(ring).tx, c, copyErr == 0))
      ensures stats == Scored(old(stats), c, copyErr)
      ensures err == if old(err) == 0 then Latched(c, copyErr) else old(err)
      ensures unsupported == (old(unsupported) || NotSupported(c))
    {
      copyErr := 1;
      if c.res == -22 || c.res == -95 { unsupported := true; }
      if Refused(c.res) {
        stats := stats.(fallback := stats.fallback + 1);
        var errno := SendCopy(c.slot);
        copyErr := errno;
        if errno != 0 && errno != 11 && errno != 105 && errno != 12 {
          stats := stats.(errors := stats.errors + 1);
          if err == 0 { err := errno; }
        }
      } else if c.res < 0 {
        stats := stats.(errors := stats.errors + 1);
        if err == 0 { err := -c.res; }
      }
    }

    // The body of reap's loop: take the oldest completion and act on it.
    method ReapOne() returns (ghost copyErr: nat)
      requires Valid() && ring.cq != []
      modifies this
      ensures Valid() && RingCall() && signals == old(signals)
      ensures Outstanding(ring) == old(Outstanding(ring)) - 1
      ensures var c := old(ring.cq)[0];
              && c.slot < slots && old(inflight)[c.slot].Held?
              && inflight == EntriesAfter(old(inflight), c)
              && ring == old(ring).(cq := old(ring.cq)[1..], tx := TxAfter(old(inflight), slab, old(ring.tx), c, copyErr == 0))
              && free == (if Final(c) then old(free) + [c.slot] else old(free))
              && (Final(c) ==> !Readable(ring, c.slot))
      ensures var c := old(ring.cq)[0];
              && stats == Scored(old(stats), c, copyErr)
              && err == (if old(err) == 0 then Latched(c, copyErr) else old(err))
              && unsupported == (old(unsupported) || NotSupported(c))
      ensures events == old(events) + [Reaped(old(ring.cq)[0], copyErr)]
    {
      hide RingOk, Settled, PoolOk, TxAfter, Outstanding, Scored, Latched, NotSupported, Final, EntriesAfter, AccountOf, Readable;
      ghost var was, c, sends := events, ring.cq[0], stats.sends;
      copyErr := ActOn();
      AccountMore(was, Reaped(c, copyErr), sends);
      events := events + [Reaped(c, copyErr)];
    }

    // The statements of that body.
    method ActOn() returns (ghost copyErr: nat)
      requires Sound() && ring.cq != []
      modifies `ring, `inflight, `free, `stats, `err, `unsupported, `retired
      ensures Sound() && stats.sends == old(stats.sends)
      ensures old(stats.errors) <= stats.errors && old(stats.fallback) <= stats.fallback && old(|free|) <= |free|
      ensures Outstanding(ring) == old(Outstanding(ring)) - 1
      ensures var c := old(ring.cq)[0];
              && c.slot < slots && old(inflight)[c.slot].Held?
              && inflight == EntriesAfter(old(inflight), c)
              && ring == old(ring).(cq := old(ring.cq)[1..], tx := TxAfter(old(inflight), slab, old(ring.tx), c, copyErr == 0))
              && free == (if Final(c) then old(free) + [c.slot] else old(free))
              && (Final(c) ==> !Readable(ring, c.slot))
      ensures var c := old(ring.cq)[0];
              && stats == Scored(old(stats), c, copyErr)
              && err == (if old(err) == 0 then Latched(c, copyErr) else old(err))
              && unsupported == (old(unsupported) || NotSupported(c))
    {
      hide RingOk, Settled, TxAfter, Outstanding, FreeOk, Occupied, Scored, Latched, NotSupported, Final, EntriesAfter;
      ghost var hurt := Hurt();
      ghost var k := ring;
      var c := ring.cq[0];
      ReapKeeps(inflight, slab, log, hurt, hurt || (c.Sent? && c.res < 0), k, false);
      ring := ring.(cq := ring.cq[1..]);
      copyErr := 1;
      if c.Notif? {
        stats := stats.(notifs := stats.notifs + 1, copied := stats.copied + if c.copied then 1 else 0);
        NotifScores(old(stats), c);
        TxAfterNotif(inflight, slab, k.tx, c);
      } else {
        copyErr := ScoreSent(c);
      }
      ScoredHurts(old(stats), c, copyErr);
      ReapKeeps(inflight, slab, log, hurt, Hurt(), k, copyErr == 0);
      Retire(c);
    }

    // After a final completion the owner is dropped, which frees the slot.
    method Retire(c: Cqe)
      requires PoolOk() && c.slot < slots && inflight[c.slot].Held?
      modifies `inflight, `free, `retired
      ensures PoolOk()
      ensures inflight == EntriesAfter(old(inflight), c)
      ensures free == if Final(c) then old(free) + [c.slot] else old(free)
    {
      hide Occupied, FreeOk;
      if Final(c) {
        DropKeepsFree(free, inflight, reserved, c.slot);
        retired := retired + 1;
        DropOwner(c.slot);
      }
    }

    // One round of reap's loop; the kernel may post more before the next look.
    method ReapStep()
      requires Valid() && ring.cq != []
      modifies this
      ensures Valid() && RingCall() && ring.queue == old(ring.queue)
      ensures Outstanding(ring) < old(Outstanding(ring))
      ensures |events| == |old(events)| + 1 && events[|old(events)|].Reaped? && signals == old(signals)
    {
      hide RingOk, Settled, PoolOk, Outstanding, EntriesAfter, Final, Refused, Readable, Scored, Latched, TxAfter, AccountOf;
      var _ := ReapOne();
      KernelRuns();
    }

    // The loop of reap: take completions until a peek finds none.
    method Collect()
      requires Valid()
      modifies this
      ensures Valid() && RingCall() && ring.queue == old(ring.queue) && signals == old(signals)
      ensures ring.cq == [] && Collected(events, |old(events)|, |events|)
      ensures old(ring.cq) != [] ==> Outstanding(ring) < old(Outstanding(ring))
    {
      hide RingOk, Settled, PoolOk, Outstanding, EntriesAfter, Final, Refused, Readable, AccountOf;
      ghost var start := ring;
      while ring.cq != []
        invariant Valid() && RingCall() && ring.queue == old(ring.queue) && signals == old(signals)
        invariant ring == start || Outstanding(ring) < Outstanding(start)
        invariant forall i :: |old(events)| <= i < |events| ==> events[i].Reaped?
        decreases Outstanding(ring)
      {
        ReapStep();
      }
      Note(Emptied);
    }

    // reap: takes every completion there is; `wait` blocks for one first. False when that wait
    // never returns. `at` is where the history records the wait, after the flush of whatever
    // was still in the queue, whose submits are there up to `m`.
    method Reap(wait: bool) returns (ok: bool, ghost m: nat, ghost at: nat)
      requires Valid() && (wait ==> free == [])
      modifies this
      ensures Valid() && RingCall()
      ensures !ok ==> wait && ring.cq == [] && KernelOwesNothing()
      ensures !ok && old(ring.queue) == [] ==> Occupied(old(inflight)) == 0
      ensures ok && wait ==> signals < old(signals) || Outstanding(ring) < old(Outstanding(ring))
      ensures !wait ==> ring.queue == old(ring.queue) && signals == old(signals) && ring.cq == [] && Collected(events, |old(events)|, |events|)
      ensures wait ==>
                && |old(events)| <= at < |events| && events[at] == Waited(if !ok then NeverReady else if |events| == at + 1 then Interrupted else Ready)
                && (old(ring.queue) == [] ==> at == |old(events)|)
                && (old(ring.queue) != [] ==> m > |old(events)| && Handed(events, |old(events)|, m) && Collected(events, m, at))
      ensures wait && |events| > at + 1 ==> ring.cq == [] && Collected(events, at + 1, |events|)
      decreases if wait then 2 else 0
    {
      hide RingOk, Settled, PoolOk, Outstanding, EntriesAfter, Final, Refused, Readable, AccountOf;
      m, at := |events|, |events|;
      if wait {
        if |ring.queue| > 0 { m := Flush(); }
        at := |events|;
        var w := WaitCqe();
        if w == NeverReady { AllStuck(); }
        if w != Ready { return w == Interrupted, m, at; }
      } else {
        KernelRuns();
      }
      Collect();
      return true, m, at;
    }

    // flush: submit by ring state until the queue is empty or a submit fails, then reap. Its
    // submits are in the history up to `m`. What is left unsubmitted is left for the next
    // flush after a transient failure; any other failure is latched.
    method Flush() returns (ghost m: nat)
      requires Valid()
      modifies this
      ensures Valid() && RingCall() && signals == old(signals)
      ensures Handed(events, |old(events)|, m) && Collected(events, m, |events|) && ring.cq == []
      ensures old(ring.queue) == [] <==> m == |old(events)|
      ensures ring.queue == [] <==> m == |old(events)| || events[m - 1].rv > 0
      decreases 1
    {
      hide RingOk, Settled, FreeOk, Occupied, Outstanding, AccountOf;
      m := |events|;
      while |ring.queue| > 0
        invariant Valid() && RingCall() && free == old(free) && err == old(err) && signals == old(signals)
        invariant m == |events| && Handed(events, |old(events)|, m)
        invariant old(ring.queue) == [] ==> ring.queue == []
        invariant m == |old(events)| <==> ring.queue == old(ring.queue)
        invariant m > |old(events)| ==> events[m - 1].rv > 0
        decreases |ring.queue|
      {
        ghost var was := events;
        var rv := Submit();
        m := m + 1;
        AccountMore(was, Submitted(rv), stats.sends);
        if rv > 0 { continue; }
        if rv < 0 && rv != -4 && rv != -11 && err == 0 { err := -rv; }
        break;
      }
      var _, _, _ := Reap(false);
    }

    // The caller assembles a datagram in the slot it was given.
    method Write(datagram: bytes)
      requires Valid() && reserved >= 0 && |datagram| <= slotSize
      modifies `slab
      ensures Valid()
      ensures slab == old(slab)[reserved := datagram + old(slab)[reserved][|datagram|..]]
      ensures reserved < |slab| && datagram <= slab[reserved]
    {
      ghost var before := slab;
      slab := slab[reserved := datagram + slab[reserved][|datagram|..]];
      WriteKeeps(inflight, before, slab, log, Hurt(), ring, reserved);
    }

    // reserve: the slot handed out is one the kernel will not read. Its wait can only go on for
    // ever after a flush that left entries unsubmitted and a second one that submitted some.
    method Reserve() returns (r: ReserveResult)
      requires Valid()
      modifies this
      ensures Valid() && slab == old(slab) && log == old(log) && stats.sends == old(stats.sends)
      ensures r.Slot? ==> r.index < slots && reserved == r.index && !Readable(ring, r.index)
      ensures old(reserved) >= 0 ==> r == Slot(old(reserved) as nat) && ring == old(ring) && free == old(free) && events == old(events)
      ensures old(reserved) < 0 && old(free) != [] ==>
                && r == Slot(old(free)[|old(free)| - 1]) && free == old(free)[..|old(free)| - 1]
                && ring == old(ring) && err == old(err) && events == old(events)
      ensures old(events) <= events
      ensures r.NoSlot? ==> reserved == -1 && free == [] && err != 0
      ensures r.NoSlot? ==> Occupied(inflight) == slots
      // An error of the flush itself is not seen before the wait that follows it.
      ensures r.NoSlot? && old(err) == 0 ==> EndsWithWait(events, |old(events)|)
      // With an error latched, nullptr comes at once, and exactly when nothing is reserved or free.
      ensures old(err) != 0 ==> (r.NoSlot? <==> old(reserved) < 0 && old(free) == [])
      ensures old(err) != 0 ==> !r.Hung? && !r.LostWakeup? && ring == old(ring) && err == old(err) && events == old(events)
      ensures r.Hung? || r.LostWakeup? ==>
                && TriedAgain(events, |old(events)|) && reserved == -1 && ring.cq == [] && KernelOwesNothing()
                && |ring.queue| == Occupied(inflight)
      ensures r.Hung? ==> free == [] && |ring.queue| == slots
      ensures r.LostWakeup? ==> free != [] && |ring.queue| < slots
    {
      hide RingOk, Settled, Outstanding, Occupied, AccountOf;
      if reserved >= 0 {
        EmptyIsQuiet(inflight, slab, log, Hurt(), ring, reserved);
        return Slot(reserved);
      }
      while free == []
        invariant Valid() && reserved == -1 && slab == old(slab) && log == old(log)
        invariant stats.sends == old(stats.sends) && old(events) <= events
        invariant old(free) != [] ==> free == old(free) && ring == old(ring) && err == old(err) && events == old(events)
        invariant old(err) != 0 ==> free == old(free) && ring == old(ring) && err == old(err) && events == old(events) && old(reserved) < 0
        invariant free == [] ==> err == old(err) || EndsWithWait(events, |old(events)|)
        decreases free == [], signals, Outstanding(ring)
      {
        if err != 0 { return NoSlot; }
        ghost var start := |events|;
        ghost var m := Flush();
        if free == [] {
          ghost var next := |events|;
          var ok, _, at := Reap(true);
          if !ok {
            AllStuck();
            assert events[m - 1].Submitted? && events[next].Submitted?;
            return if free == [] then Hung else LostWakeup;
          }
          assert events[at].Waited?;
        }
      }
      var i := free[|free| - 1];
      TakeKeepsFree(free, inflight);
      assert i in free;
      EmptyIsQuiet(inflight, slab, log, Hurt(), ring, i);
      reserved := i;
      free := free[..|free| - 1];
      return Slot(i);
    }

    // A wait that can never end: every slot in flight is still waiting to be submitted.
    lemma AllStuck()
      requires Valid() && ring.cq == [] && KernelOwesNothing()
      ensures |ring.queue| == Occupied(inflight)
    {
      var busy := set i | 0 <= i < slots && inflight[i].Held?;
      forall i | 0 <= i < slots ensures i in busy <==> i in ring.queue {
        assert SlotOk(inflight[i], slab[i], log, ring.tx, ring.phase[i], For(ring.cq, i), Hurt());
      }
      forall k | 0 <= k < |ring.queue| ensures ring.queue[k] in busy { assert ring.queue[k] in ring.queue; }
      DistinctFits(ring.queue, busy);
      CoverIsLong(ring.queue, busy);
      OccupiedIsBusy(inflight, busy);
    }

    // The submission queue never holds more entries than there are slots, and fewer
    // when a slot is reserved; the ring has 2 * slots entries.
    lemma QueueHasRoom()
      requires Valid()
      ensures |ring.queue| <= slots
      ensures reserved >= 0 ==> |ring.queue| < slots
    {
      forall k | 0 <= k < |ring.queue| ensures ring.queue[k] in UpTo(slots) {
        assert ring.queue[k] in ring.queue;
      }
      DistinctFits(ring.queue, UpTo(slots));
      if reserved >= 0 {
        EmptyIsQuiet(inflight, slab, log, Hurt(), ring, reserved);
        forall k | 0 <= k < |ring.queue| ensures ring.queue[k] != reserved { assert ring.queue[k] in ring.queue; }
        DistinctFits(ring.queue, UpTo(slots) - {reserved as nat});
      }
    }

    // At most two completions per slot are ever unreaped, which is what the ring is sized for.
    lemma CompletionsFit()
      requires Valid()
      ensures |ring.cq| <= 2 * slots
    {
      forall i | 0 <= i < slots ensures |For(ring.cq, i)| <= 2 {
        assert SlotOk(inflight[i], slab[i], log, ring.tx, ring.phase[i], For(ring.cq, i), Hurt());
      }
      PostedTotal(ring.cq, slots);
      PostedAtMost(ring.cq, slots);
    }

    // inflight(), computed from the free list, counts the occupied entries of the table.
    lemma InflightCounts()
      requires Valid()
      ensures Inflight() == Occupied(inflight) == stats.sends - retired
    {
    }

    // commit: the reserved slot's first n bytes become one SEND_ZC.
    method Commit(n: nat) returns (r: CommitResult)
      requires Valid()
      modifies this
      ensures Valid()
      ensures r == (if old(reserved) < 0 then NothingReserved
                    else if n == 0 || n > slotSize then BadLength
                    else if old(err) != 0 then LatchedError else Committed)
      ensures err == old(err) && slab == old(slab) && free == old(free) && ring.cq == old(ring.cq) && events == old(events)
      ensures r != Committed ==>
                && ring == old(ring) && inflight == old(inflight) && reserved == old(reserved)
                && stats == old(stats) && log == old(log)
      ensures r == Committed ==> var i := old(reserved);
                && reserved == -1 && log == old(log) + [slab[i][..n]]
                && inflight == old(inflight)[i := Held(n, old(stats.sends))]
                && ring == Enqueue(old(ring), i, n, old(stats.sends))
                && stats == old(stats).(sends := old(stats.sends) + 1)
    {
      hide RingOk, Settled, FreeOk, Occupied, AccountOf;
      if reserved < 0 { return NothingReserved; }
      if n == 0 || n > slotSize { return BadLength; }
      if err != 0 { return LatchedError; }
      var i := reserved;
      ReservedIsEmpty(free, inflight, i);
      if |ring.queue| >= 2 * slots {
        // get_sqe would fail: flush, reap, and latch EAGAIN if that does not help
        QueueHasRoom();
        assert false;
      }
      AccountSends(events, stats.sends, stats.sends + 1);
      EnqueueKeeps(inflight, slab, log, Hurt(), ring, i, n);
      HoldKeepsFree(free, inflight, i, Held(n, stats.sends));
      log := log + [slab[i][..n]];
      ring := Enqueue(ring, i, n, stats.sends);
      inflight := inflight[i := Held(n, stats.sends)];
      reserved := -1;
      stats := stats.(sends := stats.sends + 1);
      return Committed;
    }

    // now_ns(): the clock only moves forward.
    method Now() returns (t: nat)
      modifies `clock
      ensures t == clock > old(clock)
    {
      var elapsed: nat :| true;
      clock := clock + 1 + elapsed;
      t := clock;
    }

    // io_uring_wait_cqe_timeout: some time passes, whatever it returns. It is waited only for
    // slots in flight.
    method Sleep()
      requires Valid() && Occupied(inflight) > 0
      modifies `ring, `events
      ensures Valid() && events == old(events) + [Slept]
      ensures ring.queue == old(ring.queue) && Outstanding(ring) <= old(Outstanding(ring))
    {
      hide RingOk, Settled, FreeOk, Occupied, Outstanding, AccountOf;
      KernelRuns();
      Note(Slept);
    }

    // drain: true exactly when no slot is in flight any more. If no failure was counted,
    // every commit is then on the wire exactly once, byte for byte. It flushes first, and again
    // after every timed wait: no completion is left untaken, and entries stay in the queue only
    // if the last flush's submit failed.
    method Drain(deadline: nat) returns (quiet: bool, ghost a: nat, ghost m: nat)
      requires Valid()
      modifies this
      ensures Valid() && slab == old(slab) && reserved == old(reserved) && log == old(log)
      ensures quiet <==> Occupied(inflight) == 0
      ensures quiet ==> forall i: nat :: !Readable(ring, i)
      ensures quiet && stats.errors == 0 && stats.fallback == 0 ==>
                |ring.tx| == |log| && forall id :: 0 <= id < |log| ==> ring.tx[id] == [log[id]]
      ensures !quiet ==> clock >= deadline
      ensures old(events) <= events && NeverSleepsTwice(events, |old(events)|) && ring.cq == []
      ensures |old(events)| <= a && Handed(events, a, m) && Collected(events, m, |events|)
      ensures ring.queue != [] ==> a < m && events[m - 1].rv <= 0
    {
      hide RingOk, Settled, FreeOk, Occupied, Outstanding, AccountOf;
      a := |events|;
      m := Flush();
      while true
        invariant Valid() && slab == old(slab) && reserved == old(reserved) && log == old(log)
        invariant old(events) <= events && NeverSleepsTwice(events, |old(events)|) && ring.cq == []
        invariant |old(events)| <= a && Handed(events, a, m) && Collected(events, m, |events|)
        invariant ring.queue != [] ==> a < m && events[m - 1].rv <= 0
        decreases deadline - clock
      {
        InflightCounts();
        if Inflight() <= 0 { break; }
        var t := Now();
        if t >= deadline { break; }
        Sleep();
        a := |events|;
        m := Flush();
      }
      InflightCounts();
      if Inflight() == 0 {
        AllQuiet(inflight, slab, log, Hurt(), ring);
      }
      return Inflight() == 0, a, m;
    }

    // The destructor: the slab is freed only when the kernel can no longer read any of it;
    // after a teardown that timed out it is leaked.
    method Destroy() returns (slabFreed: bool)
      requires Valid()
      modifies this
      ensures slabFreed ==> forall i: nat :: !Readable(ring, i)
      ensures slabFreed || clock >= old(clock) + 1_000_000_000
      ensures forall i :: 0 <= i < |inflight| ==> inflight[i].Empty?
      ensures log == old(log) && |ring.tx| == |log| && forall id :: 0 <= id < |log| ==> TxOk(ring.tx[id], log[id])
      ensures slabFreed && !Hurt() ==> forall id :: 0 <= id < |log| ==> ring.tx[id] == [log[id]]
    {
      hide RingOk, FreeOk, Occupied, Outstanding;
      var t := Now();
      var quiet, _, _ := Drain(t + 1_000_000_000);
      ghost var before, drained := ring, stats;
      var i := 0;
      while i < |inflight|
        invariant 0 <= i <= |inflight|
        invariant forall j :: 0 <= j < i ==> inflight[j].Empty?
        invariant ring == before && log == old(log) && stats == drained
        invariant quiet || clock >= old(clock) + 1_000_000_000
      {
        DropOwner(i);
        i := i + 1;
      }
      return quiet;
    }

    // A whole run: any sequence of calls, with any kernel behaviour in between, then the
    // destructor. `sent` lists, for each commit that succeeded, the first n bytes its slot had
    // then. Each is on the wire at most once and unchanged; in a run without counted failures
    // that ends quietly, exactly once; and the slab is freed only when the kernel cannot read
    // it any more.
    method Run(calls: nat) returns (slabFreed: bool, ghost sent: seq<bytes>)
      requires Valid() && log == []
      modifies this
      ensures |ring.tx| == |sent| && forall id :: 0 <= id < |sent| ==> TxOk(ring.tx[id], sent[id])
      ensures slabFreed ==> forall i: nat :: !Readable(ring, i)
      ensures slabFreed && !Hurt() ==> forall id :: 0 <= id < |sent| ==> ring.tx[id] == [sent[id]]
    {
      hide RingOk, Settled, Occupied, Outstanding, TxOk;
      sent := [];
      for k := 0 to calls
        invariant Valid() && log == sent
      {
        var what: int, datagram: bytes, n: nat, deadline: nat :| true;
        if what == 0 {
          var r := Reserve();
        } else if what == 1 && reserved >= 0 && |datagram| <= slotSize {
          Write(datagram);
        } else if what == 2 {
          ghost var i := reserved;
          var r := Commit(n);
          if r == Committed { sent := sent + [slab[i][..n]]; }
        } else if what == 3 {
          var _ := Flush();
        } else {
          var quiet, _, _ := Drain(deadline);
        }
      }
      slabFreed := Destroy();
    }
  }

  lemma ReservedIsEmpty(free: seq<nat>, inflight: seq<Entry>, i: nat)
    requires FreeOk(free, inflight, i)
    ensures i < |inflight| && inflight[i].Empty?
  {
  }

  lemma {:induction false} OccupiedIsBusy(entries: seq<Entry>, busy: set<nat>)
    requires forall i :: i in busy <==> 0 <= i < |entries| && entries[i].Held?
    ensures Occupied(entries) == |busy|
  {
    if entries == [] {
      assert busy == {};
    } else {
      var n := |entries| - 1;
      OccupiedIsBusy(entries[..n], busy - {n});
      assert busy - {n} == if n in busy then busy - {n} else busy;
    }
  }

  lemma {:induction false} NoneOccupied(entries: seq<Entry>, i: nat)
    requires Occupied(entries) == 0 && i < |entries|
    ensures entries[i].Empty?
  {
    if i < |entries| - 1 { NoneOccupied(entries[..|entries| - 1], i); }
  }

  // With nothing in flight the kernel has no claim left, and a clean history is complete.
  lemma AllQuiet(entries: seq<Entry>, slab: seq<bytes>, log: seq<bytes>, hurt: bool, k: Kernel)
    requires RingOk(entries, slab, log, hurt, k) && Settled(entries, log, hurt, k.tx)
    requires Occupied(entries) == 0
    ensures forall i: nat :: !Readable(k, i)
    ensures |k.tx| == |log|
    ensures !hurt ==> forall id :: 0 <= id < |log| ==> k.tx[id] == [log[id]]
  {
    forall i | 0 <= i < |entries| ensures entries[i].Empty? && !Readable(k, i) {
      NoneOccupied(entries, i);
      EmptyIsQuiet(entries, slab, log, hurt, k, i);
    }
  }

  // Number of completions posted for slots below n.
  function PostedBelow(cq: seq<Cqe>, n: nat): nat {
    if n == 0 then 0 else PostedBelow(cq, n - 1) + |For(cq, n - 1)|
  }

  lemma ForCons(cq: seq<Cqe>, i: nat)
    requires cq != []
    ensures |For(cq, i)| == (if cq[0].slot == i then 1 else 0) + |For(cq[1..], i)|
  {
  }

  lemma {:induction false} PostedBelowCons(cq: seq<Cqe>, n: nat)
    requires cq != []
    ensures PostedBelow(cq, n) == PostedBelow(cq[1..], n) + (if cq[0].slot < n then 1 else 0)
  {
    hide For;
    if n > 0 {
      PostedBelowCons(cq, n - 1);
      ForCons(cq, n - 1);
      var rest := cq[1..];
      assert PostedBelow(rest, n) == PostedBelow(rest, n - 1) + |For(rest, n - 1)|;
    }
  }

  lemma {:induction false} PostedTotal(cq: seq<Cqe>, n: nat)
    requires forall c :: c in cq ==> c.slot < n
    ensures PostedBelow(cq, n) == |cq|
  {
    if cq == [] {
      PostedNone(n);
    } else {
      PostedBelowCons(cq, n);
      assert cq[0] in cq;
      PostedTotal(cq[1..], n);
    }
  }

  lemma {:induction false} PostedNone(n: nat)
    ensures PostedBelow([], n) == 0
  {
    if n > 0 { PostedNone(n - 1); }
  }

  lemma {:induction false} PostedAtMost(cq: seq<Cqe>, n: nat)
    requires forall i :: 0 <= i < n ==> |For(cq, i)| <= 2
    ensures PostedBelow(cq, n) <= 2 * n
  {
    if n > 0 { PostedAtMost(cq, n - 1); }
  }

  lemma EmptyIsQuiet(entries: seq<Entry>, slab: seq<bytes>, log: seq<bytes>, hurt: bool, k: Kernel, i: nat)
    requires RingOk(entries, slab, log, hurt, k) && i < |entries| && entries[i].Empty?
    ensures !Readable(k, i)
  {
    assert SlotOk(entries[i], slab[i], log, k.tx, k.phase[i], For(k.cq, i), hurt);
  }

  // Writing into a slot that is not in flight disturbs nothing the kernel may read.
  lemma WriteKeeps(entries: seq<Entry>, slab: seq<bytes>, slab': seq<bytes>, log: seq<bytes>, hurt: bool, k: Kernel, i: nat)
    requires RingOk(entries, slab, log, hurt, k) && i < |entries| && entries[i].Empty?
    requires |slab'| == |slab| && forall j :: 0 <= j < |slab| && j != i ==> slab'[j] == slab[j]
    ensures RingOk(entries, slab', log, hurt, k)
  {
    forall j | 0 <= j < |entries|
      ensures SlotOk(entries[j], slab'[j], log, k.tx, k.phase[j], For(k.cq, j), hurt)
    {
      assert SlotOk(entries[j], slab[j], log, k.tx, k.phase[j], For(k.cq, j), hurt);
    }
  }

  lemma {:induction false} AllEmpty(entries: seq<Entry>)
    requires forall i :: 0 <= i < |entries| ==> entries[i].Empty?
    ensures Occupied(entries) == 0
  {
    if entries != [] { AllEmpty(entries[..|entries| - 1]); }
  }
}
