// hash_compute_parallel: workers share one 32-bit counter and write disjoint entries of the
// result. Every interleaving of their steps is a run.
module HashPool {
  import opened Bytes
  import opened Chunks

  const WRAP := 0x1_0000_0000

  // Ready: about to fetch a chunk number. Finished: it fetched one past the end.
  datatype Worker = Ready | Hashing(chunk: nat) | Finished | Failed(chunk: nat)

  // `hash` is SHA-256 of each chunk; `count` is the number of chunks.
  datatype Job = Job(count: nat, workers: nat, hash: nat -> bytes)

  // `next` is the shared counter; `claims` lists the fetched chunk numbers, oldest first.
  datatype Pool = Pool(next: nat, workers: seq<Worker>, claims: seq<nat>, hashes: seq<bytes>)

  // One step of worker w; hashing may throw.
  datatype Event = Event(w: nat, throws: bool)

  // The hash list a single loop would build.
  function Serial(hash: nat -> bytes, n: nat): (r: seq<bytes>)
    ensures |r| == n && forall i :: 0 <= i < n ==> r[i] == hash(i)
  {
    if n == 0 then [] else Serial(hash, n - 1) + [hash(n - 1)]
  }

  function Start(job: Job): Pool {
    Pool(0, seq(job.workers, _ => Ready), [], seq(job.count, _ => []))
  }

  function Step(job: Job, p: Pool, e: Event): Pool {
    if e.w >= |p.workers| then p
    else
      match p.workers[e.w]
      case Ready =>
        var bumped := p.(next := (p.next + 1) % WRAP);
        if p.next >= job.count then bumped.(workers := p.workers[e.w := Finished])
        else bumped.(workers := p.workers[e.w := Hashing(p.next)], claims := p.claims + [p.next])
      case Hashing(i) =>
        if e.throws then p.(workers := p.workers[e.w := Failed(i)])
        else if i < |p.hashes| then p.(workers := p.workers[e.w := Ready], hashes := p.hashes[i := job.hash(i)])
        else p
      case _ => p
  }

  function Run(job: Job, s: seq<Event>): Pool {
    if s == [] then Start(job) else Step(job, Run(job, s[..|s| - 1]), s[|s| - 1])
  }

  predicate Stopped(p: Pool) {
    forall w :: 0 <= w < |p.workers| ==> p.workers[w].Finished? || p.workers[w].Failed?
  }

  predicate NoneFailed(p: Pool) {
    forall w :: 0 <= w < |p.workers| ==> !p.workers[w].Failed?
  }

  // The numbers of workers that have finished, and that are hashing.
  function FinishedCount(ws: seq<Worker>): (n: nat)
    ensures n <= |ws|
  {
    if ws == [] then 0 else FinishedCount(ws[..|ws| - 1]) + if ws[|ws| - 1].Finished? then 1 else 0
  }

  function HashingCount(ws: seq<Worker>): (n: nat)
    ensures n <= |ws|
  {
    if ws == [] then 0 else HashingCount(ws[..|ws| - 1]) + if ws[|ws| - 1].Hashing? then 1 else 0
  }

  // Those that have not stopped.
  function AliveCount(ws: seq<Worker>): (n: nat)
    ensures n <= |ws|
  {
    if ws == [] then 0 else AliveCount(ws[..|ws| - 1]) + if ws[|ws| - 1].Ready? || ws[|ws| - 1].Hashing? then 1 else 0
  }

  lemma {:induction false} Counts(ws: seq<Worker>, w: nat, to: Worker)
    requires w < |ws|
    ensures FinishedCount(ws[w := to]) == FinishedCount(ws) - (if ws[w].Finished? then 1 else 0) + (if to.Finished? then 1 else 0)
    ensures HashingCount(ws[w := to]) == HashingCount(ws) - (if ws[w].Hashing? then 1 else 0) + (if to.Hashing? then 1 else 0)
    ensures AliveCount(ws[w := to]) == AliveCount(ws) - (if ws[w].Ready? || ws[w].Hashing? then 1 else 0)
                                       + (if to.Ready? || to.Hashing? then 1 else 0)
    ensures !ws[w].Finished? ==> FinishedCount(ws) < |ws|
  {
    var n := |ws| - 1;
    if w < n {
      Counts(ws[..n], w, to);
      assert ws[w := to][..n] == ws[..n][w := to];
    } else {
      assert ws[w := to][..n] == ws[..n];
    }
  }

  // Holder w has fetched chunk i and has not written its hash.
  predicate Holds(ws: seq<Worker>, w: int, i: int) {
    0 <= w < |ws| && 0 <= i && (ws[w] == Hashing(i) || ws[w] == Failed(i))
  }

  // While the counter has not wrapped: the claims are 0, 1, 2, ... without repetition; a
  // claimed chunk is hashed or has exactly one holder; nothing else is held.
  ghost predicate Inv(job: Job, p: Pool) {
    && |p.workers| == job.workers && |p.hashes| == job.count && |p.claims| <= job.count
    && p.next == (|p.claims| + FinishedCount(p.workers)) % WRAP
    && (FinishedCount(p.workers) > 0 ==> |p.claims| == job.count)
    && (forall k :: 0 <= k < |p.claims| ==> p.claims[k] == k)
    && (forall i :: 0 <= i < |p.claims| ==> p.hashes[i] == job.hash(i) || exists w :: Holds(p.workers, w, i))
    && (forall w, i :: Holds(p.workers, w, i) ==> i < |p.claims|)
    && (forall v, w, i :: Holds(p.workers, v, i) && Holds(p.workers, w, i) ==> v == w)
  }

  ghost predicate Fits(job: Job) {
    job.count + job.workers <= WRAP
  }

  lemma StartOk(job: Job)
    ensures Inv(job, Start(job))
  {
    NoneFinished(Start(job).workers);
  }

  lemma {:induction false} NoneFinished(ws: seq<Worker>)
    requires forall w :: 0 <= w < |ws| ==> ws[w].Ready?
    ensures FinishedCount(ws) == 0 && HashingCount(ws) == 0
  {
    if ws != [] { NoneFinished(ws[..|ws| - 1]); }
  }

  lemma StepOk(job: Job, p: Pool, e: Event)
    requires Inv(job, p) && Fits(job)
    ensures Inv(job, Step(job, p, e))
  {
    var q := Step(job, p, e);
    if e.w < |p.workers| && (p.workers[e.w].Ready? || p.workers[e.w].Hashing?) {
      Counts(p.workers, e.w, q.workers[e.w]);
      if p.workers[e.w].Ready? { FetchOk(job, p, e); } else { HashOk(job, p, e); }
    }
  }

  lemma FetchOk(job: Job, p: Pool, e: Event)
    requires Inv(job, p) && Fits(job) && e.w < |p.workers| && p.workers[e.w].Ready?
    requires FinishedCount(p.workers) < |p.workers|
    requires var q := Step(job, p, e);
             FinishedCount(q.workers) == FinishedCount(p.workers) + if q.workers[e.w].Finished? then 1 else 0
    ensures Inv(job, Step(job, p, e))
  {
    hide FinishedCount;
    var q := Step(job, p, e);
    assert p.next == |p.claims| + FinishedCount(p.workers);
    forall w, i | w != e.w ensures Holds(q.workers, w, i) <==> Holds(p.workers, w, i) {}
    assert forall i :: !Holds(p.workers, e.w, i);
    if p.next < job.count { assert Holds(q.workers, e.w, p.next); }
    forall i | 0 <= i < |p.claims| ensures q.hashes[i] == job.hash(i) || exists w :: Holds(q.workers, w, i) {
      if p.hashes[i] != job.hash(i) {
        var w :| Holds(p.workers, w, i);
        assert Holds(q.workers, w, i);
      }
    }
  }

  lemma HashOk(job: Job, p: Pool, e: Event)
    requires Inv(job, p) && e.w < |p.workers| && p.workers[e.w].Hashing?
    requires FinishedCount(Step(job, p, e).workers) == FinishedCount(p.workers)
    ensures Inv(job, Step(job, p, e))
  {
    hide FinishedCount;
    var q := Step(job, p, e);
    var i := p.workers[e.w].chunk;
    assert Holds(p.workers, e.w, i);
    forall w, k | w != e.w ensures Holds(q.workers, w, k) <==> Holds(p.workers, w, k) {}
    forall k ensures Holds(q.workers, e.w, k) <==> e.throws && k == i {}
    forall k | 0 <= k < |q.claims| ensures q.hashes[k] == job.hash(k) || exists w :: Holds(q.workers, w, k) {
      if k != i && p.hashes[k] != job.hash(k) {
        var w :| Holds(p.workers, w, k);
        assert w != e.w && Holds(q.workers, w, k);
      } else if k == i && e.throws {
        assert Holds(q.workers, e.w, k);
      }
    }
  }

  lemma {:induction false} RunOk(job: Job, s: seq<Event>)
    requires Fits(job)
    ensures Inv(job, Run(job, s))
  {
    hide Inv, Step, Start;
    if s == [] {
      StartOk(job);
    } else {
      RunOk(job, s[..|s| - 1]);
      StepOk(job, Run(job, s[..|s| - 1]), s[|s| - 1]);
    }
  }

  // The pool returns normally when every worker has stopped and none has thrown: then every
  // chunk was claimed exactly once and the result is the serial hash list.
  lemma NormalReturn(job: Job, s: seq<Event>)
    requires Fits(job) && (job.workers == 0 <==> job.count == 0)
    requires Stopped(Run(job, s)) && NoneFailed(Run(job, s))
    ensures Run(job, s).claims == seq(job.count, i => i)
    ensures Run(job, s).hashes == Serial(job.hash, job.count)
  {
    hide Inv, Step, Start;
    RunOk(job, s);
    StoppedIsSerial(job, Run(job, s));
  }

  lemma StoppedIsSerial(job: Job, p: Pool)
    requires Inv(job, p) && (job.workers == 0 <==> job.count == 0) && Stopped(p) && NoneFailed(p)
    ensures p.claims == seq(job.count, i => i) && p.hashes == Serial(job.hash, job.count)
  {
    if job.workers > 0 { SomeFinished(p.workers); }
    assert p.claims == seq(job.count, i => i);
    forall i | 0 <= i < job.count ensures p.hashes[i] == job.hash(i) {
      NobodyHolds(p, i);
    }
  }

  lemma NobodyHolds(p: Pool, i: nat)
    requires Stopped(p) && NoneFailed(p)
    ensures forall w :: !Holds(p.workers, w, i)
  {
  }

  lemma SomeFinished(ws: seq<Worker>)
    requires ws != [] && ws[0].Finished?
    ensures FinishedCount(ws) > 0
  {
    Counts(ws, 0, Ready);
  }

  // ---- whether or not the counter wraps ----

  // The first numbers fetched are 0, 1, 2, ...; each chunk below them is hashed or held, and
  // nobody holds anything but a chunk.
  ghost predicate Covered(job: Job, p: Pool) {
    && |p.workers| == job.workers && |p.hashes| == job.count && p.next < WRAP
    && (|p.claims| < job.count ==> FinishedCount(p.workers) == 0 && p.next == |p.claims|)
    && (forall i :: 0 <= i < job.count && i < |p.claims| ==> p.hashes[i] == job.hash(i) || exists w :: Holds(p.workers, w, i))
    && (forall w, i :: Holds(p.workers, w, i) ==> i < job.count)
  }

  lemma StartCovered(job: Job)
    ensures Covered(job, Start(job))
  {
    NoneFinished(Start(job).workers);
  }

  lemma StepCovered(job: Job, p: Pool, e: Event)
    requires Covered(job, p) && job.count < WRAP
    ensures Covered(job, Step(job, p, e))
  {
    var q := Step(job, p, e);
    if e.w < |p.workers| && (p.workers[e.w].Ready? || p.workers[e.w].Hashing?) {
      Counts(p.workers, e.w, q.workers[e.w]);
      hide FinishedCount;
      forall w, i | w != e.w ensures Holds(q.workers, w, i) <==> Holds(p.workers, w, i) {}
      if p.workers[e.w].Hashing? { assert Holds(p.workers, e.w, p.workers[e.w].chunk); }
      forall i | 0 <= i < job.count && i < |q.claims| ensures q.hashes[i] == job.hash(i) || exists w :: Holds(q.workers, w, i) {
        StillCovered(job, p, e, i);
      }
    }
  }

  lemma StillCovered(job: Job, p: Pool, e: Event, i: nat)
    requires Covered(job, p) && job.count < WRAP && e.w < |p.workers| && (p.workers[e.w].Ready? || p.workers[e.w].Hashing?)
    requires i < job.count && i < |Step(job, p, e).claims|
    ensures var q := Step(job, p, e); i < |q.hashes| && (q.hashes[i] == job.hash(i) || exists w :: Holds(q.workers, w, i))
  {
    hide FinishedCount;
    var q := Step(job, p, e);
    if i >= |p.claims| {
      assert Holds(q.workers, e.w, i);
    } else if p.hashes[i] != job.hash(i) {
      var w :| Holds(p.workers, w, i);
      if w == e.w && p.workers[w].Hashing? {
        assert !e.throws || Holds(q.workers, e.w, i);
      } else if w != e.w {
        assert Holds(q.workers, w, i);
      }
    } else if p.workers[e.w].Hashing? && !e.throws {
      assert q.hashes[i] == job.hash(i);
    }
  }

  lemma {:induction false} RunCovered(job: Job, s: seq<Event>)
    requires job.count < WRAP
    ensures Covered(job, Run(job, s))
  {
    hide Covered, Step, Start;
    if s == [] {
      StartCovered(job);
    } else {
      RunCovered(job, s[..|s| - 1]);
      StepCovered(job, Run(job, s[..|s| - 1]), s[|s| - 1]);
    }
  }

  // A normal return gives the serial hash list in any case: a chunk claimed again is hashed
  // again to the same value.
  lemma SerialReturn(job: Job, p: Pool)
    requires Covered(job, p) && (job.workers == 0 <==> job.count == 0) && Stopped(p) && NoneFailed(p)
    ensures p.hashes == Serial(job.hash, job.count)
  {
    if job.workers > 0 { SomeFinished(p.workers); }
    forall i | 0 <= i < job.count ensures p.hashes[i] == job.hash(i) {
      NobodyHolds(p, i);
    }
  }

  // How far the counter is from the numbers that stop a worker.
  function Distance(job: Job, p: Pool): nat {
    if p.next < job.count then job.count - p.next else 0
  }

  // Every step of a worker that has not stopped lowers this, the counter wrapping or not.
  ghost predicate Below(job: Job, q: Pool, p: Pool) {
    || AliveCount(q.workers) < AliveCount(p.workers)
    || (AliveCount(q.workers) == AliveCount(p.workers)
        && (Distance(job, q) < Distance(job, p)
            || (Distance(job, q) == Distance(job, p) && HashingCount(q.workers) < HashingCount(p.workers))))
  }

  lemma StepsLower(job: Job, p: Pool, e: Event)
    requires Covered(job, p) && job.count < WRAP && e.w < |p.workers| && (p.workers[e.w].Ready? || p.workers[e.w].Hashing?)
    ensures Below(job, Step(job, p, e), p)
  {
    var q := Step(job, p, e);
    if p.workers[e.w].Hashing? { assert Holds(p.workers, e.w, p.workers[e.w].chunk); }
    Counts(p.workers, e.w, q.workers[e.w]);
  }

  lemma RunMore(job: Job, s: seq<Event>, e: Event)
    ensures Run(job, s + [e]) == Step(job, Run(job, s), e)
  {
    assert (s + [e])[..|s|] == s;
  }

  // Worker 0 alone claims and hashes the first n chunks.
  lemma {:induction false} Alone(job: Job, n: nat) returns (s: seq<Event>)
    requires 0 < job.workers && n <= job.count < WRAP
    ensures Run(job, s) == Pool(n, Start(job).workers, seq(n, i => i), Run(job, s).hashes) && |Run(job, s).hashes| == job.count
  {
    if n == 0 {
      s := [];
      assert Run(job, s).claims == seq(0, i => i);
    } else {
      hide Run;
      var t := Alone(job, n - 1);
      var e := Event(0, false);
      var p := Run(job, t);
      var q := Step(job, p, e);
      RunMore(job, t, e);
      RunMore(job, t + [e], e);
      s := t + [e] + [e];
      assert seq(n, i => i) == seq(n - 1, i => i) + [n - 1];
      assert q.workers[0 := Ready] == p.workers;
    }
  }

  // Then workers 0 .. k-1 each fetch a number past the end and finish.
  lemma {:induction false} PastTheEnd(job: Job, k: nat) returns (s: seq<Event>)
    requires k <= job.workers && 0 < job.workers && job.count + k <= WRAP && job.count < WRAP
    ensures Run(job, s).next == (job.count + k) % WRAP && |Run(job, s).workers| == job.workers
    ensures Run(job, s).claims == seq(job.count, i => i)
    ensures forall w :: k <= w < job.workers ==> Run(job, s).workers[w].Ready?
  {
    hide Run;
    if k == 0 {
      s := Alone(job, job.count);
    } else {
      var t := PastTheEnd(job, k - 1);
      var p, e := Run(job, t), Event(k - 1, false);
      s := t + [e];
      RunMore(job, t, e);
      assert p.next == job.count + k - 1 && p.workers[k - 1].Ready?;
    }
  }

  ghost predicate ClaimsDistinct(job: Job, s: seq<Event>) {
    Distinct(Run(job, s).claims)
  }

  // No chunk is ever claimed twice, in any run, exactly when the counter has room for one
  // number per chunk and one per worker.
  lemma ClaimedOnceIffFits(job: Job)
    requires 0 < job.count < WRAP && 0 < job.workers
    ensures Fits(job) <==> forall s: seq<Event> :: ClaimsDistinct(job, s)
  {
    if Fits(job) {
      forall s: seq<Event> ensures ClaimsDistinct(job, s) { RunOk(job, s); }
    } else {
      var k := WRAP - job.count;
      var t := PastTheEnd(job, k);
      var s := t + [Event(k, false)];
      assert s[..|t|] == t;
      var c := Run(job, s).claims;
      assert c[0] == 0 && c[job.count] == 0;
      assert !ClaimsDistinct(job, s);
    }
  }

  // The pool as the source builds it.
  class ParallelHash {
    const job: Job
    var next: nat
    var workers: seq<Worker>
    var hashes: array<bytes>
    ghost var claims: seq<nat>
    ghost var trace: seq<Event>

    ghost function Value(): Pool
      reads this, hashes
    {
      Pool(next, workers, claims, hashes[..])
    }

    constructor (job: Job)
      ensures this.job == job && Value() == Run(job, []) && trace == [] && fresh(hashes)
    {
      this.job := job;
      next, workers, claims, trace := 0, seq(job.workers, _ => Ready), [], [];
      hashes := new bytes[job.count](_ => []);
      new;
      assert hashes[..] == seq(job.count, _ => []);
    }

    // fetch_add, and the end of the loop when the number is past the last chunk.
    method Fetch(w: nat)
      requires w < |workers| && workers[w].Ready?
      modifies `next, `workers, `claims
      ensures Value() == Step(job, old(Value()), Event(w, false))
    {
      var i := next;
      next := (next + 1) % WRAP;
      if i >= job.count {
        workers := workers[w := Finished];
      } else {
        workers := workers[w := Hashing(i)];
        claims := claims + [i];
      }
    }

    // Hash the chunk and write its entry, or throw.
    method HashChunk(w: nat, throws: bool)
      requires w < |workers| && workers[w].Hashing? && workers[w].chunk < hashes.Length
      modifies `workers, hashes
      ensures Value() == Step(job, old(Value()), Event(w, throws))
    {
      var i := workers[w].chunk;
      if throws {
        workers := workers[w := Failed(i)];
      } else {
        hashes[i] := job.hash(i);
        workers := workers[w := Ready];
      }
    }

    method FindLive() returns (w: nat)
      ensures w <= |workers|
      ensures w < |workers| ==> workers[w].Ready? || workers[w].Hashing?
      ensures w == |workers| ==> Stopped(Value())
    {
      w := 0;
      while w < |workers| && !workers[w].Ready? && !workers[w].Hashing?
        invariant w <= |workers|
        invariant forall v :: 0 <= v < w ==> workers[v].Finished? || workers[v].Failed?
      {
        w := w + 1;
      }
    }

    // Run the workers to their end under an arbitrary scheduler and join them. On a normal
    // return the result is the serial hash list, and if the counter cannot wrap each chunk
    // was claimed once; otherwise some worker threw, and the exception of the first such worker
    // goes on: `thrower` is its number, or the number of workers when none threw.
    method RunToEnd() returns (thrower: nat)
      requires job.count < WRAP && (job.workers == 0 <==> job.count == 0)
      requires Value() == Run(job, trace)
      modifies this, hashes
      ensures hashes == old(hashes) && Value() == Run(job, trace) && Stopped(Value())
      ensures FirstFailed(Value(), thrower) && thrower <= |workers|
      ensures thrower == |workers| ==> hashes[..] == Serial(job.hash, job.count)
      ensures thrower == |workers| && Fits(job) ==> claims == seq(job.count, i => i)
    {
      hide Inv, Covered, Step, Distance, AliveCount, HashingCount, NoneFailed, Stopped, Serial, FirstFailed;
      RunCovered(job, trace);
      var live := FindLive();
      while live < |workers|
        invariant hashes == old(hashes) && Value() == Run(job, trace) && Covered(job, Value())
        invariant 0 <= live <= |workers|
        invariant live < |workers| ==> workers[live].Ready? || workers[live].Hashing?
        invariant live == |workers| ==> Stopped(Value())
        decreases AliveCount(workers), Distance(job, Value()), HashingCount(workers)
      {
        // the scheduler's choice, if it can take a step
        var w: nat, throws: bool :| true;
        if w >= |workers| || !(workers[w].Ready? || workers[w].Hashing?) { w := live; }
        if workers[w].Ready? { throws := false; }
        ghost var e, p := Event(w, throws), Value();
        StepsLower(job, p, e);
        StepCovered(job, p, e);
        if workers[w].Ready? {
          Fetch(w);
        } else {
          HeldIsChunk(job, p, w);
          HashChunk(w, throws);
        }
        assert (trace + [e])[..|trace|] == trace;
        trace := trace + [e];
        live := FindLive();
      }
      thrower := FindFailed();
      if thrower == |workers| { AllFine(Value()); }
      if thrower == |workers| { SerialReturn(job, Value()); }
      if thrower == |workers| && Fits(job) { NormalReturn(job, trace); }
    }

    // The scan of worker_exceptions.
    method FindFailed() returns (w: nat)
      ensures FirstFailed(Value(), w) && w <= |workers|
    {
      w := 0;
      while w < |workers|
        invariant w <= |workers| && forall v :: 0 <= v < w ==> !workers[v].Failed?
      {
        if workers[w].Failed? { return w; }
        w := w + 1;
      }
      return w;
    }
  }

  // Worker w is the first that threw; past the last worker if none did.
  predicate FirstFailed(p: Pool, w: nat) {
    && w <= |p.workers| && (w < |p.workers| ==> p.workers[w].Failed?)
    && forall v :: 0 <= v < w ==> !p.workers[v].Failed?
  }

  lemma AllFine(p: Pool)
    requires FirstFailed(p, |p.workers|)
    ensures NoneFailed(p)
  {
  }

  lemma HeldIsChunk(job: Job, p: Pool, w: nat)
    requires Covered(job, p) && w < |p.workers| && p.workers[w].Hashing?
    ensures p.workers[w].chunk < |p.hashes|
  {
    assert Holds(p.workers, w, p.workers[w].chunk);
  }

  // hash_compute_parallel: the serial hash list of the file's chunks, or an exception: when the
  // file cannot be mapped, as an empty one never can, and otherwise exactly when a worker threw.
  // There are as many workers as the machine runs threads, at least one, but no more than
  // chunks. `run` is what they did.
  method HashComputeParallel(hash: bytes -> bytes, file: bytes, chunkCount: nat, hardware: nat, maps: bool)
    returns (ok: bool, hashes: seq<bytes>, ghost job: Job, ghost run: seq<Event>)
    requires chunkCount == ChunkCount(|file|) && hardware < WRAP
    ensures ok ==> |hashes| == chunkCount
    ensures ok ==> forall i :: 0 <= i < chunkCount ==> hashes[i] == hash(ChunkAt(file, i))
    ensures ok <==> file != [] && maps && NoneFailed(Run(job, run))
    ensures file != [] && maps ==> Stopped(Run(job, run)) && job.count == chunkCount && forall i :: 0 <= i < chunkCount ==> job.hash(i) == hash(ChunkAt(file, i))
    ensures file != [] && maps ==>
              && job.workers <= chunkCount && (job.workers < chunkCount ==> job.workers == if hardware > 1 then hardware else 1)
              && (hardware > 0 ==> job.workers <= hardware) && (hardware == 0 ==> job.workers <= 1)
  {
    hide Stopped, NoneFailed, Run, FirstFailed;
    job, run := Job(0, 0, i => []), [];
    if file == [] || !maps { return false, [], job, run; }
    var workers := Min(chunkCount, if hardware == 0 then 1 else hardware);
    var pool := new ParallelHash(Job(chunkCount, workers, i => hash(ChunkAt(file, i))));
    var thrower := pool.RunToEnd();
    job, run := pool.job, pool.trace;
    if thrower < |pool.workers| {
      SomeoneFailed(pool.Value(), thrower);
      return false, [], job, run;
    }
    AllFine(pool.Value());
    return true, pool.hashes[..], job, run;
  }

  lemma SomeoneFailed(p: Pool, w: nat)
    requires FirstFailed(p, w) && w < |p.workers|
    ensures !NoneFailed(p)
  {
  }
}
