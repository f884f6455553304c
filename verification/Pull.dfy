// run_pull against a disk that a process crash may freeze at any step, over any number of
// sessions for one FILE_META. SHA-256 is the function H.
module Pull {
  import opened Bytes
  import opened Files
  import opened Wrappers
  import opened Chunks
  import opened PartialFile

  // What pull needs of a FILE_META: precompute_meta produces exactly these.
  datatype Meta = Meta(size: nat, hashes: seq<bytes>) {
    function Count(): nat { |hashes| }

    ghost predicate Ok() {
      && 0 < |hashes| < 0x20_0000
      && Offset(|hashes| - 1) < size <= Offset(|hashes|)
      && forall h :: h in hashes ==> |h| == HASH_SIZE
    }

    // hashes[0] names the whole transfer.
    function Id(): bytes
      requires hashes != []
    {
      hashes[0]
    }
  }

  ghost predicate Verified(H: bytes -> bytes, m: Meta, out: bytes, i: nat)
    requires m.Ok() && i < m.Count() && |out| == m.size
  {
    H(Chunk(out, m.size, i)) == m.hashes[i]
  }

  // Every chunk in the bitmap has bytes on disk that hash to its entry.
  ghost predicate Truthful(H: bytes -> bytes, m: Meta, out: bytes, bitmap: seq<bool>)
    requires m.Ok() && |out| == m.size && |bitmap| == m.Count()
  {
    forall i :: 0 <= i < m.Count() && bitmap[i] ==> Verified(H, m, out, i)
  }

  function Size(out: Option<bytes>): Option<nat> {
    if out.None? then None else Some(|out.value|)
  }

  // What resuming relies on.
  ghost predicate ResumeSafe(H: bytes -> bytes, m: Meta, out: Option<bytes>, rec: Option<bytes>)
    requires m.Ok()
  {
    var r := Load(rec, Size(out), m.Id(), m.Count());
    r.Some? ==> |out.value| == m.size && Truthful(H, m, out.value, r.value)
  }

  // What every step keeps. A complete record only ever stands beside a full-size output.
  ghost predicate DiskOk(H: bytes -> bytes, m: Meta, out: Option<bytes>, rec: Option<bytes>)
    requires m.Ok()
  {
    && (Complete(rec, m.Id(), m.Count()) && out.Some? ==> |out.value| <= m.size)
    && (m.size % CHUNK_SIZE == 0 && Complete(rec, m.Id(), m.Count()) ==>
          && out.Some? && |out.value| == m.size
          && Truthful(H, m, out.value, Unpack(rec.value[HASH_SIZE..], m.Count())))
  }

  lemma DiskOkIsResumeSafe(H: bytes -> bytes, m: Meta, out: Option<bytes>, rec: Option<bytes>)
    requires m.Ok() && DiskOk(H, m, out, rec)
    ensures ResumeSafe(H, m, out, rec)
  {
    hide Truthful, Unpack;
  }

  lemma PutOutside(file: bytes, at: nat, data: bytes, lo: nat, hi: nat)
    requires lo <= hi <= |file| && (hi <= at || at + |data| <= lo)
    ensures hi <= |Put(file, at, data)| && Put(file, at, data)[lo..hi] == file[lo..hi]
    ensures at + |data| <= |file| ==> |Put(file, at, data)| == |file|
  {
    var r := Put(file, at, data);
    PutReads(file, at, data);
    forall k | lo <= k < hi ensures r[k] == file[k] {}
  }

  // Writing inside chunk i leaves every other chunk alone.
  lemma WriteElsewhere(m: Meta, out: bytes, i: nat, at: nat, data: bytes, j: nat)
    requires m.Ok() && i < m.Count() && j < m.Count() && i != j && |out| == m.size
    requires Offset(i) <= at && at + |data| <= Offset(i) + ChunkLen(m.size, i)
    ensures |Put(out, at, data)| == m.size
    ensures Chunk(Put(out, at, data), m.size, j) == Chunk(out, m.size, j)
  {
    hide Put;
    PutOutside(out, at, data, Offset(j), Offset(j) + ChunkLen(m.size, j));
  }

  // During a session: the bitmap in memory is truthful, and so is whatever record there is,
  // because it claims no more.
  ghost predicate SessionOk(H: bytes -> bytes, m: Meta, out: Option<bytes>, rec: Option<bytes>, bitmap: seq<bool>)
    requires m.Ok()
  {
    && out.Some? && |out.value| == m.size && |bitmap| == m.Count()
    && Truthful(H, m, out.value, bitmap)
    && (m.size % CHUNK_SIZE == 0 && Complete(rec, m.Id(), m.Count()) ==>
          Below(Unpack(rec.value[HASH_SIZE..], m.Count()), bitmap))
  }

  ghost predicate Below(a: seq<bool>, b: seq<bool>)
    requires |a| == |b|
  {
    forall i :: 0 <= i < |a| && a[i] ==> b[i]
  }

  lemma SessionOkIsDiskOk(H: bytes -> bytes, m: Meta, out: Option<bytes>, rec: Option<bytes>, bitmap: seq<bool>)
    requires m.Ok() && SessionOk(H, m, out, rec, bitmap)
    ensures DiskOk(H, m, out, rec)
  {
  }

  // Receiving bytes of a chunk that is not marked done spoils nothing.
  lemma WriteKeeps(H: bytes -> bytes, m: Meta, out: bytes, rec: Option<bytes>, bitmap: seq<bool>, i: nat, at: nat, data: bytes)
    requires m.Ok() && SessionOk(H, m, Some(out), rec, bitmap) && i < m.Count() && !bitmap[i]
    requires Offset(i) <= at && at + |data| <= Offset(i) + ChunkLen(m.size, i)
    ensures SessionOk(H, m, Some(Put(out, at, data)), rec, bitmap)
  {
    hide Put, Chunk;
    PutReads(out, at, data);
    forall j | 0 <= j < m.Count() && bitmap[j] ensures Verified(H, m, Put(out, at, data), j) {
      WriteElsewhere(m, out, i, at, data, j);
      assert Verified(H, m, out, j);
    }
  }

  // The bytes of the chunks in `mask` are the same in both files.
  ghost predicate SameChunks(m: Meta, a: bytes, b: bytes, mask: seq<bool>)
    requires m.Ok() && |a| == |b| == m.size && |mask| == m.Count()
  {
    forall i :: 0 <= i < m.Count() && mask[i] ==> Chunk(a, m.size, i) == Chunk(b, m.size, i)
  }

  lemma WriteSame(m: Meta, out: bytes, first: bytes, bitmap: seq<bool>, i: nat, at: nat, data: bytes)
    requires m.Ok() && |out| == |first| == m.size && |bitmap| == m.Count() && i < m.Count() && !bitmap[i]
    requires Offset(i) <= at && at + |data| <= Offset(i) + ChunkLen(m.size, i)
    requires SameChunks(m, out, first, bitmap)
    ensures |Put(out, at, data)| == m.size && SameChunks(m, Put(out, at, data), first, bitmap)
  {
    hide Put, Chunk;
    PutReads(out, at, data);
    forall j | 0 <= j < m.Count() && bitmap[j]
      ensures Chunk(Put(out, at, data), m.size, j) == Chunk(first, m.size, j)
    {
      WriteElsewhere(m, out, i, at, data, j);
    }
  }

  // Chunk j is whole and hashes to its entry, in an output that may still be growing.
  ghost predicate Landed(H: bytes -> bytes, m: Meta, out: bytes, j: nat)
    requires m.Ok() && j < m.Count()
  {
    && Offset(j) + ChunkLen(m.size, j) <= |out|
    && H(out[Offset(j)..Offset(j) + ChunkLen(m.size, j)]) == m.hashes[j]
  }

  // A session that emptied the output without allocating it, while it receives chunk i. The
  // record claims no more than what has landed; until the first save it is the old one, which
  // does no harm unless the transfer is one full chunk that it marks.
  ghost predicate Grown(H: bytes -> bytes, m: Meta, out: Option<bytes>, rec: Option<bytes>, bitmap: seq<bool>, i: nat)
    requires m.Ok()
  {
    && i < m.Count() == |bitmap| && out.Some? && |out.value| <= Offset(i) + ChunkLen(m.size, i)
    && (forall j :: 0 <= j < m.Count() && bitmap[j] ==> Landed(H, m, out.value, j))
    && (Complete(rec, m.Id(), m.Count()) ==>
          var marked := Unpack(rec.value[HASH_SIZE..], m.Count());
          Below(marked, bitmap) || (i == 0 && !(m.size == CHUNK_SIZE && marked[0])))
  }

  lemma GrownSizes(H: bytes -> bytes, m: Meta, out: Option<bytes>, rec: Option<bytes>, bitmap: seq<bool>, i: nat)
    requires m.Ok() && Grown(H, m, out, rec, bitmap, i)
    ensures i < m.Count() == |bitmap| && out.Some? && |out.value| <= Offset(i) + ChunkLen(m.size, i)
  {
  }

  lemma GrowKeeps(H: bytes -> bytes, m: Meta, out: bytes, rec: Option<bytes>, bitmap: seq<bool>, i: nat, at: nat, data: bytes)
    requires m.Ok() && Grown(H, m, Some(out), rec, bitmap, i) && Offset(i) <= |out|
    requires forall j :: i <= j < m.Count() ==> !bitmap[j]
    requires Offset(i) <= at && at + |data| <= Offset(i) + ChunkLen(m.size, i)
    ensures Grown(H, m, Some(Put(out, at, data)), rec, bitmap, i) && Offset(i) <= |Put(out, at, data)|
  {
    hide Put;
    PutReads(out, at, data);
    forall j | 0 <= j < m.Count() && bitmap[j] ensures Landed(H, m, Put(out, at, data), j) {
      assert Landed(H, m, out, j);
      assert Offset(j) + ChunkLen(m.size, j) <= Offset(i);
      PutOutside(out, at, data, Offset(j), Offset(j) + ChunkLen(m.size, j));
    }
  }

  // Wherever such a session stops, resuming is safe: only a full-size output is ever resumed,
  // and by then every chunk but the last has been saved.
  lemma GrownIsSafe(H: bytes -> bytes, m: Meta, out: Option<bytes>, rec: Option<bytes>, bitmap: seq<bool>, i: nat)
    requires m.Ok() && Grown(H, m, out, rec, bitmap, i)
    ensures ResumeSafe(H, m, out, rec)
  {
    hide Unpack, Landed, Verified;
    if Loaded(m, out, rec).Some? {
      var marked := Loaded(m, out, rec).value;
      OnlyLastFills(m, |out.value|, i);
      forall j | 0 <= j < m.Count() && marked[j] ensures Verified(H, m, out.value, j) {
        LandedVerifies(H, m, out.value, j);
      }
    }
  }

  lemma OnlyLastFills(m: Meta, n: nat, i: nat)
    requires m.Ok() && i < m.Count() && n <= Offset(i) + ChunkLen(m.size, i) && n == m.Count() * CHUNK_SIZE
    ensures i == m.Count() - 1 && n == m.size
  {
  }

  lemma LandedVerifies(H: bytes -> bytes, m: Meta, out: bytes, j: nat)
    requires m.Ok() && |out| == m.size && j < m.Count()
    ensures Landed(H, m, out, j) <==> Verified(H, m, out, j)
  {
  }

  // After its last chunk it is a session like any other.
  lemma GrownUp(H: bytes -> bytes, m: Meta, out: Option<bytes>, rec: Option<bytes>, bitmap: seq<bool>)
    requires m.Ok() && Grown(H, m, out, rec, bitmap, m.Count() - 1) && |out.value| == m.size
    requires Complete(rec, m.Id(), m.Count()) ==> Below(Unpack(rec.value[HASH_SIZE..], m.Count()), bitmap)
    ensures SessionOk(H, m, out, rec, bitmap)
  {
    hide Unpack, Landed, Verified;
    forall j | 0 <= j < m.Count() && bitmap[j] ensures Verified(H, m, out.value, j) {
      LandedVerifies(H, m, out.value, j);
    }
  }

  // What the peer, the memory map and the crash did to a session: the requests went out, chunk
  // i's header came and was right, its bytes came, it could be mapped, the process died.
  datatype Happening = Asked(chunks: seq<nat>, ok: bool) | Header(i: nat, ok: bool) | Received(i: nat, ok: bool) | Mapped(i: nat, ok: bool) | Died

  datatype Arrived = Whole | Broken | Dead

  predicate Good(h: Happening) {
    match h case Asked(_, ok) => ok case Header(_, ok) => ok case Received(_, ok) => ok case Mapped(_, ok) => ok case Died => false
  }

  // Chunk i has been received and looked at.
  ghost predicate FetchedAt(events: seq<Happening>, b: nat, i: nat) {
    b + 3 <= |events| && events[b] == Header(i, true) && events[b + 1] == Received(i, true) && events[b + 2] == Mapped(i, true)
  }

  // One chunk from a to the end: without a result it went through; an exception follows the
  // first thing that went wrong, and Crashed follows the death of the process.
  ghost predicate FetchTrace(events: seq<Happening>, a: nat, i: nat, r: Option<Outcome>) {
    match r
    case None => FetchedAt(events, a, i) && |events| == a + 3
    case Some(o) =>
      && a < |events| <= a + 4 && EndsIn(events, o)
      && (|events| > a + 1 ==> events[a] == Header(i, true))
      && (|events| > a + 2 ==> events[a + 1] == Received(i, true))
      && (|events| > a + 3 ==> events[a + 2] == Mapped(i, true))
      && var last := events[|events| - 1];
         last == Died || last == (if |events| == a + 1 then Header(i, false) else if |events| == a + 2 then Received(i, false) else Mapped(i, false))
  }

  ghost predicate EndsIn(events: seq<Happening>, o: Outcome) {
    && events != [] && !Good(events[|events| - 1])
    && (if events[|events| - 1] == Died then o.Crashed? else o.Threw?)
  }

  // The first n of the needed chunks went through, in order, after they had all been asked for.
  ghost predicate FetchedUpTo(events: seq<Happening>, a: nat, needed: seq<nat>, n: nat) {
    && n <= |needed| && a + 1 + 3 * n <= |events| && events[a] == Asked(needed, true)
    && forall k :: 0 <= k < n ==> FetchedNo(events, a, needed, k)
  }

  ghost predicate FetchedNo(events: seq<Happening>, a: nat, needed: seq<nat>, k: nat)
    requires k < |needed|
  {
    FetchedAt(events, a + 1 + 3 * k, needed[k])
  }

  // A session from a to the end: all the needed chunks went through and the session came to its
  // end, or it stopped at the first thing that went wrong.
  ghost predicate SessionTrace(events: seq<Happening>, a: nat, needed: seq<nat>, r: Outcome) {
    if !r.Crashed? && !r.Threw? then FetchedUpTo(events, a, needed, |needed|) && |events| == a + 1 + 3 * |needed|
    else EndsIn(events, r) && (|events| == a + 1 || exists n :: StoppedAt(events, a, needed, n, r))
  }

  // Chunk n of those needed stopped the session, or after the last one the process died.
  ghost predicate StoppedAt(events: seq<Happening>, a: nat, needed: seq<nat>, n: nat, r: Outcome) {
    && FetchedUpTo(events, a, needed, n)
    && if n < |needed| then FetchTrace(events, a + 1 + 3 * n, needed[n], Some(r)) else |events| == a + 2 + 3 * n && events[a + 1 + 3 * n] == Died
  }

  // The output file and the record. `life` counts the system calls left before the crash;
  // each call below is one, and returns false, changing nothing, when the process is gone.
  class Disk {
    var out: Option<bytes>
    var rec: Option<bytes>
    var life: nat
    ghost var events: seq<Happening>

    method Step() returns (alive: bool)
      modifies `life, `events
      ensures alive <==> old(life) > 0
      ensures life == if alive then old(life) - 1 else 0
      ensures events == if alive then old(events) else old(events) + [Died]
    {
      alive := life > 0;
      if alive { life := life - 1; } else { events := events + [Died]; }
    }

    // open(out, O_RDWR | O_CREAT | O_TRUNC)
    method OpenFresh() returns (alive: bool)
      modifies this
      ensures rec == old(rec) && out == if alive then Some([]) else old(out)
      ensures (alive <==> old(life) > 0) && life == if alive then old(life) - 1 else 0
      ensures events == if alive then old(events) else old(events) + [Died]
    {
      alive := Step();
      if alive { out := Some([]); }
    }

    method FTruncate(size: nat) returns (alive: bool)
      requires out == Some([])
      modifies this
      ensures rec == old(rec) && out == if alive then Some(Zeros(size)) else old(out)
      ensures (alive <==> old(life) > 0) && life == if alive then old(life) - 1 else 0
      ensures events == if alive then old(events) else old(events) + [Died]
    {
      alive := Step();
      if alive { out := Some(Zeros(size)); }
    }

    method WriteOut(at: nat, data: bytes) returns (alive: bool)
      requires out.Some?
      modifies this
      ensures rec == old(rec) && out == if alive then Some(Put(old(out).value, at, data)) else old(out)
      ensures (alive <==> old(life) > 0) && life == if alive then old(life) - 1 else 0
      ensures events == if alive then old(events) else old(events) + [Died]
    {
      alive := Step();
      if alive { out := Some(Put(out.value, at, data)); }
    }

    // open(record, O_WRONLY | O_CREAT | O_TRUNC)
    method OpenRecord() returns (alive: bool)
      modifies this
      ensures out == old(out) && rec == if alive then Some([]) else old(rec)
      ensures (alive <==> old(life) > 0) && life == if alive then old(life) - 1 else 0
      ensures events == if alive then old(events) else old(events) + [Died]
    {
      alive := Step();
      if alive { rec := Some([]); }
    }

    // write_exact: appended in any number of pieces, so a crash may leave any prefix.
    method AppendExact(data: bytes) returns (alive: bool)
      requires rec.Some?
      modifies this
      ensures out == old(out) && rec.Some?
      ensures exists k :: 0 <= k <= |data| && rec.value == old(rec).value + data[..k] && (alive ==> k == |data|)
      ensures life + |data| >= old(life) && (old(life) >= |data| ==> alive)
      ensures events == if alive then old(events) else old(events) + [Died]
    {
      var done := 0;
      while done < |data|
        invariant 0 <= done <= |data| && out == old(out) && life + done >= old(life) && events == old(events)
        invariant rec.Some? && rec.value == old(rec).value + data[..done]
      {
        alive := Step();
        if !alive { return; }
        var n :| 1 <= n <= |data| - done;
        assert data[..done] + data[done..done + n] == data[..done + n];
        rec := Some(rec.value + data[done..done + n]);
        done := done + n;
      }
      alive := true;
    }

    method Unlink() returns (alive: bool)
      modifies this
      ensures out == old(out) && rec == if alive then None else old(rec)
      ensures events == if alive then old(events) else old(events) + [Died]
    {
      alive := Step();
      if alive { rec := None; }
    }

    // The requests, and the COMPLETE after them.
    method SendRequests(needed: seq<nat>) returns (ok: bool)
      modifies `events
      ensures events == old(events) + [Asked(needed, ok)]
    {
      ok :| true;
      events := events + [Asked(needed, ok)];
    }

    // CHUNK_HDR; false for another message or another index.
    method RecvHeader(i: nat) returns (ok: bool)
      modifies `events
      ensures events == old(events) + [Header(i, ok)]
    {
      ok :| true;
      events := events + [Header(i, ok)];
    }

    method MapChunk(i: nat) returns (ok: bool)
      modifies `events
      ensures events == old(events) + [Mapped(i, ok)]
    {
      ok :| true;
      events := events + [Mapped(i, ok)];
    }

    // recv_file for chunk i: any bytes in any order inside the chunk's range; it may fail,
    // or the process may die, after any of them.
    method RecvFile(ghost H: bytes -> bytes, m: Meta, i: nat, ghost bitmap: seq<bool>) returns (r: Arrived)
      requires m.Ok() && SessionOk(H, m, out, rec, bitmap) && i < m.Count() && !bitmap[i]
      modifies this
      ensures SessionOk(H, m, out, rec, bitmap) && rec == old(rec) && out.Some? && |out.value| == m.size
      ensures SameChunks(m, out.value, old(out).value, bitmap)
      ensures events == old(events) + [if r == Dead then Died else Received(i, r == Whole)]
    {
      hide SessionOk, SameChunks, Put;
      LeftTruthful(H, m, out, rec, bitmap);
      SameAtStart(m, out.value, bitmap);
      var pieces: nat :| true;
      while pieces > 0
        invariant events == old(events)
        invariant SessionOk(H, m, out, rec, bitmap) && rec == old(rec) && out.Some? && |out.value| == m.size
        invariant SameChunks(m, out.value, old(out).value, bitmap)
      {
        var at: nat, data: bytes :| true;
        if Offset(i) <= at && at + |data| <= Offset(i) + ChunkLen(m.size, i) {
          WriteKeeps(H, m, out.value, rec, bitmap, i, at, data);
          WriteSame(m, out.value, old(out).value, bitmap, i, at, data);
          var alive := WriteOut(at, data);
          if !alive { return Dead; }
        }
        pieces := pieces - 1;
      }
      var ok: bool :| true;
      events := events + [Received(i, ok)];
      return if ok then Whole else Broken;
    }

    // The same while the output is still growing: it holds the chunks before i and at most
    // chunk i. A normal return has received all of the chunk.
    method RecvGrowing(ghost H: bytes -> bytes, m: Meta, i: nat, ghost bitmap: seq<bool>) returns (r: Arrived)
      requires m.Ok() && Grown(H, m, out, rec, bitmap, i) && Offset(i) <= |out.value|
      requires forall j :: i <= j < m.Count() ==> !bitmap[j]
      modifies this
      ensures Grown(H, m, out, rec, bitmap, i) && rec == old(rec)
      ensures r == Whole ==> |out.value| == Offset(i) + ChunkLen(m.size, i)
      ensures events == old(events) + [if r == Dead then Died else Received(i, r == Whole)]
    {
      hide Grown, Put;
      GrownSizes(H, m, out, rec, bitmap, i);
      var pieces: nat :| true;
      while pieces > 0
        invariant events == old(events)
        invariant Grown(H, m, out, rec, bitmap, i) && rec == old(rec) && out.Some? && Offset(i) <= |out.value|
      {
        var at: nat, data: bytes :| true;
        if Offset(i) <= at && at + |data| <= Offset(i) + ChunkLen(m.size, i) {
          GrowKeeps(H, m, out.value, rec, bitmap, i, at, data);
          var alive := WriteOut(at, data);
          if !alive { return Dead; }
        }
        pieces := pieces - 1;
      }
      GrownSizes(H, m, out, rec, bitmap, i);
      var ok: bool :| true;
      ok := ok && |out.value| == Offset(i) + ChunkLen(m.size, i);
      events := events + [Received(i, ok)];
      return if ok then Whole else Broken;
    }
  }

  datatype Outcome =
    | Crashed               // the process died
    | Threw                 // an exception ended the session
    | TransferComplete
    | TransferIncomplete(todo: nat)

  // save: rewritten in place, so a crash may leave any prefix of the new record.
  method SaveRecord(m: Meta, disk: Disk, cm: ChunkManager) returns (alive: bool)
    requires m.Ok() && |cm.bitmap| == m.Count()
    modifies disk
    ensures disk.out == old(disk.out)
    ensures alive ==> disk.rec.Some? && RecordOf(disk.rec.value, m.Id(), cm.bitmap)
    ensures Complete(disk.rec, m.Id(), m.Count()) ==>
              disk.rec == old(disk.rec) || Unpack(disk.rec.value[HASH_SIZE..], m.Count()) == cm.bitmap
    ensures old(disk.life) > HASH_SIZE + BitmapBytes(m.Count()) ==> alive
    ensures disk.events == if alive then old(disk.events) else old(disk.events) + [Died]
  {
    alive := disk.OpenRecord();
    if !alive { return; }
    assert m.Id() in m.hashes;
    alive := disk.AppendExact(m.Id());
    if !alive { return; }
    var raw := Pack(cm.bitmap);
    ghost var full := m.Id() + raw;
    assert disk.rec.value == m.Id() && full[HASH_SIZE..] == raw;
    alive := disk.AppendExact(raw);
    ghost var rec := disk.rec.value;
    if |rec| == |full| {
      assert rec == full && rec[..HASH_SIZE] == m.Id();
      LoadGivesSaved(rec, Some(m.Count() * CHUNK_SIZE), m.Id(), cm.bitmap);
    }
  }

  method Save(ghost H: bytes -> bytes, m: Meta, disk: Disk, cm: ChunkManager) returns (alive: bool)
    requires m.Ok() && SessionOk(H, m, disk.out, disk.rec, cm.bitmap)
    modifies disk
    ensures disk.out == old(disk.out) && SessionOk(H, m, disk.out, disk.rec, cm.bitmap)
    ensures alive ==> disk.rec.Some? && RecordOf(disk.rec.value, m.Id(), cm.bitmap)
    ensures Complete(disk.rec, m.Id(), m.Count()) ==>
              disk.rec == old(disk.rec) || Unpack(disk.rec.value[HASH_SIZE..], m.Count()) == cm.bitmap
    ensures disk.events == if alive then old(disk.events) else old(disk.events) + [Died]
  {
    hide Unpack, Verified, RecordOf;
    alive := SaveRecord(m, disk, cm);
  }

  // The record on disk, if whole, has kept every chunk that was done at the start.
  ghost predicate RecordSince(m: Meta, rec: Option<bytes>, start: seq<bool>)
    requires m.Ok() && |start| == m.Count()
  {
    Complete(rec, m.Id(), m.Count()) ==> Below(start, Unpack(rec.value[HASH_SIZE..], m.Count()))
  }

  // Verify chunk i against its hash and record the result.
  method CheckChunk(H: bytes -> bytes, m: Meta, disk: Disk, cm: ChunkManager, i: nat)
    requires m.Ok() && SessionOk(H, m, disk.out, disk.rec, cm.bitmap) && i < m.Count() && !cm.bitmap[i]
    modifies cm
    ensures cm.bitmap == old(cm.bitmap)[i := Verified(H, m, disk.out.value, i)]
    ensures SessionOk(H, m, disk.out, disk.rec, cm.bitmap)
  {
    if H(Chunk(disk.out.value, m.size, i)) == m.hashes[i] {
      var _ := cm.MarkDone(i);
    } else {
      var _ := cm.MarkTodo(i);
    }
  }

  function Loaded(m: Meta, out: Option<bytes>, rec: Option<bytes>): Option<seq<bool>>
    requires 0 < |m.hashes| < 0x20_0000
  {
    Load(rec, Size(out), m.Id(), m.Count())
  }

  lemma ResumeStarts(H: bytes -> bytes, m: Meta, out: Option<bytes>, rec: Option<bytes>)
    requires m.Ok() && DiskOk(H, m, out, rec) && Loaded(m, out, rec).Some?
    ensures SessionOk(H, m, out, rec, Loaded(m, out, rec).value)
    ensures RecordSince(m, rec, Loaded(m, out, rec).value)
  {
    hide Verified, Unpack;
  }

  // What load rejects cannot become acceptable by preallocating the output.
  lemma FreshStarts(H: bytes -> bytes, m: Meta, out: Option<bytes>, rec: Option<bytes>, zeros: bytes, none: seq<bool>)
    requires m.Ok() && DiskOk(H, m, out, rec) && Loaded(m, out, rec).None?
    requires |zeros| == m.size && |none| == m.Count() && forall i :: 0 <= i < m.Count() ==> !none[i]
    ensures DiskOk(H, m, Some([]), rec)
    ensures SessionOk(H, m, Some(zeros), rec, none)
    ensures RecordSince(m, rec, none)
  {
    hide Verified, Unpack;
  }

  // The output after a fresh start that the process survives for `life` system calls.
  function StartedOut(m: Meta, out: Option<bytes>, life: nat): Option<bytes> {
    if life == 0 then out else if life == 1 then Some([]) else Some(Zeros(m.size))
  }

  // Load the record and open the output: resume at full size, or start afresh. `reopens` says
  // whether the open for resuming succeeds; when it does not, the output is emptied without
  // being allocated again. No start touches the record.
  method OpenOutput(m: Meta, disk: Disk, reopens: bool) returns (alive: bool, cm: ChunkManager)
    requires 0 < m.Count() < 0x20_0000
    modifies disk
    ensures fresh(cm) && disk.rec == old(disk.rec)
    ensures var before := Loaded(m, old(disk.out), old(disk.rec));
            if before.Some? && reopens then alive && cm.bitmap == before.value && disk.out == old(disk.out) && disk.life == old(disk.life)
            else
              && cm.bitmap == seq(m.Count(), _ => false)
              && (before.None? ==> disk.out == StartedOut(m, old(disk.out), old(disk.life)) && (alive <==> old(disk.life) >= 2))
              && (before.None? && alive ==> disk.life == old(disk.life) - 2)
              && (before.Some? ==> disk.out == (if alive then Some([]) else old(disk.out)) && (alive <==> old(disk.life) >= 1))
              && (before.Some? && alive ==> disk.life == old(disk.life) - 1)
    ensures disk.events == if alive then old(disk.events) else old(disk.events) + [Died]
  {
    hide Load;
    var loaded := LoadRecord(disk.rec, Size(disk.out), m.Id(), m.Count());
    if loaded.Some? && reopens { return true, loaded.value; }
    cm := new ChunkManager(m.Count());
    alive := disk.OpenFresh();
    if !alive || loaded.Some? { return; }
    alive := disk.FTruncate(m.size);
  }

  // Whatever the start leaves, resumed or fresh, cut off or not, keeps the disk resumable.
  lemma StartKeeps(H: bytes -> bytes, m: Meta, out: Option<bytes>, rec: Option<bytes>, life: nat)
    requires m.Ok() && DiskOk(H, m, out, rec) && Loaded(m, out, rec).None?
    ensures DiskOk(H, m, StartedOut(m, out, life), rec)
    ensures var none := seq(m.Count(), _ => false);
            life >= 2 ==> SessionOk(H, m, StartedOut(m, out, life), rec, none) && RecordSince(m, rec, none)
  {
    var none := seq(m.Count(), _ => false);
    FreshStarts(H, m, out, rec, Zeros(m.size), none);
    SessionOkIsDiskOk(H, m, Some(Zeros(m.size)), rec, none);
  }

  // What a session has kept since its start: the chunks that were done then.
  ghost predicate Kept(m: Meta, disk: Disk, cm: ChunkManager, start: seq<bool>, startOut: bytes)
    requires m.Ok()
    reads disk`out, disk`rec, cm
  {
    && |start| == |cm.bitmap| == m.Count() && disk.out.Some? && |disk.out.value| == |startOut| == m.size
    && Below(start, cm.bitmap) && SameChunks(m, disk.out.value, startOut, start) && RecordSince(m, disk.rec, start)
  }

  // One requested chunk: header, bytes, verification, save.
  method FetchChunk(H: bytes -> bytes, m: Meta, disk: Disk, cm: ChunkManager, i: nat,
                    ghost start: seq<bool>, ghost startOut: bytes) returns (r: Option<Outcome>)
    requires m.Ok() && SessionOk(H, m, disk.out, disk.rec, cm.bitmap) && Kept(m, disk, cm, start, startOut)
    requires i < m.Count() && !cm.bitmap[i]
    modifies disk, cm
    ensures SessionOk(H, m, disk.out, disk.rec, cm.bitmap) && Kept(m, disk, cm, start, startOut)
    ensures forall j :: 0 <= j < m.Count() && j != i ==> cm.bitmap[j] == old(cm.bitmap)[j]
    ensures r.None? ==> cm.bitmap[i] == Verified(H, m, disk.out.value, i)
    ensures r.None? ==> disk.rec.Some? && RecordOf(disk.rec.value, m.Id(), cm.bitmap)
    ensures FetchTrace(disk.events, |old(disk.events)|, i, r) && old(disk.events) <= disk.events
  {
    hide Truthful, Chunk, Unpack;
    var header := disk.RecvHeader(i);
    if !header { return Some(Threw); }
    ghost var wasOut := disk.out.value;
    var arrived := disk.RecvFile(H, m, i, cm.bitmap);
    SameChunksStep(m, disk.out.value, wasOut, startOut, start, cm.bitmap);
    if arrived == Dead { return Some(Crashed); }
    if arrived == Broken { return Some(Threw); }
    var mapped := disk.MapChunk(i);
    if !mapped { return Some(Threw); }
    CheckChunk(H, m, disk, cm, i);
    var alive := Save(H, m, disk, cm);
    return if alive then None else Some(Crashed);
  }

  lemma SameChunksStep(m: Meta, now: bytes, was: bytes, first: bytes, start: seq<bool>, bitmap: seq<bool>)
    requires m.Ok() && |now| == |was| == |first| == m.size && |start| == |bitmap| == m.Count()
    requires Below(start, bitmap) && SameChunks(m, now, was, bitmap) && SameChunks(m, was, first, start)
    ensures SameChunks(m, now, first, start)
  {
  }

  // A session from reading the record to the end. `ask` is the list of chunks requested.
  method RunPull(H: bytes -> bytes, m: Meta, disk: Disk) returns (r: Outcome, ask: seq<nat>)
    requires m.Ok() && DiskOk(H, m, disk.out, disk.rec)
    modifies disk
    ensures DiskOk(H, m, disk.out, disk.rec)
    ensures r.TransferComplete? ==> Finished(H, m, disk)
    ensures r.TransferIncomplete? ==> Unfinished(H, m, disk, r.todo)
    // How it ends is what happened to it: with every needed chunk asked for and gone through in
    // order, or at the first thing that went wrong.
    ensures old(disk.events) <= disk.events && Increasing(ask)
    ensures SessionTrace(disk.events, |old(disk.events)|, ask, r)
    ensures Loaded(m, old(disk.out), old(disk.rec)).None? && |disk.events| > |old(disk.events)| && disk.events[|old(disk.events)|].Asked? ==>
              ask == Needed(seq(m.Count(), _ => false))
    // Whatever happens, the chunks done at the start keep their bytes and stay recorded,
    // and only the others are requested.
    ensures var before := Loaded(m, old(disk.out), old(disk.rec));
            before.Some? ==>
              && ask == Needed(before.value)
              && disk.out.Some? && |disk.out.value| == m.size
              && SameChunks(m, disk.out.value, old(disk.out).value, before.value)
              && var after := Loaded(m, disk.out, disk.rec);
                 after.Some? ==> Below(before.value, after.value)
  {
    hide SessionTrace, Truthful, Verified, Chunk, Unpack, SessionOk, DiskOk, RecordSince, Load, RecordOf, Needed, SameChunks, Below, Kept, Finished, Unfinished;
    ghost var out0, life0 := disk.out, disk.life;
    if Loaded(m, out0, disk.rec).Some? { ResumeStarts(H, m, out0, disk.rec); } else { StartKeeps(H, m, out0, disk.rec, life0); }
    ghost var a := |disk.events|;
    var alive, cm := OpenOutput(m, disk, true);
    if !alive {
      IncreasingNone();
      DiedAtOnce(disk.events, a, []);
      return Crashed, [];
    }
    LeftTruthful(H, m, disk.out, disk.rec, cm.bitmap);
    KeptAtStart(H, m, disk, cm);
    ghost var start, startOut := cm.bitmap, disk.out.value;
    var needed := cm.NeededChunks();
    NeededIsUnset(cm.bitmap);
    var sent := disk.SendRequests(needed);
    if !sent {
      NotAsked(disk.events, a, needed);
      KeptMeans(H, m, disk, cm, start, startOut);
      return Threw, needed;
    }
    r := FetchAll(H, m, disk, cm, needed, a, start, startOut);
    return r, needed;
  }

  lemma IncreasingNone()
    ensures Increasing([])
  {
  }

  lemma KeptAtStart(H: bytes -> bytes, m: Meta, disk: Disk, cm: ChunkManager)
    requires m.Ok() && SessionOk(H, m, disk.out, disk.rec, cm.bitmap) && RecordSince(m, disk.rec, cm.bitmap)
    ensures Kept(m, disk, cm, cm.bitmap, disk.out.value)
  {
    SameAtStart(m, disk.out.value, cm.bitmap);
  }

  // What a session that has kept its start leaves behind.
  lemma KeptMeans(H: bytes -> bytes, m: Meta, disk: Disk, cm: ChunkManager, start: seq<bool>, startOut: bytes)
    requires m.Ok() && SessionOk(H, m, disk.out, disk.rec, cm.bitmap) && Kept(m, disk, cm, start, startOut)
    ensures Leaves(H, m, disk.out, disk.rec, start, startOut)
  {
    SessionOkIsDiskOk(H, m, disk.out, disk.rec, cm.bitmap);
    RecordKept(m, disk.out, disk.rec, start);
  }

  // The disk is in order, and the chunks of `start` have kept their bytes and stay recorded.
  ghost predicate Leaves(H: bytes -> bytes, m: Meta, out: Option<bytes>, rec: Option<bytes>, start: seq<bool>, startOut: bytes)
    requires m.Ok()
  {
    && DiskOk(H, m, out, rec)
    && |start| == m.Count() && |startOut| == m.size && out.Some? && |out.value| == m.size
    && SameChunks(m, out.value, startOut, start)
    && var after := Loaded(m, out, rec);
       after.Some? ==> Below(start, after.value)
  }

  // The loop over the needed chunks, and the end of the session.
  method FetchAll(H: bytes -> bytes, m: Meta, disk: Disk, cm: ChunkManager, needed: seq<nat>, ghost a: nat,
                  ghost start: seq<bool>, ghost startOut: bytes) returns (r: Outcome)
    requires m.Ok() && SessionOk(H, m, disk.out, disk.rec, cm.bitmap) && Kept(m, disk, cm, start, startOut)
    requires start == cm.bitmap && needed == Needed(start)
    requires |disk.events| == a + 1 && disk.events[a] == Asked(needed, true)
    modifies disk, cm
    ensures old(disk.events) <= disk.events && SessionTrace(disk.events, a, needed, r)
    ensures Leaves(H, m, disk.out, disk.rec, start, startOut)
    ensures r.TransferComplete? ==> Finished(H, m, disk)
    ensures r.TransferIncomplete? ==> Unfinished(H, m, disk, r.todo)
  {
    hide FetchTrace, FetchedAt, FetchedUpTo, SessionTrace, Truthful, Verified, Chunk, Unpack, SessionOk, RecordOf, Needed, Kept, Leaves, Finished, Unfinished, Increasing;
    KeptSizes(m, disk, cm, start, startOut);
    NeededIsUnset(start);
    forall j | 0 <= j < |needed| ensures needed[j] < m.Count() && !cm.bitmap[needed[j]] {
      assert needed[j] in needed;
    }
    NeededDistinct(needed);
    NoneFetched(disk.events, a, needed);
    var k := 0;
    while k < |needed|
      invariant 0 <= k <= |needed| && old(disk.events) <= disk.events
      invariant |disk.events| == a + 1 + 3 * k && FetchedUpTo(disk.events, a, needed, k)
      invariant SessionOk(H, m, disk.out, disk.rec, cm.bitmap) && Kept(m, disk, cm, start, startOut)
      invariant |cm.bitmap| == m.Count() && (k == 0 ==> cm.bitmap == start)
      invariant forall j :: k <= j < |needed| ==> needed[j] < m.Count() && !cm.bitmap[needed[j]]
      invariant k > 0 ==> disk.rec.Some? && RecordOf(disk.rec.value, m.Id(), cm.bitmap)
    {
      ghost var events := disk.events;
      var stop := FetchChunk(H, m, disk, cm, needed[k], start, startOut);
      MoreFetched(events, disk.events, a, needed, k, stop);
      KeptSizes(m, disk, cm, start, startOut);
      if stop.Some? {
        KeptMeans(H, m, disk, cm, start, startOut);
        return stop.value;
      }
      k := k + 1;
    }
    KeptMeans(H, m, disk, cm, start, startOut);
    ghost var events, rec := disk.events, disk.rec;
    r := Finish(H, m, disk, cm);
    AllFetched(events, disk.events, a, needed, r);
    LeavesWithout(H, m, disk.out, rec, start, startOut);
  }

  lemma KeptSizes(m: Meta, disk: Disk, cm: ChunkManager, start: seq<bool>, startOut: bytes)
    requires m.Ok() && Kept(m, disk, cm, start, startOut)
    ensures |cm.bitmap| == m.Count()
  {
  }

  lemma NeededDistinct(needed: seq<nat>)
    requires Increasing(needed)
    ensures forall i, j :: 0 <= i < j < |needed| ==> needed[i] != needed[j]
  {
  }

  // Removing the record changes none of that.
  lemma LeavesWithout(H: bytes -> bytes, m: Meta, out: Option<bytes>, rec: Option<bytes>, start: seq<bool>, startOut: bytes)
    requires m.Ok() && Leaves(H, m, out, rec, start, startOut)
    ensures Leaves(H, m, out, None, start, startOut)
  {
  }

  // The end of a session: every chunk has been tried.
  method Finish(H: bytes -> bytes, m: Meta, disk: Disk, cm: ChunkManager) returns (r: Outcome)
    requires m.Ok() && SessionOk(H, m, disk.out, disk.rec, cm.bitmap)
    requires Needed(cm.bitmap) != [] ==> disk.rec.Some? && RecordOf(disk.rec.value, m.Id(), cm.bitmap)
    modifies disk
    ensures !r.Threw? && DiskOk(H, m, disk.out, disk.rec)
    ensures disk.out == old(disk.out) && (disk.rec == old(disk.rec) || disk.rec == None)
    ensures r.TransferComplete? ==> Finished(H, m, disk)
    ensures r.TransferIncomplete? ==> Unfinished(H, m, disk, r.todo)
    ensures disk.events == if r.Crashed? then old(disk.events) + [Died] else old(disk.events)
  {
    hide Truthful, Verified, Chunk, Unpack, SessionOk, DiskOk, Load, RecordOf, Needed;
    SessionOkIsDiskOk(H, m, disk.out, disk.rec, cm.bitmap);
    var done := cm.AllDone();
    if done {
      AllVerified(H, m, disk.out, disk.rec, cm.bitmap);
      var alive := disk.Unlink();
      return if alive then TransferComplete else Crashed;
    }
    var todo := cm.NeededChunks();
    LeftTruthful(H, m, disk.out, disk.rec, cm.bitmap);
    return TransferIncomplete(|todo|);
  }

  lemma NoneFetched(events: seq<Happening>, a: nat, needed: seq<nat>)
    requires |events| == a + 1 && events[a] == Asked(needed, true)
    ensures FetchedUpTo(events, a, needed, 0)
  {
  }

  lemma FetchedStays(e0: seq<Happening>, e1: seq<Happening>, a: nat, needed: seq<nat>, n: nat)
    requires FetchedUpTo(e0, a, needed, n) && e0 <= e1
    ensures FetchedUpTo(e1, a, needed, n)
  {
    forall k | 0 <= k < n ensures FetchedNo(e1, a, needed, k) { assert FetchedNo(e0, a, needed, k); }
  }

  lemma MoreFetched(e0: seq<Happening>, e1: seq<Happening>, a: nat, needed: seq<nat>, k: nat, stop: Option<Outcome>)
    requires k < |needed| && FetchedUpTo(e0, a, needed, k) && |e0| == a + 1 + 3 * k && e0 <= e1 && FetchTrace(e1, |e0|, needed[k], stop)
    ensures stop.None? ==> FetchedUpTo(e1, a, needed, k + 1) && |e1| == a + 1 + 3 * (k + 1)
    ensures stop.Some? ==> SessionTrace(e1, a, needed, stop.value) && (stop.value.Crashed? || stop.value.Threw?)
  {
    FetchedStays(e0, e1, a, needed, k);
    if stop.None? {
      assert FetchedNo(e1, a, needed, k);
    } else {
      assert StoppedAt(e1, a, needed, k, stop.value);
    }
  }

  lemma AllFetched(e0: seq<Happening>, e1: seq<Happening>, a: nat, needed: seq<nat>, r: Outcome)
    requires FetchedUpTo(e0, a, needed, |needed|) && |e0| == a + 1 + 3 * |needed| && !r.Threw?
    requires e1 == if r.Crashed? then e0 + [Died] else e0
    ensures SessionTrace(e1, a, needed, r)
  {
    FetchedStays(e0, e1, a, needed, |needed|);
    if r.Crashed? { assert StoppedAt(e1, a, needed, |needed|, r); }
  }

  // A finished transfer is wholly verified and leaves no record.
  ghost predicate Finished(H: bytes -> bytes, m: Meta, disk: Disk)
    requires m.Ok()
    reads disk
  {
    && disk.rec == None && disk.out.Some? && |disk.out.value| == m.size
    && forall i :: 0 <= i < m.Count() ==> Verified(H, m, disk.out.value, i)
  }

  // An unfinished one leaves a record of exactly what is left to do.
  ghost predicate Unfinished(H: bytes -> bytes, m: Meta, disk: Disk, todo: nat)
    requires m.Ok()
    reads disk
  {
    && disk.out.Some? && |disk.out.value| == m.size && disk.rec.Some?
    && exists bitmap :: |bitmap| == m.Count() && RecordOf(disk.rec.value, m.Id(), bitmap)
         && Truthful(H, m, disk.out.value, bitmap) && 0 < todo == |Needed(bitmap)|
  }

  lemma SameAtStart(m: Meta, out: bytes, start: seq<bool>)
    requires m.Ok() && |out| == m.size && |start| == m.Count()
    ensures Below(start, start) && SameChunks(m, out, out, start)
  {
  }

  lemma RecordKept(m: Meta, out: Option<bytes>, rec: Option<bytes>, start: seq<bool>)
    requires m.Ok() && |start| == m.Count() && RecordSince(m, rec, start)
    ensures Loaded(m, out, rec).Some? ==> Below(start, Loaded(m, out, rec).value)
    ensures Loaded(m, out, None).None?
  {
  }

  lemma LeftTruthful(H: bytes -> bytes, m: Meta, out: Option<bytes>, rec: Option<bytes>, bitmap: seq<bool>)
    requires m.Ok() && SessionOk(H, m, out, rec, bitmap)
    ensures out.Some? && |out.value| == m.size && |bitmap| == m.Count() && Truthful(H, m, out.value, bitmap)
  {
  }

  lemma AllVerified(H: bytes -> bytes, m: Meta, out: Option<bytes>, rec: Option<bytes>, bitmap: seq<bool>)
    requires m.Ok() && SessionOk(H, m, out, rec, bitmap) && forall i :: 0 <= i < |bitmap| ==> bitmap[i]
    ensures out.Some? && |out.value| == m.size
    ensures forall i :: 0 <= i < m.Count() ==> Verified(H, m, out.value, i)
    ensures DiskOk(H, m, out, None)
  {
  }

  // Verify chunk i of an output that ends with it, and record the result.
  method CheckLanded(H: bytes -> bytes, m: Meta, disk: Disk, cm: ChunkManager, i: nat)
    requires m.Ok() && Grown(H, m, disk.out, disk.rec, cm.bitmap, i) && !cm.bitmap[i]
    requires |disk.out.value| == Offset(i) + ChunkLen(m.size, i)
    modifies cm
    ensures cm.bitmap == old(cm.bitmap)[i := Landed(H, m, disk.out.value, i)]
    ensures Grown(H, m, disk.out, disk.rec, cm.bitmap, i)
  {
    hide Unpack;
    if H(disk.out.value[Offset(i)..Offset(i) + ChunkLen(m.size, i)]) == m.hashes[i] {
      var _ := cm.MarkDone(i);
    } else {
      var _ := cm.MarkTodo(i);
    }
  }

  // One chunk of a session whose output is still growing.
  method GrowChunk(H: bytes -> bytes, m: Meta, disk: Disk, cm: ChunkManager, i: nat) returns (r: Option<Outcome>)
    requires m.Ok() && Grown(H, m, disk.out, disk.rec, cm.bitmap, i) && Offset(i) <= |disk.out.value|
    requires forall j :: i <= j < m.Count() ==> !cm.bitmap[j]
    modifies disk, cm
    ensures Grown(H, m, disk.out, disk.rec, cm.bitmap, i)
    ensures forall j :: i < j < m.Count() ==> !cm.bitmap[j]
    ensures r.None? ==> |disk.out.value| == Offset(i) + ChunkLen(m.size, i)
    ensures r.None? ==> disk.rec.Some? && RecordOf(disk.rec.value, m.Id(), cm.bitmap)
    ensures r.None? ==> cm.bitmap == old(cm.bitmap)[i := Landed(H, m, disk.out.value, i)]
    ensures FetchTrace(disk.events, |old(disk.events)|, i, r) && old(disk.events) <= disk.events
  {
    hide Unpack, RecordOf, Landed;
    var header := disk.RecvHeader(i);
    if !header { return Some(Threw); }
    var arrived := disk.RecvGrowing(H, m, i, cm.bitmap);
    if arrived == Dead { return Some(Crashed); }
    if arrived == Broken { return Some(Threw); }
    var mapped := disk.MapChunk(i);
    if !mapped { return Some(Threw); }
    CheckLanded(H, m, disk, cm, i);
    var alive := SaveRecord(m, disk, cm);
    return if alive then None else Some(Crashed);
  }

  // A session that cannot reopen the output of an accepted record: it starts over in an empty
  // file. Wherever it stops, resuming is safe, unless the transfer is one full chunk that the
  // record marks (FallbackSafeIff); if it tries every chunk it ends like any other.
  method FallbackSession(H: bytes -> bytes, m: Meta, disk: Disk) returns (r: Outcome)
    requires m.Ok() && ResumeSafe(H, m, disk.out, disk.rec) && Loaded(m, disk.out, disk.rec).Some?
    requires !(m.size == CHUNK_SIZE && Loaded(m, disk.out, disk.rec).value[0])
    modifies disk
    // It asks for every chunk and takes them in order.
    ensures old(disk.events) <= disk.events && SessionTrace(disk.events, |old(disk.events)|, Needed(seq(m.Count(), _ => false)), r)
    ensures ResumeSafe(H, m, disk.out, disk.rec)
    ensures r.TransferComplete? ==> Finished(H, m, disk)
    ensures r.TransferIncomplete? ==> Unfinished(H, m, disk, r.todo)
    ensures r.TransferComplete? || r.TransferIncomplete? ==> DiskOk(H, m, disk.out, disk.rec)
  {
    hide FetchTrace, FetchedAt, FetchedUpTo, SessionTrace, Grown, ResumeSafe, SessionOk, DiskOk, RecordOf, Finished, Unfinished;
    FallbackStarts(H, m, disk.out, disk.rec);
    var alive, cm := OpenOutput(m, disk, false);
    ghost var a := |old(disk.events)|;
    ghost var none := seq(m.Count(), _ => false);
    if !alive {
      DiedAtOnce(disk.events, a, Needed(none));
      return Crashed;
    }
    AllNeeded(cm.bitmap);
    var needed := cm.NeededChunks();
    assert cm.bitmap == none;
    var sent := disk.SendRequests(needed);
    if !sent {
      NotAsked(disk.events, a, needed);
      GrownIsSafe(H, m, disk.out, disk.rec, cm.bitmap, 0);
      return Threw;
    }
    r := GrowAll(H, m, disk, cm, needed, a);
  }

  // Its loop over all the chunks, and the end.
  method GrowAll(H: bytes -> bytes, m: Meta, disk: Disk, cm: ChunkManager, needed: seq<nat>, ghost a: nat) returns (r: Outcome)
    requires m.Ok() && Grown(H, m, disk.out, disk.rec, cm.bitmap, 0) && forall j :: 0 <= j < m.Count() ==> !cm.bitmap[j]
    requires |needed| == m.Count() && forall j :: 0 <= j < |needed| ==> needed[j] == j
    requires |disk.events| == a + 1 && disk.events[a] == Asked(needed, true)
    modifies disk, cm
    ensures old(disk.events) <= disk.events && SessionTrace(disk.events, a, needed, r)
    ensures ResumeSafe(H, m, disk.out, disk.rec)
    ensures r.TransferComplete? ==> Finished(H, m, disk)
    ensures r.TransferIncomplete? ==> Unfinished(H, m, disk, r.todo)
    ensures r.TransferComplete? || r.TransferIncomplete? ==> DiskOk(H, m, disk.out, disk.rec)
  {
    hide FetchTrace, FetchedAt, FetchedUpTo, SessionTrace, Grown, ResumeSafe, SessionOk, DiskOk, RecordOf, Finished, Unfinished;
    GrownSizes(H, m, disk.out, disk.rec, cm.bitmap, 0);
    NoneFetched(disk.events, a, needed);
    var i := 0;
    while i < m.Count()
      invariant 0 <= i <= m.Count() == |cm.bitmap| && old(disk.events) <= disk.events
      invariant |disk.events| == a + 1 + 3 * i && FetchedUpTo(disk.events, a, needed, i)
      invariant i < m.Count() ==> Grown(H, m, disk.out, disk.rec, cm.bitmap, i) && disk.out.Some? && Offset(i) <= |disk.out.value|
      invariant i == m.Count() ==> SessionOk(H, m, disk.out, disk.rec, cm.bitmap)
      invariant forall j :: i <= j < m.Count() ==> !cm.bitmap[j]
      invariant i > 0 ==> disk.rec.Some? && RecordOf(disk.rec.value, m.Id(), cm.bitmap)
    {
      ghost var events := disk.events;
      var stop := GrowChunk(H, m, disk, cm, i);
      MoreFetched(events, disk.events, a, needed, i, stop);
      if stop.Some? {
        GrownIsSafe(H, m, disk.out, disk.rec, cm.bitmap, i);
        return stop.value;
      }
      GrownMore(H, m, disk.out, disk.rec, cm.bitmap, i);
      i := i + 1;
    }
    ghost var events := disk.events;
    r := Finish(H, m, disk, cm);
    AllFetched(events, disk.events, a, needed, r);
    DiskOkIsResumeSafe(H, m, disk.out, disk.rec);
  }

  lemma DiedAtOnce(events: seq<Happening>, a: nat, needed: seq<nat>)
    requires |events| == a + 1 && events[a] == Died
    ensures SessionTrace(events, a, needed, Crashed)
  {
  }

  lemma NotAsked(events: seq<Happening>, a: nat, needed: seq<nat>)
    requires |events| == a + 1 && events[a] == Asked(needed, false)
    ensures SessionTrace(events, a, needed, Threw)
  {
  }

  lemma {:induction false} AllNeeded(bitmap: seq<bool>)
    requires forall i :: 0 <= i < |bitmap| ==> !bitmap[i]
    ensures |Needed(bitmap)| == |bitmap| && forall i :: 0 <= i < |bitmap| ==> Needed(bitmap)[i] == i
  {
    if bitmap != [] { AllNeeded(bitmap[..|bitmap| - 1]); }
  }

  lemma FallbackStarts(H: bytes -> bytes, m: Meta, out: Option<bytes>, rec: Option<bytes>)
    requires m.Ok() && Loaded(m, out, rec).Some? && !(m.size == CHUNK_SIZE && Loaded(m, out, rec).value[0])
    ensures Grown(H, m, Some([]), rec, seq(m.Count(), _ => false), 0)
  {
    hide Unpack;
  }

  // The next chunk starts where this one ends.
  lemma NextChunk(m: Meta, i: nat)
    requires m.Ok() && i < m.Count()
    ensures Offset(i) + ChunkLen(m.size, i) == if i + 1 < m.Count() then Offset(i + 1) else m.size
    ensures i + 1 < m.Count() ==> 0 < ChunkLen(m.size, i + 1)
  {
  }

  // A saved record marks what was saved.
  lemma SavedMarks(m: Meta, rec: bytes, bitmap: seq<bool>)
    requires m.Ok() && |bitmap| == m.Count() && RecordOf(rec, m.Id(), bitmap)
    ensures Complete(Some(rec), m.Id(), m.Count()) && Unpack(rec[HASH_SIZE..], m.Count()) == bitmap
  {
    LoadGivesSaved(rec, Some(m.Count() * CHUNK_SIZE), m.Id(), bitmap);
    hide Unpack;
  }

  lemma GrownMore(H: bytes -> bytes, m: Meta, out: Option<bytes>, rec: Option<bytes>, bitmap: seq<bool>, i: nat)
    requires m.Ok() && Grown(H, m, out, rec, bitmap, i) && |out.value| == Offset(i) + ChunkLen(m.size, i)
    requires rec.Some? && RecordOf(rec.value, m.Id(), bitmap)
    ensures |bitmap| == m.Count() && out.Some?
    ensures if i + 1 < m.Count() then Grown(H, m, out, rec, bitmap, i + 1) && Offset(i + 1) == |out.value|
            else SessionOk(H, m, out, rec, bitmap)
  {
    SavedMarks(m, rec.value, bitmap);
    NextChunk(m, i);
    hide Unpack, Landed, RecordOf, ChunkLen, Offset, SessionOk, Complete;
    if i + 1 == m.Count() { GrownUp(H, m, out, rec, bitmap); }
  }

  // A disk on which resuming is safe is in order, unless a complete record stands beside an
  // output that it is not accepted for.
  lemma SafeIsOk(H: bytes -> bytes, m: Meta, out: Option<bytes>, rec: Option<bytes>)
    requires m.Ok() && ResumeSafe(H, m, out, rec)
    requires !(Complete(rec, m.Id(), m.Count()) && Loaded(m, out, rec).None?)
    ensures DiskOk(H, m, out, rec)
  {
    hide Unpack, Truthful;
  }

  // Any number of sessions, each crashing wherever it likes, with the reopening of the output
  // failing or not (for one full chunk see FallbackSafeIff): starting from any disk without a
  // complete record for this transfer, an accepted record is always truthful. `cut` says that
  // the last session fell back and left a complete record beside an output too short for it;
  // the fresh start that must follow is then safe at every crash point exactly when the chunks
  // that the record marks verify in a file of zeros.
  method Sessions(H: bytes -> bytes, m: Meta, disk: Disk) returns (cut: bool)
    requires m.Ok() && !Complete(disk.rec, m.Id(), m.Count())
    modifies disk
    ensures ResumeSafe(H, m, disk.out, disk.rec)
    ensures !cut ==> DiskOk(H, m, disk.out, disk.rec)
    ensures cut ==> Complete(disk.rec, m.Id(), m.Count()) && Loaded(m, disk.out, disk.rec).None?
    ensures cut ==> ((forall life: nat :: ResumeSafe(H, m, StartedOut(m, disk.out, life), disk.rec))
                     <==> forall i :: 0 <= i < m.Count() && Marks(m, disk.rec.value, i) ==> Verified(H, m, Zeros(m.size), i))
  {
    hide ResumeSafe, Load, Marks, Verified;
    NoRecordIsOk(H, m, disk.out, disk.rec);
    var sessions: nat :| true;
    while sessions > 0
      invariant DiskOk(H, m, disk.out, disk.rec)
    {
      hide DiskOk;
      var life: nat, reopens: bool :| true;
      disk.life := life;
      var before := Loaded(m, disk.out, disk.rec);
      if before.None? || reopens || (m.size == CHUNK_SIZE && before.value[0]) {
        var r, ask := RunPull(H, m, disk);
      } else {
        DiskOkIsResumeSafe(H, m, disk.out, disk.rec);
        FullChunks(H, m, disk.out, disk.rec);
        var r := FallbackSession(H, m, disk);
        if Complete(disk.rec, m.Id(), m.Count()) && Loaded(m, disk.out, disk.rec).None? {
          StaleRecordHarmlessIff(H, m, disk.out, disk.rec.value);
          return true;
        }
        SafeIsOk(H, m, disk.out, disk.rec);
      }
      sessions := sessions - 1;
    }
    DiskOkIsResumeSafe(H, m, disk.out, disk.rec);
    return false;
  }

  lemma NoRecordIsOk(H: bytes -> bytes, m: Meta, out: Option<bytes>, rec: Option<bytes>)
    requires m.Ok() && !Complete(rec, m.Id(), m.Count())
    ensures DiskOk(H, m, out, rec)
  {
  }

  // Only a size of full chunks is ever resumed.
  lemma FullChunks(H: bytes -> bytes, m: Meta, out: Option<bytes>, rec: Option<bytes>)
    requires m.Ok() && ResumeSafe(H, m, out, rec) && Loaded(m, out, rec).Some?
    ensures m.size % CHUNK_SIZE == 0
  {
  }

  // The record names its transfer by the first chunk's hash and the chunk count only. Two
  // transfers that agree on these share a record, and a record that is truthful for one is
  // truthful for the other exactly when their hashes agree on every recorded chunk.
  lemma SharedRecord(H: bytes -> bytes, m: Meta, m': Meta, out: bytes, rec: bytes)
    requires m.Ok() && m'.Ok() && m.Id() == m'.Id() && m.Count() == m'.Count() && m.size == m'.size == |out|
    requires Loaded(m, Some(out), Some(rec)).Some? && ResumeSafe(H, m, Some(out), Some(rec))
    ensures Loaded(m', Some(out), Some(rec)) == Loaded(m, Some(out), Some(rec))
    ensures ResumeSafe(H, m', Some(out), Some(rec)) <==>
            forall i :: 0 <= i < m.Count() && Loaded(m, Some(out), Some(rec)).value[i] ==> m.hashes[i] == m'.hashes[i]
  {
    hide Chunk, Unpack;
    var bitmap := Loaded(m, Some(out), Some(rec)).value;
    assert forall i :: 0 <= i < m.Count() && bitmap[i] ==> Verified(H, m, out, i);
    if ResumeSafe(H, m', Some(out), Some(rec)) {
      assert forall i :: 0 <= i < m.Count() && bitmap[i] ==> Verified(H, m', out, i);
    }
  }

  // The chunks that a complete record marks.
  ghost predicate Marks(m: Meta, rec: bytes, i: nat)
    requires m.Ok() && Complete(Some(rec), m.Id(), m.Count()) && i < m.Count()
  {
    Unpack(rec[HASH_SIZE..], m.Count())[i]
  }

  // A fresh start beside a complete record (the output was deleted, or has another size) may
  // crash after any of its system calls. The next session is safe in every case exactly when
  // no record is ever accepted for this size, or each marked chunk of an all-zero file
  // verifies: no start deletes the record, and the file is zeros from then on.
  lemma StaleRecordHarmlessIff(H: bytes -> bytes, m: Meta, out: Option<bytes>, rec: bytes)
    requires m.Ok() && Complete(Some(rec), m.Id(), m.Count()) && Loaded(m, out, Some(rec)).None?
    ensures (forall life: nat :: ResumeSafe(H, m, StartedOut(m, out, life), Some(rec)))
            <==> (m.size % CHUNK_SIZE == 0 ==>
                    forall i :: 0 <= i < m.Count() && Marks(m, rec, i) ==> Verified(H, m, Zeros(m.size), i))
  {
    hide Verified, Unpack;
    ZerosSafeIff(H, m, rec);
    assert StartedOut(m, out, 2) == Some(Zeros(m.size));
    forall life: nat | life < 2 ensures ResumeSafe(H, m, StartedOut(m, out, life), Some(rec)) {
      assert Loaded(m, Some([]), Some(rec)).None?;
    }
  }

  lemma ZerosSafeIff(H: bytes -> bytes, m: Meta, rec: bytes)
    requires m.Ok() && Complete(Some(rec), m.Id(), m.Count())
    ensures ResumeSafe(H, m, Some(Zeros(m.size)), Some(rec))
            <==> (m.size % CHUNK_SIZE == 0 ==>
                    forall i :: 0 <= i < m.Count() && Marks(m, rec, i) ==> Verified(H, m, Zeros(m.size), i))
  {
    hide Verified, Unpack;
  }

  // The same when bytes of the first chunk, which a fresh session asks for first, have
  // arrived too: its save is what replaces the record. Given that some content of that chunk
  // does not verify, the record must not mark it.
  lemma BeforeFirstSaveIff(H: bytes -> bytes, m: Meta, rec: bytes)
    requires m.Ok() && m.size % CHUNK_SIZE == 0 && Complete(Some(rec), m.Id(), m.Count())
    requires exists c: bytes :: |c| == CHUNK_SIZE && H(c) != m.hashes[0]
    ensures (forall c: bytes :: |c| == CHUNK_SIZE ==> ResumeSafe(H, m, Some(FirstChunk(m, c)), Some(rec)))
            <==> (!Marks(m, rec, 0)
                  && forall i :: 0 < i < m.Count() && Marks(m, rec, i) ==> Verified(H, m, Zeros(m.size), i))
  {
    hide Unpack, FirstChunk, ResumeSafe, Chunk;
    var bad: bytes :| |bad| == CHUNK_SIZE && H(bad) != m.hashes[0];
    forall c: bytes | |c| == CHUNK_SIZE
      ensures ResumeSafe(H, m, Some(FirstChunk(m, c)), Some(rec))
              <==> (Marks(m, rec, 0) ==> H(c) == m.hashes[0])
                   && forall i :: 0 < i < m.Count() && Marks(m, rec, i) ==> Verified(H, m, Zeros(m.size), i)
    {
      FirstChunkSafeIff(H, m, rec, c);
    }
    if !Marks(m, rec, 0) {
    } else {
      assert !ResumeSafe(H, m, Some(FirstChunk(m, bad)), Some(rec));
    }
  }

  // A zero file with chunk 0 replaced.
  ghost function FirstChunk(m: Meta, c: bytes): bytes
    requires m.Ok() && |c| == CHUNK_SIZE <= m.size
  {
    c + Zeros(m.size - CHUNK_SIZE)
  }

  lemma FirstChunkSafeIff(H: bytes -> bytes, m: Meta, rec: bytes, c: bytes)
    requires m.Ok() && m.size % CHUNK_SIZE == 0 && Complete(Some(rec), m.Id(), m.Count()) && |c| == CHUNK_SIZE
    ensures ResumeSafe(H, m, Some(FirstChunk(m, c)), Some(rec))
            <==> (Marks(m, rec, 0) ==> H(c) == m.hashes[0])
                 && forall i :: 0 < i < m.Count() && Marks(m, rec, i) ==> Verified(H, m, Zeros(m.size), i)
  {
    hide Unpack, Chunk;
    var out := FirstChunk(m, c);
    forall i | 0 <= i < m.Count()
      ensures Chunk(out, m.size, i) == if i == 0 then c else Chunk(Zeros(m.size), m.size, i)
    {
      FirstChunkChunks(m, c, i);
    }
    assert forall i :: 0 < i < m.Count() ==> (Verified(H, m, out, i) <==> Verified(H, m, Zeros(m.size), i));
    assert Verified(H, m, out, 0) <==> H(c) == m.hashes[0];
  }

  lemma FirstChunkChunks(m: Meta, c: bytes, i: nat)
    requires m.Ok() && m.size % CHUNK_SIZE == 0 && |c| == CHUNK_SIZE && i < m.Count()
    ensures Chunk(FirstChunk(m, c), m.size, i) == if i == 0 then c else Chunk(Zeros(m.size), m.size, i)
  {
    assert Offset(i) % CHUNK_SIZE == 0 && Offset(i) + CHUNK_SIZE <= m.size;
  }

  // When the output cannot be reopened it is emptied and never allocated, and grows with the
  // chunks. Until the first save that is unsafe exactly for a one-chunk transfer that the
  // record marks.
  lemma FallbackSafeIff(H: bytes -> bytes, m: Meta, rec: bytes)
    requires m.Ok() && Complete(Some(rec), m.Id(), m.Count())
    requires exists c: bytes :: |c| == CHUNK_SIZE && H(c) != m.hashes[0]
    ensures (forall p: bytes :: |p| <= ChunkLen(m.size, 0) ==> ResumeSafe(H, m, Some(p), Some(rec)))
            <==> !(m.size == CHUNK_SIZE && Marks(m, rec, 0))
  {
    hide Unpack, Verified;
    forall p: bytes | |p| <= ChunkLen(m.size, 0) && (m.size != CHUNK_SIZE || |p| != CHUNK_SIZE)
      ensures ResumeSafe(H, m, Some(p), Some(rec))
    {
      assert Loaded(m, Some(p), Some(rec)).None?;
    }
    if m.size == CHUNK_SIZE && Marks(m, rec, 0) {
      var c: bytes :| |c| == CHUNK_SIZE && H(c) != m.hashes[0];
      OneChunk(H, m, c);
      assert !ResumeSafe(H, m, Some(c), Some(rec));
    }
  }

  lemma OneChunk(H: bytes -> bytes, m: Meta, c: bytes)
    requires m.Ok() && m.size == CHUNK_SIZE == |c|
    ensures Verified(H, m, c, 0) <==> H(c) == m.hashes[0]
  {
    assert Chunk(c, m.size, 0) == c;
  }

  // The run: the record is not accepted for the output that stands there. A fresh start crashes
  // right after allocating the output; the next session then takes chunk i for done, although
  // its zeros do not verify.
  method ResumeFromStale(H: bytes -> bytes, m: Meta, disk: Disk, i: nat) returns (cm: ChunkManager)
    requires m.Ok() && m.size % CHUNK_SIZE == 0 && Loaded(m, disk.out, disk.rec).None? && disk.life == 2
    requires Complete(disk.rec, m.Id(), m.Count()) && i < m.Count() && Marks(m, disk.rec.value, i)
    requires !Verified(H, m, Zeros(m.size), i)
    modifies disk
    ensures |cm.bitmap| == m.Count() && cm.bitmap[i]
    ensures disk.out == Some(Zeros(m.size)) && !Verified(H, m, disk.out.value, i)
  {
    hide Verified, Loaded, Complete, Marks, Meta.Ok;
    ZerosAccepted(m, disk.rec, i);
    var alive, first := OpenOutput(m, disk, true);
    assert disk.life == 0 && disk.out == Some(Zeros(m.size));
    var life: nat :| true;
    disk.life := life;
    alive, cm := OpenOutput(m, disk, true);
  }

  lemma ZerosAccepted(m: Meta, rec: Option<bytes>, i: nat)
    requires m.Ok() && m.size % CHUNK_SIZE == 0 && Complete(rec, m.Id(), m.Count())
    requires i < m.Count() && Marks(m, rec.value, i)
    ensures 0 < m.Count() < 0x20_0000
    ensures var loaded := Loaded(m, Some(Zeros(m.size)), rec); loaded.Some? && |loaded.value| == m.Count() && loaded.value[i]
  {
    hide Unpack;
  }

  // So a fallback can spoil a transfer of several full chunks two sessions later. It receives
  // and saves the right first chunk and dies; what it leaves is not accepted; the fresh start
  // after it dies too; and the session after that takes a zero chunk for done.
  method FallbackThenStale(H: bytes -> bytes, m: Meta, disk: Disk, first: bytes) returns (cm: ChunkManager)
    requires m.Ok() && m.Count() > 1 && m.size % CHUNK_SIZE == 0 && Loaded(m, disk.out, disk.rec).Some?
    requires |first| == CHUNK_SIZE && H(first) == m.hashes[0] && !Verified(H, m, Zeros(m.size), 0)
    modifies disk
    ensures |cm.bitmap| == m.Count() && cm.bitmap[0]
    ensures disk.out == Some(Zeros(m.size)) && !Verified(H, m, disk.out.value, 0)
  {
    FallbackCut(m, disk, first);
    disk.life := 2;
    cm := ResumeFromStale(H, m, disk, 0);
  }

  // The session that falls back and is cut off after its first save.
  method FallbackCut(m: Meta, disk: Disk, first: bytes)
    requires m.Ok() && m.Count() > 1 && m.size % CHUNK_SIZE == 0 && Loaded(m, disk.out, disk.rec).Some?
    requires |first| == CHUNK_SIZE
    modifies disk
    ensures disk.out == Some(first) && Loaded(m, disk.out, disk.rec).None?
    ensures Complete(disk.rec, m.Id(), m.Count()) && Marks(m, disk.rec.value, 0)
  {
    hide Unpack, Load, RecordOf, Put, Complete, BitmapBytes;
    disk.life := 3 + HASH_SIZE + BitmapBytes(m.Count());
    var alive, mine := OpenOutput(m, disk, false);
    alive := disk.WriteOut(0, first);
    PutFirst(first);
    var _ := mine.MarkDone(0);
    SaveMarked(m, disk, mine);
    TooShort(m, first, disk.rec);
  }

  // A save that the process survives leaves a record that marks what the bitmap does.
  method SaveMarked(m: Meta, disk: Disk, cm: ChunkManager)
    requires m.Ok() && |cm.bitmap| == m.Count() && disk.life > HASH_SIZE + BitmapBytes(m.Count())
    modifies disk
    ensures disk.out == old(disk.out) && Complete(disk.rec, m.Id(), m.Count())
    ensures forall i :: 0 <= i < m.Count() ==> (Marks(m, disk.rec.value, i) <==> cm.bitmap[i])
  {
    hide Unpack, RecordOf, BitmapBytes;
    var alive := SaveRecord(m, disk, cm);
    SavedMarks(m, disk.rec.value, cm.bitmap);
  }

  lemma PutFirst(data: bytes)
    ensures Put([], 0, data) == data
  {
  }

  lemma TooShort(m: Meta, out: bytes, rec: Option<bytes>)
    requires 0 < |m.hashes| < 0x20_0000 && |out| != m.Count() * CHUNK_SIZE
    ensures Loaded(m, Some(out), rec).None?
  {
  }
}
