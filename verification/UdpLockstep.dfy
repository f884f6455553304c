// Sender, datagram channel, receiver and acknowledgements as one state machine. The receiver
// never looks at a datagram's chunk number; the acknowledgements keep the chunks apart.
module UdpLockstep {
  import opened Bytes
  import opened UdpWire
  import opened UdpReceive
  import UdpSend
  import opened Wrappers
  import Chunks
  import P = Protocol

  // Fragment `index` of chunk `chunk`.
  datatype Dgram = Dgram(chunk: nat, index: nat)

  // `sent` are the fragments of chunk `sk` sent so far; `got` those the receiver has for
  // chunk `rk`; `loops[k]` lists the datagrams taken while it was receiving chunk k.
  datatype State = State(sk: nat, sent: set<nat>, net: multiset<Dgram>, rk: nat, got: set<nat>,
                         loops: seq<seq<Dgram>>, acks: seq<nat>, threw: bool)

  // The sender sends a fragment or takes an acknowledgement; the channel delivers any
  // datagram it holds; the receiver finishes a chunk; a faulty channel copies a datagram.
  datatype Step = Send(i: nat) | TakeAck | Deliver(d: Dgram) | Finish | Copy(d: Dgram)

  function Start(n: seq<nat>): State {
    State(0, {}, multiset{}, 0, {}, seq(|n|, _ => []), [], false)
  }

  predicate Enabled(n: seq<nat>, s: State, e: Step)
    requires |s.loops| == |n|
  {
    && !s.threw
    && match e
       case Send(i) => s.sk < |n| && i < n[s.sk] && i !in s.sent
       case TakeAck => s.sk < |n| && UpTo(n[s.sk]) <= s.sent && s.acks != []
       case Deliver(d) => s.rk < |n| && d in s.net
       case Finish => s.rk < |n| && UpTo(n[s.rk]) <= s.got
       case Copy(d) => d in s.net
  }

  function Next(n: seq<nat>, s: State, e: Step): (t: State)
    requires |s.loops| == |n| && Enabled(n, s, e)
    ensures |t.loops| == |n|
  {
    match e
    case Send(i) => s.(sent := s.sent + {i}, net := s.net + multiset{Dgram(s.sk, i)})
    case TakeAck =>
      if s.acks[0] != s.sk then s.(acks := s.acks[1..], threw := true)
      else s.(acks := s.acks[1..], sk := s.sk + 1, sent := {})
    case Deliver(d) =>
      var t := s.(net := s.net - multiset{d}, loops := s.loops[s.rk := s.loops[s.rk] + [d]]);
      if d.index >= n[s.rk] then t.(threw := true) else t.(got := s.got + {d.index})
    case Finish => s.(acks := s.acks + [s.rk], rk := s.rk + 1, got := {})
    case Copy(d) => s.(net := s.net + multiset{d})
  }

  // A side throws at nothing but another acknowledgement than the one expected, or a fragment
  // number out of range, and after that nothing happens any more.
  lemma ThrowsWhen(n: seq<nat>, s: State, e: Step)
    requires |s.loops| == |n| && Enabled(n, s, e)
    ensures var t := Next(n, s, e);
            && (t.threw <==> (e.TakeAck? && s.acks[0] != s.sk) || (e.Deliver? && e.d.index >= n[s.rk]))
            && (t.threw ==> forall f :: !Enabled(n, t, f))
            && (e.TakeAck? ==> UpTo(n[s.sk]) <= s.sent)
  {
  }

  // The channel holds nothing when the receiver finishes a chunk. A channel that neither
  // loses nor copies always satisfies this; one that copies does if the copies arrive in time.
  ghost predicate Prompt(s: State, e: Step) {
    e.Finish? ==> s.net == multiset{}
  }

  ghost predicate Inv(n: seq<nat>, s: State) {
    && (forall k :: 0 <= k < |n| ==> n[k] > 0)
    && |s.loops| == |n| && !s.threw && s.sk <= |n| && s.rk <= |n|
    && (s.sk < |n| ==> s.sent <= UpTo(n[s.sk]))
    && (s.sk == |n| ==> s.sent == {})
    && (s.rk == s.sk ==>
          && s.acks == [] && s.got <= s.sent
          && (forall d :: d in s.net ==> d.chunk == s.sk && d.index in s.sent)
          && (forall i :: i in s.sent - s.got ==> Dgram(s.sk, i) in s.net))
    && (s.rk != s.sk ==>
          && s.rk == s.sk + 1 && s.acks == [s.sk] && s.got == {} && s.net == multiset{}
          && UpTo(n[s.sk]) <= s.sent)
    && (forall k :: 0 <= k < |n| ==> LoopOk(n, s.loops[k], k))
    && (forall k :: 0 <= k < s.rk ==> Covers(s.loops[k], k, UpTo(n[k])))
    && (s.rk < |n| ==> Covers(s.loops[s.rk], s.rk, s.got))
  }

  // Fragments with these numbers have been taken.
  ghost predicate Covers(loop: seq<Dgram>, k: nat, indices: set<nat>) {
    forall i :: i in indices ==> Dgram(k, i) in loop
  }

  // Every datagram taken in chunk k's loop is a fragment of chunk k.
  ghost predicate LoopOk(n: seq<nat>, loop: seq<Dgram>, k: nat)
    requires k < |n|
  {
    forall j :: 0 <= j < |loop| ==> loop[j].chunk == k && loop[j].index < n[k]
  }

  lemma StartOk(n: seq<nat>)
    requires forall k :: 0 <= k < |n| ==> n[k] > 0
    ensures Inv(n, Start(n))
  {
  }

  lemma StepOk(n: seq<nat>, s: State, e: Step)
    requires Inv(n, s) && Enabled(n, s, e) && Prompt(s, e)
    ensures Inv(n, Next(n, s, e))
  {
    match e
    case Send(i) => SendOk(n, s, i);
    case TakeAck => TakeAckOk(n, s);
    case Deliver(d) => DeliverOk(n, s, d);
    case Finish => FinishOk(n, s);
    case Copy(d) =>
  }

  lemma SendOk(n: seq<nat>, s: State, i: nat)
    requires Inv(n, s) && Enabled(n, s, Send(i))
    ensures Inv(n, Next(n, s, Send(i))) && s.rk == s.sk
  {
    assert i in UpTo(n[s.sk]);
    var t := Next(n, s, Send(i));
    forall j | j in t.sent - t.got ensures Dgram(t.sk, j) in t.net {
      if j != i { assert Dgram(s.sk, j) in s.net; }
    }
  }

  // The acknowledgement that arrives is always the one expected.
  lemma TakeAckOk(n: seq<nat>, s: State)
    requires Inv(n, s) && Enabled(n, s, TakeAck)
    ensures Inv(n, Next(n, s, TakeAck)) && s.acks[0] == s.sk
  {
  }

  // Every datagram that arrives belongs to the chunk being received, so the receiver never
  // throws.
  lemma DeliverOk(n: seq<nat>, s: State, d: Dgram)
    requires Inv(n, s) && Enabled(n, s, Deliver(d))
    ensures Inv(n, Next(n, s, Deliver(d))) && d.chunk == s.rk && d.index < n[s.rk]
  {
    assert s.rk == s.sk && d.index in UpTo(n[s.sk]);
    var t := Next(n, s, Deliver(d));
    forall i | i in t.sent - t.got ensures Dgram(t.sk, i) in t.net {
      assert Dgram(s.sk, i) in s.net && Dgram(s.sk, i) != d;
    }
    assert t.loops[t.rk] == s.loops[s.rk] + [d];
  }

  lemma FinishOk(n: seq<nat>, s: State)
    requires Inv(n, s) && Enabled(n, s, Finish) && s.net == multiset{}
    ensures Inv(n, Next(n, s, Finish))
  {
    hide LoopOk, Covers, UpTo;
    FinishesSame(n, s);
    if s.rk + 1 < |n| { CoversNone(s.loops[s.rk + 1], s.rk + 1); }
  }

  lemma CoversNone(loop: seq<Dgram>, k: nat)
    ensures Covers(loop, k, {})
  {
  }

  lemma FinishesSame(n: seq<nat>, s: State)
    requires Inv(n, s) && Enabled(n, s, Finish)
    ensures s.rk == s.sk && s.got == s.sent == UpTo(n[s.sk])
  {
    assert 0 in UpTo(n[s.rk]);
  }

  // Steps that are not enabled are skipped.
  function Run(n: seq<nat>, run: seq<Step>): (s: State)
    ensures |s.loops| == |n|
  {
    if run == [] then Start(n)
    else
      var s := Run(n, run[..|run| - 1]);
      if Enabled(n, s, run[|run| - 1]) then Next(n, s, run[|run| - 1]) else s
  }

  ghost predicate PromptRun(n: seq<nat>, run: seq<Step>) {
    run != [] ==>
      && PromptRun(n, run[..|run| - 1])
      && (Enabled(n, Run(n, run[..|run| - 1]), run[|run| - 1]) ==> Prompt(Run(n, run[..|run| - 1]), run[|run| - 1]))
  }

  lemma {:induction false} RunOk(n: seq<nat>, run: seq<Step>)
    requires PromptRun(n, run) && forall k :: 0 <= k < |n| ==> n[k] > 0
    ensures Inv(n, Run(n, run))
  {
    hide Inv, Next, Enabled, Prompt;
    if run == [] {
      StartOk(n);
    } else {
      RunOk(n, run[..|run| - 1]);
      var s, e := Run(n, run[..|run| - 1]), run[|run| - 1];
      if Enabled(n, s, e) { StepOk(n, s, e); }
    }
  }

  // No datagram is in the channel twice, or there although it has been received.
  ghost predicate Once(s: State) {
    forall d :: d in s.net ==> s.net[d] == 1 && (s.rk == s.sk ==> d.index !in s.got)
  }

  lemma OnceStep(n: seq<nat>, s: State, e: Step)
    requires Inv(n, s) && Once(s) && Enabled(n, s, e) && !e.Copy?
    ensures Prompt(s, e) && Once(Next(n, s, e))
  {
    if e.Finish? {
      FinishesSame(n, s);
      forall d ensures d !in s.net {}
      assert s.net == multiset{};
    } else if e.Send? {
      SendOk(n, s, e.i);
      assert Dgram(s.sk, e.i) !in s.net;
    } else if e.Deliver? {
      DeliverOk(n, s, e.d);
    }
  }

  // A channel that reorders, but neither loses nor copies, is prompt in every run.
  lemma {:induction false} ExactlyOnceIsPrompt(n: seq<nat>, run: seq<Step>)
    requires (forall k :: 0 <= k < |n| ==> n[k] > 0) && forall j :: 0 <= j < |run| ==> !run[j].Copy?
    ensures PromptRun(n, run) && Once(Run(n, run))
  {
    hide Inv, Next, Enabled, Prompt, Once;
    if run == [] {
      OnceAtStart(n);
    } else {
      var s, e := Run(n, run[..|run| - 1]), run[|run| - 1];
      ExactlyOnceIsPrompt(n, run[..|run| - 1]);
      RunOk(n, run[..|run| - 1]);
      if Enabled(n, s, e) { OnceStep(n, s, e); }
    }
  }

  lemma OnceAtStart(n: seq<nat>)
    ensures Once(Start(n))
  {
  }

  // Until the sender has its last acknowledgement, somebody can always take a step.
  lemma NeverStuck(n: seq<nat>, s: State) returns (e: Step)
    requires Inv(n, s) && s.sk < |n|
    ensures Enabled(n, s, e) && !e.Copy?
  {
    if !(UpTo(n[s.sk]) <= s.sent) {
      var i :| i in UpTo(n[s.sk]) && i !in s.sent;
      e := Send(i);
    } else if s.rk != s.sk {
      e := TakeAck;
    } else if !(UpTo(n[s.sk]) <= s.got) {
      var i :| i in UpTo(n[s.sk]) && i !in s.got;
      assert i in s.sent - s.got;
      e := Deliver(Dgram(s.sk, i));
    } else {
      e := Finish;
    }
  }

  // Every step but a copy lowers this.
  ghost function Ahead(n: seq<nat>, s: State): (nat, nat, nat, nat)
    requires Inv(n, s)
  {
    (|n| - s.sk, |n| - s.rk, if s.sk < |n| then |UpTo(n[s.sk]) - s.sent| else 0, |s.net|)
  }

  ghost predicate Below(a: (nat, nat, nat, nat), b: (nat, nat, nat, nat)) {
    || a.0 < b.0
    || (a.0 == b.0 && a.1 < b.1)
    || (a.0 == b.0 && a.1 == b.1 && a.2 < b.2)
    || (a.0 == b.0 && a.1 == b.1 && a.2 == b.2 && a.3 < b.3)
  }

  lemma StepsEnd(n: seq<nat>, s: State, e: Step)
    requires Inv(n, s) && Enabled(n, s, e) && Prompt(s, e) && !e.Copy?
    ensures Inv(n, Next(n, s, e)) && Below(Ahead(n, Next(n, s, e)), Ahead(n, s))
  {
    StepOk(n, s, e);
    hide LoopOk, Covers;
    var t := Next(n, s, e);
    if e.Send? {
      var left := UpTo(n[s.sk]) - s.sent;
      assert UpTo(n[s.sk]) - t.sent == left - {e.i} && e.i in left;
    } else if e.Deliver? {
      DeliverOk(n, s, e.d);
    } else if e.Finish? {
      FinishesSame(n, s);
    }
  }

  // At the end both sides have done every chunk; each chunk's loop took all its fragments and
  // nothing else.
  lemma FinishedRun(n: seq<nat>, run: seq<Step>, k: nat)
    requires PromptRun(n, run) && (forall j :: 0 <= j < |n| ==> n[j] > 0) && Run(n, run).sk == |n| && k < |n|
    ensures var s := Run(n, run);
            && s.rk == |n| && s.acks == [] && LoopOk(n, s.loops[k], k)
            && forall i :: 0 <= i < n[k] ==> Dgram(k, i) in s.loops[k]
  {
    RunOk(n, run);
    var s := Run(n, run);
    forall i | 0 <= i < n[k] ensures Dgram(k, i) in s.loops[k] {
      assert Covers(s.loops[k], k, UpTo(n[k])) && i in UpTo(n[k]);
    }
  }

  // ---- the bytes ----

  // How many fragments each chunk of the source has.
  ghost function FragCounts(source: bytes): seq<nat> {
    seq(Chunks.ChunkCount(|source|), (k: nat) => FragCount(|Chunks.ChunkAt(source, k)|))
  }

  // The bytes of a datagram the sender sends for chunk d.chunk.
  ghost predicate IsDgram(source: bytes, d: Dgram, b: bytes) {
    && d.chunk < P.TWO32 && d.index < P.TWO32 && d.index < FragCount(|Chunks.ChunkAt(source, d.chunk)|)
    && b == Fragment(Chunks.ChunkAt(source, d.chunk), d.chunk, d.index)
  }

  // What the receiver took in one loop, as bytes.
  ghost predicate Taken(source: bytes, loop: seq<Dgram>, seen: seq<bytes>) {
    |seen| == |loop| && forall j :: 0 <= j < |loop| ==> IsDgram(source, loop[j], seen[j])
  }

  // So in every run over such a channel what the receiver takes in each loop is genuine,
  // which is what recv_file needs for its output to be the source.
  lemma LockstepIsGenuine(source: bytes, run: seq<Step>, seenBy: seq<seq<bytes>>)
    requires PromptRun(FragCounts(source), run) && |seenBy| == Chunks.ChunkCount(|source|)
    requires forall k :: 0 <= k < |seenBy| ==> Taken(source, Run(FragCounts(source), run).loops[k], seenBy[k])
    ensures GenuineBy(seenBy, source)
  {
    var n := FragCounts(source);
    forall k: nat | k < |n| ensures 0 < n[k] { SomeFrags(source, k); }
    RunOk(n, run);
    hide Run, Taken, AllGenuine;
    var s := Run(n, run);
    forall k | 0 <= k < |seenBy| ensures AllGenuine(seenBy[k], Chunks.ChunkAt(source, k)) {
      LoopIsGenuine(source, n, s.loops[k], seenBy[k], k);
    }
  }

  lemma LoopIsGenuine(source: bytes, n: seq<nat>, loop: seq<Dgram>, seen: seq<bytes>, k: nat)
    requires k < |n| && LoopOk(n, loop, k) && Taken(source, loop, seen)
    ensures AllGenuine(seen, Chunks.ChunkAt(source, k))
  {
    hide Genuine, Fragment, FragCount;
    forall j | 0 <= j < |seen| ensures Genuine(seen[j], Chunks.ChunkAt(source, k)) {
      assert IsDgram(source, loop[j], seen[j]);
      FragmentIsGenuine(Chunks.ChunkAt(source, k), k, loop[j].index);
    }
  }

  lemma SomeFrags(source: bytes, k: nat)
    requires k < Chunks.ChunkCount(|source|)
    ensures 0 < FragCount(|Chunks.ChunkAt(source, k)|) <= 17
  {
    Upto1(|source|, k);
    FragsTile(|Chunks.ChunkAt(source, k)|, 0);
  }

  // A copy that outlives its chunk is taken for a fragment of the next one.
  lemma LateCopySpoils() returns (run: seq<Step>)
    ensures !PromptRun([1, 1], run)
    ensures var s := Run([1, 1], run); s.rk == 1 && !s.threw && s.got == {0} && s.loops[1] == [Dgram(0, 0)]
  {
    hide Run, PromptRun;
    var n := [1, 1];
    var d := Dgram(0, 0);
    var first := [Send(0), Copy(d), Deliver(d)];
    CopyStays();
    var s := Run(n, first);
    assert UpTo(1) == {0} && d in s.net;
    var t := RunMore(n, first, s, Finish);
    var u := RunMore(n, first + [Finish], t, Deliver(d));
    run := first + [Finish] + [Deliver(d)];
    NotPrompt(n, first, s, Finish, [Deliver(d)]);
  }

  lemma CopyStays()
    ensures var d := Dgram(0, 0);
            Run([1, 1], [Send(0), Copy(d), Deliver(d)]) == State(0, {0}, multiset{d}, 0, {0}, [[d], []], [], false)
  {
    hide Run, PromptRun;
    var n := [1, 1];
    var d := Dgram(0, 0);
    RunNone(n);
    assert [] + [Send(0)] == [Send(0)];
    assert [Send(0)] + [Copy(d)] == [Send(0), Copy(d)];
    assert [Send(0), Copy(d)] + [Deliver(d)] == [Send(0), Copy(d), Deliver(d)];
    var s1 := RunMore(n, [], Start(n), Send(0));
    assert s1 == State(0, {0}, multiset{d}, 0, {}, [[], []], [], false);
    var s2 := RunMore(n, [Send(0)], s1, Copy(d));
    var s3 := RunMore(n, [Send(0), Copy(d)], s2, Deliver(d));
    assert s2.net[d] == 2 && s3.net == multiset{d} && s3.got == {0};
    assert |s3.loops| == 2 && s3.loops[0] == [d] && s3.loops[1] == [];
    assert s3.loops == [[d], []];
  }

  lemma RunNone(n: seq<nat>)
    ensures Run(n, []) == Start(n)
  {
  }

  lemma RunMore(n: seq<nat>, run: seq<Step>, s: State, e: Step) returns (t: State)
    requires Run(n, run) == s && Enabled(n, s, e)
    ensures t == Next(n, s, e) && Run(n, run + [e]) == t
  {
    assert (run + [e])[..|run|] == run;
    t := Next(n, s, e);
  }

  lemma {:induction false} NotPrompt(n: seq<nat>, run: seq<Step>, s: State, e: Step, rest: seq<Step>)
    requires Run(n, run) == s && Enabled(n, s, e) && !Prompt(s, e)
    ensures !PromptRun(n, run + [e] + rest)
  {
    hide Enabled, Next, Prompt;
    if rest == [] {
      assert run + [e] + rest == run + [e] && (run + [e])[..|run|] == run;
    } else {
      var shorter := rest[..|rest| - 1];
      NotPrompt(n, run, s, e, shorter);
      var all := run + [e] + rest;
      assert all[..|all| - 1] == run + [e] + shorter;
    }
  }

  // ---- exactly when one chunk comes out right ----

  // The loop for a chunk of n fragments takes these datagrams without throwing and finishes:
  // none is short or out of range, and every number is there. A header that overstates its
  // length does not stop it.
  ghost predicate Completes(order: seq<bytes>, n: nat) {
    && (forall j :: 0 <= j < |order| ==> Takable(order[j], n))
    && forall i: nat :: i < n ==> FirstOf(order, i).Some?
  }

  // A datagram that the loop takes for a fragment of the chunk.
  ghost predicate Takable(d: bytes, n: nat) {
    |d| >= HDR && ParseHdr(d).index < n
  }

  // The fragments the sender sends for chunk number k.
  function Own(chunk: bytes, k: P.u32): (r: seq<bytes>)
    requires FragCount(|chunk|) <= P.TWO32
    ensures |r| == FragCount(|chunk|) && forall i :: 0 <= i < |r| ==> r[i] == Fragment(chunk, k, i)
  {
    UdpSend.Fragments(chunk, k, FragCount(|chunk|))
  }

  // If the loop finishes, every header told the truth and the first payload with each number
  // is the chunk's fragment, which is what recv_chunk needs for the range to be the chunk.
  ghost predicate Right(order: seq<bytes>, chunk: bytes) {
    var n := FragCount(|chunk|);
    Completes(order, n) ==> AllFit(order, n) && FirstsRight(Firsts(order, n), chunk)
  }

  lemma {:induction false} FirstStays(order: seq<bytes>, more: seq<bytes>, i: nat)
    requires FirstOf(order, i).Some?
    ensures FirstOf(order + more, i) == FirstOf(order, i)
  {
    if more == [] {
      assert order + more == order;
    } else {
      FirstStays(order, more[..|more| - 1], i);
      assert (order + more)[..|order + more| - 1] == order + more[..|more| - 1];
    }
  }

  lemma {:induction false} TakenSomewhere(order: seq<bytes>, j: nat, i: nat)
    requires j < |order| && Numbered(order[j], i)
    ensures FirstOf(order, i).Some?
  {
    if j < |order| - 1 { TakenSomewhere(order[..|order| - 1], j, i); }
  }

  // The channel holds at least the chunk's own fragments. Whatever order it delivers in, a loop
  // that finishes leaves the chunk's fragments in their places, exactly when every datagram
  // in it that the loop would take tells the truth about its length and carries the chunk's
  // bytes for its number.
  lemma ChunkRightIff(net: seq<bytes>, chunk: bytes, k: P.u32)
    requires |chunk| <= Chunks.CHUNK_SIZE && multiset(Own(chunk, k)) <= multiset(net)
    ensures (forall d :: d in net ==> Genuine(d, chunk))
            <==> (forall order: seq<bytes> :: multiset(order) <= multiset(net) ==> Right(order, chunk))
  {
    FewFragments(chunk);
    hide Right, Genuine, Own, FragCount;
    if forall d :: d in net ==> Genuine(d, chunk) {
      GoodNet(net, chunk);
    } else {
      var d :| d in net && !Genuine(d, chunk);
      BadFirst(net, chunk, k, d);
      var order := [d] + Own(chunk, k);
      assert multiset(order) <= multiset(net) && !Right(order, chunk);
    }
  }

  lemma GoodNet(net: seq<bytes>, chunk: bytes)
    requires forall d :: d in net ==> Genuine(d, chunk)
    ensures forall order: seq<bytes> :: multiset(order) <= multiset(net) ==> Right(order, chunk)
  {
    hide Right, Genuine;
    forall order: seq<bytes> | multiset(order) <= multiset(net) ensures Right(order, chunk) {
      forall d | d in order ensures d in net { assert d in multiset(order) && d in multiset(net); }
      GoodOrder(order, chunk);
    }
  }

  lemma GoodOrder(order: seq<bytes>, chunk: bytes)
    requires forall d :: d in order ==> Genuine(d, chunk)
    ensures Right(order, chunk)
  {
    hide FragCount, FirstOf, Genuine, Takable, AllFit;
    var n := FragCount(|chunk|);
    forall j | 0 <= j < |order| ensures Genuine(order[j], chunk) { assert order[j] in order; }
    GenuineFit(order, chunk);
    if Completes(order, n) {
      forall i: nat | i < n ensures FirstOf(order, i) == Some(Piece(chunk, i)) { GenuineFirsts(order, chunk, i); }
      FirstsAre(order, n);
    }
  }

  lemma BadFirst(net: seq<bytes>, chunk: bytes, k: P.u32, d: bytes)
    requires |chunk| <= Chunks.CHUNK_SIZE && multiset(Own(chunk, k)) <= multiset(net) && d in net
    requires !Genuine(d, chunk)
    ensures multiset([d] + Own(chunk, k)) <= multiset(net) && !Right([d] + Own(chunk, k), chunk)
  {
    FewFragments(chunk);
    var own := Own(chunk, k);
    OwnGenuine(chunk, k);
    hide Completes, Own, Genuine;
    OneMore(own, net, d);
    BadCompletes(chunk, k, d);
    BadIsFirst(chunk, k, d);
  }

  lemma OwnGenuine(chunk: bytes, k: P.u32)
    requires FragCount(|chunk|) <= P.TWO32
    ensures forall d :: d in Own(chunk, k) ==> Genuine(d, chunk)
    ensures forall i :: 0 <= i < FragCount(|chunk|) ==> Numbered(Own(chunk, k)[i], i) && Takable(Own(chunk, k)[i], FragCount(|chunk|))
  {
    hide FragCount, Payload, ParseHdr, Fits, Fragment, Piece;
    var own := Own(chunk, k);
    forall i | 0 <= i < |own|
      ensures Numbered(own[i], i) && Takable(own[i], FragCount(|chunk|)) && Genuine(own[i], chunk)
    {
      FragmentIsGenuine(chunk, k, i);
    }
  }

  lemma OneMore(own: seq<bytes>, net: seq<bytes>, d: bytes)
    requires multiset(own) <= multiset(net) && d in net && d !in own
    ensures multiset([d] + own) <= multiset(net)
  {
    assert multiset([d] + own) == multiset{d} + multiset(own);
    assert multiset(own)[d] == 0;
    assert d in multiset(net);
  }

  lemma BadCompletes(chunk: bytes, k: P.u32, d: bytes)
    requires FragCount(|chunk|) <= P.TWO32 && Takable(d, FragCount(|chunk|))
    ensures Completes([d] + Own(chunk, k), FragCount(|chunk|))
  {
    hide FragCount, Payload, ParseHdr, Fits, Fragment, FirstOf, Own;
    var own := Own(chunk, k);
    var order := [d] + own;
    OwnGenuine(chunk, k);
    forall i: nat | i < FragCount(|chunk|) ensures FirstOf(order, i).Some? {
      assert order[i + 1] == own[i];
      TakenSomewhere(order, i + 1, i);
    }
  }

  lemma BadIsFirst(chunk: bytes, k: P.u32, d: bytes)
    requires FragCount(|chunk|) <= P.TWO32 && !Genuine(d, chunk)
    ensures var n, order := FragCount(|chunk|), [d] + Own(chunk, k);
            !(AllFit(order, n) && FirstsRight(Firsts(order, n), chunk))
  {
    hide FragCount, Payload, ParseHdr, Own, FirstOf, Piece;
    var order := [d] + Own(chunk, k);
    assert order[0] == d;
    OneTaken(d);
    FirstStays([d], Own(chunk, k), ParseHdr(d).index);
    FirstsAre(order, FragCount(|chunk|));
  }

  lemma OneTaken(d: bytes)
    requires |d| >= HDR
    ensures FirstOf([d], ParseHdr(d).index) == Some(Payload(d))
  {
    hide Payload, ParseHdr;
    assert [d][..0] == [];
  }

  lemma FewFragments(chunk: bytes)
    requires |chunk| <= Chunks.CHUNK_SIZE
    ensures FragCount(|chunk|) <= 17
  {
  }
}
