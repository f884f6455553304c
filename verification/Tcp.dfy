// The TCP data plane: sendfile out of a file, and splice socket -> pipe -> file into one.
// The pipe belongs to the transport and is reused by every chunk.
module Tcp {
  import opened Bytes
  import opened Files

  // The kernel's answer to one sendfile or splice call: bytes moved (0 is end of file or of
  // stream), interrupted by a signal, or another error.
  datatype Io = Moved(n: nat) | Interrupted | Failed

  // How recv_file ends: normally, without a pipe, in socket -> pipe, or in pipe -> file.
  datatype End = Done | NoPipe | SocketFails | FileFails

  // What recv_file works on: the file, the pipe, and what has arrived at the socket.
  datatype Flow = Flow(file: bytes, pipe: bytes, incoming: bytes)

  datatype Outcome = Outcome(end: End, flow: Flow, rest: seq<Io>)

  datatype Range = Range(offset: nat, len: nat)

  // Moving bytes from the socket to the pipe keeps their order.
  lemma Spliced(pipe: bytes, incoming: bytes, n: nat)
    requires n <= |incoming|
    ensures (pipe + incoming[..n]) + incoming[n..] == pipe + incoming
  {
    assert incoming[..n] + incoming[n..] == incoming;
  }

  // The file after one chunk after another was taken off the front of the stream.
  function PutAll(file: bytes, ranges: seq<Range>, stream: bytes): bytes
    decreases ranges
  {
    if ranges == [] then file
    else if ranges[0].len <= |stream| then
      PutAll(Put(file, ranges[0].offset, stream[..ranges[0].len]), ranges[1..], stream[ranges[0].len..])
    else file
  }

  function Total(ranges: seq<Range>): nat {
    if ranges == [] then 0 else ranges[0].len + Total(ranges[1..])
  }

  // `script` lists the kernel's answers to come; any list is possible. An answer that moves
  // more than was asked or than is there cannot be given, and counts as an error.
  function Answer(script: seq<Io>, limit: nat): (r: Io)
    ensures r.Moved? ==> r.n <= limit
  {
    if script == [] || (script[0].Moved? && script[0].n > limit) then Failed else script[0]
  }

  function Later(script: seq<Io>): seq<Io> {
    if script == [] then [] else script[1..]
  }

  function Min(a: nat, b: nat): nat {
    if a < b then a else b
  }

  // recv_file for the answers in `script`: `remain` bytes are still to come, for file offset
  // `at` on.
  function Receive(s: Flow, at: nat, remain: nat, script: seq<Io>): Outcome
    decreases |script|, 0
  {
    if remain == 0 then Outcome(Done, s, script)
    else if script == [] then Outcome(SocketFails, s, [])
    else
      match Answer(script, Min(remain, |s.incoming|))
      case Interrupted => Receive(s, at, remain, script[1..])
      case Failed => Outcome(SocketFails, s, script[1..])
      case Moved(n) =>
        if n == 0 then Outcome(SocketFails, s, script[1..])
        else Empty(Flow(s.file, s.pipe + s.incoming[..n], s.incoming[n..]), at, remain - n, n, script[1..])
  }

  // The inner loop: `inPipe` spliced bytes are still to be moved to the file.
  function Empty(s: Flow, at: nat, remain: nat, inPipe: nat, script: seq<Io>): Outcome
    decreases |script|, 1
  {
    if inPipe == 0 then Receive(s, at, remain, script)
    else if script == [] then Outcome(FileFails, s, [])
    else
      match Answer(script, Min(inPipe, |s.pipe|))
      case Interrupted => Empty(s, at, remain, inPipe, script[1..])
      case Failed => Outcome(FileFails, s, script[1..])
      case Moved(n) =>
        if n == 0 then Outcome(FileFails, s, script[1..])
        else Empty(Flow(Put(s.file, at, s.pipe[..n]), s.pipe[n..], s.incoming), at + n, remain, inPipe - n, script[1..])
  }

  // Whatever the kernel answers: the next k bytes of pipe and socket, in order, are written
  // at `at` and nowhere else, and the rest is still there. k is all that was asked exactly on
  // a normal return. The pipe is as full as before exactly unless pipe -> file failed; then
  // it is fuller.
  ghost predicate Took(s: Flow, at: nat, want: nat, level: int, o: Outcome, k: nat) {
    var feed := s.pipe + s.incoming;
    && k <= want && k <= |feed| && o.end != NoPipe
    && o.flow.file == Put(s.file, at, feed[..k]) && o.flow.pipe + o.flow.incoming == feed[k..]
    && (o.end == Done <==> k == want)
    && (o.end != FileFails ==> |o.flow.pipe| == level)
    && (o.end == FileFails ==> |o.flow.pipe| > level)
  }

  lemma TookNothing(s: Flow, at: nat, want: nat, level: int, end: End, rest: seq<Io>)
    requires end != NoPipe && (end == Done <==> want == 0)
    requires if end == FileFails then |s.pipe| > level else |s.pipe| == level
    ensures Took(s, at, want, level, Outcome(end, s, rest), 0)
  {
    PutNothing(s.file, at);
    assert (s.pipe + s.incoming)[..0] == [];
  }

  // After n bytes went to the file, k more are n + k in all.
  lemma TookMore(s: Flow, at: nat, want: nat, level: int, o: Outcome, n: nat, k: nat)
    requires 0 < n <= |s.pipe| && n <= want
    requires Took(Flow(Put(s.file, at, s.pipe[..n]), s.pipe[n..], s.incoming), at + n, want - n, level, o, k)
    ensures Took(s, at, want, level, o, n + k)
  {
    hide Put;
    var feed := s.pipe + s.incoming;
    var rest := s.pipe[n..] + s.incoming;
    assert rest == feed[n..] && feed[..n] == s.pipe[..n];
    assert feed[..n] + rest[..k] == feed[..n + k];
    assert rest[k..] == feed[n + k..];
    PutPut(s.file, at, feed[..n], rest[..k]);
  }

  lemma {:induction false} ReceiveTakes(s: Flow, at: nat, remain: nat, script: seq<Io>) returns (k: nat)
    ensures Took(s, at, remain, |s.pipe|, Receive(s, at, remain, script), k)
    decreases |script|, 0
  {
    hide Took, Put;
    if remain == 0 {
      TookNothing(s, at, remain, |s.pipe|, Done, script);
      return 0;
    }
    if script == [] {
      TookNothing(s, at, remain, |s.pipe|, SocketFails, []);
      return 0;
    }
    var r := Answer(script, Min(remain, |s.incoming|));
    if r.Interrupted? {
      k := ReceiveTakes(s, at, remain, script[1..]);
    } else if r.Failed? || r.n == 0 {
      TookNothing(s, at, remain, |s.pipe|, SocketFails, script[1..]);
      return 0;
    } else {
      var t := Flow(s.file, s.pipe + s.incoming[..r.n], s.incoming[r.n..]);
      k := EmptyTakes(t, at, remain - r.n, r.n, script[1..]);
      SplicedTakes(s, at, remain, r.n, Receive(s, at, remain, script), k);
    }
  }

  // Splicing from the socket to the pipe leaves the feed as it was.
  lemma SplicedTakes(s: Flow, at: nat, remain: nat, n: nat, o: Outcome, k: nat)
    requires n <= |s.incoming|
    requires Took(Flow(s.file, s.pipe + s.incoming[..n], s.incoming[n..]), at, remain, |s.pipe|, o, k)
    ensures Took(s, at, remain, |s.pipe|, o, k)
  {
    Spliced(s.pipe, s.incoming, n);
  }

  lemma {:induction false} EmptyTakes(s: Flow, at: nat, remain: nat, inPipe: nat, script: seq<Io>) returns (k: nat)
    requires inPipe <= |s.pipe|
    ensures Took(s, at, remain + inPipe, |s.pipe| - inPipe, Empty(s, at, remain, inPipe, script), k)
    decreases |script|, 1
  {
    hide Took, Put;
    if inPipe == 0 {
      k := ReceiveTakes(s, at, remain, script);
      return;
    }
    if script == [] {
      TookNothing(s, at, remain + inPipe, |s.pipe| - inPipe, FileFails, []);
      return 0;
    }
    var r := Answer(script, Min(inPipe, |s.pipe|));
    if r.Interrupted? {
      k := EmptyTakes(s, at, remain, inPipe, script[1..]);
    } else if r.Failed? || r.n == 0 {
      TookNothing(s, at, remain + inPipe, |s.pipe| - inPipe, FileFails, script[1..]);
      return 0;
    } else {
      var t := Flow(Put(s.file, at, s.pipe[..r.n]), s.pipe[r.n..], s.incoming);
      var j := EmptyTakes(t, at + r.n, remain, inPipe - r.n, script[1..]);
      TookMore(s, at, remain + inPipe, |s.pipe| - inPipe, Empty(s, at, remain, inPipe, script), r.n, j);
      return r.n + j;
    }
  }

  // A call failed or moved nothing; an interrupted one does not count.
  ghost predicate Broke(answers: seq<Io>, from: nat) {
    exists i :: from <= i < |answers| && (answers[i] == Failed || answers[i] == Moved(0))
  }

  lemma BrokeMore(a0: seq<Io>, a1: seq<Io>, r: Io)
    requires a0 <= a1
    ensures Broke(a1 + [r], |a0|) <==> Broke(a1, |a0|) || r == Failed || r == Moved(0)
  {
    var a2 := a1 + [r];
    assert a2[|a1|] == r;
    if i :| |a0| <= i < |a1| && (a1[i] == Failed || a1[i] == Moved(0)) { assert a2[i] == a1[i]; }
  }

  lemma BrokeNot(answers: seq<Io>)
    ensures !Broke(answers, |answers|)
  {
  }

  lemma BrokeSplit(a0: seq<Io>, a1: seq<Io>, a2: seq<Io>)
    requires a0 <= a1 <= a2
    ensures Broke(a2, |a0|) <==> Broke(a1, |a0|) || Broke(a2, |a1|)
  {
    if i :| |a0| <= i < |a1| && (a1[i] == Failed || a1[i] == Moved(0)) { assert a2[i] == a1[i]; }
    if i :| |a0| <= i < |a2| && (a2[i] == Failed || a2[i] == Moved(0)) && i < |a1| { assert a1[i] == a2[i]; }
  }

  class TcpTransport {
    var pipeOpen: bool
    // The kernel's side: socket queues, the pipe's contents, and its answers to come.
    var incoming: bytes
    var outgoing: bytes
    var pipe: bytes
    var script: seq<Io>
    // History: the answers given so far.
    ghost var answers: seq<Io>

    ghost predicate Valid()
      reads this
    {
      !pipeOpen ==> pipe == []
    }

    constructor (arriving: bytes, script: seq<Io>)
      ensures Valid() && !pipeOpen && pipe == [] && outgoing == [] && incoming == arriving && this.script == script && answers == []
    {
      pipeOpen, incoming, outgoing, pipe, this.script, answers := false, arriving, [], [], script, [];
    }

    method NextAnswer(limit: nat) returns (r: Io)
      modifies `script, `answers
      ensures r == Answer(old(script), limit) && script == Later(old(script)) && answers == old(answers) + [r]
    {
      r := Answer(script, limit);
      script := Later(script);
      answers := answers + [r];
    }

    // sendfile: any non-empty part of what is asked and there; 0 at end of file.
    method SendfileCall(file: bytes, offset: nat, len: nat) returns (r: Io)
      requires len > 0
      modifies `outgoing, `script, `answers
      ensures answers == old(answers) + [r]
      ensures script == Later(old(script)) && (r.Interrupted? ==> old(script) != [])
      ensures r.Moved? && r.n > 0 ==>
                r.n <= len && offset + r.n <= |file| && outgoing == old(outgoing) + file[offset..offset + r.n]
      ensures !r.Moved? || r.n == 0 ==> outgoing == old(outgoing)
    {
      r := NextAnswer(if offset <= |file| then Min(len, |file| - offset) else 0);
      if r.Moved? && r.n > 0 { outgoing := outgoing + file[offset..offset + r.n]; }
    }

    // splice(socket, pipe): 0 only when the peer has closed.
    method SpliceIn(len: nat) returns (r: Io)
      requires len > 0
      modifies `incoming, `pipe, `script, `answers
      ensures answers == old(answers) + [r]
      ensures r == Answer(old(script), Min(len, |old(incoming)|)) && script == Later(old(script))
      ensures r.Moved? ==> r.n <= len && r.n <= |old(incoming)|
      ensures r.Moved? ==> pipe == old(pipe) + old(incoming)[..r.n] && incoming == old(incoming)[r.n..]
      ensures !r.Moved? ==> pipe == old(pipe) && incoming == old(incoming)
    {
      r := NextAnswer(Min(len, |incoming|));
      if r.Moved? { pipe, incoming := pipe + incoming[..r.n], incoming[r.n..]; }
    }

    // splice(pipe, file, &offset): the front of the pipe goes to the file.
    method SpliceOut(file: bytes, offset: nat, len: nat) returns (r: Io, file': bytes)
      requires len > 0
      modifies `pipe, `script, `answers
      ensures answers == old(answers) + [r]
      ensures r == Answer(old(script), Min(len, |old(pipe)|)) && script == Later(old(script))
      ensures r.Moved? ==> r.n <= len && r.n <= |old(pipe)|
      ensures r.Moved? ==> file' == Put(file, offset, old(pipe)[..r.n]) && pipe == old(pipe)[r.n..]
      ensures !r.Moved? ==> pipe == old(pipe) && file' == file
    {
      file' := file;
      r := NextAnswer(Min(len, |pipe|));
      if r.Moved? { file', pipe := Put(file, offset, pipe[..r.n]), pipe[r.n..]; }
    }

    // send_file: on success exactly the range, once; otherwise a proper prefix of it, exactly
    // when a call failed or moved nothing. An interrupted call is tried again.
    method SendFile(file: bytes, offset: nat, len: nat) returns (ok: bool, ghost k: nat)
      modifies `outgoing, `script, `answers
      ensures old(answers) <= answers && (ok <==> !Broke(answers, |old(answers)|))
      ensures k <= len && (ok <==> k == len)
      ensures k > 0 ==> offset + k <= |file|
      ensures outgoing == old(outgoing) + if k == 0 then [] else file[offset..offset + k]
    {
      var at, remain := offset, len;
      while remain > 0
        invariant 0 <= remain <= len && at == offset + len - remain
        invariant at > offset ==> at <= |file|
        invariant outgoing == old(outgoing) + if at == offset then [] else file[offset..at]
        invariant old(answers) <= answers && !Broke(answers, |old(answers)|)
        decreases remain, |script|
      {
        ghost var before := answers;
        var r := SendfileCall(file, at, remain);
        BrokeMore(old(answers), before, r);
        if r.Interrupted? { continue; }
        if r.Failed? || r.n == 0 { return false, len - remain; }
        if at > offset { assert file[offset..at] + file[at..at + r.n] == file[offset..at + r.n]; }
        at, remain := at + r.n, remain - r.n;
      }
      return true, len;
    }

    // The inner loop of recv_file: move `count` bytes from the pipe to the file.
    method DrainPipe(file: bytes, offset: nat, count: nat, ghost remain: nat) returns (ok: bool, file': bytes)
      requires count <= |pipe|
      modifies `pipe, `script, `answers
      ensures old(answers) <= answers && (ok <==> !Broke(answers, |old(answers)|))
      ensures var o := Empty(Flow(file, old(pipe), incoming), offset, remain, count, old(script));
              var t := Flow(file', pipe, incoming);
              o == if ok then Receive(t, offset + count, remain, script) else Outcome(FileFails, t, script)
    {
      hide Put, Receive, Broke;
      BrokeNot(answers);
      var left := count;
      file' := file;
      while left > 0
        invariant 0 <= left <= count && left <= |pipe|
        invariant Empty(Flow(file, old(pipe), incoming), offset, remain, count, old(script))
               == Empty(Flow(file', pipe, incoming), offset + (count - left), remain, left, script)
        invariant old(answers) <= answers && !Broke(answers, |old(answers)|)
        decreases |script|, left
      {
        ghost var s, before := Flow(file', pipe, incoming), answers;
        var r;
        r, file' := SpliceOut(file', offset + (count - left), left);
        BrokeMore(old(answers), before, r);
        if r.Interrupted? { continue; }
        if r.Failed? || r.n == 0 {
          PutNothing(s.file, offset + (count - left));
          return false, file';
        }
        left := left - r.n;
      }
      return true, file';
    }

    // recv_file: what was left in the pipe comes first. `pipeFails` says whether creating
    // the pipe would fail.
    method RecvFile(file: bytes, offset: nat, len: nat, pipeFails: bool) returns (end: End, file': bytes, ghost k: nat)
      requires Valid()
      modifies this
      ensures Valid() && outgoing == old(outgoing)
      ensures old(answers) <= answers && (end == Done || end == NoPipe <==> !Broke(answers, |old(answers)|))
      ensures end == NoPipe ==> answers == old(answers) && !pipeOpen
      ensures end == NoPipe <==> pipeFails && !old(pipeOpen)
      ensures end == NoPipe ==> file' == file && pipe == old(pipe) && incoming == old(incoming)
      ensures end != NoPipe ==>
                Outcome(end, Flow(file', pipe, incoming), script)
                == Receive(Flow(file, old(pipe), old(incoming)), offset, len, old(script))
      ensures end != NoPipe ==>
                Took(Flow(file, old(pipe), old(incoming)), offset, len, |old(pipe)|,
                     Outcome(end, Flow(file', pipe, incoming), script), k)
    {
      hide Put, Empty, Took, Broke;
      BrokeNot(answers);
      file' := file;
      k := ReceiveTakes(Flow(file, pipe, incoming), offset, len, script);
      if !pipeOpen {
        if pipeFails { return NoPipe, file, k; }
        pipeOpen := true;
      }
      var remain := len;
      while remain > 0
        invariant 0 <= remain <= len && pipeOpen && outgoing == old(outgoing)
        invariant Receive(Flow(file, old(pipe), old(incoming)), offset, len, old(script))
               == Receive(Flow(file', pipe, incoming), offset + (len - remain), remain, script)
        invariant old(answers) <= answers && !Broke(answers, |old(answers)|)
        decreases remain, |script|
      {
        ghost var before, given := pipe, answers;
        var r := SpliceIn(remain);
        BrokeMore(old(answers), given, r);
        if r.Interrupted? { continue; }
        if r.Failed? || r.n == 0 {
          assert pipe == before;
          return SocketFails, file', k;
        }
        given := answers;
        var ok;
        ok, file' := DrainPipe(file', offset + (len - remain), r.n, remain - r.n);
        BrokeSplit(old(answers), given, answers);
        if !ok { return FileFails, file', k; }
        remain := remain - r.n;
      }
      return Done, file', k;
    }

    // Chunk after chunk over one connection: each gets its own bytes and no others.
    method RecvChunks(file: bytes, ranges: seq<Range>) returns (ok: bool, file': bytes)
      requires Valid() && pipe == []
      modifies this
      ensures Valid()
      ensures ok ==> !Broke(answers, |old(answers)|)
      ensures !ok ==> Broke(answers, |old(answers)|) || !pipeOpen
      ensures ok ==> Total(ranges) <= |old(incoming)| && file' == PutAll(file, ranges, old(incoming))
                     && incoming == old(incoming)[Total(ranges)..] && pipe == []
    {
      file' := file;
      var i := 0;
      ghost var all := incoming;
      ghost var used := 0;
      assert ranges[0..] == ranges;
      while i < |ranges|
        invariant 0 <= i <= |ranges| && Valid() && pipe == []
        invariant old(answers) <= answers && !Broke(answers, |old(answers)|)
        invariant used + Total(ranges[i..]) == Total(ranges)
        invariant 0 <= used <= |all| && incoming == all[used..]
        invariant PutAll(file', ranges[i..], incoming) == PutAll(file, ranges, all)
      {
        ghost var before, f := incoming, file';
        var fails: bool :| true;
        var end;
        ghost var k;
        ghost var given := answers;
        end, file', k := RecvFile(file', ranges[i].offset, ranges[i].len, fails);
        BrokeSplit(old(answers), given, answers);
        if end != Done { return false, file'; }
        assert [] + before == before && pipe == [] && pipe + incoming == incoming;
        assert ranges[i..][1..] == ranges[i + 1..];
        used := used + ranges[i].len;
        i := i + 1;
      }
      return true, file';
    }
  }

  // ---- one call after another ----

  // `arriving` reaches the socket before the call.
  datatype Call = Call(offset: nat, len: nat, arriving: bytes, script: seq<Io>)

  function CallOn(s: Flow, c: Call): Outcome {
    Receive(s.(incoming := s.incoming + c.arriving), c.offset, c.len, c.script)
  }

  function After(s: Flow, calls: seq<Call>): Flow {
    if calls == [] then s else CallOn(After(s, calls[..|calls| - 1]), calls[|calls| - 1]).flow
  }

  function EndOf(s: Flow, calls: seq<Call>, i: nat): End
    requires i < |calls|
  {
    CallOn(After(s, calls[..i]), calls[i]).end
  }

  // The pipe is empty after a sequence of calls exactly when none of them failed in
  // pipe -> file.
  lemma {:induction false} PipeEmptyIff(s: Flow, calls: seq<Call>)
    requires s.pipe == []
    ensures After(s, calls).pipe == [] <==> forall i :: 0 <= i < |calls| ==> EndOf(s, calls, i) != FileFails
  {
    if calls != [] {
      var n := |calls| - 1;
      var before := calls[..n];
      PipeEmptyIff(s, before);
      forall i | 0 <= i < n ensures EndOf(s, calls, i) == EndOf(s, before, i) { assert before[..i] == calls[..i]; }
      var t, c := After(s, before), calls[n];
      var k := ReceiveTakes(t.(incoming := t.incoming + c.arriving), c.offset, c.len, c.script);
      assert EndOf(s, calls, n) == CallOn(t, c).end;
    }
  }

  // A normal return with these bytes at the socket puts the next len of them in the range.
  ghost predicate NextRight(s: Flow, offset: nat, len: nat, incoming: bytes, script: seq<Io>) {
    var o := Receive(s.(incoming := incoming), offset, len, script);
    o.end == Done ==>
      len <= |incoming| && offset + len <= |o.flow.file| && o.flow.file[offset..offset + len] == incoming[..len]
  }

  // The next chunk is received right, whatever is at the socket and however the kernel
  // answers, exactly when no earlier call on the transport failed in pipe -> file: that is
  // what leaves bytes in the pipe, and they would come first.
  lemma RightIffPipeWasEmpty(s: Flow, calls: seq<Call>, offset: nat, len: nat)
    requires s.pipe == [] && len > 0
    ensures (forall incoming: bytes, script: seq<Io> :: NextRight(After(s, calls), offset, len, incoming, script))
            <==> (forall i :: 0 <= i < |calls| ==> EndOf(s, calls, i) != FileFails)
  {
    var t := After(s, calls);
    PipeEmptyIff(s, calls);
    if t.pipe == [] {
      forall incoming: bytes, script: seq<Io> ensures NextRight(t, offset, len, incoming, script) {
        RightFromEmpty(t, offset, len, incoming, script);
      }
    } else {
      var other: byte := if t.pipe[0] == 0 then 1 else 0;
      var incoming: bytes := seq(len, i => other);
      WrongFromFull(t, offset, len, incoming);
    }
  }

  lemma RightFromEmpty(s: Flow, offset: nat, len: nat, incoming: bytes, script: seq<Io>)
    requires s.pipe == [] && len > 0
    ensures NextRight(s, offset, len, incoming, script)
  {
    var k := ReceiveTakes(s.(incoming := incoming), offset, len, script);
    assert s.pipe + incoming == incoming;
    if k == len { PutReads(s.file, offset, incoming[..len]); }
  }

  lemma WrongFromFull(s: Flow, offset: nat, len: nat, incoming: bytes)
    requires s.pipe != [] && len > 0 && |incoming| == len && incoming[0] != s.pipe[0]
    ensures !NextRight(s, offset, len, incoming, [Moved(len), Moved(len)])
  {
    hide Put;
    var feed := s.pipe + incoming;
    TwoMoves(Flow(s.file, s.pipe, incoming), offset, len);
    PutReads(s.file, offset, feed[..len]);
    var file' := Put(s.file, offset, feed[..len]);
    assert file'[offset..offset + len][0] == feed[0] == s.pipe[0];
  }

  // One splice in and one out, both in full.
  lemma TwoMoves(s: Flow, offset: nat, len: nat)
    requires 0 < len <= |s.incoming|
    ensures var o := Receive(s, offset, len, [Moved(len), Moved(len)]);
            && o.end == Done && o.flow.file == Put(s.file, offset, (s.pipe + s.incoming)[..len])
            && o.flow.pipe + o.flow.incoming == (s.pipe + s.incoming)[len..] && o.rest == []
  {
    hide Put;
    var script := [Moved(len), Moved(len)];
    var t := Flow(s.file, s.pipe + s.incoming[..len], s.incoming[len..]);
    assert script[1..] == [Moved(len)] && script[1..][1..] == [];
    assert Receive(s, offset, len, script) == Empty(t, offset, 0, len, [Moved(len)]);
    var u := Flow(Put(t.file, offset, t.pipe[..len]), t.pipe[len..], t.incoming);
    assert Empty(t, offset, 0, len, [Moved(len)]) == Empty(u, offset + len, 0, 0, []);
    Spliced(s.pipe, s.incoming, len);
    assert t.pipe[..len] == (s.pipe + s.incoming)[..len];
    assert t.pipe[len..] + t.incoming == (s.pipe + s.incoming)[len..];
  }

  // A call that fails in pipe -> file leaves the two bytes it had spliced. The next call, for
  // two bytes, returns normally with those and leaves the two that were due.
  method LeftoverRun(a: byte, b: byte, c: byte, d: byte) returns (first: End, second: End, file: bytes)
    ensures first == FileFails && second == Done && file == [a, b]
  {
    var t := new TcpTransport([a, b, c, d], [Moved(2), Failed, Moved(2), Moved(2)]);
    FirstFails(a, b, c, d);
    ghost var k;
    first, file, k := t.RecvFile([], 0, 4, false);
    assert t.pipe == [a, b] && t.incoming == [c, d] && file == [] && t.script == [Moved(2), Moved(2)];
    TwoMoves(Flow([], [a, b], [c, d]), 0, 2);
    assert ([a, b] + [c, d])[..2] == [a, b];
    second, file, k := t.RecvFile(file, 0, 2, false);
    PutReads([], 0, [a, b]);
    assert file[0..2] == file;
  }

  lemma FirstFails(a: byte, b: byte, c: byte, d: byte)
    ensures Receive(Flow([], [], [a, b, c, d]), 0, 4, [Moved(2), Failed, Moved(2), Moved(2)])
         == Outcome(FileFails, Flow([], [a, b], [c, d]), [Moved(2), Moved(2)])
  {
    var script := [Moved(2), Failed, Moved(2), Moved(2)];
    var s := Flow([], [], [a, b, c, d]);
    assert s.pipe + s.incoming[..2] == [a, b] && s.incoming[2..] == [c, d];
    assert script[1..] == [Failed, Moved(2), Moved(2)] && script[1..][1..] == [Moved(2), Moved(2)];
    assert Receive(s, 0, 4, script) == Empty(Flow([], [a, b], [c, d]), 0, 2, 2, script[1..]);
  }
}
