// Exact I/O over a transport that accepts and returns arbitrary partial counts.
module Transport {
  import opened Bytes

  // Result of one send or recv: bytes moved, EAGAIN, peer closed, or another error.
  datatype Io = Moved(n: nat) | Again | Closed | Failed

  // One of the answers from `from` on ends the connection; being asked to retry does not.
  ghost predicate Broke(answers: seq<Io>, from: nat) {
    exists i :: from <= i < |answers| && (answers[i].Closed? || answers[i].Failed?)
  }

  lemma BrokeSplit(a0: seq<Io>, a1: seq<Io>, a2: seq<Io>)
    requires a0 <= a1 <= a2
    ensures Broke(a2, |a0|) <==> Broke(a1, |a0|) || Broke(a2, |a1|)
  {
    if i :| |a0| <= i < |a1| && (a1[i].Closed? || a1[i].Failed?) { assert a2[i] == a1[i]; }
    if i :| |a0| <= i < |a2| && (a2[i].Closed? || a2[i].Failed?) && i < |a1| { assert a1[i] == a2[i]; }
  }

  lemma BrokeOne(answers: seq<Io>, r: Io)
    ensures Broke(answers + [r], |answers|) <==> r.Closed? || r.Failed?
    ensures !Broke(answers, |answers|)
  {
    assert (answers + [r])[|answers|] == r;
  }

  // One direction of a connection: the bytes accepted from the writer and not yet read.
  class Channel {
    var stream: bytes
    var stalls: nat   // how many more times a call will ask to be retried
    ghost var answers: seq<Io>   // history: what every call has answered

    constructor (stalls: nat)
      ensures stream == [] && this.stalls == stalls && answers == []
    {
      stream, this.stalls, answers := [], stalls, [];
    }

    // Accepts any non-empty prefix of the data.
    method Send(data: bytes) returns (r: Io)
      requires data != []
      modifies this
      ensures answers == old(answers) + [r]
      ensures stalls <= old(stalls) && (r.Again? ==> stalls < old(stalls))
      ensures r.Moved? ==> 1 <= r.n <= |data| && stream == old(stream) + data[..r.n]
      ensures !r.Moved? ==> stream == old(stream)
    {
      r :| r.Moved? ==> 1 <= r.n <= |data|;
      if r.Again? {
        if stalls == 0 { r := Failed; } else { stalls := stalls - 1; }
      }
      if r.Moved? { stream := stream + data[..r.n]; }
      answers := answers + [r];
    }

    // Returns any non-empty prefix of what is there; Closed only when nothing is left.
    method Recv(len: nat) returns (r: Io, data: bytes)
      requires len > 0
      modifies this
      ensures answers == old(answers) + [r]
      ensures stalls <= old(stalls) && (r.Again? ==> stalls < old(stalls))
      ensures r.Moved? ==> 1 <= r.n == |data| <= len && old(stream) == data + stream
      ensures !r.Moved? ==> stream == old(stream)
      ensures r.Closed? ==> stream == []
    {
      data := [];
      if stream == [] {
        r := Closed;
      } else {
        r :| (r.Moved? ==> 1 <= r.n <= len && r.n <= |stream|) && !r.Closed?;
        if r.Again? {
          if stalls == 0 { r := Failed; } else { stalls := stalls - 1; }
        }
        if r.Moved? { data, stream := stream[..r.n], stream[r.n..]; }
      }
      answers := answers + [r];
    }
  }

  // send_exact: all of buf, in order, or an error after a part of it; the error exactly when a
  // call has failed or found the connection closed.
  method SendExact(t: Channel, buf: bytes) returns (ok: bool)
    modifies t
    ensures ok ==> t.stream == old(t.stream) + buf
    ensures exists k :: 0 <= k <= |buf| && t.stream == old(t.stream) + buf[..k] && (k == |buf| <==> ok)
    ensures old(t.answers) <= t.answers && (ok <==> !Broke(t.answers, |old(t.answers)|))
  {
    hide Broke;
    BrokeOne(t.answers, Again);
    var sent := 0;
    while sent < |buf|
      invariant 0 <= sent <= |buf| && t.stream == old(t.stream) + buf[..sent]
      invariant old(t.answers) <= t.answers && !Broke(t.answers, |old(t.answers)|)
      decreases |buf| - sent, t.stalls
    {
      ghost var answers := t.answers;
      var r := t.Send(buf[sent..]);
      BrokeOne(answers, r);
      BrokeSplit(old(t.answers), answers, t.answers);
      if r.Again? { continue; }
      if !r.Moved? { return false; }
      assert buf[..sent] + buf[sent..][..r.n] == buf[..sent + r.n];
      sent := sent + r.n;
    }
    assert buf[..sent] == buf;
    return true;
  }

  // recv_exact: the next len bytes of the stream, in order, and no more; an error exactly when
  // a call has failed or found the connection closed.
  method RecvExact(t: Channel, buf: array<byte>, len: nat) returns (ok: bool)
    requires len <= buf.Length
    modifies t, buf
    ensures ok ==> old(t.stream) == buf[..len] + t.stream
    ensures exists k :: 0 <= k <= len && old(t.stream) == buf[..k] + t.stream && (k == len <==> ok)
    ensures buf[len..] == old(buf[len..])
    ensures old(t.answers) <= t.answers && (ok <==> !Broke(t.answers, |old(t.answers)|))
  {
    hide Broke;
    BrokeOne(t.answers, Again);
    var received := 0;
    while received < len
      invariant 0 <= received <= len && old(t.stream) == buf[..received] + t.stream
      invariant buf[len..] == old(buf[len..])
      invariant old(t.answers) <= t.answers && !Broke(t.answers, |old(t.answers)|)
      decreases len - received, t.stalls
    {
      ghost var answers := t.answers;
      var r, data := t.Recv(len - received);
      BrokeOne(answers, r);
      BrokeSplit(old(t.answers), answers, t.answers);
      if r.Again? { continue; }
      if !r.Moved? {
        assert old(t.stream) == buf[..received] + t.stream;
        return false;
      }
      Store(buf, received, data);
      received := received + r.n;
    }
    return true;
  }

  // memcpy(buf + at, data, |data|)
  method Store(buf: array<byte>, at: nat, data: bytes)
    requires at + |data| <= buf.Length
    modifies buf
    ensures buf[..at + |data|] == old(buf[..at]) + data
    ensures buf[at + |data|..] == old(buf[at + |data|..])
  {
    var i := 0;
    while i < |data|
      invariant 0 <= i <= |data|
      invariant buf[..at + i] == old(buf[..at]) + data[..i]
      invariant buf[at + i..] == old(buf[at + i..])
    {
      buf[at + i] := data[i];
      i := i + 1;
    }
  }
}
