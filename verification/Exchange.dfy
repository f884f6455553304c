// run_push and run_pull as two processes over a pair of FIFO byte streams. Every order of
// their steps is a run; reads take what has arrived, raw chunk bytes move in any pieces.
module Exchange {
  import opened Bytes
  import opened Wrappers
  import opened Chunks
  import opened Files
  import opened Protocol

  // What is fixed for a run: the source file, its FILE_META, the digest, the token pull
  // sends, and what pull starts from.
  datatype Config = Config(src: bytes, meta: FileMeta, H: bytes -> bytes, token: bytes,
                           bitmap: seq<bool>, need: seq<nat>, out: bytes)
  {
    function Count(): nat { |meta.chunkHashes| }

    ghost predicate Ok() {
      && MetaOk(meta) && |EncodeMeta(meta)| <= MAX_PAYLOAD_SIZE && |token| < 0x1_0000
      && meta.fileSize == |src| && 0 < Count() < 0x20_0000
      && Protocol.HASH_SIZE == 32
      && Offset(Count() - 1) < |src| <= Offset(Count())
      && (forall i :: 0 <= i < Count() ==> H(Piece(i)) == meta.chunkHashes[i])
      && |bitmap| == Count() && |out| == |src| && need == Needed(bitmap)
    }

    // The source bytes of chunk i, and of the k-th chunk pull asks for.
    ghost function Piece(i: nat): bytes {
      ChunkAt(src, i)
    }

    ghost function Wanted(k: nat): bytes {
      if k < |need| then Piece(need[k]) else []
    }
  }

  // Every file that precompute_meta can describe in one message is such a configuration,
  // whatever has been transferred of it before.
  lemma PushedFileIsConfig(src: bytes, name: bytes, H: bytes -> bytes, hashes: seq<bytes>, token: bytes,
                           bitmap: seq<bool>, out: bytes) returns (c: Config)
    requires 0 < |src| <= 0xFFFF_FFFF * CHUNK_SIZE && |hashes| == ChunkCount(|src|)
    requires forall i :: 0 <= i < |hashes| ==> hashes[i] == H(ChunkAt(src, i)) && |hashes[i]| == Protocol.HASH_SIZE
    requires 20 + |name| + |hashes| * Protocol.HASH_SIZE <= MAX_PAYLOAD_SIZE && |token| < 0x1_0000
    requires |bitmap| == |hashes| && |out| == |src|
    ensures c.Ok() && c.src == src && c.H == H && c.bitmap == bitmap && c.out == out
    ensures c.meta == FileMeta(name, |src|, CHUNK_SIZE, |hashes|, hashes)
  {
    hide EncodeMeta, Needed;
    c := Config(src, FileMeta(name, |src|, CHUNK_SIZE, |hashes|, hashes), H, token, bitmap, Needed(bitmap), out);
    ChunksTile(|src|);
    MetaFitsIff(c.meta);
  }

  datatype PullAt =
    | Start | AwaitMeta | Asking(j: nat) | AwaitHeader(j: nat) | Receiving(j: nat, got: nat)
    | PullDone | PullThrew

  datatype PushAt =
    | AwaitHello | SendingMeta | Serving(sent: nat) | Streaming(sent: nat, index: nat, pos: nat)
    | PushDone(sent: nat) | PushThrew

  datatype State = State(pull: PullAt, push: PushAt, up: bytes, down: bytes, bitmap: seq<bool>, out: bytes)

  datatype Step = PullMsg | PushMsg | PullBytes(n: nat) | PushBytes(n: nat)

  function Hello(c: Config): Message { Message(HANDSHAKE, U32(|c.token| % TWO32) + c.token) }
  function MetaMsg(c: Config): Message { Message(FILE_META, EncodeMeta(c.meta)) }
  function Req(i: nat): Message { Message(CHUNK_REQ, U32(i % TWO32)) }
  function Hdr(i: nat): Message { Message(CHUNK_HDR, U32(i % TWO32)) }
  function Complete(): Message { Message(Protocol.COMPLETE, []) }

  function IndexOf(m: Message): u32
    requires |m.payload| >= 4
  {
    FromU32(m.payload[..4])
  }

  // ---- one step of either process; a step that cannot be taken changes nothing ----

  // pull: everything but the raw chunk bytes.
  function PullStep(c: Config, s: State): State {
    match s.pull
    case Start => s.(pull := AwaitMeta, up := s.up + Frame(Hello(c)))
    case AwaitMeta =>
      (match FrontOf(s.down)
       case NeedMore => s
       case Bad => s.(pull := PullThrew)
       case Has(m, rest) =>
         if m.kind == FILE_META && DecodeMeta(m.payload) == Some(c.meta)
         then s.(pull := Asking(0), down := rest) else s.(pull := PullThrew))
    case Asking(j) =>
      if j < |c.need| then s.(pull := Asking(j + 1), up := s.up + Frame(Req(c.need[j])))
      else s.(pull := AwaitHeader(0), up := s.up + Frame(Complete()))
    case AwaitHeader(j) =>
      if j >= |c.need| then s.(pull := PullDone) else
      (match FrontOf(s.down)
       case NeedMore => s
       case Bad => s.(pull := PullThrew)
       case Has(m, rest) =>
         if m.kind == CHUNK_HDR && |m.payload| >= 4 && IndexOf(m) == c.need[j]
         then s.(pull := Receiving(j, 0), down := rest) else s.(pull := PullThrew))
    case Receiving(j, got) => s
    case PullDone => s
    case PullThrew => s
  }

  // pull: up to n raw bytes land at the next position of the chunk; the last one is
  // followed by the verification.
  function PullData(c: Config, s: State, n: nat): State {
    match s.pull
    case Receiving(j, got) =>
      if j < |c.need| && c.need[j] < |s.bitmap| && Offset(c.need[j]) < |s.out| then
        var i := c.need[j];
        var len := ChunkLen(|s.out|, i);
        if 1 <= n <= |s.down| && got + n <= len then
          var out := Put(s.out, Offset(i) + got, s.down[..n]);
          var s' := s.(out := out, down := s.down[n..]);
          if got + n < len then s'.(pull := Receiving(j, got + n))
          else s'.(pull := AwaitHeader(j + 1),
                   bitmap := s.bitmap[i := i < |c.meta.chunkHashes| && Offset(i) + len <= |out|
                                           && c.H(out[Offset(i)..Offset(i) + len]) == c.meta.chunkHashes[i]])
        else s
      else s
    case _ => s
  }

  // push: everything but the raw chunk bytes.
  function PushStep(c: Config, s: State): State {
    match s.push
    case AwaitHello =>
      (match FrontOf(s.up)
       case NeedMore => s
       case Bad => s.(push := PushThrew)
       case Has(m, rest) =>
         if m.kind == HANDSHAKE && DecodeStr(m.payload).Some?
         then s.(push := SendingMeta, up := rest) else s.(push := PushThrew))
    case SendingMeta => s.(push := Serving(0), down := s.down + Frame(MetaMsg(c)))
    case Serving(k) =>
      (match FrontOf(s.up)
       case NeedMore => s
       case Bad => s.(push := PushThrew)
       case Has(m, rest) =>
         if m.kind == Protocol.COMPLETE then s.(push := PushDone(k), up := rest)
         else if m.kind != CHUNK_REQ || |m.payload| < 4 || IndexOf(m) >= c.Count() then s.(push := PushThrew)
         else s.(push := Streaming(k, IndexOf(m), 0), up := rest, down := s.down + Frame(Hdr(IndexOf(m)))))
    case Streaming(k, i, pos) => s
    case PushDone(_) => s
    case PushThrew => s
  }

  // push: send_file moves up to n bytes of the chunk.
  function PushData(c: Config, s: State, n: nat): State {
    match s.push
    case Streaming(k, i, pos) =>
      if Offset(i) < |c.src| && 1 <= n && pos + n <= ChunkLen(|c.src|, i) then
        var s' := s.(down := s.down + c.src[Offset(i) + pos..Offset(i) + pos + n]);
        if pos + n < ChunkLen(|c.src|, i) then s'.(push := Streaming(k, i, pos + n))
        else s'.(push := Serving(k + 1))
      else s
    case _ => s
  }

  function Next(c: Config, s: State, e: Step): State {
    match e
    case PullMsg => PullStep(c, s)
    case PushMsg => PushStep(c, s)
    case PullBytes(n) => PullData(c, s, n)
    case PushBytes(n) => PushData(c, s, n)
  }

  function Run(c: Config, s: State, steps: seq<Step>): State {
    if steps == [] then s else Next(c, Run(c, s, steps[..|steps| - 1]), steps[|steps| - 1])
  }

  function Init(c: Config): State {
    State(Start, AwaitHello, [], [], c.bitmap, c.out)
  }

  // ---- what either process takes from its peer ----

  // Whatever arrives, pull throws exactly at a frame that cannot be, at anything but its
  // FILE_META, and at anything but the header of the chunk that is due; it waits for the rest of
  // a frame, and takes the frame it waits for.
  lemma PullTakesOnly(c: Config, s: State)
    requires MetaOk(c.meta) && (s.pull.AwaitMeta? || (s.pull.AwaitHeader? && s.pull.j < |c.need| && c.need[s.pull.j] < TWO32))
    ensures var t := PullStep(c, s);
            match FrontOf(s.down)
            case NeedMore => t == s
            case Bad => t == s.(pull := PullThrew)
            case Has(m, rest) =>
              if s.pull.AwaitMeta? then
                if m.kind == FILE_META && EncodeMeta(c.meta) <= m.payload then t == s.(pull := Asking(0), down := rest)
                else t == s.(pull := PullThrew)
              else
                if m.kind == CHUNK_HDR && U32(c.need[s.pull.j]) <= m.payload then t == s.(pull := Receiving(s.pull.j, 0), down := rest)
                else t == s.(pull := PullThrew)
  {
    hide EncodeMeta, DecodeMeta, U32, FrontOf;
    if FrontOf(s.down).Has? {
      var m := FrontOf(s.down).m;
      if s.pull.AwaitMeta? {
        DecodeMetaExact(m.payload, c.meta);
      } else {
        IndexIs(m.payload, c.need[s.pull.j]);
      }
    }
  }

  lemma IndexIs(p: bytes, i: u32)
    ensures U32(i) <= p <==> |p| >= 4 && FromU32(p[..4]) == i
  {
    hide U32;
    U32RoundTrip(i);
    if U32(i) <= p { assert p[..4] == U32(i); }
  }

  // Push throws exactly at a frame that cannot be, at anything but a well-formed HANDSHAKE, and
  // then at anything but COMPLETE and a request for a chunk there is; each request is answered
  // with that chunk's header and then its bytes.
  lemma PushTakesOnly(c: Config, s: State)
    requires (s.push.AwaitHello? || s.push.Serving?) && c.Count() <= TWO32
    ensures var t := PushStep(c, s);
            match FrontOf(s.up)
            case NeedMore => t == s
            case Bad => t == s.(push := PushThrew)
            case Has(m, rest) =>
              if s.push.AwaitHello? then
                if m.kind == HANDSHAKE && StartsWithString(m.payload) then t == s.(push := SendingMeta, up := rest)
                else t == s.(push := PushThrew)
              else if m.kind == Protocol.COMPLETE then t == s.(push := PushDone(s.push.sent), up := rest)
              else
                && (t.push == PushThrew ==> t == s.(push := PushThrew))
                && (t.push == PushThrew <==> m.kind != CHUNK_REQ || !exists i: u32 :: i < c.Count() && U32(i) <= m.payload)
                && forall i: u32 :: m.kind == CHUNK_REQ && i < c.Count() && U32(i) <= m.payload ==>
                     t == s.(push := Streaming(s.push.sent, i, 0), up := rest, down := s.down + Frame(Message(CHUNK_HDR, U32(i))))
  {
    hide U32, FrontOf, Frame;
    if FrontOf(s.up).Has? {
      var m := FrontOf(s.up).m;
      if s.push.AwaitHello? {
        IsString(m.payload);
      } else {
        forall i: u32 ensures U32(i) <= m.payload <==> |m.payload| >= 4 && IndexOf(m) == i { IndexIs(m.payload, i); }
      }
    }
  }

  ghost predicate StartsWithString(p: bytes) {
    exists t: bytes :: |t| < TWO32 && U32(|t|) + t <= p
  }

  lemma IsString(p: bytes)
    ensures StartsWithString(p) <==> DecodeStr(p).Some?
  {
    hide U32, FromU32;
    if StartsWithString(p) {
      var t: bytes :| |t| < TWO32 && U32(|t|) + t <= p;
      DecodeStrExact(p, t);
    }
    if DecodeStr(p).Some? { DecodeStrExact(p, DecodeStr(p).value); }
  }

  // ---- what is still to come on each stream ----

  ghost function Replies(c: Config, k: nat): bytes
    decreases |c.need| - k
  {
    if k >= |c.need| then [] else Frame(Hdr(c.need[k])) + (c.Wanted(k) + Replies(c, k + 1))
  }

  ghost function Requests(c: Config, k: nat): bytes
    decreases |c.need| - k
  {
    if k >= |c.need| then Frame(Complete()) else Frame(Req(c.need[k])) + Requests(c, k + 1)
  }

  lemma NeedFacts(c: Config, k: nat)
    requires c.Ok() && k < |c.need|
    ensures c.need[k] < c.Count() == |c.bitmap| < TWO32 && !c.bitmap[c.need[k]]
  {
    NeededIsUnset(c.bitmap);
    assert c.need[k] in c.need;
  }

  lemma PieceFacts(c: Config, i: nat)
    requires c.Ok() && i < c.Count()
    ensures Offset(i) < |c.src| == |c.out| && 0 < |c.Piece(i)| == ChunkLen(|c.src|, i)
    ensures c.Piece(i) == c.src[Offset(i)..Offset(i) + |c.Piece(i)|]
  {
    hide MetaOk, EncodeMeta, Needed;
  }

  lemma WantedFacts(c: Config, k: nat)
    requires c.Ok() && k < |c.need|
    ensures var i := c.need[k];
            && i < c.Count() == |c.bitmap| < TWO32 && !c.bitmap[i] && Offset(i) < |c.src|
            && 0 < |c.Wanted(k)| == ChunkLen(|c.src|, i)
            && Offset(i) + |c.Wanted(k)| <= |c.src|
            && c.Wanted(k) == c.src[Offset(i)..Offset(i) + |c.Wanted(k)|]
  {
    hide Config.Ok, Config.Piece;
    NeedFacts(c, k);
    PieceFacts(c, c.need[k]);
  }

  lemma NeedDistinct(c: Config, j: nat, k: nat)
    requires c.Ok() && j < k < |c.need|
    ensures c.need[j] != c.need[k]
  {
    NeededIsUnset(c.bitmap);
  }

  // What pull will still read, and write.
  ghost function PullAhead(c: Config, p: PullAt): bytes {
    match p
    case Start => Frame(MetaMsg(c)) + Replies(c, 0)
    case AwaitMeta => Frame(MetaMsg(c)) + Replies(c, 0)
    case Asking(_) => Replies(c, 0)
    case AwaitHeader(j) => Replies(c, j)
    case Receiving(j, got) => From(c.Wanted(j), got) + Replies(c, j + 1)
    case PullDone => []
    case PullThrew => []
  }

  ghost function PullLeft(c: Config, p: PullAt): bytes {
    match p
    case Start => Frame(Hello(c)) + Requests(c, 0)
    case AwaitMeta => Requests(c, 0)
    case Asking(j) => Requests(c, j)
    case _ => []
  }

  // What push will still write, and read.
  ghost function PushLeft(c: Config, p: PushAt): bytes {
    match p
    case AwaitHello => Frame(MetaMsg(c)) + Replies(c, 0)
    case SendingMeta => Frame(MetaMsg(c)) + Replies(c, 0)
    case Serving(k) => Replies(c, k)
    case Streaming(k, i, pos) => From(c.Wanted(k), pos) + Replies(c, k + 1)
    case PushDone(_) => []
    case PushThrew => []
  }

  ghost function PushAhead(c: Config, p: PushAt): bytes {
    match p
    case AwaitHello => Frame(Hello(c)) + Requests(c, 0)
    case SendingMeta => Requests(c, 0)
    case Serving(k) => Requests(c, k)
    case Streaming(k, i, pos) => Requests(c, k + 1)
    case PushDone(_) => []
    case PushThrew => []
  }

  function From(b: bytes, k: nat): bytes {
    if k <= |b| then b[k..] else []
  }

  // Neither process has thrown, and each is where its counters say.
  ghost predicate PlacesOk(c: Config, s: State) {
    var n := |c.need|;
    && (match s.pull
        case Asking(j) => j <= n
        case AwaitHeader(j) => j <= n
        case Receiving(j, got) => j < n && got < |c.Wanted(j)|
        case PullThrew => false
        case _ => true)
    && (match s.push
        case Serving(k) => k <= n
        case Streaming(k, i, pos) => k < n && i == c.need[k] && pos < |c.Wanted(k)|
        case PushDone(k) => k == n
        case PushThrew => false
        case _ => true)
  }

  // The streams never lose sync: what is in flight and what the writer will still write is
  // exactly what the reader will still read.
  ghost predicate InSync(c: Config, s: State) {
    && s.down + PushLeft(c, s.push) == PullAhead(c, s.pull)
    && s.up + PullLeft(c, s.pull) == PushAhead(c, s.push)
  }

  // How many chunks pull has finished.
  function Finished(p: PullAt, n: nat): nat {
    match p
    case AwaitHeader(j) => j
    case Receiving(j, _) => j
    case PullDone => n
    case _ => 0
  }

  // The chunk's range of the output holds exactly these bytes.
  predicate Holds(out: bytes, i: nat, data: bytes) {
    Offset(i) + |data| <= |out| && out[Offset(i)..Offset(i) + |data|] == data
  }

  ghost predicate OutputOk(c: Config, s: State) {
    && |s.out| == |c.src| == |c.out| && |s.bitmap| == |c.bitmap| == c.Count()
    && (forall i :: 0 <= i < c.Count() && c.bitmap[i] && Offset(i) < |c.out| ==>
          s.bitmap[i] && Holds(s.out, i, Chunk(c.out, |c.out|, i)))
    && (forall k :: 0 <= k < Finished(s.pull, |c.need|) && k < |c.need| ==>
          c.need[k] < c.Count() && s.bitmap[c.need[k]] && Holds(s.out, c.need[k], c.Wanted(k)))
    && (s.pull.Receiving? && s.pull.j < |c.need| && s.pull.got <= |c.Wanted(s.pull.j)| ==>
          Holds(s.out, c.need[s.pull.j], c.Wanted(s.pull.j)[..s.pull.got]))
  }

  ghost predicate Inv(c: Config, s: State) {
    PlacesOk(c, s) && InSync(c, s) && OutputOk(c, s)
  }

  // Bytes and messages still to be moved, counted at both ends.
  ghost function Work(c: Config, s: State): nat {
    |PullAhead(c, s.pull)| + |PullLeft(c, s.pull)| + |PushAhead(c, s.push)| + |PushLeft(c, s.push)|
    + (if s.pull.PullDone? then 0 else 1)
  }

  ghost predicate GoodStep(c: Config, s: State, s': State) {
    PlacesOk(c, s') && InSync(c, s') && (s' == s || Work(c, s') < Work(c, s))
  }

  lemma MessagesSendable(c: Config)
    requires c.Ok()
    ensures Sendable(Hello(c)) && Sendable(MetaMsg(c)) && Sendable(Complete())
    ensures forall i :: Sendable(Req(i)) && Sendable(Hdr(i))
  {
    hide U32, EncodeMeta;
  }

  lemma IndexRoundTrip(i: nat)
    requires i < TWO32
    ensures |Req(i).payload| == 4 == |Hdr(i).payload| && IndexOf(Req(i)) == i == IndexOf(Hdr(i))
  {
    hide FromU32, U32;
    U32RoundTrip(i);
    assert U32(i)[..4] == U32(i);
  }

  lemma MetaParses(c: Config)
    requires c.Ok()
    ensures DecodeMeta(MetaMsg(c).payload) == Some(c.meta)
  {
    hide EncodeMeta, DecodeMeta;
    DecodeMetaExact(EncodeMeta(c.meta), c.meta);
  }

  lemma HelloParses(c: Config)
    requires c.Ok()
    ensures DecodeStr(Hello(c).payload) == Some(c.token)
  {
    hide U32, DecodeStr;
    DecodeStrExact(Hello(c).payload, c.token);
  }

  lemma InitOk(c: Config)
    requires c.Ok()
    ensures Inv(c, Init(c))
  {
    hide Frame, Replies, Requests;
  }

  // ---- pull's steps ----

  // The steps of pull that read nothing.
  lemma PullWrites(c: Config, s: State)
    requires c.Ok() && PlacesOk(c, s) && InSync(c, s) && !s.pull.AwaitMeta? && !s.pull.AwaitHeader?
    ensures GoodStep(c, s, PullStep(c, s))
  {
    hide Frame, FrontOf, Replies, EncodeMeta, DecodeMeta, U32, Config.Ok, Config.Wanted, PushAhead, PushLeft, From;
  }

  lemma PullReadsMeta(c: Config, s: State)
    requires c.Ok() && PlacesOk(c, s) && InSync(c, s) && s.pull.AwaitMeta?
    ensures GoodStep(c, s, PullStep(c, s))
  {
    hide Frame, FrontOf, Replies, EncodeMeta, DecodeMeta, U32, Sendable, Config.Ok, PushAhead, PushLeft, Requests;
    MessagesSendable(c);
    FrontOfFrame(s.down, PushLeft(c, s.push), MetaMsg(c), Replies(c, 0));
    MetaParses(c);
  }

  // What pull finds at the front of its stream when it waits for a header.
  lemma HeaderArrives(c: Config, s: State, j: nat)
    requires c.Ok() && j < |c.need| && s.down + PushLeft(c, s.push) == Replies(c, j)
    ensures var f := FrontOf(s.down);
            f == NeedMore || (f.Has? && f.m == Hdr(c.need[j]) && |f.m.payload| == 4 && IndexOf(f.m) == c.need[j]
                              && f.rest + PushLeft(c, s.push) == c.Wanted(j) + Replies(c, j + 1))
    ensures |Replies(c, j)| > |c.Wanted(j)| + |Replies(c, j + 1)| && |c.Wanted(j)| > 0
  {
    hide FrontOf, EncodeMeta, FromU32, U32, Sendable, Config.Ok, PushLeft, Config.Wanted, Replies;
    var i := c.need[j];
    RepliesAt(c, j);
    MessagesSendable(c);
    FrontOfFrame(s.down, PushLeft(c, s.push), Hdr(i), c.Wanted(j) + Replies(c, j + 1));
    WantedFacts(c, j);
    IndexRoundTrip(i);
  }

  lemma HdrKind(i: nat)
    ensures Hdr(i).kind == CHUNK_HDR
  {
  }

  lemma PullReadsHeader(c: Config, s: State)
    requires c.Ok() && PlacesOk(c, s) && InSync(c, s) && s.pull.AwaitHeader?
    ensures GoodStep(c, s, PullStep(c, s))
  {
    hide Frame, FrontOf, Hdr, Config.Ok, PushAhead, PushLeft, Requests, Config.Wanted, Replies, Put, Chunk;
    var j := s.pull.j;
    if j < |c.need| {
      HeaderArrives(c, s, j);
      assert Hdr(c.need[j]).kind == CHUNK_HDR by { HdrKind(c.need[j]); }
      assert c.Wanted(j)[0..] == c.Wanted(j);
    } else {
      RepliesAt(c, j);
    }
  }

  // Landing the next bytes of a chunk completes its prefix and touches no other chunk.
  lemma PutHolds(out: bytes, i: nat, data: bytes, more: bytes, j: nat, other: bytes)
    requires Holds(out, i, data) && |data| + |more| <= CHUNK_SIZE && Offset(i) + |data| + |more| <= |out|
    ensures Holds(Put(out, Offset(i) + |data|, more), i, data + more)
    ensures i != j && Holds(out, j, other) && |other| <= CHUNK_SIZE ==>
              Holds(Put(out, Offset(i) + |data|, more), j, other)
  {
    var at := Offset(i) + |data|;
    var out' := Put(out, at, more);
    assert out'[..at] == out[..at] && out'[at..at + |more|] == more && out'[at + |more|..] == out[at + |more|..];
    assert out'[Offset(i)..at] == out'[..at][Offset(i)..] == data;
    assert out'[Offset(i)..at + |more|] == out'[Offset(i)..at] + out'[at..at + |more|];
    if i != j && Holds(out, j, other) && |other| <= CHUNK_SIZE { PutElsewhere(out, at, more, j, other); }
  }

  lemma PutElsewhere(out: bytes, at: nat, more: bytes, j: nat, other: bytes)
    requires Holds(out, j, other) && at + |more| <= |out|
    requires at + |more| <= Offset(j) || Offset(j) + |other| <= at
    ensures Holds(Put(out, at, more), j, other)
  {
    hide Put;
    PutReads(out, at, more);
    var out' := Put(out, at, more);
    forall k | 0 <= k < |other| ensures out'[Offset(j) + k] == other[k] {
      assert out[Offset(j)..Offset(j) + |other|][k] == out[Offset(j) + k];
    }
  }

  // The bytes pull takes are the next bytes of the chunk it asked for.
  lemma PullTakes(c: Config, s: State, n: nat)
    requires c.Ok() && PlacesOk(c, s) && InSync(c, s)
    requires s.pull.Receiving? && 1 <= n <= |s.down| && s.pull.got + n <= |c.Wanted(s.pull.j)|
    ensures s.down[..n] == c.Wanted(s.pull.j)[s.pull.got..s.pull.got + n]
    ensures s.down[n..] + PushLeft(c, s.push)
         == From(c.Wanted(s.pull.j), s.pull.got + n) + Replies(c, s.pull.j + 1)
  {
    hide Replies, PushLeft, Config.Ok, Config.Wanted;
    var w := c.Wanted(s.pull.j);
    var all := s.down + PushLeft(c, s.push);
    assert all[..n] == s.down[..n] && all[n..] == s.down[n..] + PushLeft(c, s.push);
    var rest := From(w, s.pull.got) + Replies(c, s.pull.j + 1);
    assert rest[..n] == w[s.pull.got..s.pull.got + n];
    assert rest[n..] == From(w, s.pull.got + n) + Replies(c, s.pull.j + 1);
  }

  lemma PullDataGood(c: Config, s: State, n: nat)
    requires c.Ok() && Inv(c, s)
    ensures GoodStep(c, s, PullData(c, s, n))
  {
    hide Frame, Replies, EncodeMeta, Config.Ok, Config.Wanted, PushAhead, PushLeft, Requests, Put, Holds;
    var s' := PullData(c, s, n);
    if s' != s {
      var j := s.pull.j;
      WantedFacts(c, j);
      PullTakes(c, s, n);
      if s.pull.got + n == |c.Wanted(j)| {
        assert From(c.Wanted(j), s.pull.got + n) == [];
      }
    }
  }

  // Nothing that other chunks hold is lost.
  ghost predicate KeepsOthers(out: bytes, out': bytes, i: nat) {
    forall k: nat, data: bytes :: k != i && |data| <= CHUNK_SIZE && Holds(out, k, data) ==> Holds(out', k, data)
  }

  lemma HeldSoFar(c: Config, s: State)
    requires OutputOk(c, s)
    ensures |s.out| == |c.src| && |s.bitmap| == c.Count()
    ensures s.pull.Receiving? && s.pull.j < |c.need| && s.pull.got <= |c.Wanted(s.pull.j)| ==>
              Holds(s.out, c.need[s.pull.j], c.Wanted(s.pull.j)[..s.pull.got])
  {
  }

  lemma Lands(out: bytes, i: nat, w: bytes, got: nat, n: nat)
    requires got + n <= |w| <= CHUNK_SIZE && Offset(i) + |w| <= |out| && Holds(out, i, w[..got])
    ensures var out' := Put(out, Offset(i) + got, w[got..got + n]);
            |out'| == |out| && Holds(out', i, w[..got + n]) && KeepsOthers(out, out', i)
  {
    hide Put, Holds;
    var data := w[got..got + n];
    assert w[..got] + data == w[..got + n];
    PutReads(out, Offset(i) + got, data);
    PutHolds(out, i, w[..got], data, i, []);
    forall k: nat, other: bytes | k != i && Holds(out, k, other) && |other| <= CHUNK_SIZE
      ensures Holds(Put(out, Offset(i) + got, data), k, other)
    {
      PutHolds(out, i, w[..got], data, k, other);
    }
  }

  // What a step of PullData does: the chunk's prefix grows, and when it is whole it passes
  // verification.
  lemma PullDataShape(c: Config, s: State, n: nat)
    requires c.Ok() && Inv(c, s) && PullData(c, s, n) != s
    ensures var s' := PullData(c, s, n);
            && s.pull.Receiving? && s.pull.j < |c.need|
            && var j, w := s.pull.j, c.Wanted(s.pull.j); var i := c.need[j]; var end := s.pull.got + n;
            && i < c.Count() && end <= |w| && |s'.out| == |s.out| && KeepsOthers(s.out, s'.out, i)
            && Holds(s'.out, i, w[..end])
            && s'.pull == (if end < |w| then Receiving(j, end) else AwaitHeader(j + 1))
            && s'.bitmap == (if end < |w| then s.bitmap else s.bitmap[i := true])
  {
    hide InSync, OutputOk, Replies, Config.Ok, Put, Holds, KeepsOthers, Config.Wanted;
    HeldSoFar(c, s);
    var j := s.pull.j;
    WantedFacts(c, j);
    PullTakes(c, s, n);
    Lands(s.out, c.need[j], c.Wanted(j), s.pull.got, n);
    if s.pull.got + n == |c.Wanted(j)| { VerifiesChunk(c, j, PullData(c, s, n).out); }
  }

  lemma PullDataOutput(c: Config, s: State, n: nat)
    requires c.Ok() && Inv(c, s)
    ensures OutputOk(c, PullData(c, s, n))
  {
    hide InSync, PlacesOk, Replies, Config.Ok, Holds, Chunk, PullData, Config.Wanted;
    var s' := PullData(c, s, n);
    if s' != s {
      PullDataShape(c, s, n);
      var j := s.pull.j;
      WantedFacts(c, j);
      forall k | 0 <= k < j ensures c.need[k] != c.need[j] && |c.Wanted(k)| <= CHUNK_SIZE {
        NeedDistinct(c, k, j);
        WantedFacts(c, k);
      }
      ChunkFits(c);
      assert c.Wanted(j)[..|c.Wanted(j)|] == c.Wanted(j);
    }
  }

  lemma ChunkFits(c: Config)
    requires c.Ok()
    ensures forall k: nat :: Offset(k) < |c.out| ==> |Chunk(c.out, |c.out|, k)| <= CHUNK_SIZE
  {
  }

  // A chunk that holds the source's bytes passes verification.
  lemma VerifiesChunk(c: Config, k: nat, out: bytes)
    requires c.Ok() && k < |c.need| && |out| == |c.src| && Holds(out, c.need[k], c.Wanted(k)[..|c.Wanted(k)|])
    ensures var i := c.need[k]; var len := ChunkLen(|out|, i);
            && c.Wanted(k)[..|c.Wanted(k)|] == c.Wanted(k) && len >= 0 && i < c.Count() && Offset(i) + len <= |out|
            && c.H(out[Offset(i)..Offset(i) + len]) == c.meta.chunkHashes[i]
  {
    WantedFacts(c, k);
  }

  // ---- push's steps ----

  lemma PushReadsHello(c: Config, s: State)
    requires c.Ok() && PlacesOk(c, s) && InSync(c, s) && s.push.AwaitHello?
    ensures GoodStep(c, s, PushStep(c, s))
  {
    hide Frame, FrontOf, Replies, EncodeMeta, DecodeStr, U32, Sendable, Config.Ok, PullAhead, PullLeft, Requests;
    MessagesSendable(c);
    FrontOfFrame(s.up, PullLeft(c, s.pull), Hello(c), Requests(c, 0));
    HelloParses(c);
  }

  lemma PushSendsMeta(c: Config, s: State)
    requires c.Ok() && PlacesOk(c, s) && InSync(c, s) && !s.push.AwaitHello? && !s.push.Serving?
    ensures GoodStep(c, s, PushStep(c, s))
  {
    hide Frame, FrontOf, Replies, EncodeMeta, U32, Sendable, Config.Ok, PullAhead, PullLeft, Requests;
    assert s.down + (Frame(MetaMsg(c)) + Replies(c, 0)) == (s.down + Frame(MetaMsg(c))) + Replies(c, 0);
  }

  lemma PushServes(c: Config, s: State)
    requires c.Ok() && PlacesOk(c, s) && InSync(c, s) && s.push.Serving?
    ensures GoodStep(c, s, PushStep(c, s))
  {
    hide Frame, FrontOf, EncodeMeta, U32, FromU32, Sendable, Config.Ok, PullAhead, PullLeft, Config.Wanted;
    MessagesSendable(c);
    var k := s.push.sent;
    if k < |c.need| {
      var i := c.need[k];
      WantedFacts(c, k);
      FrontOfFrame(s.up, PullLeft(c, s.pull), Req(i), Requests(c, k + 1));
      IndexRoundTrip(i);
      assert s.down + (Frame(Hdr(i)) + (c.Wanted(k) + Replies(c, k + 1)))
          == (s.down + Frame(Hdr(i))) + (c.Wanted(k) + Replies(c, k + 1));
    } else {
      FrontOfFrame(s.up, PullLeft(c, s.pull), Complete(), []);
    }
  }

  lemma SubSlice(src: bytes, at: nat, w: bytes, pos: nat, n: nat)
    requires at + |w| <= |src| && w == src[at..at + |w|] && pos + n <= |w|
    ensures src[at + pos..at + pos + n] == w[pos..pos + n]
  {
    var a, b := src[at + pos..at + pos + n], w[pos..pos + n];
    forall k | 0 <= k < n ensures a[k] == b[k] {
      assert a[k] == src[at + pos + k] && b[k] == w[pos + k] == src[at..at + |w|][pos + k] == src[at + (pos + k)];
    }
  }

  lemma Shift(stream: bytes, w: bytes, pos: nat, n: nat, tail: bytes)
    requires pos + n <= |w|
    ensures stream + (From(w, pos) + tail) == (stream + w[pos..pos + n]) + (From(w, pos + n) + tail)
    ensures |From(w, pos + n)| == |From(w, pos)| - n
    ensures pos + n == |w| ==> From(w, pos + n) + tail == tail
  {
    var data, rest := w[pos..pos + n], From(w, pos + n);
    assert From(w, pos) == data + rest;
    assert stream + ((data + rest) + tail) == (stream + data) + (rest + tail);
  }

  // A step of PushData appends the next bytes of the chunk.
  lemma PushDataShape(c: Config, s: State, n: nat)
    requires c.Ok() && PlacesOk(c, s) && PushData(c, s, n) != s
    ensures var s' := PushData(c, s, n);
            && s.push.Streaming? && s.push.sent < |c.need| && s.push.index == c.need[s.push.sent]
            && var k, pos, w := s.push.sent, s.push.pos, c.Wanted(s.push.sent);
            && 1 <= n && pos + n <= |w|
            && s' == s.(down := s.down + w[pos..pos + n],
                        push := if pos + n < |w| then Streaming(k, s.push.index, pos + n) else Serving(k + 1))
  {
    hide Config.Ok, Config.Wanted;
    var k, i, pos := s.push.sent, s.push.index, s.push.pos;
    WantedFacts(c, k);
    SubSlice(c.src, Offset(i), c.Wanted(k), pos, n);
  }

  lemma PushDataGood(c: Config, s: State, n: nat)
    requires c.Ok() && PlacesOk(c, s) && InSync(c, s)
    ensures GoodStep(c, s, PushData(c, s, n))
  {
    hide EncodeMeta, Config.Ok, PullAhead, PullLeft, Replies, Requests, Config.Wanted, From, PushData;
    if PushData(c, s, n) != s {
      PushDataShape(c, s, n);
      Shift(s.down, c.Wanted(s.push.sent), s.push.pos, n, Replies(c, s.push.sent + 1));
    }
  }

  // Push touches neither the output nor pull's place.
  lemma PushKeepsOutput(c: Config, s: State, n: nat)
    requires OutputOk(c, s)
    ensures OutputOk(c, PushStep(c, s)) && OutputOk(c, PushData(c, s, n))
  {
    hide Holds, Chunk, FrontOf, Config.Wanted;
  }

  lemma PullStepKeepsOutput(c: Config, s: State)
    requires c.Ok() && OutputOk(c, s) && PlacesOk(c, s)
    ensures OutputOk(c, PullStep(c, s))
  {
    hide Chunk, FrontOf, Config.Wanted, Config.Ok;
    if s.pull.AwaitHeader? && s.pull.j < |c.need| { WantedFacts(c, s.pull.j); }
  }

  // Every step of every run keeps the invariant and, unless it changes nothing, leaves
  // strictly less to do: any order of steps ends.
  lemma NextOk(c: Config, s: State, e: Step)
    requires c.Ok() && Inv(c, s)
    ensures Inv(c, Next(c, s, e))
    ensures Next(c, s, e) == s || Work(c, Next(c, s, e)) < Work(c, s)
  {
    hide PullStep, PullData, PushStep, PushData, Work, OutputOk, InSync, PlacesOk, Config.Ok;
    match e
    case PullMsg =>
      if s.pull.AwaitMeta? { PullReadsMeta(c, s); }
      else if s.pull.AwaitHeader? { PullReadsHeader(c, s); }
      else { PullWrites(c, s); }
      PullStepKeepsOutput(c, s);
    case PushMsg =>
      if s.push.AwaitHello? { PushReadsHello(c, s); }
      else if s.push.Serving? { PushServes(c, s); }
      else { PushSendsMeta(c, s); }
      PushKeepsOutput(c, s, 0);
    case PullBytes(n) => PullDataGood(c, s, n); PullDataOutput(c, s, n);
    case PushBytes(n) => PushDataGood(c, s, n); PushKeepsOutput(c, s, n);
  }

  lemma {:induction false} RunOk(c: Config, steps: seq<Step>)
    requires c.Ok()
    ensures Inv(c, Run(c, Init(c), steps))
  {
    hide Next, Inv, Config.Ok;
    if steps == [] {
      InitOk(c);
    } else {
      RunOk(c, steps[..|steps| - 1]);
      NextOk(c, Run(c, Init(c), steps[..|steps| - 1]), steps[|steps| - 1]);
    }
  }

  // In no run does either process throw, and the j-th header pull reads names the j-th
  // chunk it needs: pull is receiving what push is, or has been, streaming.
  lemma NeverThrows(c: Config, steps: seq<Step>)
    requires c.Ok()
    ensures var s := Run(c, Init(c), steps); !s.pull.PullThrew? && !s.push.PushThrew?
    ensures var s := Run(c, Init(c), steps); s.push.Streaming? ==> s.push.sent < |c.need| && s.push.index == c.need[s.push.sent]
    ensures var s := Run(c, Init(c), steps); s.push.PushDone? ==> s.push.sent == |c.need|
  {
    hide Run, Config.Ok, OutputOk, InSync;
    RunOk(c, steps);
  }

  // ---- no deadlock ----

  lemma {:induction false} RepliesShrink(c: Config, k: nat)
    ensures |Replies(c, k)| <= |Replies(c, 0)|
  {
    hide Frame, Config.Wanted;
    if k > 0 {
      RepliesShrink(c, k - 1);
      if k <= |c.need| { RepliesAt(c, k - 1); }
    }
  }

  // Once pull has written everything, push can move until it is done.
  lemma PushCanMove(c: Config, s: State) returns (e: Step)
    requires c.Ok() && Inv(c, s) && PullLeft(c, s.pull) == [] && !s.push.PushDone?
    ensures Next(c, s, e).push != s.push
  {
    hide FrontOf, Replies, EncodeMeta, U32, FromU32, Config.Ok, PullAhead, PullLeft, OutputOk, Config.Wanted;
    assert s.up + [] == s.up;
    if s.push.Streaming? {
      WantedFacts(c, s.push.sent);
      e := PushBytes(1);
      assert Next(c, s, e) == PushData(c, s, 1);
      assert Next(c, s, e).push != s.push;
    } else {
      if !s.push.SendingMeta? { RequestArrived(c, s); }
      e := PushMsg;
      assert Next(c, s, e) == PushStep(c, s);
      assert Next(c, s, e).push != s.push;
    }
  }

  lemma RequestArrived(c: Config, s: State)
    requires c.Ok() && PlacesOk(c, s) && s.up == PushAhead(c, s.push)
    requires s.push.AwaitHello? || s.push.Serving?
    ensures FrontOf(s.up) != NeedMore
  {
    hide FrontOf, Frame, Replies, EncodeMeta, U32, FromU32, Config.Ok, Config.Wanted, Sendable;
    MessagesSendable(c);
    assert s.up + [] == s.up;
    match s.push
    case AwaitHello => FrontOfFrame(s.up, [], Hello(c), Requests(c, 0));
    case Serving(k) =>
      if k < |c.need| { FrontOfFrame(s.up, [], Req(c.need[k]), Requests(c, k + 1)); }
      else { FrontOfFrame(s.up, [], Complete(), []); }
  }

  // While either process is not done, some step moves the run forward.
  lemma NoDeadlock(c: Config, s: State) returns (e: Step)
    requires c.Ok() && Inv(c, s) && !(s.pull.PullDone? && s.push.PushDone?)
    ensures Next(c, s, e) != s
  {
    hide Frame, FrontOf, Replies, EncodeMeta, DecodeMeta, DecodeStr, U32, FromU32, Sendable, Config.Ok, OutputOk, Config.Wanted;
    MessagesSendable(c);
    match s.pull
    case Start => e := PullMsg;
    case Asking(_) => e := PullMsg;
    case PullDone => e := PushCanMove(c, s);
    case AwaitMeta => e := MetaArrives(c, s);
    case AwaitHeader(j) =>
      RepliesAt(c, j);
      if j == |c.need| || FrontOf(s.down) != NeedMore {
        e := PullMsg;
      } else {
        if s.push.PushDone? {
          assert s.down + [] == s.down;
          FrontOfFrame(s.down, [], Hdr(c.need[j]), c.Wanted(j) + Replies(c, j + 1));
          assert false;
        }
        e := PushCanMove(c, s);
      }
    case Receiving(j, got) =>
      WantedFacts(c, j);
      HeldSoFar(c, s);
      if s.down != [] {
        e := PullBytes(1);
      } else {
        if s.push.PushDone? {
          assert false;
        }
        e := PushCanMove(c, s);
      }
  }

  lemma RepliesAt(c: Config, k: nat)
    requires k <= |c.need|
    ensures k == |c.need| ==> Replies(c, k) == []
    ensures k < |c.need| ==> Replies(c, k) == Frame(Hdr(c.need[k])) + (c.Wanted(k) + Replies(c, k + 1))
  {
  }

  lemma MetaArrives(c: Config, s: State) returns (e: Step)
    requires c.Ok() && Inv(c, s) && s.pull.AwaitMeta?
    ensures Next(c, s, e) != s
  {
    hide Frame, FrontOf, Replies, EncodeMeta, DecodeMeta, DecodeStr, U32, FromU32, Sendable, Config.Ok, OutputOk, Requests;
    MessagesSendable(c);
    FrontOfFrame(s.down, PushLeft(c, s.push), MetaMsg(c), Replies(c, 0));
    match s.push
    case AwaitHello =>
      FrontOfFrame(s.up, Requests(c, 0), Hello(c), Requests(c, 0));
      e := PushMsg;
    case SendingMeta => e := PushMsg;
    case Serving(k) => RepliesShrink(c, k); e := PullMsg;
    case Streaming(k, i, pos) => StreamingShrinks(c, k, pos); e := PullMsg;
    case PushDone(_) => e := PullMsg;
  }

  lemma StreamingShrinks(c: Config, k: nat, pos: nat)
    requires k < |c.need|
    ensures |From(c.Wanted(k), pos)| + |Replies(c, k + 1)| <= |Replies(c, 0)|
  {
    hide Frame, Config.Wanted;
    RepliesShrink(c, k);
  }

  // ---- the result ----

  // A finished run: push has served exactly the needed chunks, every chunk is marked done,
  // and the output is the source exactly when the chunks done before were the source's.
  lemma FinishedRun(c: Config, steps: seq<Step>)
    requires c.Ok()
    requires var s := Run(c, Init(c), steps); s.pull.PullDone? && s.push.PushDone?
    ensures var s := Run(c, Init(c), steps);
            && s.up == [] && s.down == [] && s.push.sent == |c.need|
            && AllMarked(c, s.bitmap)
            && (s.out == c.src <==> ResumedFromSource(c))
  {
    hide Run, Config.Ok, OutputOk, ResumedFromSource, AllMarked;
    RunOk(c, steps);
    var s := Run(c, Init(c), steps);
    assert s.down + [] == s.down && s.up + [] == s.up;
    EveryChunkDone(c, s);
    if ResumedFromSource(c) { OutputIsSource(c, s); }
    if s.out == c.src { ResumedKept(c, s); }
  }

  ghost predicate AllMarked(c: Config, bitmap: seq<bool>) {
    forall i :: 0 <= i < c.Count() ==> i < |bitmap| && bitmap[i]
  }

  // The chunks that were marked done at the start are the source's.
  ghost predicate ResumedFromSource(c: Config) {
    forall i :: 0 <= i < |c.bitmap| && c.bitmap[i] && Offset(i) < |c.out| ==> ChunkAt(c.out, i) == c.Piece(i)
  }

  lemma OutputIsSource(c: Config, s: State)
    requires c.Ok() && OutputOk(c, s) && s.pull.PullDone? && ResumedFromSource(c)
    ensures s.out == c.src
  {
    hide Holds, Chunk, Config.Ok, OutputOk;
    forall i | 0 <= i < c.Count() ensures |s.out| == |c.src| && Holds(s.out, i, c.Piece(i)) {
      ChunkDone(c, s, i);
    }
    SameCount(c);
    ChunkDone(c, s, 0);
    ChunksMakeFile(c, s.out);
  }

  // The chunks done before are still there, so they are the source's if the output is.
  lemma ResumedKept(c: Config, s: State)
    requires c.Ok() && OutputOk(c, s) && s.pull.PullDone? && s.out == c.src
    ensures ResumedFromSource(c)
  {
    hide Config.Ok, OutputOk;
    SameCount(c);
    forall i | 0 <= i < |c.bitmap| && c.bitmap[i] && Offset(i) < |c.out| ensures ChunkAt(c.out, i) == c.Piece(i) {
      ChunkDone(c, s, i);
    }
  }

  lemma SameCount(c: Config)
    requires c.Ok()
    ensures 0 < c.Count() == |c.bitmap|
  {
  }

  lemma NeededHas(c: Config, i: nat) returns (k: nat)
    requires c.Ok() && i < c.Count() && !c.bitmap[i]
    ensures k < |c.need| && c.need[k] == i && c.Wanted(k) == c.Piece(i)
  {
    NeededIsUnset(c.bitmap);
    assert i in c.need;
    k :| 0 <= k < |c.need| && c.need[k] == i;
  }

  lemma ChunkDone(c: Config, s: State, i: nat)
    requires c.Ok() && OutputOk(c, s) && s.pull.PullDone? && i < c.Count()
    ensures Offset(i) < |c.src| == |c.out| == |s.out| && i < |c.bitmap| == |s.bitmap| && s.bitmap[i]
    ensures c.bitmap[i] ==> Holds(s.out, i, Chunk(c.out, |c.out|, i))
    ensures !c.bitmap[i] ==> Holds(s.out, i, c.Piece(i))
  {
    hide Holds, Chunk, Config.Ok, Config.Wanted, Config.Piece;
    PieceFacts(c, i);
    SameCount(c);
    if !c.bitmap[i] {
      var k := NeededHas(c, i);
    }
  }

  lemma EveryChunkDone(c: Config, s: State)
    requires c.Ok() && OutputOk(c, s) && s.pull.PullDone?
    ensures AllMarked(c, s.bitmap)
  {
    hide Config.Ok, Holds, Chunk;
    forall i | 0 <= i < c.Count() ensures i < |s.bitmap| && s.bitmap[i] { ChunkDone(c, s, i); }
  }

  lemma ChunksMakeFile(c: Config, out: bytes)
    requires c.Ok() && |out| == |c.src| && forall i :: 0 <= i < c.Count() ==> Holds(out, i, c.Piece(i))
    ensures out == c.src
  {
    hide Config.Ok, Config.Piece, Holds;
    forall p | 0 <= p < |out| ensures out[p] == c.src[p] {
      var i := p / CHUNK_SIZE;
      InChunk(c, p);
      assert Holds(out, i, c.Piece(i));
      HeldByte(c, out, i, p);
    }
  }

  lemma InChunk(c: Config, p: nat)
    requires c.Ok() && p < |c.src|
    ensures p / CHUNK_SIZE < c.Count() && Offset(p / CHUNK_SIZE) <= p < Offset(p / CHUNK_SIZE) + CHUNK_SIZE
  {
    hide MetaOk, EncodeMeta, Needed, Config.Piece;
  }

  lemma HeldByte(c: Config, out: bytes, i: nat, p: nat)
    requires |out| == |c.src| && Offset(i) <= p < Offset(i) + CHUNK_SIZE && p < |out| && Holds(out, i, c.Piece(i))
    ensures out[p] == c.src[p]
  {
    var w := c.Piece(i);
    assert out[p] == out[Offset(i)..Offset(i) + |w|][p - Offset(i)] == w[p - Offset(i)];
  }

  // The chunks that were marked done at the start verify, as load and the sessions before
  // guarantee.
  ghost predicate ResumedVerified(c: Config) {
    forall i :: 0 <= i < |c.bitmap| && c.bitmap[i] && Offset(i) < |c.out| ==>
      i < |c.meta.chunkHashes| && c.H(ChunkAt(c.out, i)) == c.meta.chunkHashes[i]
  }

  // Not one of them is a second preimage: different bytes with the digest of the source's.
  ghost predicate NoResumedCollision(c: Config) {
    forall i :: 0 <= i < |c.bitmap| && c.bitmap[i] && Offset(i) < |c.out| ==>
      (c.H(ChunkAt(c.out, i)) == c.H(c.Piece(i)) ==> ChunkAt(c.out, i) == c.Piece(i))
  }

  // A corollary of FinishedRun, in terms of the digest: for resumed chunks that hash to their
  // entries, to be the source's means not to collide with the source's. So the output of a
  // finished run is the source exactly when no resumed chunk collides. The digest is any
  // function.
  lemma FinishedIsSourceIff(c: Config, steps: seq<Step>)
    requires c.Ok() && ResumedVerified(c)
    requires var s := Run(c, Init(c), steps); s.pull.PullDone? && s.push.PushDone?
    ensures Run(c, Init(c), steps).out == c.src <==> NoResumedCollision(c)
  {
    hide Run, Config.Ok;
    FinishedRun(c, steps);
    VerifiedIsSourceIff(c);
  }

  // A fresh transfer has nothing to collide with.
  lemma FreshIsSource(c: Config, steps: seq<Step>)
    requires c.Ok() && forall i :: 0 <= i < |c.bitmap| ==> !c.bitmap[i]
    requires var s := Run(c, Init(c), steps); s.pull.PullDone? && s.push.PushDone?
    ensures Run(c, Init(c), steps).out == c.src
  {
    hide Run, Config.Ok;
    FinishedIsSourceIff(c, steps);
  }

  // Verified chunks are the source's exactly when none of them collides.
  lemma VerifiedIsSourceIff(c: Config)
    requires c.Ok() && ResumedVerified(c)
    ensures ResumedFromSource(c) <==> NoResumedCollision(c)
  {
    hide Chunk;
    forall i | 0 <= i < |c.bitmap| && c.bitmap[i] && Offset(i) < |c.out|
      ensures c.H(ChunkAt(c.out, i)) == c.H(c.Piece(i))
    {
    }
  }
}
