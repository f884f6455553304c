// Wire format: big-endian writers, the bounds-checked reader, message framing and the
// FILE_META payload. The functions say what the bytes are; the methods are the code.
module Protocol {
  import opened Bytes
  import opened Transport
  import opened Wrappers

  const PROTOCOL_VERSION: byte := 2
  const HEADER_SIZE := 6
  const HASH_SIZE := 32
  const MAX_PAYLOAD_SIZE := 64 * 1024 * 1024
  const TWO32 := 0x1_0000_0000

  type u32 = n: nat | n < 0x1_0000_0000
  type u64 = n: nat | n < 0x1_0000_0000_0000_0000

  // Message types HANDSHAKE = 1 .. CANCEL = 8
  const HANDSHAKE: byte := 1
  const FILE_META: byte := 2
  const CHUNK_REQ: byte := 3
  const CHUNK_HDR: byte := 4
  const COMPLETE: byte := 6

  datatype Message = Message(kind: byte, payload: bytes)
  datatype FileMeta = FileMeta(fileName: bytes, fileSize: u64, chunkSize: u32, chunkCount: u32, chunkHashes: seq<bytes>)

  // ---- what the bytes are ----

  // Big-endian: the low-order byte comes last.
  function Be(v: nat, width: nat): (b: bytes)
    ensures |b| == width
  {
    if width == 0 then [] else Be(v / 256, width - 1) + [v % 256]
  }

  function FromBe(b: bytes): nat {
    if b == [] then 0 else FromBe(b[..|b| - 1]) * 256 + b[|b| - 1]
  }

  function Pow256(width: nat): nat {
    if width == 0 then 1 else 256 * Pow256(width - 1)
  }

  lemma Widths()
    ensures Pow256(4) == TWO32
  {
    assert Pow256(2) == 0x1_0000;
  }

  lemma {:induction false} FromBeFits(b: bytes)
    ensures FromBe(b) < Pow256(|b|)
  {
    if b != [] { FromBeFits(b[..|b| - 1]); }
  }

  lemma {:induction false} BeRoundTrip(v: nat, width: nat)
    requires v < Pow256(width)
    ensures FromBe(Be(v, width)) == v
  {
    if width > 0 {
      assert Be(v, width)[..width - 1] == Be(v / 256, width - 1);
      BeRoundTrip(v / 256, width - 1);
    }
  }

  lemma {:induction false} BeUnique(b: bytes)
    ensures Be(FromBe(b), |b|) == b
  {
    if b != [] { BeUnique(b[..|b| - 1]); }
  }

  function U32(v: u32): (b: bytes)
    ensures |b| == 4
  {
    Be(v, 4)
  }

  function FromU32(b: bytes): (v: u32)
    requires |b| == 4
    ensures U32(v) == b
  {
    Widths();
    FromBeFits(b);
    BeUnique(b);
    FromBe(b)
  }

  function U64(v: u64): (b: bytes)
    ensures |b| == 8
  {
    U32(v / TWO32) + U32(v % TWO32)
  }

  function FromU64(b: bytes): (v: u64)
    requires |b| == 8
  {
    FromU32(b[..4]) * TWO32 + FromU32(b[4..])
  }

  lemma U64Unique(b: bytes)
    requires |b| == 8
    ensures U64(FromU64(b)) == b
  {
    hide U32, FromU32;
    var hi, lo := FromU32(b[..4]), FromU32(b[4..]);
    assert (hi * TWO32 + lo) / TWO32 == hi && (hi * TWO32 + lo) % TWO32 == lo;
    assert b == b[..4] + b[4..];
  }

  lemma U32RoundTrip(v: u32)
    ensures FromU32(U32(v)) == v
  {
    Widths();
    BeRoundTrip(v, 4);
  }

  // The high-order byte comes first.
  lemma U32Bytes(v: u32)
    ensures U32(v) == [v / 0x100_0000, v / 0x1_0000 % 256, v / 0x100 % 256, v % 256]
  {
    BeTwo(v / 0x1_0000);
    BeTwo(v);
    assert Be(v, 3) == Be(v / 256, 2) + [v % 256];
    BeTwo(v / 256);
    assert Be(v / 256, 3) == Be(v / 256 / 256, 2) + [v / 256 % 256];
    assert Be(v, 4) == Be(v / 256, 3) + [v % 256];
  }

  lemma BeTwo(v: nat)
    ensures Be(v, 2) == [v / 256 % 256, v % 256]
  {
    assert Be(v / 256, 1) == Be(v / 256 / 256, 0) + [v / 256 % 256];
  }

  lemma U64RoundTrip(v: u64)
    ensures FromU64(U64(v)) == v
  {
    U32RoundTrip(v / TWO32);
    U32RoundTrip(v % TWO32);
    assert U64(v)[..4] == U32(v / TWO32) && U64(v)[4..] == U32(v % TWO32);
  }

  // ---- FILE_META ----

  function Join(parts: seq<bytes>): bytes {
    if parts == [] then [] else parts[0] + Join(parts[1..])
  }

  // The first n hashes of p.
  function Split(p: bytes, n: nat): (hs: seq<bytes>)
    requires n * HASH_SIZE <= |p|
    ensures |hs| == n && forall h :: h in hs ==> |h| == HASH_SIZE
  {
    if n == 0 then [] else [p[..HASH_SIZE]] + Split(p[HASH_SIZE..], n - 1)
  }

  ghost predicate MetaOk(m: FileMeta) {
    && |m.fileName| < TWO32 && |m.chunkHashes| == m.chunkCount
    && forall h :: h in m.chunkHashes ==> |h| == HASH_SIZE
  }

  // The name's length prefix is cut to 32 bits.
  function EncodeFields(m: FileMeta): (b: bytes)
    ensures |b| == 20 + |m.fileName|
  {
    U64(m.fileSize) + U32(|m.fileName| % TWO32) + m.fileName + U32(m.chunkSize) + U32(m.chunkCount)
  }

  function EncodeMeta(m: FileMeta): bytes {
    EncodeFields(m) + Join(m.chunkHashes)
  }

  // parse_filemeta, step by step; every read is checked against the end of the payload.
  function DecodeMeta(p: bytes): Option<FileMeta> {
    if |p| < 12 then None else
    var nameLen := FromU32(p[8..12]);
    if |p| < 12 + nameLen + 8 then None else
    var at := 12 + nameLen;
    var count := FromU32(p[at + 4..at + 8]);
    if |p| < at + 8 + count * HASH_SIZE then None else
    Some(FileMeta(p[12..at], FromU64(p[..8]), FromU32(p[at..at + 4]), count, Split(p[at + 8..], count)))
  }

  lemma {:induction false} SplitJoins(p: bytes, n: nat)
    requires n * HASH_SIZE <= |p|
    ensures Join(Split(p, n)) == p[..n * HASH_SIZE]
  {
    if n > 0 {
      SplitJoins(p[HASH_SIZE..], n - 1);
      assert Split(p, n)[1..] == Split(p[HASH_SIZE..], n - 1);
      assert p[..HASH_SIZE] + p[HASH_SIZE..][..(n - 1) * HASH_SIZE] == p[..n * HASH_SIZE];
    }
  }

  lemma {:induction false} JoinLength(parts: seq<bytes>)
    requires forall h :: h in parts ==> |h| == HASH_SIZE
    ensures |Join(parts)| == |parts| * HASH_SIZE
  {
    if parts != [] { JoinLength(parts[1..]); }
  }

  lemma {:induction false} JoinSplits(parts: seq<bytes>, p: bytes)
    requires forall h :: h in parts ==> |h| == HASH_SIZE
    requires |parts| * HASH_SIZE <= |p| && p[..|parts| * HASH_SIZE] == Join(parts)
    ensures Split(p, |parts|) == parts
  {
    if parts != [] {
      JoinLength(parts[1..]);
      assert p[..HASH_SIZE] == p[..|parts| * HASH_SIZE][..HASH_SIZE] == parts[0];
      assert p[HASH_SIZE..][..|parts[1..]| * HASH_SIZE] == p[..|parts| * HASH_SIZE][HASH_SIZE..] == Join(parts[1..]);
      JoinSplits(parts[1..], p[HASH_SIZE..]);
    }
  }

  // Where the fields of m lie in a payload that starts with its encoding.
  ghost predicate LaidOut(p: bytes, m: FileMeta) {
    var at := 12 + |m.fileName|;
    && |m.fileName| < TWO32
    && at + 8 + m.chunkCount * HASH_SIZE <= |p|
    && p[..8] == U64(m.fileSize) && p[8..12] == U32(|m.fileName|) && p[12..at] == m.fileName
    && p[at..at + 4] == U32(m.chunkSize) && p[at + 4..at + 8] == U32(m.chunkCount)
    && p[at + 8..at + 8 + m.chunkCount * HASH_SIZE] == Join(m.chunkHashes)
  }

  lemma LaidOutIffPrefix(p: bytes, m: FileMeta)
    requires MetaOk(m)
    ensures LaidOut(p, m) <==> EncodeMeta(m) <= p
  {
    hide U32, U64, Join;
    if LaidOut(p, m) { LaidOutIsPrefix(p, m); }
    if EncodeMeta(m) <= p { PrefixIsLaidOut(p, m); }
  }

  lemma LaidOutIsPrefix(p: bytes, m: FileMeta)
    requires MetaOk(m) && LaidOut(p, m)
    ensures EncodeMeta(m) <= p
  {
    hide U32, U64, Join;
    var at := 12 + |m.fileName|;
    var end := at + 8 + m.chunkCount * HASH_SIZE;
    assert p[..8] + p[8..12] == p[..12];
    assert p[..12] + p[12..at] == p[..at];
    assert p[..at] + p[at..at + 4] == p[..at + 4];
    assert p[..at + 4] + p[at + 4..at + 8] == p[..at + 8];
    assert p[..at + 8] + p[at + 8..end] == p[..end];
  }

  lemma PrefixIsLaidOut(p: bytes, m: FileMeta)
    requires MetaOk(m) && EncodeMeta(m) <= p
    ensures LaidOut(p, m)
  {
    hide U32, U64, Join;
    JoinLength(m.chunkHashes);
    var f, at := EncodeFields(m), 12 + |m.fileName|;
    assert p[..|f|] == f && |f| == at + 8;
    assert p[..8] == f[..8] == U64(m.fileSize) && p[8..12] == f[8..12] == U32(|m.fileName|);
    assert p[12..at] == f[12..at] == m.fileName;
    assert p[at..at + 4] == f[at..at + 4] == U32(m.chunkSize) && p[at + 4..at + 8] == f[at + 4..] == U32(m.chunkCount);
    assert EncodeMeta(m)[at + 8..] == Join(m.chunkHashes);
  }

  // Parsing gives m exactly when the payload starts with the encoding of m: both the
  // round trip and its converse, for payloads with anything after the encoding.
  lemma DecodeMetaExact(p: bytes, m: FileMeta)
    requires MetaOk(m)
    ensures DecodeMeta(p) == Some(m) <==> EncodeMeta(m) <= p
  {
    LaidOutIffPrefix(p, m);
    if LaidOut(p, m) { DecodeFindsMeta(p, m); }
    if DecodeMeta(p) == Some(m) { DecodeIsPrefix(p); }
  }

  lemma DecodeFindsMeta(p: bytes, m: FileMeta)
    requires MetaOk(m) && LaidOut(p, m)
    ensures DecodeMeta(p) == Some(m)
  {
    hide U32, U64, FromU32, FromU64, Split, Join;
    U64RoundTrip(m.fileSize);
    U32RoundTrip(|m.fileName|);
    U32RoundTrip(m.chunkSize);
    U32RoundTrip(m.chunkCount);
    var rest := p[12 + |m.fileName| + 8..];
    assert rest[..m.chunkCount * HASH_SIZE] == Join(m.chunkHashes);
    JoinSplits(m.chunkHashes, rest);
  }

  // Whatever parses is a well-formed FILE_META whose encoding starts the payload.
  lemma DecodeIsPrefix(p: bytes)
    requires DecodeMeta(p).Some?
    ensures var m := DecodeMeta(p).value; MetaOk(m) && EncodeMeta(m) <= p
  {
    hide EncodeMeta;
    DecodeLaysOut(p);
    LaidOutIffPrefix(p, DecodeMeta(p).value);
  }

  lemma DecodeLaysOut(p: bytes)
    requires DecodeMeta(p).Some?
    ensures var m := DecodeMeta(p).value; MetaOk(m) && LaidOut(p, m)
  {
    hide U32, U64, FromU32, FromU64, Split, Join;
    var m := DecodeMeta(p).value;
    var at := 12 + |m.fileName|;
    var rest := p[at + 8..];
    SplitJoins(rest, m.chunkCount);
    U64Unique(p[..8]);
    assert rest[..m.chunkCount * HASH_SIZE] == p[at + 8..at + 8 + m.chunkCount * HASH_SIZE];
  }

  // A FILE_META that fits a message has fewer than 2^21 chunks, so the ceiling division
  // of its bitmap cannot wrap.
  lemma ReceivedCountIsSmall(p: bytes)
    requires |p| <= MAX_PAYLOAD_SIZE && DecodeMeta(p).Some?
    ensures DecodeMeta(p).value.chunkCount < 0x20_0000
  {
  }

  // recv_msg accepts a FILE_META exactly while its encoding fits in 64 MiB.
  lemma MetaFitsIff(m: FileMeta)
    requires MetaOk(m)
    ensures |EncodeMeta(m)| <= MAX_PAYLOAD_SIZE <==> 20 + |m.fileName| + m.chunkCount * HASH_SIZE <= MAX_PAYLOAD_SIZE
  {
    JoinLength(m.chunkHashes);
  }

  // ---- the writers ----

  // A payload under construction: put_u32, put_u64, put_str and put_bytes advance `pos`.
  class Writer {
    const buf: array<byte>
    var pos: nat

    ghost predicate Valid()
      reads this
    {
      pos <= buf.Length
    }

    ghost function Written(): bytes
      reads this, buf
      requires Valid()
    {
      buf[..pos]
    }

    constructor (size: nat)
      ensures Valid() && fresh(buf) && buf.Length == size && Written() == []
    {
      buf := new byte[size](_ => 0);
      pos := 0;
    }

    method PutBytes(data: bytes)
      requires Valid() && pos + |data| <= buf.Length
      modifies this, buf
      ensures Valid() && pos == old(pos) + |data| && Written() == old(Written()) + data
    {
      Store(buf, pos, data);
      pos := pos + |data|;
    }

    method PutU32(v: u32)
      requires Valid() && pos + 4 <= buf.Length
      modifies this, buf
      ensures Valid() && pos == old(pos) + 4 && Written() == old(Written()) + U32(v)
    {
      PutBytes(U32(v));
    }

    // High word first.
    method PutU64(v: u64)
      requires Valid() && pos + 8 <= buf.Length
      modifies this, buf
      ensures Valid() && pos == old(pos) + 8 && Written() == old(Written()) + U64(v)
    {
      PutU32(v / TWO32);
      PutU32(v % TWO32);
    }

    // The length prefix is cut to 32 bits.
    method PutStr(s: bytes)
      requires Valid() && pos + 4 + |s| <= buf.Length
      modifies this, buf
      ensures Valid() && pos == old(pos) + 4 + |s| && Written() == old(Written()) + U32(|s| % TWO32) + s
    {
      PutU32(|s| % TWO32);
      PutBytes(s);
    }
  }

  method PutHashes(w: Writer, hashes: seq<bytes>)
    requires w.Valid() && w.pos + |hashes| * HASH_SIZE <= w.buf.Length
    requires forall h :: h in hashes ==> |h| == HASH_SIZE
    modifies w, w.buf
    ensures w.Valid() && w.pos == old(w.pos) + |hashes| * HASH_SIZE
    ensures w.Written() == old(w.Written()) + Join(hashes)
  {
    ghost var start, end := w.Written(), w.pos + |hashes| * HASH_SIZE;
    var i := 0;
    while i < |hashes|
      invariant 0 <= i <= |hashes| && w.Valid() && w.pos + (|hashes| - i) * HASH_SIZE == end
      invariant w.Written() + Join(hashes[i..]) == start + Join(hashes)
    {
      ghost var before := w.Written();
      assert hashes[i] in hashes;
      w.PutBytes(hashes[i]);
      assert hashes[i..][1..] == hashes[i + 1..];
      assert before + Join(hashes[i..]) == w.Written() + Join(hashes[i + 1..]);
      i := i + 1;
    }
  }

  method PutFields(w: Writer, m: FileMeta)
    requires w.Valid() && w.pos + 20 + |m.fileName| <= w.buf.Length
    modifies w, w.buf
    ensures w.Valid() && w.pos == old(w.pos) + 20 + |m.fileName|
    ensures w.Written() == old(w.Written()) + EncodeFields(m)
  {
    hide U32, U64;
    w.PutU64(m.fileSize);
    w.PutStr(m.fileName);
    w.PutU32(m.chunkSize);
    w.PutU32(m.chunkCount);
  }

  // make_filemeta: None (an exception) exactly when the hash list has the wrong length.
  method MakeFileMeta(m: FileMeta) returns (r: Option<Message>)
    requires forall h :: h in m.chunkHashes ==> |h| == HASH_SIZE
    ensures r == if |m.chunkHashes| != m.chunkCount then None else Some(Message(FILE_META, EncodeMeta(m)))
  {
    hide EncodeFields, Join;
    if |m.chunkHashes| != m.chunkCount { return None; }
    var w := new Writer(8 + 4 + |m.fileName| + 4 + 4 + m.chunkCount * HASH_SIZE);
    PutFields(w, m);
    assert [] + EncodeFields(m) == EncodeFields(m);
    PutHashes(w, m.chunkHashes);
    assert w.Written() == w.buf[..];
    return Some(Message(FILE_META, w.buf[..]));
  }

  // ---- the bounds-checked reader ----

  // Every get returns None (an exception) instead of reading past the end.
  class Reader {
    const data: bytes
    var pos: nat

    ghost predicate Valid()
      reads this
    {
      pos <= |data|
    }

    constructor (data: bytes)
      ensures Valid() && this.data == data && pos == 0
    {
      this.data, pos := data, 0;
    }

    predicate Ensure(n: nat)
      reads this
    {
      pos + n <= |data|
    }

    method GetBytes(n: nat) returns (r: Option<bytes>)
      requires Valid()
      modifies this
      ensures Valid()
      ensures old(Ensure(n)) ==> r == Some(data[old(pos)..old(pos) + n]) && pos == old(pos) + n
      ensures !old(Ensure(n)) ==> r == None && pos == old(pos)
    {
      if !Ensure(n) { return None; }
      r := Some(data[pos..pos + n]);
      pos := pos + n;
    }

    method GetU32() returns (r: Option<u32>)
      requires Valid()
      modifies this
      ensures Valid()
      ensures old(Ensure(4)) ==> r == Some(FromU32(data[old(pos)..old(pos) + 4])) && pos == old(pos) + 4
      ensures !old(Ensure(4)) ==> r == None && pos == old(pos)
    {
      var b := GetBytes(4);
      if b.None? { return None; }
      return Some(FromU32(b.value));
    }

    method GetU64() returns (r: Option<u64>)
      requires Valid()
      modifies this
      ensures Valid()
      ensures old(Ensure(8)) ==> r == Some(FromU64(data[old(pos)..old(pos) + 8])) && pos == old(pos) + 8
      ensures !old(Ensure(8)) ==> r == None
    {
      var hi := GetU32();
      if hi.None? { return None; }
      var lo := GetU32();
      if lo.None? { return None; }
      ghost var b := data[old(pos)..pos];
      assert b[..4] == data[old(pos)..old(pos) + 4] && b[4..] == data[old(pos) + 4..pos];
      return Some(hi.value * TWO32 + lo.value);
    }

    method GetStr() returns (r: Option<bytes>)
      requires Valid()
      modifies this
      ensures Valid()
      ensures !old(Ensure(4)) ==> r == None
      ensures old(Ensure(4)) ==>
                var n := FromU32(data[old(pos)..old(pos) + 4]);
                if old(pos) + 4 + n <= |data|
                then r == Some(data[old(pos) + 4..old(pos) + 4 + n]) && pos == old(pos) + 4 + n
                else r == None
    {
      var n := GetU32();
      if n.None? { return None; }
      r := GetBytes(n.value);
    }
  }

  // parse_filemeta
  method ParseFileMeta(msg: Message) returns (r: Option<FileMeta>)
    ensures r == if msg.kind != FILE_META then None else DecodeMeta(msg.payload)
  {
    hide U32, U64, FromU32, FromU64, Split;
    if msg.kind != FILE_META { return None; }
    var reader := new Reader(msg.payload);
    var size := reader.GetU64();
    if size.None? { return None; }
    var name := reader.GetStr();
    if name.None? { return None; }
    var chunkSize := reader.GetU32();
    if chunkSize.None? { return None; }
    var count := reader.GetU32();
    if count.None? || !reader.Ensure(count.value * HASH_SIZE) { return None; }
    var hashes := ReadHashes(reader, count.value);
    return Some(FileMeta(name.value, size.value, chunkSize.value, count.value, hashes));
  }

  method ReadHashes(reader: Reader, n: nat) returns (hashes: seq<bytes>)
    requires reader.Valid() && reader.Ensure(n * HASH_SIZE)
    modifies reader
    ensures hashes == Split(reader.data[old(reader.pos)..], n)
  {
    hide Split;
    hashes := [];
    ghost var rest := reader.data[reader.pos..];
    SplitNone(rest);
    var i := 0;
    while i < n
      invariant 0 <= i <= n && reader.Valid() && reader.Ensure((n - i) * HASH_SIZE)
      invariant hashes + Split(reader.data[reader.pos..], n - i) == Split(rest, n)
    {
      ghost var tail := reader.data[reader.pos..];
      var h := reader.GetBytes(HASH_SIZE);
      assert reader.data[reader.pos..] == tail[HASH_SIZE..] && h.value == tail[..HASH_SIZE];
      SplitHead(tail, n - i);
      hashes := hashes + [h.value];
      i := i + 1;
    }
    SplitNone(reader.data[reader.pos..]);
  }

  lemma SplitHead(p: bytes, n: nat)
    requires 0 < n && n * HASH_SIZE <= |p|
    ensures Split(p, n) == [p[..HASH_SIZE]] + Split(p[HASH_SIZE..], n - 1)
  {
  }

  lemma SplitNone(p: bytes)
    ensures Split(p, 0) == []
  {
  }

  // ---- small payloads ----

  method MakeHandshake(token: bytes) returns (m: Message)
    ensures m.kind == HANDSHAKE && m.payload == U32(|token| % TWO32) + token
  {
    var w := new Writer(4 + |token|);
    w.PutStr(token);
    assert w.Written() == w.buf[..];
    return Message(HANDSHAKE, w.buf[..]);
  }

  // make_chunk_req and make_chunk_hdr differ only in the type.
  method MakeIndex(kind: byte, index: u32) returns (m: Message)
    ensures m == Message(kind, U32(index))
  {
    var w := new Writer(4);
    w.PutU32(index);
    assert w.Written() == w.buf[..];
    return Message(kind, w.buf[..]);
  }

  function DecodeStr(p: bytes): Option<bytes> {
    if |p| < 4 || |p| < 4 + FromU32(p[..4]) then None else Some(p[4..4 + FromU32(p[..4])])
  }

  // A length-prefixed string parses to s exactly when the payload starts with s so prefixed.
  lemma DecodeStrExact(p: bytes, s: bytes)
    requires |s| < TWO32
    ensures DecodeStr(p) == Some(s) <==> U32(|s|) + s <= p
  {
    hide U32, FromU32;
    U32RoundTrip(|s|);
    if U32(|s|) + s <= p {
      assert p[..4] == U32(|s|) && p[4..4 + |s|] == s;
    }
  }

  method ParseHandshake(m: Message) returns (r: Option<bytes>)
    ensures r == if m.kind != HANDSHAKE then None else DecodeStr(m.payload)
  {
    hide U32, FromU32;
    if m.kind != HANDSHAKE { return None; }
    var reader := new Reader(m.payload);
    r := reader.GetStr();
    assert |m.payload| >= 4 ==> m.payload[0..4] == m.payload[..4];
  }

  // parse_chunk_req and parse_chunk_hdr: the index, or None for a wrong type or a short payload.
  method ParseIndex(kind: byte, m: Message) returns (r: Option<u32>)
    ensures r.Some? <==> m.kind == kind && |m.payload| >= 4
    ensures r.Some? ==> U32(r.value) <= m.payload
    ensures forall i: u32 :: m == Message(kind, U32(i)) ==> r == Some(i)
  {
    if m.kind != kind { return None; }
    var reader := new Reader(m.payload);
    r := reader.GetU32();
    forall i: u32 | m == Message(kind, U32(i)) ensures r == Some(i) {
      U32RoundTrip(i);
      assert m.payload[0..4] == U32(i);
    }
  }

  // What make_handshake built parses back to the token, cut to what its 32-bit length says:
  // to the token itself exactly below 2^32 bytes.
  method HandshakeAndBack(token: bytes) returns (m: Message, back: Option<bytes>)
    ensures back == Some(token[..|token| % TWO32])
    ensures back == Some(token) <==> |token| < TWO32
  {
    hide U32, FromU32;
    m := MakeHandshake(token);
    back := ParseHandshake(m);
    var told := token[..|token| % TWO32];
    assert m.payload == U32(|told|) + told + token[|told|..];
    DecodeStrExact(m.payload, told);
    assert |token| < TWO32 ==> told == token;
  }

  // An index message parses back to its index under its own type and under no other.
  method IndexAndBack(kind: byte, index: u32, expected: byte) returns (m: Message, back: Option<u32>)
    ensures back == if expected == kind then Some(index) else None
  {
    hide U32;
    m := MakeIndex(kind, index);
    back := ParseIndex(expected, m);
  }

  // ---- framing ----

  // Header [version][type][payload length], then the payload.
  function Frame(m: Message): (b: bytes)
    ensures |b| == HEADER_SIZE + |m.payload|
  {
    [PROTOCOL_VERSION, m.kind] + U32(|m.payload| % TWO32) + m.payload
  }

  function Frames(ms: seq<Message>): bytes {
    if ms == [] then [] else Frame(ms[0]) + Frames(ms[1..])
  }

  // What recv_msg accepts: a known type and at most 64 MiB.
  predicate Sendable(m: Message) {
    HANDSHAKE <= m.kind <= 8 && |m.payload| <= MAX_PAYLOAD_SIZE
  }

  datatype Received = Got(m: Message) | Malformed | Broken

  // A frame byte by byte: the version is 2.
  lemma FrameBytes(m: Message)
    requires Sendable(m)
    ensures var n := |m.payload|;
            Frame(m) == [2, m.kind, n / 0x100_0000, n / 0x1_0000 % 256, n / 0x100 % 256, n % 256] + m.payload
  {
    hide U32;
    U32Bytes(|m.payload|);
  }

  // A frame says where it ends: two streams that start with frames agree on the message
  // and on what follows.
  lemma FrameUnique(m: Message, n: Message, rest: bytes, rest': bytes)
    requires Sendable(m) && Sendable(n)
    requires Frame(m) + rest == Frame(n) + rest'
    ensures m == n && rest == rest'
  {
    hide U32;
    var s := Frame(m) + rest;
    assert s[0..1] == [PROTOCOL_VERSION] && s[1] == m.kind && s[1] == n.kind;
    assert s[2..6] == U32(|m.payload|) && s[2..6] == U32(|n.payload|);
    U32RoundTrip(|m.payload|);
    U32RoundTrip(|n.payload|);
    assert s[6..6 + |m.payload|] == m.payload && s[6..6 + |n.payload|] == n.payload;
    assert s[6 + |m.payload|..] == rest && s[6 + |n.payload|..] == rest';
  }

  // So a stream of frames is read back as exactly one list.
  lemma {:induction false} FramesUnique(ms: seq<Message>, ns: seq<Message>, rest: bytes, rest': bytes)
    requires |ms| == |ns|
    requires (forall m :: m in ms ==> Sendable(m)) && (forall n :: n in ns ==> Sendable(n))
    requires Frames(ms) + rest == Frames(ns) + rest'
    ensures ms == ns && rest == rest'
  {
    hide Frame, Sendable;
    if ms != [] {
      assert Frame(ms[0]) + (Frames(ms[1..]) + rest) == Frames(ms) + rest;
      assert Frame(ns[0]) + (Frames(ns[1..]) + rest') == Frames(ns) + rest';
      FrameUnique(ms[0], ns[0], Frames(ms[1..]) + rest, Frames(ns[1..]) + rest');
      FramesUnique(ms[1..], ns[1..], rest, rest');
      assert ms == [ms[0]] + ms[1..] && ns == [ns[0]] + ns[1..];
    } else {
      assert Frames(ms) + rest == rest && Frames(ns) + rest' == rest';
    }
  }

  method SendMsg(t: Channel, m: Message) returns (ok: bool)
    modifies t
    ensures ok ==> t.stream == old(t.stream) + Frame(m)
    ensures !ok ==> exists k :: 0 <= k < |Frame(m)| && t.stream == old(t.stream) + Frame(m)[..k]
    ensures old(t.answers) <= t.answers && (ok <==> !Broke(t.answers, |old(t.answers)|))
  {
    hide Broke, U32;
    BrokeOne(t.answers, Again);
    var header := [PROTOCOL_VERSION, m.kind] + U32(|m.payload| % TWO32);
    ok := SendExact(t, header);
    if !ok {
      PrefixOfFrame(m, header, []);
      return false;
    }
    ghost var answers := t.answers;
    if |m.payload| > 0 { ok := SendExact(t, m.payload); }
    BrokeSplit(old(t.answers), answers, t.answers);
    if |m.payload| == 0 { BrokeOne(answers, Again); }
    PrefixOfFrame(m, header, m.payload);
  }

  // Part of the header, or the header and part of the payload, is the start of the frame.
  lemma PrefixOfFrame(m: Message, header: bytes, payload: bytes)
    requires header == [PROTOCOL_VERSION, m.kind] + U32(|m.payload| % TWO32) && (payload == m.payload || payload == [])
    ensures payload == [] ==> forall k :: 0 <= k <= |header| ==> header[..k] == Frame(m)[..k]
    ensures payload == m.payload ==> forall k :: 0 <= k <= |payload| ==> header + payload[..k] == Frame(m)[..|header| + k]
    ensures |header| + |m.payload| == |Frame(m)| && Frame(m)[..|Frame(m)|] == Frame(m)
  {
    hide U32;
    assert Frame(m) == header + m.payload;
  }

  method RecvMsg(t: Channel) returns (r: Received)
    modifies t
    ensures r.Got? ==> Sendable(r.m) && old(t.stream) == Frame(r.m) + t.stream
    ensures r.Malformed? ==> forall m, rest :: Sendable(m) ==> old(t.stream) != Frame(m) + rest
    ensures r.Malformed? ==> |old(t.stream)| >= HEADER_SIZE && t.stream == old(t.stream)[HEADER_SIZE..]
    ensures old(t.answers) <= t.answers && (r.Broken? <==> Broke(t.answers, |old(t.answers)|))
  {
    hide U32, FromU32, Broke;
    var hdr := new byte[HEADER_SIZE](_ => 0);
    var ok := RecvExact(t, hdr, HEADER_SIZE);
    if !ok { return Broken; }
    ghost var h := hdr[..];
    assert h == hdr[..HEADER_SIZE];
    var len := FromU32(hdr[2..6]);
    if hdr[0] != PROTOCOL_VERSION || hdr[1] < HANDSHAKE || hdr[1] > 8 || len > MAX_PAYLOAD_SIZE {
      forall m, rest | Sendable(m) ensures old(t.stream) != Frame(m) + rest {
        if old(t.stream) == Frame(m) + rest { HeaderOf(m, rest, h, t.stream); }
      }
      return Malformed;
    }
    var payload: bytes := [];
    if len > 0 {
      var buf := new byte[len](_ => 0);
      ghost var answers := t.answers;
      ok := RecvExact(t, buf, len);
      BrokeSplit(old(t.answers), answers, t.answers);
      if !ok { return Broken; }
      payload := buf[..];
      assert payload == buf[..len];
    }
    assert h == [h[0], h[1]] + h[2..6];
    return Got(Message(hdr[1], payload));
  }

  lemma HeaderOf(m: Message, rest: bytes, h: bytes, tail: bytes)
    requires Sendable(m) && |h| == HEADER_SIZE && Frame(m) + rest == h + tail
    ensures h[0] == PROTOCOL_VERSION && h[1] == m.kind && FromU32(h[2..6]) == |m.payload|
  {
    hide U32;
    var s := h + tail;
    assert s[0] == h[0] && s[1] == h[1] && s[2..6] == h[2..6];
    assert s[2..6] == U32(|m.payload|);
    U32RoundTrip(|m.payload|);
  }

  // send_msg for a list, then recv_msg as often, over any pattern of partial transfers:
  // unless the transport breaks, the same list and the stream left exactly at the boundary.
  method SendThenReceive(t: Channel, ms: seq<Message>) returns (broken: bool, got: seq<Message>)
    requires t.stream == [] && forall m :: m in ms ==> Sendable(m)
    modifies t
    ensures !broken ==> got == ms && t.stream == []
    ensures broken <==> Broke(t.answers, |old(t.answers)|)
  {
    hide Frame, Sendable, Broke;
    BrokeOne(t.answers, Again);
    got := [];
    var i := 0;
    while i < |ms|
      invariant 0 <= i <= |ms| && t.stream + Frames(ms[i..]) == Frames(ms)
      invariant old(t.answers) <= t.answers && !Broke(t.answers, |old(t.answers)|)
    {
      ghost var before, answers := t.stream, t.answers;
      var ok := SendMsg(t, ms[i]);
      BrokeSplit(old(t.answers), answers, t.answers);
      if !ok { return true, []; }
      assert ms[i..][1..] == ms[i + 1..];
      assert before + Frames(ms[i..]) == t.stream + Frames(ms[i + 1..]);
      i := i + 1;
    }
    assert t.stream == Frames(ms);
    while |got| < |ms|
      invariant |got| <= |ms| && got == ms[..|got|] && t.stream == Frames(ms[|got|..])
      invariant old(t.answers) <= t.answers && !Broke(t.answers, |old(t.answers)|)
    {
      ghost var answers := t.answers;
      ghost var m, rest := ms[|got|], Frames(ms[|got| + 1..]);
      assert ms[|got|..][1..] == ms[|got| + 1..] && t.stream == Frame(m) + rest;
      assert m in ms;
      var x := RecvMsg(t);
      BrokeSplit(old(t.answers), answers, t.answers);
      if x.Broken? { return true, got; }
      if x.Malformed? { assert false; }
      FrameUnique(m, x.m, rest, t.stream);
      got := got + [x.m];
    }
    return false, got;
  }

  // What recv_msg sees when it looks at the bytes that have arrived so far.
  datatype Front = NeedMore | Bad | Has(m: Message, rest: bytes)

  function FrontOf(s: bytes): Front {
    if |s| < HEADER_SIZE then NeedMore else
    var len := FromU32(s[2..6]);
    if s[0] != PROTOCOL_VERSION || s[1] < HANDSHAKE || s[1] > 8 || len > MAX_PAYLOAD_SIZE then Bad else
    if |s| < HEADER_SIZE + len then NeedMore else
    Has(Message(s[1], s[6..6 + len]), s[6 + len..])
  }

  // What has arrived is rejected exactly when its header is that of no message that can be sent.
  lemma FrontOfBadIff(s: bytes)
    ensures FrontOf(s) == Bad <==> |s| >= HEADER_SIZE && forall m :: Sendable(m) ==> Frame(m)[..HEADER_SIZE] != s[..HEADER_SIZE]
  {
    hide U32, FromU32;
    if |s| >= HEADER_SIZE {
      var len := FromU32(s[2..6]);
      var m := Message(s[1], seq(len, _ => 0));
      assert s[..HEADER_SIZE] == [s[0], s[1]] + s[2..6];
      if FrontOf(s) != Bad {
        assert Frame(m)[..HEADER_SIZE] == s[..HEADER_SIZE];
      } else {
        forall n | Sendable(n) ensures Frame(n)[..HEADER_SIZE] != s[..HEADER_SIZE] { SameHeader(n, s); }
      }
    }
  }

  lemma SameHeader(m: Message, s: bytes)
    requires Sendable(m) && |s| >= HEADER_SIZE
    ensures Frame(m)[..HEADER_SIZE] == s[..HEADER_SIZE] ==> s[0] == PROTOCOL_VERSION && s[1] == m.kind && FromU32(s[2..6]) == |m.payload|
  {
    hide U32, FromU32, Frame;
    var f, h := Frame(m), s[..HEADER_SIZE];
    if f[..HEADER_SIZE] == h {
      assert f + [] == h + f[HEADER_SIZE..];
      HeaderOf(m, [], h, f[HEADER_SIZE..]);
      assert h[2..6] == s[2..6];
    }
  }

  // Bytes that are the beginning of a frame are read as that frame, and as soon as they can be.
  lemma FrontOfFrame(s: bytes, more: bytes, m: Message, rest: bytes)
    requires Sendable(m) && s + more == Frame(m) + rest
    ensures |s| < |Frame(m)| ==> FrontOf(s) == NeedMore
    ensures |s| >= |Frame(m)| ==> FrontOf(s) == Has(m, s[|Frame(m)|..]) && s[|Frame(m)|..] + more == rest
  {
    hide U32, FromU32;
    if |s| >= HEADER_SIZE {
      var t := s + more;
      assert s[0] == t[0] && s[1] == t[1] && s[2..6] == t[2..6] == U32(|m.payload|);
      U32RoundTrip(|m.payload|);
      if |s| >= |Frame(m)| {
        assert s[6..6 + |m.payload|] == t[6..6 + |m.payload|] == m.payload;
        assert s[|Frame(m)|..] + more == t[|Frame(m)|..] == rest;
      }
    }
  }
}
