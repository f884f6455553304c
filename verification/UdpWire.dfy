// The UDP data plane's wire format: a chunk is cut into fragments, each with a 10-byte header.
module UdpWire {
  import opened Bytes
  import Chunks
  import P = Protocol

  const MTU := 65000
  const HDR := 10
  const PAYLOAD := MTU - HDR
  // entries of the io_uring submission queue, and sendmsg slots
  const QUEUE_DEPTH := 256

  datatype FragHdr = FragHdr(chunk: P.u32, index: P.u32, len: nat)

  function EncodeHdr(h: FragHdr): (b: bytes)
    ensures |b| == HDR
  {
    P.U32(h.chunk) + P.U32(h.index) + P.Be(h.len, 2)
  }

  function ParseHdr(b: bytes): (h: FragHdr)
    requires |b| >= HDR
  {
    FragHdr(P.FromU32(b[..4]), P.FromU32(b[4..8]), P.FromBe(b[8..10]))
  }

  // The header byte by byte: chunk, fragment and length, the high-order byte first.
  lemma HdrBytes(h: FragHdr)
    requires h.len < 0x1_0000
    ensures EncodeHdr(h)
         == [h.chunk / 0x100_0000, h.chunk / 0x1_0000 % 256, h.chunk / 0x100 % 256, h.chunk % 256]
            + [h.index / 0x100_0000, h.index / 0x1_0000 % 256, h.index / 0x100 % 256, h.index % 256]
            + [h.len / 256, h.len % 256]
  {
    hide P.U32;
    P.U32Bytes(h.chunk);
    P.U32Bytes(h.index);
    P.BeTwo(h.len);
  }

  // The header that was written is the header that is read, whatever follows it.
  lemma HdrRoundTrip(h: FragHdr, payload: bytes)
    requires h.len < 0x1_0000
    ensures ParseHdr(EncodeHdr(h) + payload) == h
    ensures (EncodeHdr(h) + payload)[HDR..] == payload
  {
    var d := EncodeHdr(h) + payload;
    assert d[..4] == P.U32(h.chunk) && d[4..8] == P.U32(h.index) && d[8..10] == P.Be(h.len, 2);
    P.U32RoundTrip(h.chunk);
    P.U32RoundTrip(h.index);
    assert P.Pow256(2) == 0x1_0000;
    P.BeRoundTrip(h.len, 2);
  }

  function FragCount(len: nat): nat {
    (len + PAYLOAD - 1) / PAYLOAD
  }

  function FragLen(len: nat, i: nat): int {
    if i + 1 < FragCount(len) then PAYLOAD else len - i * PAYLOAD
  }

  // Fragments are not empty, fit in a datagram and in the header's 16-bit length, and tile
  // the chunk; a chunk of at most CHUNK_SIZE has at most 17.
  lemma FragsTile(len: nat, i: nat)
    requires i < FragCount(len)
    ensures 0 < FragLen(len, i) <= PAYLOAD < 0x1_0000
    ensures i * PAYLOAD + FragLen(len, i) <= len
    ensures i + 1 < FragCount(len) ==> i * PAYLOAD + FragLen(len, i) == (i + 1) * PAYLOAD
    ensures i + 1 == FragCount(len) ==> i * PAYLOAD + FragLen(len, i) == len
    ensures len <= Chunks.CHUNK_SIZE ==> FragCount(len) <= 17
  {
  }

  function Piece(chunk: bytes, i: nat): (p: bytes)
    requires i < FragCount(|chunk|)
    ensures |p| == FragLen(|chunk|, i)
  {
    FragsTile(|chunk|, i);
    chunk[i * PAYLOAD..i * PAYLOAD + FragLen(|chunk|, i)]
  }

  // Fragment i of a chunk as it travels.
  function Fragment(chunk: bytes, k: P.u32, i: nat): bytes
    requires i < FragCount(|chunk|) && i < P.TWO32
  {
    EncodeHdr(FragHdr(k, i, |Piece(chunk, i)|)) + Piece(chunk, i)
  }
}
