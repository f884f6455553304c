// The .embr.partial record: the hash that names the transfer, then the packed bitmap.
module PartialFile {
  import opened Bytes
  import opened Wrappers
  import opened Chunks

  const HASH_SIZE := 32

  // (chunk_count + 8 - 1) / 8 in 32-bit unsigned arithmetic
  function BitmapBytes(count: nat): nat {
    (count + 7) % 0x1_0000_0000 / 8
  }

  // The bytes hold every bit exactly while the addition does not wrap.
  lemma BitmapFitsIff(count: nat)
    requires count < 0x1_0000_0000
    ensures 8 * BitmapBytes(count) >= count <==> count <= 0x1_0000_0000 - 8
  {
  }

  // (b >> k) & 1
  predicate HasBit(b: nat, k: nat) {
    if k == 0 then b % 2 == 1 else HasBit(b / 2, k - 1)
  }

  // b | (1u << k)
  function SetBit(b: nat, k: nat): nat {
    if k == 0 then b - b % 2 + 1 else 2 * SetBit(b / 2, k - 1) + b % 2
  }

  lemma {:induction false} HasBitMeans(b: nat, k: nat)
    ensures Pow2(k) > 0 && (HasBit(b, k) <==> b / Pow2(k) % 2 == 1)
  {
    if k > 0 {
      HasBitMeans(b / 2, k - 1);
      DivTwice(b, Pow2(k - 1));
    }
  }

  lemma DivTwice(b: nat, d: nat)
    requires d > 0
    ensures b / 2 / d == b / (2 * d)
  {
    var q, r := b / 2 / d, b / 2 % d;
    assert b == 2 * (d * q + r) + b % 2;
    assert b == 2 * d * q + (2 * r + b % 2) && 2 * r + b % 2 < 2 * d;
    QuotientIs(b, 2 * d, q, 2 * r + b % 2);
  }

  lemma QuotientIs(b: nat, d: nat, q: nat, r: nat)
    requires d > 0 && b == d * q + r && r < d
    ensures b / d == q
  {
    var k := b / d - q;
    assert b == d * (b / d) + b % d;
    assert d * k == r - b % d;
    assert d * k < d && 0 < d * (k + 1);
  }

  function Pow2(n: nat): nat {
    if n == 0 then 1 else 2 * Pow2(n - 1)
  }

  lemma {:induction false} SetBitExact(b: nat, k: nat, j: nat)
    ensures HasBit(SetBit(b, k), j) <==> j == k || HasBit(b, j)
  {
    if k > 0 && j > 0 { SetBitExact(b / 2, k - 1, j - 1); }
  }

  lemma {:induction false} SetBitFits(b: nat, k: nat, width: nat)
    requires b < Pow2(width) && k < width
    ensures SetBit(b, k) < Pow2(width)
  {
    assert Pow2(width) == 2 * Pow2(width - 1);
    if k > 0 {
      assert b / 2 < Pow2(width - 1);
      SetBitFits(b / 2, k - 1, width - 1);
    }
  }

  lemma SetBitByte(b: byte, k: nat)
    requires k < 8
    ensures SetBit(b, k) < 256
  {
    assert Pow2(4) == 16;
    assert Pow2(8) == 256;
    SetBitFits(b, k, 8);
  }

  lemma {:induction false} ZeroHasNoBit(k: nat)
    ensures !HasBit(0, k)
  {
    if k > 0 { ZeroHasNoBit(k - 1); }
  }

  // raw is the packed form of the bitmap: bit i%8 of byte i/8 is entry i, the padding is 0.
  ghost predicate Packs(raw: bytes, bitmap: seq<bool>) {
    && |raw| == BitmapBytes(|bitmap|)
    && forall i :: 0 <= i < 8 * |raw| ==> (HasBit(raw[i / 8], i % 8) <==> i < |bitmap| && bitmap[i])
  }

  function Unpack(raw: bytes, count: nat): (bitmap: seq<bool>)
    requires count <= 8 * |raw|
    ensures |bitmap| == count
    ensures forall i :: 0 <= i < count ==> (bitmap[i] <==> HasBit(raw[i / 8], i % 8))
  {
    seq(count, i requires 0 <= i < count => HasBit(raw[i / 8], i % 8))
  }

  // The loop of save.
  method Pack(bitmap: seq<bool>) returns (raw: bytes)
    requires |bitmap| <= 0x1_0000_0000 - 8
    ensures Packs(raw, bitmap)
  {
    raw := seq(BitmapBytes(|bitmap|), _ => 0);
    forall k ensures !HasBit(0, k) { ZeroHasNoBit(k); }
    var i := 0;
    while i < |bitmap|
      invariant 0 <= i <= |bitmap| && |raw| == BitmapBytes(|bitmap|)
      invariant forall j :: 0 <= j < 8 * |raw| ==> (HasBit(raw[j / 8], j % 8) <==> j < i && bitmap[j])
    {
      if bitmap[i] {
        SetBitByte(raw[i / 8], i % 8);
        forall j: nat ensures HasBit(SetBit(raw[i / 8], i % 8), j) <==> j == i % 8 || HasBit(raw[i / 8], j) {
          SetBitExact(raw[i / 8], i % 8, j);
        }
        raw := raw[i / 8 := SetBit(raw[i / 8], i % 8)];
      }
      i := i + 1;
    }
  }

  // A saved record.
  ghost predicate RecordOf(rec: bytes, hash: bytes, bitmap: seq<bool>) {
    && |hash| == HASH_SIZE && |rec| == HASH_SIZE + BitmapBytes(|bitmap|)
    && rec[..HASH_SIZE] == hash && Packs(rec[HASH_SIZE..], bitmap)
  }

  // The record is long enough and names this transfer.
  predicate Complete(rec: Option<bytes>, hash: bytes, count: nat) {
    rec.Some? && |rec.value| >= HASH_SIZE + BitmapBytes(count) && rec.value[..HASH_SIZE] == hash
  }

  // load: nothing when there is no record, when it is short or names another transfer,
  // or when the output file is missing or not exactly count * CHUNK_SIZE bytes long.
  function Load(rec: Option<bytes>, outSize: Option<nat>, hash: bytes, count: nat): (r: Option<seq<bool>>)
    requires count <= 0x1_0000_0000 - 8
    ensures r.Some? ==> |r.value| == count
  {
    if Complete(rec, hash, count) && outSize == Some(count * CHUNK_SIZE)
    then Some(Unpack(rec.value[HASH_SIZE..], count)) else None
  }

  // What a record must be to be accepted, and what is then read from it: it begins with the
  // transfer's own hash, the whole bitmap follows, and the output has its full size. Anything
  // after the bitmap is ignored.
  lemma LoadExact(rec: bytes, outSize: Option<nat>, hash: bytes, count: nat, bitmap: seq<bool>)
    requires count <= 0x1_0000_0000 - 8 && |hash| == HASH_SIZE
    ensures Load(Some(rec), outSize, hash, count) == Some(bitmap)
            <==> && hash <= rec && |rec| >= HASH_SIZE + BitmapBytes(count) && outSize == Some(count * CHUNK_SIZE)
                 && |bitmap| == count && forall i :: 0 <= i < count ==> (bitmap[i] <==> HasBit(rec[HASH_SIZE + i / 8], i % 8))
  {
    if |rec| >= HASH_SIZE + BitmapBytes(count) {
      var raw := rec[HASH_SIZE..];
      assert forall i :: 0 <= i < count ==> raw[i / 8] == rec[HASH_SIZE + i / 8];
      if |bitmap| == count && forall i :: 0 <= i < count ==> (bitmap[i] <==> HasBit(rec[HASH_SIZE + i / 8], i % 8)) {
        assert forall i :: 0 <= i < count ==> Unpack(raw, count)[i] == bitmap[i];
        assert Unpack(raw, count) == bitmap;
      }
    }
  }

  // A record that does not begin with the transfer's hash is never accepted.
  lemma OtherTransferRejected(rec: bytes, outSize: Option<nat>, hash: bytes, count: nat)
    requires count <= 0x1_0000_0000 - 8 && !(|hash| == HASH_SIZE && hash <= rec)
    ensures Load(Some(rec), outSize, hash, count) == None
  {
  }

  // What was saved is what is loaded, whenever load accepts at all.
  lemma LoadGivesSaved(rec: bytes, outSize: Option<nat>, hash: bytes, bitmap: seq<bool>)
    requires |bitmap| <= 0x1_0000_0000 - 8 && RecordOf(rec, hash, bitmap)
    ensures Load(Some(rec), outSize, hash, |bitmap|)
         == if outSize == Some(|bitmap| * CHUNK_SIZE) then Some(bitmap) else None
  {
    if outSize == Some(|bitmap| * CHUNK_SIZE) {
      var got := Unpack(rec[HASH_SIZE..], |bitmap|);
      assert forall i :: 0 <= i < |bitmap| ==> got[i] == bitmap[i];
      assert got == bitmap;
    }
  }

  // A torn save is never taken for a record.
  lemma PrefixRejected(rec: bytes, torn: bytes, outSize: Option<nat>, hash: bytes, bitmap: seq<bool>)
    requires |bitmap| <= 0x1_0000_0000 - 8 && RecordOf(rec, hash, bitmap) && torn < rec
    ensures Load(Some(torn), outSize, hash, |bitmap|) == None
  {
  }

  // A saved record is taken up again exactly when the output size is a multiple of the
  // chunk size: a transfer whose last chunk is short is never resumed.
  lemma ResumesIffFullChunks(rec: bytes, size: nat, hash: bytes, bitmap: seq<bool>)
    requires 0 < |bitmap| <= 0x1_0000_0000 - 8 && RecordOf(rec, hash, bitmap)
    requires Offset(|bitmap| - 1) < size <= Offset(|bitmap|)
    ensures Load(Some(rec), Some(size), hash, |bitmap|).Some? <==> size % CHUNK_SIZE == 0
  {
  }

  // The code of load.
  method LoadRecord(rec: Option<bytes>, outSize: Option<nat>, hash: bytes, count: nat) returns (r: Option<ChunkManager>)
    requires count <= 0x1_0000_0000 - 8
    ensures r.None? <==> Load(rec, outSize, hash, count).None?
    ensures r.Some? ==> fresh(r.value) && r.value.bitmap == Load(rec, outSize, hash, count).value
    ensures r.Some? <==>
              && rec.Some? && |hash| == HASH_SIZE && hash <= rec.value && |rec.value| >= HASH_SIZE + BitmapBytes(count)
              && outSize == Some(count * CHUNK_SIZE)
    ensures r.Some? ==> forall i :: 0 <= i < count ==> (r.value.bitmap[i] <==> HasBit(rec.value[HASH_SIZE + i / 8], i % 8))
  {
    if rec.None? || |rec.value| < HASH_SIZE || rec.value[..HASH_SIZE] != hash { return None; }
    assert rec.value[..HASH_SIZE] == hash;
    if outSize != Some(count * CHUNK_SIZE) { return None; }
    if |rec.value| < HASH_SIZE + BitmapBytes(count) { return None; }
    var raw := rec.value[HASH_SIZE..];
    var cm := new ChunkManager(count);
    var i := 0;
    while i < count
      invariant 0 <= i <= count && fresh(cm) && |cm.bitmap| == count
      invariant forall j :: 0 <= j < count ==> (cm.bitmap[j] <==> j < i && HasBit(raw[j / 8], j % 8))
    {
      if HasBit(raw[i / 8], i % 8) { var _ := cm.MarkDone(i); }
      i := i + 1;
    }
    assert cm.bitmap == Unpack(raw, count);
    return Some(cm);
  }
}
