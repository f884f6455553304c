// The completion bitmap and the chunk arithmetic that push, pull and hashing share.
module Chunks {
  import opened Bytes

  const CHUNK_SIZE := 1024 * 1024

  // precompute_meta: ceil(size / CHUNK_SIZE), cut to 32 bits.
  function ChunkCount(size: nat): nat {
    (size + CHUNK_SIZE - 1) / CHUNK_SIZE % 0x1_0000_0000
  }

  function Offset(i: nat): nat {
    i * CHUNK_SIZE
  }

  function Min(a: int, b: int): int {
    if a < b then a else b
  }

  function ChunkLen(size: nat, i: nat): int {
    Min(CHUNK_SIZE, size - Offset(i))
  }

  // The chunks tile the file exactly when the 32-bit count did not wrap.
  lemma ChunksTile(size: nat)
    requires size > 0
    ensures (size <= 0xFFFF_FFFF * CHUNK_SIZE) <==>
            (ChunkCount(size) > 0 && Offset(ChunkCount(size) - 1) < size <= Offset(ChunkCount(size)))
    ensures forall i :: 0 <= i < ChunkCount(size) ==> 0 < ChunkLen(size, i) <= CHUNK_SIZE
    ensures forall i :: 0 <= i < ChunkCount(size) - 1 ==> ChunkLen(size, i) == CHUNK_SIZE
  {
    var n := (size + CHUNK_SIZE - 1) / CHUNK_SIZE;
    assert Offset(n - 1) < size <= Offset(n);
  }

  // The bytes of chunk i.
  function Chunk(file: bytes, size: nat, i: nat): bytes
    requires Offset(i) < size <= |file|
  {
    file[Offset(i)..Offset(i) + ChunkLen(size, i)]
  }

  // The bytes of chunk i of a whole file; nothing past its end.
  function ChunkAt(file: bytes, i: nat): bytes {
    if Offset(i) < |file| then Chunk(file, |file|, i) else []
  }

  function Needed(bitmap: seq<bool>): (r: seq<nat>) {
    if bitmap == [] then []
    else var n := |bitmap| - 1; Needed(bitmap[..n]) + if bitmap[n] then [] else [n]
  }

  ghost predicate Increasing(s: seq<nat>) {
    forall i, j :: 0 <= i < j < |s| ==> s[i] < s[j]
  }

  // needed_chunks is the strictly increasing list of exactly the unset indices.
  lemma {:induction false} NeededIsUnset(bitmap: seq<bool>)
    ensures Increasing(Needed(bitmap))
    ensures forall i: nat :: i in Needed(bitmap) <==> i < |bitmap| && !bitmap[i]
  {
    if bitmap != [] {
      var n := |bitmap| - 1;
      NeededIsUnset(bitmap[..n]);
      var before := Needed(bitmap[..n]);
      forall k | 0 <= k < |before| ensures before[k] < n { assert before[k] in before; }
    }
  }

  class ChunkManager {
    var bitmap: seq<bool>

    constructor (chunkCount: nat)
      ensures bitmap == seq(chunkCount, _ => false)
    {
      bitmap := seq(chunkCount, _ => false);
    }

    // False (an exception) when the index is out of range.
    method MarkDone(i: nat) returns (ok: bool)
      modifies this
      ensures ok <==> i < |old(bitmap)|
      ensures bitmap == if ok then old(bitmap)[i := true] else old(bitmap)
    {
      if i >= |bitmap| { return false; }
      bitmap := bitmap[i := true];
      return true;
    }

    method MarkTodo(i: nat) returns (ok: bool)
      modifies this
      ensures ok <==> i < |old(bitmap)|
      ensures bitmap == if ok then old(bitmap)[i := false] else old(bitmap)
    {
      if i >= |bitmap| { return false; }
      bitmap := bitmap[i := false];
      return true;
    }

    method NeededChunks() returns (result: seq<nat>)
      ensures result == Needed(bitmap)
    {
      result := [];
      var i := 0;
      while i < |bitmap|
        invariant 0 <= i <= |bitmap| && result == Needed(bitmap[..i])
      {
        assert bitmap[..i + 1][..i] == bitmap[..i];
        if !bitmap[i] { result := result + [i]; }
        i := i + 1;
      }
      assert bitmap[..i] == bitmap;
    }

    // all_done is true exactly when needed_chunks would be empty.
    method AllDone() returns (done: bool)
      ensures done <==> forall i :: 0 <= i < |bitmap| ==> bitmap[i]
      ensures done <==> Needed(bitmap) == []
    {
      NeededIsUnset(bitmap);
      assert Needed(bitmap) != [] ==> Needed(bitmap)[0] in Needed(bitmap);
      var i := 0;
      while i < |bitmap|
        invariant 0 <= i <= |bitmap| && forall j :: 0 <= j < i ==> bitmap[j]
      {
        if !bitmap[i] {
          assert i in Needed(bitmap);
          return false;
        }
        i := i + 1;
      }
      return true;
    }
  }
}
