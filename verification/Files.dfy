// Files as byte strings: what a positioned write leaves behind.
module Files {
  import opened Bytes

  function Zeros(n: nat): (z: bytes)
    ensures |z| == n && forall i :: 0 <= i < n ==> z[i] == 0
  {
    seq(n, i => 0)
  }

  // pwrite: overwrite or extend; a gap past the old end reads as zeros.
  function Put(file: bytes, at: nat, data: bytes): bytes {
    if data == [] then file
    else
      (if at <= |file| then file[..at] else file + Zeros(at - |file|))
      + data
      + (if at + |data| <= |file| then file[at + |data|..] else [])
  }

  // The range holds the data and every other byte of the file is as it was.
  lemma PutReads(file: bytes, at: nat, data: bytes)
    ensures var r := Put(file, at, data);
            && |r| == (if data == [] || at + |data| <= |file| then |file| else at + |data|)
            && (data != [] ==> r[at..at + |data|] == data)
            && (forall i :: 0 <= i < |file| && !(at <= i < at + |data|) ==> r[i] == file[i])
            && (forall i :: |file| <= i < |r| && i < at ==> r[i] == 0)
  {
  }

  // Two adjacent writes are one.
  lemma PutPut(file: bytes, at: nat, a: bytes, b: bytes)
    ensures Put(Put(file, at, a), at + |a|, b) == Put(file, at, a + b)
  {
    if a == [] {
      assert a + b == b;
    } else if b == [] {
      assert a + b == a;
    } else {
      var mid := Put(file, at, a);
      var head := if at <= |file| then file[..at] else file + Zeros(at - |file|);
      var tail := if at + |a| <= |file| then file[at + |a|..] else [];
      assert mid == head + a + tail && |head| == at;
      assert mid[..at + |a|] == head + a;
      assert head + a + b == head + (a + b);
      if at + |a| + |b| <= |mid| {
        assert mid[at + |a| + |b|..] == tail[|b|..] == file[at + |a| + |b|..];
      }
    }
  }

  lemma PutNothing(file: bytes, at: nat)
    ensures Put(file, at, []) == file
  {
  }
}
