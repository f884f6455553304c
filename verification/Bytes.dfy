// Bytes, byte strings and the counting facts that several components share.
module Bytes {
  type byte = b: int | 0 <= b < 256
  type bytes = seq<byte>

  ghost predicate Distinct<T>(s: seq<T>) {
    forall i, j :: 0 <= i < j < |s| ==> s[i] != s[j]
  }

  // A list without repetitions is no longer than any set its elements come from.
  lemma {:induction false} DistinctFits<T>(s: seq<T>, pool: set<T>)
    requires Distinct(s)
    requires forall i :: 0 <= i < |s| ==> s[i] in pool
    ensures |s| <= |pool|
  {
    if s != [] {
      var last := s[|s| - 1];
      DistinctFits(s[..|s| - 1], pool - {last});
    }
  }

  // A list that mentions every element of a set is at least as long as the set.
  lemma {:induction false} CoverIsLong<T>(s: seq<T>, pool: set<T>)
    requires forall x :: x in pool ==> x in s
    ensures |pool| <= |s|
  {
    if s == [] {
      assert pool == {};
    } else {
      forall x | x in pool - {s[0]} ensures x in s[1..] {}
      CoverIsLong(s[1..], pool - {s[0]});
    }
  }

  function UpTo(n: nat): (s: set<nat>)
    ensures forall i :: i in s <==> 0 <= i < n
    ensures |s| == n
  {
    if n == 0 then {} else UpTo(n - 1) + {n - 1}
  }
}
