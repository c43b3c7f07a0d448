/** Shared vocabulary: Go's `byte`, `int` bounds, result wrappers
    and `bytes.Index`, the one search primitive every decoder here uses. */
module Bytes {

  /** Go's `byte`. Go strings are byte sequences too, so they use this type. */
  type byte = b: int | 0 <= b < 256

  /** Bounds of Go's 64-bit `int`. */
  const MinInt64: int := -0x8000_0000_0000_0000
  const MaxInt64: int := 0x7FFF_FFFF_FFFF_FFFF

  predicate IsInt64(n: int) {
    MinInt64 <= n <= MaxInt64
  }

  datatype Option<+T> = None | Some(value: T)

  datatype Result<+R, +E> = Success(value: R) | Failure(error: E)

  /** `b` occurs nowhere in `s`. */
  predicate Lacks(s: seq<byte>, b: byte) {
    forall i :: 0 <= i < |s| ==> s[i] != b
  }

  /** `sep` occurs in `s` starting at position `i`. */
  predicate OccursAt(s: seq<byte>, sep: seq<byte>, i: int) {
    0 <= i && i + |sep| <= |s| && s[i..i + |sep|] == sep
  }

  predicate Contains(s: seq<byte>, sep: seq<byte>) {
    exists i :: 0 <= i <= |s| && OccursAt(s, sep, i)
  }

  /** `bytes.Index`: the first position at which `sep` occurs, or -1. */
  function Index(s: seq<byte>, sep: seq<byte>): (r: int)
    requires |sep| > 0
    ensures r == -1 || 0 <= r <= |s| - |sep|
    ensures r >= 0 ==> OccursAt(s, sep, r)
    ensures forall i :: 0 <= i && (r < 0 || i < r) ==> !OccursAt(s, sep, i)
  {
    IndexFrom(s, sep, 0)
  }

  function IndexFrom(s: seq<byte>, sep: seq<byte>, from: nat): (r: int)
    requires |sep| > 0
    requires from <= |s|
    ensures r == -1 || 0 <= r <= |s| - |sep|
    ensures r >= 0 ==> from <= r && OccursAt(s, sep, r)
    ensures forall i :: from <= i && (r < 0 || i < r) ==> !OccursAt(s, sep, i)
    decreases |s| - from
  {
    if from + |sep| > |s| then -1
    else if s[from..from + |sep|] == sep then from
    else IndexFrom(s, sep, from + 1)
  }

  /** The first occurrence determines `Index`: the form in which proofs use it. */
  lemma IndexIs(s: seq<byte>, sep: seq<byte>, k: int)
    requires |sep| > 0
    requires OccursAt(s, sep, k)
    requires forall i :: 0 <= i < k ==> !OccursAt(s, sep, i)
    ensures Index(s, sep) == k
  {
  }

  lemma IndexAbsent(s: seq<byte>, sep: seq<byte>)
    requires |sep| > 0
    requires forall i :: 0 <= i ==> !OccursAt(s, sep, i)
    ensures Index(s, sep) == -1
  {
  }

  /** Position of the first byte `b`, stated through single-byte occurrences. */
  lemma OccursAtByte(s: seq<byte>, b: byte, i: int)
    ensures OccursAt(s, [b], i) <==> 0 <= i < |s| && s[i] == b
  {
    if 0 <= i < |s| {
      assert s[i..i + 1] == [s[i]];
    }
  }

  /** Everything before the first `b` is free of `b`. */
  lemma LacksBeforeIndex(s: seq<byte>, b: byte)
    requires Index(s, [b]) >= 0
    ensures Lacks(s[..Index(s, [b])], b)
  {
    var m := Index(s, [b]);
    forall i | 0 <= i < m
      ensures s[..m][i] != b
    {
      OccursAtByte(s, b, i);
    }
  }

  /** A sequence is the part before a separator byte, the byte, and the part
      after it. */
  lemma SplitAround(s: seq<byte>, b: byte, m: int)
    requires OccursAt(s, [b], m)
    ensures s == s[..m] + [b] + s[m + 1..]
  {
    OccursAtByte(s, b, m);
  }
}
