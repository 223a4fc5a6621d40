/** Shared vocabulary: optional values, results, and the source's machine integers. */
module Prelude {

  datatype Option<+T> = None | Some(value: T)

  datatype Result<+T, +E> = Ok(value: T) | Err(error: E)

  const U32_LIMIT := 0x1_0000_0000

  type byte = x: int | 0 <= x < 256

  type u32 = x: int | 0 <= x < U32_LIMIT

  ghost predicate NoDuplicates<T>(s: seq<T>) {
    forall i, j :: 0 <= i < j < |s| ==> s[i] != s[j]
  }

  function Least(a: nat, b: nat): nat { if a <= b then a else b }

  /** All but the element at `k`. */
  function Without<T>(s: seq<T>, k: nat): seq<T>
    requires k < |s|
  {
    s[..k] + s[k + 1..]
  }

  /** Pigeonhole: a list of the same length that covers distinct elements is a permutation. */
  lemma {:induction false} SameLengthCover<T>(live: seq<T>, expected: seq<T>)
    requires NoDuplicates(expected)
    requires |live| == |expected|
    requires forall x :: x in expected ==> x in live
    ensures multiset(live) == multiset(expected)
  {
    if expected != [] {
      var x := expected[0];
      assert x in expected && x in live;
      var i :| 0 <= i < |live| && live[i] == x;
      var rest := live[..i] + live[i + 1..];
      assert live == live[..i] + [x] + live[i + 1..];
      assert x !in expected[1..];
      forall y | y in expected[1..] ensures y in rest {
        assert y != x && y in live;
      }
      SameLengthCover(rest, expected[1..]);
      assert expected == [x] + expected[1..];
      assert multiset(live) == multiset(rest) + multiset{x};
    }
  }
}
