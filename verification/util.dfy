/** Failure-carrying wrappers shared by the game modules. */
module Wrappers {

  /** A value that may be absent (a C pointer that may be NULL, a search that may fail). */
  datatype Option<+T> = None | Some(value: T)

  /** A computation that either produced a value or stopped with an error status. */
  datatype Result<+T, +E> = Ok(value: T) | Err(error: E)
}

/** Small sequence helpers used across the model. */
module Seqs {

  /** The last element of a non-empty sequence (the tail of the snake). */
  function Last<T>(s: seq<T>): T
    requires |s| > 0
  {
    s[|s| - 1]
  }

  /** Position of the first occurrence of `x` in `s`. */
  function IndexOf<T(==)>(s: seq<T>, x: T): (r: nat)
    requires x in s
    ensures r < |s| && s[r] == x
    ensures forall i :: 0 <= i < r ==> s[i] != x
  {
    if s[0] == x then 0
    else
      assert s == [s[0]] + s[1..];
      var k := IndexOf(s[1..], x);
      k + 1
  }

  /** The first occurrence is wherever `x` sits with no earlier copy. */
  lemma IndexOfAt<T>(s: seq<T>, x: T, i: nat)
    requires i < |s| && s[i] == x
    requires forall j :: 0 <= j < i ==> s[j] != x
    ensures IndexOf(s, x) == i
  {
  }

  /** Number of occurrences of `x` in `s`. */
  function CountOf<T(==)>(s: seq<T>, x: T): (r: nat)
    ensures r <= |s|
    ensures r == 0 <==> x !in s
  {
    if |s| == 0 then 0
    else (if s[|s| - 1] == x then 1 else 0) + CountOf(s[..|s| - 1], x)
  }

  /** A slice of a slice is a slice of the original. */
  lemma SliceOfSlice<T>(s: seq<T>, a: nat, b: nat, i: nat, j: nat)
    requires a <= b <= |s| && i <= j <= b - a
    ensures s[a..b][i..j] == s[a + i..a + j]
  {
    forall t | 0 <= t < j - i
      ensures s[a..b][i..j][t] == s[a + i..a + j][t]
    {
      assert s[a..b][i..j][t] == s[a..b][i + t] == s[a + i + t];
    }
  }

  /** Counting distributes over concatenation. */
  lemma {:induction false} CountOfAppend<T>(a: seq<T>, b: seq<T>, x: T)
    ensures CountOf(a + b, x) == CountOf(a, x) + CountOf(b, x)
    decreases |b|
  {
    if |b| == 0 {
      assert a + b == a;
    } else {
      assert (a + b)[..|a + b| - 1] == a + b[..|b| - 1];
      CountOfAppend(a, b[..|b| - 1], x);
    }
  }
}
