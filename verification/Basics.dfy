/** Words, options and sequence windows shared by the models. */
module Basics {
  /** Unsigned 64-bit arithmetic wraps here. */
  const WORD: int := 0x1_0000_0000_0000_0000

  datatype Option<+T> = None | Some(value: T)

  /** The last `n` elements, or all of them when there are fewer. */
  function Last<T>(s: seq<T>, n: nat): (r: seq<T>)
    ensures |r| <= n
  {
    if |s| <= n then s else s[|s| - n..]
  }

  predicate OccursAt<T(==)>(pattern: seq<T>, s: seq<T>, i: nat) {
    i + |pattern| <= |s| && s[i..i + |pattern|] == pattern
  }

  lemma LastOfConcat<T>(a: seq<T>, b: seq<T>, n: nat)
    ensures |b| >= n ==> Last(a + b, n) == Last(b, n)
    ensures |b| <= n ==> Last(a + b, n) == Last(a, n - |b|) + b
  {
  }

  lemma LastOfLast<T>(a: seq<T>, b: seq<T>, n: nat)
    ensures Last(Last(a, n) + b, n) == Last(a + b, n)
  {
  }

  lemma Associate<T>(a: seq<T>, b: seq<T>, c: seq<T>)
    ensures a + (b + c) == a + b + c
  {
  }

  lemma SliceOfSlice<T>(s: seq<T>, from: nat, to: nat, a: nat, b: nat)
    requires from <= to <= |s| && a <= b <= to - from
    ensures s[from..to][a..b] == s[from + a..from + b]
  {
    var t := s[from..to];
    assert forall i :: 0 <= i < b - a ==> t[a..b][i] == t[a + i] == s[from + a + i];
  }

  lemma OccursLater<T>(front: seq<T>, s: seq<T>, pattern: seq<T>, i: nat)
    requires OccursAt(pattern, s, i)
    ensures OccursAt(pattern, front + s, |front| + i)
  {
    assert (front + s)[|front| + i..|front| + i + |pattern|] == s[i..i + |pattern|];
  }

  lemma DropAndTake<T>(s: seq<T>, n: nat, k: nat)
    requires n <= k <= |s|
    ensures s[..k][n..] == s[n..k] == s[n..][..k - n]
    ensures s[..k] == s[..n] + s[n..k]
  {
  }
}
