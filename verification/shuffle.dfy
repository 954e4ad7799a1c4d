/** `shuffle`: the Durstenfeld form of the Fisher–Yates shuffle, used on the
    pool of edition numbers. Each step draws an index below `currentIndex`
    and swaps it with position `currentIndex - 1`. */
module Shuffle {
  import opened Wrappers
  import opened Faults

  /** `[array[i], array[j]] = [array[j], array[i]]`. */
  function Swap<T>(a: seq<T>, i: nat, j: nat): (b: seq<T>)
    requires i < |a| && j < |a|
    ensures |b| == |a| && b[i] == a[j] && b[j] == a[i]
    ensures forall k :: 0 <= k < |a| && k != i && k != j ==> b[k] == a[k]
  {
    a[i := a[j]][j := a[i]]
  }

  lemma SwapPermutes<T>(a: seq<T>, i: nat, j: nat, n: nat)
    requires i < n && j < n && n <= |a|
    ensures multiset(Swap(a, i, j)[..n]) == multiset(a[..n])
    ensures Swap(a, i, j)[n..] == a[n..]
    ensures multiset(Swap(a, i, j)) == multiset(a)
  {
    var b := Swap(a, i, j);
    assert b[..n] == a[..n][i := a[j]][j := a[i]];
    assert b == b[..n] + b[n..] && a == a[..n] + a[n..];
  }

  /** The loop from `currentIndex == n` down to 0; returns the array and the
      draws left over. */
  function ShuffleFrom<T>(a: seq<T>, n: nat, draws: seq<nat>): (r: Result<(seq<T>, seq<nat>), Fault>)
    requires n <= |a|
    ensures r.Success? <==> n <= |draws|
    ensures r.Failure? ==> r.error == OutOfDraws
    ensures r.Success? ==> r.value.1 == draws[n..]
    ensures r.Success? ==> |r.value.0| == |a| && multiset(r.value.0) == multiset(a)
    ensures r.Success? ==> r.value.0[n..] == a[n..]
    decreases n
  {
    if n == 0 then Success((a, draws))
    else if |draws| == 0 then Failure(OutOfDraws)
    else
      var j := draws[0] % n;
      var b := Swap(a, n - 1, j);
      SwapPermutes(a, n - 1, j, n);
      var r := ShuffleFrom(b, n - 1, draws[1..]);
      assert r.Success? ==> r.value.0[n..] == r.value.0[n - 1..][1..] && b[n..] == b[n - 1..][1..];
      r
  }

  /** `shuffle(array)`: a permutation of the array, one draw per element. */
  function Shuffle<T>(a: seq<T>, draws: seq<nat>): (r: Result<(seq<T>, seq<nat>), Fault>)
    ensures r.Success? <==> |a| <= |draws|
    ensures r.Success? ==> r.value.1 == draws[|a|..]
    ensures r.Success? ==> |r.value.0| == |a| && multiset(r.value.0) == multiset(a)
  {
    ShuffleFrom(a, |a|, draws)
  }

  /** Every arrangement is reachable: for any rearrangement `b` of `a` there
      are draws the shuffle turns `a` into `b` with. */
  lemma ShuffleReachesEveryPermutation<T>(a: seq<T>, b: seq<T>) returns (draws: seq<nat>)
    requires |a| == |b| && multiset(a) == multiset(b)
    ensures |draws| == |a| && Shuffle(a, draws) == Success((b, []))
  {
    assert a[..|a|] == a && b[..|b|] == b;
    draws := ReachFrom(a, b, |a|);
  }

  lemma {:induction false} ReachFrom<T>(a: seq<T>, b: seq<T>, n: nat) returns (draws: seq<nat>)
    requires |a| == |b| && n <= |a|
    requires multiset(a[..n]) == multiset(b[..n]) && a[n..] == b[n..]
    ensures |draws| == n && ShuffleFrom(a, n, draws) == Success((b, []))
    decreases n
  {
    if n == 0 {
      assert a == a[0..] && b == b[0..];
      draws := [];
    } else {
      var j := IndexOf(a[..n], b[n - 1]);
      var s := Swap(a, n - 1, j);
      assert s[n - 1] == a[..n][j] == b[n - 1];
      SwapPermutes(a, n - 1, j, n);
      PeelLast(s, b, n);
      var tail := ReachFrom(s, b, n - 1);
      draws := [j] + tail;
      SmallRemainder(j, n);
      assert draws[0] == j && draws[1..] == tail;
      assert ShuffleFrom(a, n, draws) == ShuffleFrom(s, n - 1, tail);
    }
  }

  /** Two sequences that agree from `n - 1` on and are rearrangements of each
      other below `n` are rearrangements of each other below `n - 1`. */
  lemma PeelLast<T>(s: seq<T>, b: seq<T>, n: nat)
    requires 0 < n <= |s| == |b|
    requires multiset(s[..n]) == multiset(b[..n]) && s[n - 1] == b[n - 1] && s[n..] == b[n..]
    ensures multiset(s[..n - 1]) == multiset(b[..n - 1]) && s[n - 1..] == b[n - 1..]
  {
    assert s[..n] == s[..n - 1] + [s[n - 1]];
    assert b[..n] == b[..n - 1] + [b[n - 1]];
    assert multiset(s[..n - 1]) == multiset(s[..n]) - multiset{b[n - 1]};
    assert multiset(b[..n - 1]) == multiset(b[..n]) - multiset{b[n - 1]};
    assert s[n - 1..] == [s[n - 1]] + s[n..];
    assert b[n - 1..] == [b[n - 1]] + b[n..];
  }

  lemma SmallRemainder(j: nat, n: nat)
    requires j < n
    ensures j % n == j
  {
  }

  /** Where `x` sits in a sequence that holds it. */
  lemma IndexOf<T>(a: seq<T>, x: T) returns (j: nat)
    requires x in multiset(a)
    ensures j < |a| && a[j] == x
  {
    assert x in a;
    var k :| 0 <= k < |a| && a[k] == x;
    j := k;
  }

  // ---------------------------------------------------------------------
  // The edition pool
  // ---------------------------------------------------------------------

  /** `[lo, lo + 1, ..., hi]`, empty when `hi < lo`. */
  function Range(lo: nat, hi: int): (r: seq<nat>)
    ensures |r| == if hi < lo then 0 else hi - lo + 1
    ensures forall k :: 0 <= k < |r| ==> r[k] == lo + k
    decreases hi - lo
  {
    if hi < lo then [] else [lo] + Range(lo + 1, hi)
  }

  /** No value occurs twice. */
  predicate Distinct<T(==)>(s: seq<T>) {
    forall i, j :: 0 <= i < j < |s| ==> s[i] != s[j]
  }

  /** In a sequence without repeats every value occurs at most once. */
  lemma {:induction false} DistinctOnce<T>(a: seq<T>, x: T)
    requires Distinct(a)
    ensures multiset(a)[x] <= 1
    decreases |a|
  {
    if |a| > 0 {
      assert a == [a[0]] + a[1..];
      assert Distinct(a[1..]) by {
        forall i, j | 0 <= i < j < |a| - 1
          ensures a[1..][i] != a[1..][j]
        {
          assert a[1..][i] == a[i + 1] && a[1..][j] == a[j + 1];
        }
      }
      DistinctOnce(a[1..], x);
      assert a[0] !in a[1..] by {
        forall m | 0 <= m < |a| - 1
          ensures a[1..][m] != a[0]
        {
          assert a[1..][m] == a[m + 1];
        }
      }
    }
  }

  /** A value at two positions occurs at least twice. */
  lemma TwoPositions<T>(b: seq<T>, i: nat, j: nat)
    requires i < j < |b|
    ensures b[i] == b[j] ==> multiset(b)[b[j]] >= 2
  {
    assert b == b[..j] + [b[j]] + b[j + 1..];
    assert b[..j][i] == b[i];
    assert b[i] in multiset(b[..j]);
  }

  /** Rearranging keeps a sequence free of repeats. */
  lemma PermutationKeepsDistinct<T>(a: seq<T>, b: seq<T>)
    requires Distinct(a) && multiset(a) == multiset(b)
    ensures Distinct(b)
  {
    forall i, j | 0 <= i < j < |b|
      ensures b[i] != b[j]
    {
      DistinctOnce(a, b[j]);
      TwoPositions(b, i, j);
    }
  }

  /** The edition pool before generation: `1..size`, shuffled when
      configured. */
  function EditionPool(size: int, shuffled: bool, draws: seq<nat>): (r: Result<(seq<nat>, seq<nat>), Fault>)
    ensures !shuffled ==> r == Success((Range(1, size), draws))
    ensures r.Success? ==> multiset(r.value.0) == multiset(Range(1, size))
    ensures r.Failure? ==> r.error == OutOfDraws
  {
    if shuffled then Shuffle(Range(1, size), draws) else Success((Range(1, size), draws))
  }

  /** The pool holds every edition number from 1 to `size` exactly once. */
  lemma EditionPoolIsPermutation(size: int, shuffled: bool, draws: seq<nat>)
    requires EditionPool(size, shuffled, draws).Success?
    ensures var pool := EditionPool(size, shuffled, draws).value.0;
      && Distinct(pool)
      && |pool| == (if size < 1 then 0 else size)
      && forall e: nat :: e in pool <==> 1 <= e <= size
  {
    var pool := EditionPool(size, shuffled, draws).value.0;
    var range := Range(1, size);
    PermutationKeepsDistinct(range, pool);
    forall e: nat
      ensures e in pool <==> 1 <= e <= size
    {
      assert e in pool <==> e in multiset(pool);
      assert e in range <==> e in multiset(range);
      if 1 <= e <= size {
        assert range[e - 1] == e;
      }
    }
  }
}
