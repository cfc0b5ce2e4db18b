/** Small facts about sequences used by the builders: mapping, counting and
    permutation invariance. */
module Seqs {

  /** `f` applied to every element of `s`, in order. */
  function Map<A, B>(f: A -> B, s: seq<A>): (r: seq<B>)
    ensures |r| == |s|
    ensures forall i | 0 <= i < |s| :: r[i] == f(s[i])
  {
    seq(|s|, i requires 0 <= i < |s| => f(s[i]))
  }

  lemma MapConcat<A, B>(f: A -> B, a: seq<A>, b: seq<A>)
    ensures Map(f, a + b) == Map(f, a) + Map(f, b)
  {
    assert forall i | 0 <= i < |a + b| :: Map(f, a + b)[i] == (Map(f, a) + Map(f, b))[i];
  }

  /** Removing the element at position `j` removes one copy from the multiset. */
  lemma MultisetRemove<T>(t: seq<T>, j: nat)
    requires j < |t|
    ensures multiset(t) == multiset(t[..j] + t[j + 1..]) + multiset{t[j]}
  {
    assert t == t[..j] + [t[j]] + t[j + 1..];
  }

  /** Some position of `t` holds `x` whenever `x` is in `t`'s multiset. */
  lemma PositionOf<T>(t: seq<T>, x: T) returns (j: nat)
    requires x in multiset(t)
    ensures j < |t| && t[j] == x
  {
    assert x in t;
    j :| 0 <= j < |t| && t[j] == x;
  }

  /** Taking the last element off `a` and one copy of it off a permutation
      `b` of `a` leaves two permutations of each other; `j` is where `b`
      holds that copy. */
  lemma RemoveMatching<T>(a: seq<T>, b: seq<T>) returns (j: nat)
    requires |a| > 0 && multiset(a) == multiset(b)
    ensures j < |b| && b[j] == a[|a| - 1]
    ensures multiset(a[..|a| - 1]) == multiset(b[..j] + b[j + 1..])
  {
    var x := a[|a| - 1];
    assert a == a[..|a| - 1] + [x];
    assert multiset(a) == multiset(a[..|a| - 1]) + multiset{x};
    j := PositionOf(b, x);
    MultisetRemove(b, j);
    assert multiset(a[..|a| - 1]) == multiset(a) - multiset{x};
  }

  /** Mapping a function over two permutations of each other gives two
      permutations of each other. */
  lemma {:induction false} MapPermutation<A, B>(f: A -> B, a: seq<A>, b: seq<A>)
    requires multiset(a) == multiset(b)
    ensures multiset(Map(f, a)) == multiset(Map(f, b))
    decreases |a|
  {
    if |a| == 0 {
      assert |b| == |multiset(b)| == 0;
    } else {
      var j := RemoveMatching(a, b);
      MapPermutation(f, a[..|a| - 1], b[..j] + b[j + 1..]);
      MapLast(f, a);
      MapAt(f, b, j);
    }
  }

  lemma MapLast<A, B>(f: A -> B, a: seq<A>)
    requires |a| > 0
    ensures multiset(Map(f, a)) == multiset(Map(f, a[..|a| - 1])) + multiset{f(a[|a| - 1])}
  {
    assert a == a[..|a| - 1] + [a[|a| - 1]];
    MapConcat(f, a[..|a| - 1], [a[|a| - 1]]);
  }

  lemma MapAt<A, B>(f: A -> B, b: seq<A>, j: nat)
    requires j < |b|
    ensures multiset(Map(f, b)) == multiset(Map(f, b[..j] + b[j + 1..])) + multiset{f(b[j])}
  {
    assert b == b[..j] + [b[j]] + b[j + 1..];
    MapConcat(f, b[..j] + [b[j]], b[j + 1..]);
    MapConcat(f, b[..j], [b[j]]);
    MapConcat(f, b[..j], b[j + 1..]);
  }

  /** The number of elements of `s` that satisfy `p`. */
  function CountSat<T>(s: seq<T>, p: T -> bool): (c: nat)
    ensures c <= |s|
  {
    if |s| == 0 then 0
    else CountSat(s[..|s| - 1], p) + (if p(s[|s| - 1]) then 1 else 0)
  }

  lemma {:induction false} CountSatPermutation<T>(a: seq<T>, b: seq<T>, p: T -> bool)
    requires multiset(a) == multiset(b)
    ensures CountSat(a, p) == CountSat(b, p)
    decreases |a|
  {
    if |a| == 0 {
      assert |b| == |multiset(b)| == 0;
    } else {
      var j := RemoveMatching(a, b);
      CountSatPermutation(a[..|a| - 1], b[..j] + b[j + 1..], p);
      CountSatAt(b, j, p);
    }
  }

  /** Taking out the element at position `j` removes its contribution. */
  lemma {:induction false} CountSatAt<T>(b: seq<T>, j: nat, p: T -> bool)
    requires j < |b|
    ensures CountSat(b, p) == CountSat(b[..j] + b[j + 1..], p) + (if p(b[j]) then 1 else 0)
    decreases |b|
  {
    if j < |b| - 1 {
      var b' := b[..|b| - 1];
      var rest := b[..j] + b[j + 1..];
      assert rest[..|rest| - 1] == b'[..j] + b'[j + 1..];
      assert rest[|rest| - 1] == b[|b| - 1];
      CountSatAt(b', j, p);
    } else {
      assert b[..j] + b[j + 1..] == b[..|b| - 1];
    }
  }

  /** Counting over a sequence whose first `k` elements satisfy `p` and whose
      remaining elements do not. */
  lemma {:induction false} CountSatSplit<T>(s: seq<T>, p: T -> bool, k: nat)
    requires k <= |s|
    requires forall i | 0 <= i < k :: p(s[i])
    requires forall i | k <= i < |s| :: !p(s[i])
    ensures CountSat(s, p) == k
    decreases |s|
  {
    if |s| > k {
      CountSatSplit(s[..|s| - 1], p, k);
    } else if k > 0 {
      CountSatSplit(s[..|s| - 1], p, k - 1);
    }
  }

  /** The sequence 0, 1, ..., n-1. */
  function Range(n: nat): (r: seq<nat>)
    ensures |r| == n
    ensures forall i | 0 <= i < n :: r[i] == i
  {
    seq(n, i => i)
  }

  lemma {:induction false} RangeOccurrences(n: nat, t: nat)
    ensures multiset(Range(n))[t] == if t < n then 1 else 0
  {
    if n > 0 {
      assert Range(n) == Range(n - 1) + [n - 1];
      RangeOccurrences(n - 1, t);
    }
  }

  /** Being a prefix is transitive. */
  lemma PrefixTrans<T>(a: seq<T>, b: seq<T>, c: seq<T>)
    requires |a| <= |b| <= |c| && b[..|a|] == a && c[..|b|] == b
    ensures c[..|a|] == a
  {
    assert forall i | 0 <= i < |a| :: c[i] == b[i] == a[i];
  }
}
