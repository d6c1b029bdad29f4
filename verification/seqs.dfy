/**
 * Kotlin's collection pipeline steps `filter`, `filterNot` and `map`, on sequences,
 * with the facts the property filter needs: what is kept, in which order, and
 * how the result behaves when the input is reordered.
 */
module Seqs {

  /** Kotlin's `filter { p(it) }` (and `filterNot`, with the predicate negated). */
  function Filter<T(!new)>(p: T -> bool, s: seq<T>): (r: seq<T>)
    ensures |r| <= |s|
  {
    if |s| == 0 then []
    else if p(s[0]) then [s[0]] + Filter(p, s[1..])
    else Filter(p, s[1..])
  }

  /** Filtering a sequence with a known first element. */
  lemma FilterCons<T(!new)>(p: T -> bool, x: T, s: seq<T>)
    ensures Filter(p, [x] + s) == (if p(x) then [x] else []) + Filter(p, s)
  {
    assert ([x] + s)[1..] == s;
  }

  /** `Filter` keeps every occurrence of an element satisfying `p` and no occurrence of any other. */
  lemma {:induction false} FilterCounts<T(!new)>(p: T -> bool, s: seq<T>)
    ensures forall x :: multiset(Filter(p, s))[x] == if p(x) then multiset(s)[x] else 0
  {
    if |s| > 0 {
      FilterCounts(p, s[1..]);
      assert s == [s[0]] + s[1..];
    }
  }

  /** Kotlin's `map { f(it) }`. */
  function MapSeq<T, U>(f: T -> U, s: seq<T>): (r: seq<U>)
    ensures |r| == |s|
    ensures forall k :: 0 <= k < |s| ==> r[k] == f(s[k])
  {
    seq(|s|, k requires 0 <= k < |s| => f(s[k]))
  }

  /** Mapping a two-element sequence. */
  lemma MapSeqPair<T, U>(f: T -> U, a: T, b: T)
    ensures MapSeq(f, [a, b]) == [f(a), f(b)]
  {
  }

  /** Both predicates at once. */
  function Both<T>(p: T -> bool, q: T -> bool): T -> bool {
    x => p(x) && q(x)
  }

  /** Shifts every index by one, for the recursion in `KeptIndices`. */
  function Shift(idx: seq<nat>): (r: seq<nat>)
    ensures |r| == |idx|
    ensures forall j :: 0 <= j < |idx| ==> r[j] == idx[j] + 1
  {
    seq(|idx|, j requires 0 <= j < |idx| => idx[j] + 1)
  }

  /** Removing the element at `i` removes one occurrence of it from the multiset. */
  lemma MultisetRemove<T>(b: seq<T>, i: nat)
    requires i < |b|
    ensures multiset(b) == multiset(b[..i] + b[i + 1..]) + multiset{b[i]}
  {
    assert b == b[..i] + [b[i]] + b[i + 1..];
  }

  /** One step of `KeptIndices`, membership: positions after the first are the shifted tail positions. */
  lemma StepMembership<T(!new)>(p: T -> bool, s: seq<T>, tail: seq<nat>)
    requires |s| > 0
    requires forall i :: 0 <= i < |s| - 1 ==> (p(s[1..][i]) <==> i in tail)
    ensures forall i :: 0 <= i < |s| ==> (p(s[i]) <==> i in (if p(s[0]) then [0] else []) + Shift(tail))
  {
    var rest := Shift(tail);
    forall i | 1 <= i < |s| ensures i in rest <==> i - 1 in tail {
      if i in rest {
        var j :| 0 <= j < |rest| && rest[j] == i;
        assert tail[j] == i - 1;
      }
      if i - 1 in tail {
        var j :| 0 <= j < |tail| && tail[j] == i - 1;
        assert rest[j] == i;
      }
    }
    forall i | 1 <= i < |s| ensures p(s[i]) <==> i - 1 in tail {
      assert s[i] == s[1..][i - 1];
    }
  }

  /** One step of `KeptIndices`, order: prepending 0 to shifted increasing positions keeps them increasing. */
  lemma StepOrder(first: bool, tail: seq<nat>)
    requires forall j, k :: 0 <= j < k < |tail| ==> tail[j] < tail[k]
    ensures var idx := (if first then [0] else []) + Shift(tail);
      forall j, k :: 0 <= j < k < |idx| ==> idx[j] < idx[k]
  {
  }

  /** One step of `KeptIndices`, contents, when the first element is kept. */
  lemma StepElementsKept<T(!new)>(p: T -> bool, s: seq<T>, tail: seq<nat>)
    requires |s| > 0 && p(s[0])
    requires |tail| == |Filter(p, s[1..])|
    requires forall j :: 0 <= j < |tail| ==> tail[j] < |s| - 1 && Filter(p, s[1..])[j] == s[1..][tail[j]]
    ensures |[0] + Shift(tail)| == |Filter(p, s)|
    ensures forall j :: 0 <= j < |tail| + 1 ==>
      ([0] + Shift(tail))[j] < |s| && Filter(p, s)[j] == s[([0] + Shift(tail))[j]]
  {
    var f := Filter(p, s[1..]);
    var idx := [0] + Shift(tail);
    assert Filter(p, s) == [s[0]] + f;
    forall j | 1 <= j < |idx| ensures idx[j] < |s| && Filter(p, s)[j] == s[idx[j]] {
      assert idx[j] == tail[j - 1] + 1;
      assert s[1..][tail[j - 1]] == s[tail[j - 1] + 1];
    }
  }

  /** One step of `KeptIndices`, contents, when the first element is dropped. */
  lemma StepElementsDropped<T(!new)>(p: T -> bool, s: seq<T>, tail: seq<nat>)
    requires |s| > 0 && !p(s[0])
    requires |tail| == |Filter(p, s[1..])|
    requires forall j :: 0 <= j < |tail| ==> tail[j] < |s| - 1 && Filter(p, s[1..])[j] == s[1..][tail[j]]
    ensures |Shift(tail)| == |Filter(p, s)|
    ensures forall j :: 0 <= j < |tail| ==> Shift(tail)[j] < |s| && Filter(p, s)[j] == s[Shift(tail)[j]]
  {
    var f := Filter(p, s[1..]);
    assert Filter(p, s) == f;
    forall j | 0 <= j < |tail| ensures Shift(tail)[j] < |s| && f[j] == s[Shift(tail)[j]] {
      assert s[1..][tail[j]] == s[tail[j] + 1];
    }
  }

  /** The positions of `s` whose elements satisfy `p`, in increasing order. */
  function KeptIndices<T>(p: T -> bool, s: seq<T>): seq<nat> {
    if |s| == 0 then []
    else (if p(s[0]) then [0] else []) + Shift(KeptIndices(p, s[1..]))
  }

  /** A position is kept exactly when its element satisfies `p`. */
  lemma {:induction false} KeptIndicesMembership<T(!new)>(p: T -> bool, s: seq<T>)
    ensures forall i :: 0 <= i < |s| ==> (p(s[i]) <==> i in KeptIndices(p, s))
  {
    if |s| > 0 {
      KeptIndicesMembership(p, s[1..]);
      StepMembership(p, s, KeptIndices(p, s[1..]));
    }
  }

  /** Kept positions are listed in increasing order. */
  lemma {:induction false} KeptIndicesIncreasing<T>(p: T -> bool, s: seq<T>)
    ensures forall j, k :: 0 <= j < k < |KeptIndices(p, s)| ==> KeptIndices(p, s)[j] < KeptIndices(p, s)[k]
  {
    if |s| > 0 {
      KeptIndicesIncreasing(p, s[1..]);
      StepOrder(p(s[0]), KeptIndices(p, s[1..]));
    }
  }

  /** The j-th element of `Filter(p, s)` is the element at the j-th kept position. */
  lemma {:induction false} FilterAtKeptIndices<T(!new)>(p: T -> bool, s: seq<T>)
    ensures |KeptIndices(p, s)| == |Filter(p, s)|
    ensures forall j :: 0 <= j < |KeptIndices(p, s)| ==>
      KeptIndices(p, s)[j] < |s| && Filter(p, s)[j] == s[KeptIndices(p, s)[j]]
  {
    if |s| > 0 {
      var tail := KeptIndices(p, s[1..]);
      FilterAtKeptIndices(p, s[1..]);
      if p(s[0]) {
        StepElementsKept(p, s, tail);
      } else {
        StepElementsDropped(p, s, tail);
        assert KeptIndices(p, s) == Shift(tail);
      }
    }
  }

  /**
   * `Filter` keeps order: the j-th kept element is the element at the j-th kept
   * position, kept positions increase, and a position is kept exactly when its
   * element satisfies `p`.
   */
  lemma FilterKeepsOrder<T(!new)>(p: T -> bool, s: seq<T>)
    ensures |KeptIndices(p, s)| == |Filter(p, s)|
    ensures forall j :: 0 <= j < |KeptIndices(p, s)| ==>
      KeptIndices(p, s)[j] < |s| && Filter(p, s)[j] == s[KeptIndices(p, s)[j]]
    ensures forall j, k :: 0 <= j < k < |KeptIndices(p, s)| ==> KeptIndices(p, s)[j] < KeptIndices(p, s)[k]
    ensures forall i :: 0 <= i < |s| ==> (p(s[i]) <==> i in KeptIndices(p, s))
  {
    FilterAtKeptIndices(p, s);
    KeptIndicesIncreasing(p, s);
    KeptIndicesMembership(p, s);
  }

  /** Two filters in a row keep what satisfies both. */
  lemma {:induction false} FilterFilter<T(!new)>(p: T -> bool, q: T -> bool, s: seq<T>)
    ensures Filter(q, Filter(p, s)) == Filter(Both(p, q), s)
  {
    if |s| > 0 {
      FilterFilter(p, q, s[1..]);
      assert Both(p, q)(s[0]) == (p(s[0]) && q(s[0]));
    }
  }

  /** An element of `Filter(p, s)` is exactly an element of `s` satisfying `p`. */
  lemma FilterMembers<T(!new)>(p: T -> bool, s: seq<T>)
    ensures forall x :: x in Filter(p, s) <==> x in s && p(x)
  {
    FilterCounts(p, s);
    assert forall x :: x in Filter(p, s) <==> multiset(Filter(p, s))[x] > 0;
  }

  /** Filtering a permutation gives a permutation of the filtered sequence. */
  lemma FilterPermutation<T(!new)>(p: T -> bool, a: seq<T>, b: seq<T>)
    requires multiset(a) == multiset(b)
    ensures multiset(Filter(p, a)) == multiset(Filter(p, b))
  {
    FilterCounts(p, a);
    FilterCounts(p, b);
    assert forall x :: multiset(Filter(p, a))[x] == multiset(Filter(p, b))[x];
  }

  /** Mapping after removing the element at `i` removes one occurrence of its image. */
  lemma MapSeqRemove<T, U>(f: T -> U, b: seq<T>, i: nat)
    requires i < |b|
    ensures multiset(MapSeq(f, b)) == multiset(MapSeq(f, b[..i] + b[i + 1..])) + multiset{f(b[i])}
  {
    var m := MapSeq(f, b);
    MultisetRemove(m, i);
    assert m[..i] + m[i + 1..] == MapSeq(f, b[..i] + b[i + 1..]);
  }

  /** Mapping a permutation gives a permutation of the mapped sequence. */
  lemma {:induction false} MapSeqPermutation<T, U>(f: T -> U, a: seq<T>, b: seq<T>)
    requires multiset(a) == multiset(b)
    ensures multiset(MapSeq(f, a)) == multiset(MapSeq(f, b))
    decreases |a|
  {
    if |a| == 0 {
      assert b == [];
    } else {
      assert a[0] in multiset(b);
      var i :| 0 <= i < |b| && b[i] == a[0];
      var b' := b[..i] + b[i + 1..];
      assert a == [a[0]] + a[1..];
      assert multiset(a[1..]) == multiset(a) - multiset{a[0]};
      MultisetRemove(b, i);
      assert multiset(b') == multiset(b) - multiset{a[0]};
      MapSeqPermutation(f, a[1..], b');
      MapSeqRemove(f, a, 0);
      assert a[..0] + a[1..] == a[1..];
      MapSeqRemove(f, b, i);
    }
  }
}
