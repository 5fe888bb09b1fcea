/**
  The packaging pass of the measurement converter.

  A cursor reads a count, sums the next `count` values (a value past the
  end of the stream counts as 0), appends the sum and jumps past them.
  Every value the cursor lands on is a count; all others are members of
  exactly one package.
 */
module Packager {
  import opened Sequences

  function Sum(s: seq<int>): int
  {
    if s == [] then 0 else s[0] + Sum(s[1..])
  }

  lemma {:induction false} SumAppend(a: seq<int>, b: seq<int>)
    ensures Sum(a + b) == Sum(a) + Sum(b)
  {
    if a != [] {
      assert (a + b)[0] == a[0] && (a + b)[1..] == a[1..] + b;
      SumAppend(a[1..], b);
    } else {
      assert a + b == b;
    }
  }

  /** `n` zeros: the padding added when a count runs past the end. */
  function Zeros(n: nat): (z: seq<int>)
    ensures |z| == n
    ensures forall k :: 0 <= k < n ==> z[k] == 0
  {
    seq(n, _ => 0)
  }

  lemma {:induction false} SumZeros(n: nat)
    ensures Sum(Zeros(n)) == 0
  {
    if n > 0 {
      assert Zeros(n)[1..] == Zeros(n - 1);
      SumZeros(n - 1);
    }
  }

  /** How far the cursor `i` is from the end of the stream (0 once past it). */
  function Remaining(values: seq<int>, i: nat): nat
  {
    if i < |values| then |values| - i else 0
  }

  /**
    Every count the cursor reads from position `i` on is non-negative,
    so that the cursor only moves forward.
   */
  predicate CountsOk(values: seq<int>, i: nat)
    decreases Remaining(values, i)
  {
    i >= |values| || (values[i] >= 0 && CountsOk(values, i + 1 + values[i]))
  }

  /**
    The members of the package whose count is read at `i`: the values
    right after the count, as many as the count says, cut off at the end.
   */
  function Window(values: seq<int>, i: nat): (w: seq<int>)
    requires i < |values| && values[i] >= 0
    ensures |w| <= values[i]
    ensures i + 1 + values[i] <= |values| ==> |w| == values[i]
    ensures i + 1 + values[i] > |values| ==> |w| == |values| - i - 1
  {
    var end := if i + 1 + values[i] <= |values| then i + 1 + values[i] else |values|;
    values[i + 1..end]
  }

  /** The `k`-th member of a package is the `k`-th value after its count. */
  lemma WindowMembers(values: seq<int>, i: nat)
    requires i < |values| && values[i] >= 0
    ensures forall k :: 0 <= k < |Window(values, i)| ==> Window(values, i)[k] == values[i + 1 + k]
  {
  }

  /**
    The package sums the cursor produces from position `i` on: the
    reference definition, one package per recursive call.  No more
    packages than values remain.
   */
  function PackagesFrom(values: seq<int>, i: nat): (r: seq<int>)
    requires CountsOk(values, i)
    ensures |r| <= Remaining(values, i)
    decreases Remaining(values, i)
  {
    if i >= |values| then []
    else [Sum(Window(values, i))] + PackagesFrom(values, i + 1 + values[i])
  }

  /** The package sums of a whole stream: never more sums than values. */
  function Packages(values: seq<int>): (r: seq<int>)
    requires CountsOk(values, 0)
    ensures |r| <= |values|
  {
    PackagesFrom(values, 0)
  }

  /** The counts the cursor reads from position `i` on, in order. */
  function CountsFrom(values: seq<int>, i: nat): seq<int>
    requires CountsOk(values, i)
    decreases Remaining(values, i)
  {
    if i >= |values| then []
    else [values[i]] + CountsFrom(values, i + 1 + values[i])
  }

  /** A stream of non-negative values (such as a decoded one) has only non-negative counts. */
  lemma {:induction false} NonNegativeCountsOk(values: seq<int>, i: nat)
    requires forall k :: 0 <= k < |values| ==> values[k] >= 0
    ensures CountsOk(values, i)
    decreases Remaining(values, i)
  {
    if i < |values| {
      NonNegativeCountsOk(values, i + 1 + values[i]);
    }
  }

  /** Exactly one package per count read. */
  lemma {:induction false} OnePackagePerCount(values: seq<int>, i: nat)
    requires CountsOk(values, i)
    ensures |PackagesFrom(values, i)| == |CountsFrom(values, i)|
    decreases Remaining(values, i)
  {
    if i < |values| {
      OnePackagePerCount(values, i + 1 + values[i]);
    }
  }

  /**
    Nothing is lost or counted twice: the package sums and the counts
    together add up to the whole stream from `i` on.  In particular the
    zero padding contributes nothing.
   */
  lemma {:induction false} PackagesConserveSum(values: seq<int>, i: nat)
    requires CountsOk(values, i) && i <= |values|
    ensures Sum(PackagesFrom(values, i)) + Sum(CountsFrom(values, i)) == Sum(values[i..])
    decreases Remaining(values, i)
  {
    if i < |values| {
      var next := i + 1 + values[i];
      var end := if next <= |values| then next else |values|;
      assert values[i..] == [values[i]] + Window(values, i) + values[end..];
      SumAppend([values[i]] + Window(values, i), values[end..]);
      SumAppend([values[i]], Window(values, i));
      if next <= |values| {
        PackagesConserveSum(values, next);
      } else {
        assert values[end..] == [];
      }
      SumAppend([Sum(Window(values, i))], PackagesFrom(values, next));
      SumAppend([values[i]], CountsFrom(values, next));
    }
  }

  /** Every element of `s` lies in `lo..hi`. */
  predicate AllWithin(s: seq<int>, lo: int, hi: int)
  {
    forall k :: 0 <= k < |s| ==> lo <= s[k] <= hi
  }

  lemma {:induction false} SumBound(s: seq<int>, m: int)
    requires AllWithin(s, 0, m)
    ensures 0 <= Sum(s) <= |s| * m
  {
    if s != [] {
      SumBound(s[1..], m);
    }
  }

  lemma ScaleBound(a: int, b: int, m: int)
    requires 0 <= a <= b && 0 <= m
    ensures a * m <= b * m
  {
  }

  /**
    If every value lies in 0..m, every package sum lies in 0..m*m: a
    package has at most as many members as its count, and the count is
    itself a value of at most m.
   */
  lemma {:induction false} PackagesBounded(values: seq<int>, i: nat, m: int)
    requires AllWithin(values, 0, m)
    requires CountsOk(values, i)
    ensures AllWithin(PackagesFrom(values, i), 0, m * m)
    decreases Remaining(values, i)
  {
    if i < |values| {
      var w := Window(values, i);
      assert AllWithin(w, 0, m);
      SumBound(w, m);
      ScaleBound(|w|, values[i], m);
      ScaleBound(values[i], m, m);
      PackagesBounded(values, i + 1 + values[i], m);
    }
  }

  /**
    The tail the loop builds for the count at `start`, zero-padded when
    the count runs past the end, sums to the same as the package window.
   */
  lemma PaddedTailSum(values: seq<int>, start: nat)
    requires start < |values| && values[start] >= 0
    ensures start + 1 + values[start] > |values| ==>
      Sum(values[start + 1..] + Zeros(start + 1 + values[start] - |values|)) == Sum(Window(values, start))
    ensures start + 1 + values[start] <= |values| ==>
      Sum(values[start + 1..start + 1 + values[start]]) == Sum(Window(values, start))
  {
    var i := start + 1;
    if i + values[start] > |values| {
      SumAppend(values[i..], Zeros(i + values[start] - |values|));
      SumZeros(i + values[start] - |values|);
      assert values[i..] == values[i..|values|];
    }
  }

  /**
    The loop of `parse_packages`: read the count, build the zero-padded
    tail, append its sum and advance the cursor by the count.
   */
  method ParsePackages(values: seq<int>) returns (packages: seq<int>)
    requires CountsOk(values, 0)
    ensures packages == Packages(values)
  {
    packages := [];
    var i: nat := 0;
    while i < |values|
      invariant CountsOk(values, i)
      invariant packages + PackagesFrom(values, i) == Packages(values)
      decreases Remaining(values, i)
    {
      PaddedTailSum(values, i);
      ghost var start := i;
      var count := values[i];
      i := i + 1;
      var tail: seq<int>;
      if i + count > |values| {
        tail := values[i..] + Zeros(i + count - |values|);
      } else {
        tail := values[i..i + count];
      }
      var pkgSum := Sum(tail);
      AppendAssoc(packages, [pkgSum], PackagesFrom(values, i + count));
      packages := packages + [pkgSum];
      i := i + count;
    }
  }

  /** The grouping example of the packager's documentation. */
  lemma PackagesDocExample()
    ensures CountsOk([4, 26, 1, 0, 1, 1, 53, 1, 1], 0)
    ensures Packages([4, 26, 1, 0, 1, 1, 53, 1, 1]) == [28, 53, 1]
  {
    var v := [4, 26, 1, 0, 1, 1, 53, 1, 1];
    NonNegativeCountsOk(v, 0);
    assert v[1..5] == [26, 1, 0, 1];
    assert Window(v, 0) == [26, 1, 0, 1];
    assert Window(v, 5) == [53];
    assert Window(v, 7) == [1];
    assert Sum([1]) == 1 && Sum([53]) == 53;
    assert [26, 1, 0, 1][1..] == [1, 0, 1] && [1, 0, 1][1..] == [0, 1] && [0, 1][1..] == [1];
    assert Sum([26, 1, 0, 1]) == 28;
    assert PackagesFrom(v, 7) == [1];
    assert PackagesFrom(v, 5) == [53, 1];
  }

  /** The empty stream, a count that runs past the end, and a zero count. */
  lemma PackagesEdgeExamples()
    ensures Packages([]) == []
    ensures CountsOk([3, 1, 1], 0) && Packages([3, 1, 1]) == [2]
    ensures CountsOk([0, 5, 5], 0) && Packages([0, 5, 5]) == [0, 5] && Packages([0, 5, 5]) != [0, 10]
  {
    var w := [3, 1, 1];
    NonNegativeCountsOk(w, 0);
    assert Window(w, 0) == [1, 1] && [1, 1][1..] == [1];
    assert Sum([1, 1]) == 2;
    var u := [0, 5, 5];
    NonNegativeCountsOk(u, 0);
    assert Window(u, 0) == [] && Window(u, 1) == [5];
  }

  /**
    The stream the decoder actually yields for the documented input: its
    fourth count runs past the end and gives an empty package.
   */
  lemma PackagesDocStream()
    ensures CountsOk([4, 26, 1, 0, 1, 1, 52, 1, 1, 1], 0)
    ensures Packages([4, 26, 1, 0, 1, 1, 52, 1, 1, 1]) == [28, 52, 1, 0]
  {
    var v := [4, 26, 1, 0, 1, 1, 52, 1, 1, 1];
    NonNegativeCountsOk(v, 0);
    assert v[1..5] == [26, 1, 0, 1];
    assert Window(v, 0) == [26, 1, 0, 1];
    assert Window(v, 5) == [52];
    assert Window(v, 7) == [1];
    assert Window(v, 9) == [];
    assert Sum([1]) == 1 && Sum([52]) == 52;
    assert [26, 1, 0, 1][1..] == [1, 0, 1] && [1, 0, 1][1..] == [0, 1] && [0, 1][1..] == [1];
    assert Sum([26, 1, 0, 1]) == 28;
    assert PackagesFrom(v, 9) == [0];
    assert PackagesFrom(v, 7) == [1, 0];
    assert PackagesFrom(v, 5) == [52, 1, 0];
  }
}
