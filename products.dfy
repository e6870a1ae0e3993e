/** Inner products of sparse vectors viewed as element sequences: the reference
    definition (sum over shared indices of the value products), and the cursor
    walk that the vector's dot operation performs, with what that walk computes. */
module Products {
  import opened Elements

  /** Sum, over the elements of a, of a's value times b's value at the same index
      (zero where b has no element there): the inner product of a and b. */
  function InnerProduct(a: seq<Element>, b: seq<Element>): real
  {
    if a == [] then 0.0
    else a[0].value * ValueAt(b, a[0].index) + InnerProduct(a[1..], b)
  }

  /** Sum of the squares of the values: the squared magnitude. */
  function SumOfSquares(a: seq<Element>): real
  {
    if a == [] then 0.0 else a[0].value * a[0].value + SumOfSquares(a[1..])
  }

  /** Moving one product from what is left into the running sum keeps the
      total. A step of real arithmetic stated apart: with it, the merge loop's
      match branch costs the solver about half as much. */
  lemma Accumulate(total: real, r: real, h: real, rest: real, rest': real)
    requires r + rest == total && rest == h + rest'
    ensures (r + h) + rest' == total
  {
  }

  /** What remains to be accumulated by the dot walk once its cursors stand at
      position p of a (the receiver, whose size field is m) and position q of b
      (the argument, whose size field is n). One unfolding is one loop iteration:
      the sizes decide between the equal-size branch and the branch in which,
      for each element of the shorter vector, the longer vector's cursor scans on
      from where it stands and restarts at its head only after running off its
      end. */
  function DotFrom(a: seq<Element>, b: seq<Element>, m: int, n: int, p: nat, q: nat): real
    requires p <= |a| && q <= |b|
    decreases if m > n then |b| - q else |a| - p, if m > n then |a| - p else |b| - q
  {
    if p == |a| || q == |b| then 0.0
    else
      var x, y := a[p], b[q];
      if m == n then
        if x.index == y.index then x.value * y.value + DotFrom(a, b, m, n, p + 1, q + 1)
        else if p + 1 < |a| then DotFrom(a, b, m, n, p + 1, q)
        else DotFrom(a, b, m, n, p, q + 1)
      else if x.index == y.index then
        x.value * y.value + (if m < n then DotFrom(a, b, m, n, p + 1, q) else DotFrom(a, b, m, n, p, q + 1))
      else if m > n then
        if p + 1 < |a| then DotFrom(a, b, m, n, p + 1, q) else DotFrom(a, b, m, n, 0, q + 1)
      else
        if q + 1 < |b| then DotFrom(a, b, m, n, p, q + 1) else DotFrom(a, b, m, n, p + 1, 0)
  }

  /** The inner product with an empty vector, on either side, is zero. */
  lemma {:induction false} InnerProductEmpty(a: seq<Element>)
    ensures InnerProduct(a, []) == 0.0
    ensures InnerProduct([], a) == 0.0
  {
    if a != [] {
      InnerProductEmpty(a[1..]);
    }
  }

  /** An element of b whose index a does not occupy contributes nothing. */
  lemma {:induction false} InnerProductDropHead(a: seq<Element>, b: seq<Element>)
    requires b != [] && b[0].index !in Indices(a)
    ensures InnerProduct(a, b) == InnerProduct(a, b[1..])
  {
    if a != [] {
      assert a[0].index != b[0].index;
      InnerProductDropHead(a[1..], b);
    }
  }

  /** The inner product of two well-formed vectors does not depend on their order. */
  lemma {:induction false} InnerProductSymmetric(a: seq<Element>, b: seq<Element>)
    requires Sorted(a) && Sorted(b)
    ensures InnerProduct(a, b) == InnerProduct(b, a)
    decreases |a| + |b|
  {
    if a == [] || b == [] {
      InnerProductEmpty(a);
      InnerProductEmpty(b);
    } else {
      SortedTail(a);
      SortedTail(b);
      var x, y := a[0], b[0];
      if x.index == y.index {
        ValueAtElement(a, 0);
        ValueAtElement(b, 0);
        InnerProductDropHead(a[1..], b);
        InnerProductDropHead(b[1..], a);
        InnerProductSymmetric(a[1..], b[1..]);
      } else if x.index < y.index {
        IndicesAbove(b, x.index);
        InnerProductDropHead(b, a);
        InnerProductSymmetric(a[1..], b);
      } else {
        IndicesAbove(a, y.index);
        InnerProductDropHead(a, b);
        InnerProductSymmetric(a, b[1..]);
      }
    }
  }

  /** The inner product of a well-formed vector with itself is its sum of squares. */
  lemma {:induction false} InnerProductSelf(a: seq<Element>)
    requires Sorted(a)
    ensures InnerProduct(a, a) == SumOfSquares(a)
  {
    if a != [] {
      SortedTail(a);
      ValueAtElement(a, 0);
      InnerProductDropHead(a[1..], a);
      InnerProductSelf(a[1..]);
    }
  }

  /** The walk when the receiver's size field is the smaller one: for each
      element of a, the cursor in b scans on from where it stands and restarts at
      b's head after b's last element. Every state reached keeps a[p]'s index out
      of the part of b already passed, and the walk sums a[p..] against all of b. */
  lemma {:induction false} DotFromReceiverSmaller(a: seq<Element>, b: seq<Element>, m: int, n: int, p: nat, q: nat)
    requires Sorted(a) && Sorted(b) && m < n
    requires p <= |a| && q <= |b| && (q < |b| || b == [])
    requires p < |a| ==> a[p].index !in Indices(b[..q])
    ensures DotFrom(a, b, m, n, p, q) == InnerProduct(a[p..], b)
    decreases |a| - p, |b| - q
  {
    if p == |a| {
    } else if b == [] {
      InnerProductEmpty(a[p..]);
    } else {
      var x, y := a[p], b[q];
      assert a[p..][1..] == a[p + 1..];
      if x.index == y.index {
        ValueAtElement(b, q);
        if p + 1 < |a| {
          forall i | 0 <= i < |b[..q]| ensures b[..q][i].index != a[p + 1].index {
            assert b[i].index < b[q].index;
          }
          NotInIndices(b[..q], a[p + 1].index);
        }
        DotFromReceiverSmaller(a, b, m, n, p + 1, q);
      } else {
        var passed := b[..q + 1];
        forall i | 0 <= i < |passed| ensures passed[i].index != x.index {
          if i < q {
            assert b[..q][i] == b[i] && b[i].index in Indices(b[..q]);
          }
        }
        NotInIndices(passed, x.index);
        if q + 1 < |b| {
          DotFromReceiverSmaller(a, b, m, n, p, q + 1);
        } else {
          assert b[..q + 1] == b;
          DotFromReceiverSmaller(a, b, m, n, p + 1, 0);
        }
      }
    }
  }

  /** The walk when the receiver's size field is the larger one: the same scan
      with the roles of the two cursors exchanged; the walk sums b[q..] against
      all of a. */
  lemma {:induction false} DotFromReceiverLarger(a: seq<Element>, b: seq<Element>, m: int, n: int, p: nat, q: nat)
    requires Sorted(a) && Sorted(b) && m > n
    requires q <= |b| && p <= |a| && (p < |a| || a == [])
    requires q < |b| ==> b[q].index !in Indices(a[..p])
    ensures DotFrom(a, b, m, n, p, q) == InnerProduct(b[q..], a)
    decreases |b| - q, |a| - p
  {
    if q == |b| {
    } else if a == [] {
      InnerProductEmpty(b[q..]);
    } else {
      var x, y := a[p], b[q];
      assert b[q..][1..] == b[q + 1..];
      if x.index == y.index {
        ValueAtElement(a, p);
        if q + 1 < |b| {
          forall i | 0 <= i < |a[..p]| ensures a[..p][i].index != b[q + 1].index {
            assert a[i].index < a[p].index;
          }
          NotInIndices(a[..p], b[q + 1].index);
        }
        DotFromReceiverLarger(a, b, m, n, p, q + 1);
      } else {
        var passed := a[..p + 1];
        forall i | 0 <= i < |passed| ensures passed[i].index != y.index {
          if i < p {
            assert a[..p][i] == a[i] && a[i].index in Indices(a[..p]);
          }
        }
        NotInIndices(passed, y.index);
        if p + 1 < |a| {
          DotFromReceiverLarger(a, b, m, n, p + 1, q);
        } else {
          assert a[..p + 1] == a;
          DotFromReceiverLarger(a, b, m, n, 0, q + 1);
        }
      }
    }
  }

  /** When the two vectors hold different numbers of elements, the dot walk
      computes their inner product. */
  lemma DotFromUnequalSizes(a: seq<Element>, b: seq<Element>)
    requires Sorted(a) && Sorted(b) && |a| != |b|
    ensures DotFrom(a, b, |a|, |b|, 0, 0) == InnerProduct(a, b)
  {
    if |a| < |b| {
      DotFromReceiverSmaller(a, b, |a|, |b|, 0, 0);
      assert a[0..] == a;
    } else {
      DotFromReceiverLarger(a, b, |a|, |b|, 0, 0);
      assert b[0..] == b;
      InnerProductSymmetric(a, b);
    }
  }

  /** Walking a vector against itself matches at every step and sums the squares. */
  lemma {:induction false} DotFromSelf(a: seq<Element>, m: int, p: nat)
    requires p <= |a|
    ensures DotFrom(a, a, m, m, p, p) == SumOfSquares(a[p..])
    decreases |a| - p
  {
    if p < |a| {
      assert a[p..][1..] == a[p + 1..];
      DotFromSelf(a, m, p + 1);
    }
  }

  /** What the dot walk from the start computes for two sorted vectors, whatever
      their size fields m and n say: the inner product when the size fields
      differ, the sum of squares for a vector against itself under equal size
      fields, and zero when either is empty. With size fields that count the
      elements, the first case is DotFromUnequalSizes. */
  lemma DotFromMeaning(a: seq<Element>, b: seq<Element>, m: int, n: int)
    requires Sorted(a) && Sorted(b)
    ensures m != n ==> DotFrom(a, b, m, n, 0, 0) == InnerProduct(a, b)
    ensures m == n && a == b ==> DotFrom(a, b, m, n, 0, 0) == SumOfSquares(a)
    ensures a == [] || b == [] ==> DotFrom(a, b, m, n, 0, 0) == 0.0
  {
    if m < n {
      DotFromReceiverSmaller(a, b, m, n, 0, 0);
      assert a[0..] == a;
    } else if m > n {
      DotFromReceiverLarger(a, b, m, n, 0, 0);
      assert b[0..] == b;
      InnerProductSymmetric(a, b);
    }
    if m == n && a == b {
      DotFromSelf(a, m, 0);
      assert a[0..] == a;
    }
  }

  /** Merge step at positions p of a and q of b holding the same index: the two
      elements contribute their product and both cursors move on. */
  lemma MergeMatch(a: seq<Element>, b: seq<Element>, p: int, q: int)
    requires Sorted(a) && Sorted(b) && 0 <= p < |a| && 0 <= q < |b| && a[p].index == b[q].index
    ensures InnerProduct(a[p..], b[q..]) == a[p].value * b[q].value + InnerProduct(a[p + 1..], b[q + 1..])
  {
    var a', b' := a[p..], b[q..];
    assert a'[0] == a[p] && b'[0] == b[q] && a'[1..] == a[p + 1..] && b'[1..] == b[q + 1..];
    SortedTail(a');
    InnerProductDropHead(a'[1..], b');
    ValueAtElement(b', 0);
  }

  /** Merge step at positions where a holds the smaller index: that index occurs
      nowhere in the rest of b, so a's cursor moves on alone. */
  lemma MergeSkipFirst(a: seq<Element>, b: seq<Element>, p: int, q: int)
    requires Sorted(b) && 0 <= p < |a| && 0 <= q < |b| && a[p].index < b[q].index
    ensures InnerProduct(a[p..], b[q..]) == InnerProduct(a[p + 1..], b[q..])
  {
    var a', b' := a[p..], b[q..];
    assert a'[0] == a[p] && a'[1..] == a[p + 1..];
    IndicesAbove(b', a[p].index);
    var v := ValueAt(b', a[p].index);
    assert v == 0.0;
    assert InnerProduct(a', b') == a[p].value * v + InnerProduct(a'[1..], b');
  }

  /** Merge step at positions where b holds the smaller index: that index occurs
      nowhere in the rest of a, so b's cursor moves on alone. */
  lemma MergeSkipSecond(a: seq<Element>, b: seq<Element>, p: int, q: int)
    requires Sorted(a) && 0 <= p < |a| && 0 <= q < |b| && b[q].index < a[p].index
    ensures InnerProduct(a[p..], b[q..]) == InnerProduct(a[p..], b[q + 1..])
  {
    var a', b' := a[p..], b[q..];
    assert b'[0] == b[q] && b'[1..] == b[q + 1..];
    IndicesAbove(a', b[q].index);
    InnerProductDropHead(a', b');
  }

  /** A receiver holding indices 3 and 4 and an argument holding 1 and 3, all
      values 1: equal sizes, one shared index. */
  function MissedA(): seq<Element> { [Element(3, 1.0), Element(4, 1.0)] }
  function MissedB(): seq<Element> { [Element(1, 1.0), Element(3, 1.0)] }

  /** In the equal-size branch the receiver's cursor runs to its last element
      (index 4) before the argument's cursor moves, so index 3 is never met by
      both cursors: the walk yields 0 where the inner product is 1, and walking
      the same pair the other way round yields 1. */
  lemma DotEqualSizeMissesSharedIndex()
    ensures Sorted(MissedA()) && Sorted(MissedB()) && NonZero(MissedA()) && NonZero(MissedB())
    ensures InnerProduct(MissedA(), MissedB()) == 1.0
    ensures DotFrom(MissedA(), MissedB(), 2, 2, 0, 0) == 0.0
    ensures DotFrom(MissedB(), MissedA(), 2, 2, 0, 0) == 1.0
  {
    var a, b := MissedA(), MissedB();
    assert DotFrom(a, b, 2, 2, 0, 0) == DotFrom(a, b, 2, 2, 1, 0);
    assert DotFrom(a, b, 2, 2, 1, 0) == DotFrom(a, b, 2, 2, 1, 1);
    assert DotFrom(a, b, 2, 2, 1, 1) == DotFrom(a, b, 2, 2, 1, 2);
    assert DotFrom(b, a, 2, 2, 0, 0) == DotFrom(b, a, 2, 2, 1, 0);
    assert DotFrom(b, a, 2, 2, 1, 0) == 1.0 + DotFrom(b, a, 2, 2, 2, 1);
    assert ValueAt(b, 3) == 1.0 && ValueAt(b, 4) == 0.0;
    assert InnerProduct(a, b) == 1.0 * ValueAt(b, 3) + InnerProduct(a[1..], b);
    assert a[1..][1..] == [];
  }
}
