/** Elements of a sparse numeric vector and the abstract view of a vector as a
    sequence of elements: ordering, index lookup, sorted insertion and removal
    by index. */
module Elements {

  /** One stored entry: a location index and its value. Immutable once built. */
  datatype Element = Element(index: int, value: real)

  /** Indices strictly increase along the sequence; this also rules out two
      elements with the same index. */
  predicate Sorted(s: seq<Element>) {
    forall i, j :: 0 <= i < j < |s| ==> s[i].index < s[j].index
  }

  /** No element holds the value zero. */
  predicate NonZero(s: seq<Element>) {
    forall i :: 0 <= i < |s| ==> s[i].value != 0.0
  }

  /** The set of indices occupied in s. */
  function Indices(s: seq<Element>): (r: set<int>)
    ensures forall i :: 0 <= i < |s| ==> s[i].index in r
  {
    if s == [] then {} else {s[0].index} + Indices(s[1..])
  }

  /** Every occupied index is held at some position. */
  lemma {:induction false} IndexPosition(s: seq<Element>, k: int) returns (i: int)
    requires k in Indices(s)
    ensures 0 <= i < |s| && s[i].index == k
  {
    if s[0].index == k {
      i := 0;
    } else {
      var j := IndexPosition(s[1..], k);
      i := j + 1;
    }
  }

  /** An index held at no position is not occupied. */
  lemma {:induction false} NotInIndices(s: seq<Element>, x: int)
    requires forall i :: 0 <= i < |s| ==> s[i].index != x
    ensures x !in Indices(s)
  {
    if s != [] {
      assert forall i :: 0 <= i < |s[1..]| ==> s[1..][i] == s[i + 1];
      NotInIndices(s[1..], x);
    }
  }

  /** A lower bound on every position is a lower bound on every occupied index. */
  lemma {:induction false} IndicesAbove(s: seq<Element>, x: int)
    requires forall i :: 0 <= i < |s| ==> x < s[i].index
    ensures forall k :: k in Indices(s) ==> x < k
  {
    if s != [] {
      assert forall i :: 0 <= i < |s[1..]| ==> s[1..][i] == s[i + 1];
      IndicesAbove(s[1..], x);
    }
  }

  /** The value stored at index k, and zero when no element has index k:
      the vector read as a total function from indices to values. */
  function ValueAt(s: seq<Element>, k: int): (v: real)
    ensures k !in Indices(s) ==> v == 0.0
  {
    if s == [] then 0.0
    else if s[0].index == k then s[0].value
    else ValueAt(s[1..], k)
  }

  /** s with e placed in front of the first element whose index exceeds e's. */
  function Insert(s: seq<Element>, e: Element): (r: seq<Element>)
    ensures |r| == |s| + 1
    ensures multiset(r) == multiset(s) + multiset{e}
  {
    if s == [] || e.index < s[0].index then [e] + s
    else
      assert s == [s[0]] + s[1..];
      [s[0]] + Insert(s[1..], e)
  }

  /** s without its first element of index k (if there is one). */
  function RemoveIndex(s: seq<Element>, k: int): (r: seq<Element>)
    ensures |r| == if k in Indices(s) then |s| - 1 else |s|
    ensures k !in Indices(s) ==> r == s
  {
    if s == [] then []
    else if s[0].index == k then s[1..]
    else [s[0]] + RemoveIndex(s[1..], k)
  }

  lemma SortedTail(s: seq<Element>)
    requires Sorted(s) && s != []
    ensures Sorted(s[1..])
    ensures forall k :: k in Indices(s[1..]) ==> s[0].index < k
  {
    IndicesAbove(s[1..], s[0].index);
  }

  /** In a sorted sequence, the value at an element's index is that element's value. */
  lemma {:induction false} ValueAtElement(s: seq<Element>, i: int)
    requires Sorted(s) && 0 <= i < |s|
    ensures ValueAt(s, s[i].index) == s[i].value
  {
    if i > 0 {
      SortedTail(s);
      ValueAtElement(s[1..], i - 1);
    }
  }

  /** An index lying strictly between two neighbours of a sorted sequence is not
      occupied. */
  lemma AbsentBetween(s: seq<Element>, x: int, k: int)
    requires Sorted(s) && 0 <= k <= |s|
    requires k > 0 ==> s[k - 1].index < x
    requires k < |s| ==> x < s[k].index
    ensures x !in Indices(s)
  {
    forall i | 0 <= i < |s| ensures s[i].index != x {
      if i < k {
        assert s[i].index <= s[k - 1].index;
      } else {
        assert s[k].index <= s[i].index;
      }
    }
    NotInIndices(s, x);
  }

  /** Inserting between two such neighbours places the new element at that
      position. */
  lemma {:induction false} InsertAt(s: seq<Element>, e: Element, k: int)
    requires Sorted(s) && 0 <= k <= |s|
    requires k > 0 ==> s[k - 1].index < e.index
    requires k < |s| ==> e.index < s[k].index
    ensures e.index !in Indices(s)
    ensures Insert(s, e) == s[..k] + [e] + s[k..]
  {
    AbsentBetween(s, e.index, k);
    if k == 0 {
      assert s[..0] + [e] + s[0..] == [e] + s;
    } else {
      SortedTail(s);
      InsertAt(s[1..], e, k - 1);
      SpliceCons(s, e, k);
    }
  }

  /** Splicing e into the tail of s at position j - 1 is splicing it into s at j. */
  lemma SpliceCons(s: seq<Element>, e: Element, j: int)
    requires 0 < j <= |s|
    ensures [s[0]] + (s[1..][..j - 1] + [e] + s[1..][j - 1..]) == s[..j] + [e] + s[j..]
  {
    assert s[..j] == [s[0]] + s[1..][..j - 1];
    assert s[j..] == s[1..][j - 1..];
  }

  /** Inserting an unoccupied index keeps the sequence sorted, adds exactly that
      index, and keeps every value non-zero when the new one is. */
  lemma {:induction false} InsertSorted(s: seq<Element>, e: Element)
    requires Sorted(s) && e.index !in Indices(s)
    ensures Sorted(Insert(s, e))
    ensures Indices(Insert(s, e)) == Indices(s) + {e.index}
    ensures NonZero(s) && e.value != 0.0 ==> NonZero(Insert(s, e))
  {
    if s == [] || e.index < s[0].index {
    } else {
      SortedTail(s);
      InsertSorted(s[1..], e);
      var r := Insert(s, e);
      assert r == [s[0]] + Insert(s[1..], e);
      forall i, j | 0 <= i < j < |r| ensures r[i].index < r[j].index {
        if i == 0 {
          assert r[j].index in Indices(Insert(s[1..], e)) by {
            assert r[j] == Insert(s[1..], e)[j - 1];
          }
        } else {
          assert r[i] == Insert(s[1..], e)[i - 1] && r[j] == Insert(s[1..], e)[j - 1];
        }
      }
      if NonZero(s) && e.value != 0.0 {
        forall i | 0 <= i < |r| ensures r[i].value != 0.0 {
          if i > 0 {
            assert r[i] == Insert(s[1..], e)[i - 1];
          }
        }
      }
    }
  }

  /** In a sorted sequence, removing index k removes exactly the element at the
      position holding k. */
  lemma {:induction false} RemoveAt(s: seq<Element>, i: int)
    requires Sorted(s) && 0 <= i < |s|
    ensures RemoveIndex(s, s[i].index) == s[..i] + s[i + 1..]
  {
    if i > 0 {
      SortedTail(s);
      RemoveAt(s[1..], i - 1);
      assert s[..i] + s[i + 1..] == [s[0]] + (s[1..][..i - 1] + s[1..][i..]);
    }
  }

  /** Dropping one position of a sorted sequence keeps it sorted and non-zero. */
  lemma DropSorted(s: seq<Element>, i: int)
    requires Sorted(s) && 0 <= i < |s|
    ensures Sorted(s[..i] + s[i + 1..])
    ensures NonZero(s) ==> NonZero(s[..i] + s[i + 1..])
  {
    var r := s[..i] + s[i + 1..];
    assert forall a :: 0 <= a < |r| ==> r[a] == if a < i then s[a] else s[a + 1];
  }

  /** Removal keeps the sequence sorted and non-zero. */
  lemma RemoveSorted(s: seq<Element>, k: int)
    requires Sorted(s)
    ensures Sorted(RemoveIndex(s, k))
    ensures NonZero(s) ==> NonZero(RemoveIndex(s, k))
  {
    if k in Indices(s) {
      var i := IndexPosition(s, k);
      RemoveAt(s, i);
      DropSorted(s, i);
    }
  }

  /** Removal frees exactly index k. */
  lemma {:induction false} RemoveIndices(s: seq<Element>, k: int)
    requires Sorted(s)
    ensures Indices(RemoveIndex(s, k)) == Indices(s) - {k}
  {
    if s != [] {
      SortedTail(s);
      if s[0].index != k {
        RemoveIndices(s[1..], k);
      }
    }
  }

  /** After an insertion the vector reads the new value at the new index and the
      old values everywhere else. */
  lemma {:induction false} ValueAtInsert(s: seq<Element>, e: Element, j: int)
    requires Sorted(s) && e.index !in Indices(s)
    ensures ValueAt(Insert(s, e), j) == if j == e.index then e.value else ValueAt(s, j)
  {
    if s == [] || e.index < s[0].index {
    } else {
      SortedTail(s);
      ValueAtInsert(s[1..], e, j);
    }
  }

  /** After a removal the vector reads zero at the removed index and the old
      values everywhere else. */
  lemma {:induction false} ValueAtRemove(s: seq<Element>, k: int, j: int)
    requires Sorted(s)
    ensures ValueAt(RemoveIndex(s, k), j) == if j == k then 0.0 else ValueAt(s, j)
  {
    if s != [] {
      SortedTail(s);
      if s[0].index == k {
        if j == k {
          assert k !in Indices(s[1..]);
        }
      } else {
        ValueAtRemove(s[1..], k, j);
      }
    }
  }

  /** Removing the index just inserted gives back the original sequence. */
  lemma {:induction false} RemoveInsert(s: seq<Element>, e: Element)
    requires Sorted(s) && e.index !in Indices(s)
    ensures RemoveIndex(Insert(s, e), e.index) == s
  {
    if s == [] || e.index < s[0].index {
    } else {
      SortedTail(s);
      RemoveInsert(s[1..], e);
      assert s == [s[0]] + s[1..];
    }
  }

  /** Removing an element and inserting it again gives back the original
      sequence: remove-then-insert is how a caller updates a value. */
  lemma {:induction false} InsertRemove(s: seq<Element>, i: int)
    requires Sorted(s) && 0 <= i < |s|
    ensures Insert(RemoveIndex(s, s[i].index), s[i]) == s
  {
    SortedTail(s);
    if i == 0 {
      if s[1..] != [] {
        assert s[1..][0] == s[1];
      }
      assert [s[0]] + s[1..] == s;
    } else {
      InsertRemove(s[1..], i - 1);
      assert s == [s[0]] + s[1..];
    }
  }
}
