/** Concrete client scenarios, proved by the verifier, that exhibit the defects of the removal and of
    the inner product as written, next to the corrected operations. */
module Scenarios {
  import opened Elements
  import opened Products
  import opened Nodes
  import opened Vectors

  /** Removing from a freshly built, empty vector dereferences the null head,
      where the corrected removal answers false. */
  method EmptyRemoveScenario() returns (asWritten: RemoveOutcome, corrected: bool)
    ensures asWritten == NullDereference && !corrected
  {
    var v := new SparseVector();
    asWritten := v.RemoveAsWritten(7);
    var w := new SparseVector();
    corrected := w.Remove(7);
  }

  /** The element sequences the two tail scenarios pass through, one step per
      lemma. */
  lemma StepAddOne()
    ensures Insert([], Element(1, 1.0)) == [Element(1, 1.0)]
  {
  }

  lemma StepAddTwo()
    ensures Insert([Element(1, 1.0)], Element(2, 1.0)) == [Element(1, 1.0), Element(2, 1.0)]
  {
  }

  lemma StepHasTwo()
    ensures 2 in Indices([Element(1, 1.0), Element(2, 1.0)])
  {
  }

  lemma StepRemoveTwo()
    ensures RemoveIndex([Element(1, 1.0), Element(2, 1.0)], 2) == [Element(1, 1.0)]
  {
  }

  lemma StepAddThree()
    ensures Insert([Element(1, 1.0)], Element(3, 1.0)) == [Element(1, 1.0), Element(3, 1.0)]
  {
  }

  /** Build the vector {1: 1.0, 2: 1.0}, remove index 2 as written, then add
      {3: 1.0}. From the state the removal leaves (head and tail differ, head
      has no successor, 3 exceeds the head's index) the source's add skips its
      scan loop and appends after the stale tail node. The size field then
      says 2 while only one element is reachable from head. */
  method StaleTailScenario() returns (size: int, ghost reachable: seq<Element>)
    ensures size == 2 && reachable == [Element(1, 1.0)]
  {
    var v := new SparseVector();
    StepAddOne();
    StepAddTwo();
    StepHasTwo();
    StepRemoveTwo();
    StepAddThree();
    var a1 := v.Add(Element(1, 1.0));
    var a2 := v.Add(Element(2, 1.0));
    assert v.Elements() == [Element(1, 1.0), Element(2, 1.0)];
    var r := v.RemoveAsWritten(2);
    assert r == Returned(true) && !v.TailIsLast();
    // the branch the source's add(3) takes from here: the value is non-zero
    // (line 55), the tests at lines 59 and 63 fail, line 80's test fails, the
    // loop at line 87 runs no iteration, and lines 102-104 append after tail
    assert v.head != null && v.head != v.tail && v.head.next == null && v.head.element.index < 3;
    var n := new Node(Element(3, 1.0), null);
    v.LinkAtTail(n);
    // the chain from head still ends after its one node
    assert v.Chain();
    size := v.size;
    reachable := v.Elements();
  }

  /** With the corrected removal the same steps leave a well-formed vector
      holding indices 1 and 3. */
  method CorrectedTailScenario() returns (size: int, ghost reachable: seq<Element>)
    ensures size == 2 && reachable == [Element(1, 1.0), Element(3, 1.0)]
  {
    var v := new SparseVector();
    StepAddOne();
    StepAddTwo();
    StepHasTwo();
    StepRemoveTwo();
    StepAddThree();
    var a1 := v.Add(Element(1, 1.0));
    var a2 := v.Add(Element(2, 1.0));
    var removed := v.Remove(2);
    var a3 := v.Add(Element(3, 1.0));
    size := v.GetSize();
    reachable := v.Elements();
  }

  /** A new vector built by adding two elements of distinct indices and
      non-zero values. */
  method VectorOf(e1: Element, e2: Element) returns (v: SparseVector)
    requires e1.value != 0.0 && e2.value != 0.0 && e1.index != e2.index
    ensures fresh(v) && v.Valid() && v.Elements() == Insert([e1], e2)
    ensures forall i :: 0 <= i < |v.nodes| ==> fresh(v.nodes[i])
  {
    v := new SparseVector();
    var r1 := v.Add(e1);
    var r2 := v.Add(e2);
  }

  /** The vectors {3: 1.0, 4: 1.0} and {1: 1.0, 3: 1.0}: the dot as written
      yields 0 one way round and 1 the other, where the merge yields their inner
      product 1 both ways. */
  method EqualSizeDotScenario() returns (forward: real, backward: real, merged: real)
    ensures forward == 0.0 && backward == 1.0 && merged == 1.0
  {
    var x := VectorOf(Element(3, 1.0), Element(4, 1.0));
    assert x.Elements() == MissedA();
    var y := VectorOf(Element(1, 1.0), Element(3, 1.0));
    assert y.Elements() == MissedB();
    DotEqualSizeMissesSharedIndex();
    forward := x.Dot(y);
    backward := y.Dot(x);
    merged := x.MergeDot(y);
  }
}
