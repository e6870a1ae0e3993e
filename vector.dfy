/** The sparse numeric vector: a singly-linked list of nodes kept in increasing
    order of index, with head, tail and size fields. */
module Vectors {
  import opened Elements
  import opened Products
  import opened Nodes

  /** Why an insertion throws. The source throws the same unchecked exception at
      every rejection site; the reason records which site threw. */
  datatype Rejection = ZeroValue | DuplicateIndex

  datatype AddResult = Added | Rejected(reason: Rejection)

  /** Result of the removal exactly as the source is written: a boolean, or the
      null dereference it performs on an empty vector. */
  datatype RemoveOutcome = Returned(removed: bool) | NullDereference

  /** Elements held by a sequence of nodes, in order. */
  ghost function ElementsOf(ns: seq<Node>): seq<Element>
  {
    seq(|ns|, i requires 0 <= i < |ns| => ns[i].element)
  }

  /** Each node links to the next one and the last links to null. */
  ghost predicate Linked(ns: seq<Node>)
    reads ns
  {
    && (forall i :: 0 <= i < |ns| - 1 ==> ns[i].next == ns[i + 1])
    && (ns != [] ==> ns[|ns| - 1].next == null)
  }

  /** A null-terminated chain visits no node twice: equal nodes would have
      equal successors all the way to the end, where one of them links to null
      and the other does not. */
  lemma {:induction false} NoRepeat(ns: seq<Node>, i: int, j: int)
    requires Linked(ns) && 0 <= i < j < |ns|
    ensures ns[i] != ns[j]
    decreases |ns| - j
  {
    assert ns[i].next == ns[i + 1];
    if j + 1 < |ns| {
      assert ns[j].next == ns[j + 1];
      NoRepeat(ns, i + 1, j + 1);
    }
  }

  /** The node at position k occurs at no other position. */
  lemma NoOtherPosition(ns: seq<Node>, k: int)
    requires Linked(ns) && 0 <= k < |ns|
    ensures forall j :: 0 <= j < |ns| && j != k ==> ns[j] != ns[k]
  {
    forall j | 0 <= j < |ns| && j != k ensures ns[j] != ns[k] {
      if j < k {
        NoRepeat(ns, j, k);
      } else {
        NoRepeat(ns, k, j);
      }
    }
  }

  lemma SpliceFront(ns: seq<Node>, x: Node)
    ensures ns[..0] + [x] + ns[0..] == [x] + ns
  {
  }

  lemma SpliceBack(ns: seq<Node>, x: Node)
    ensures ns[..|ns|] + [x] + ns[|ns|..] == ns + [x]
  {
  }

  lemma DropFront(ns: seq<Node>)
    requires ns != []
    ensures ns[..0] + ns[1..] == ns[1..]
  {
  }

  /** Every node of a node sequence with x spliced in is x or was there before. */
  lemma SpliceMembers(ns: seq<Node>, x: Node, k: int)
    requires 0 <= k <= |ns|
    ensures forall i :: 0 <= i < |ns| + 1 ==> (ns[..k] + [x] + ns[k..])[i] in ns || (ns[..k] + [x] + ns[k..])[i] == x
  {
    var r := ns[..k] + [x] + ns[k..];
    assert forall i :: 0 <= i < |r| ==> r[i] == if i < k then ns[i] else if i == k then x else ns[i - 1];
  }

  /** The links that make a node sequence with x spliced in at position k. */
  lemma LinkedSplice(ns: seq<Node>, x: Node, k: int)
    requires 0 <= k <= |ns|
    requires forall j :: 0 <= j < |ns| - 1 && j != k - 1 ==> ns[j].next == ns[j + 1]
    requires 0 < k < |ns| ==> ns[|ns| - 1].next == null
    requires k > 0 ==> ns[k - 1].next == x
    requires x.next == if k < |ns| then ns[k] else null
    requires k == 0 && ns != [] ==> ns[|ns| - 1].next == null
    ensures Linked(ns[..k] + [x] + ns[k..])
  {
    var r := ns[..k] + [x] + ns[k..];
    assert forall i :: 0 <= i < |r| ==> r[i] == if i < k then ns[i] else if i == k then x else ns[i - 1];
  }

  /** The links that make a node sequence with position k dropped. */
  lemma LinkedDrop(ns: seq<Node>, k: int)
    requires 0 <= k < |ns|
    requires forall j :: 0 <= j < |ns| - 1 && j != k - 1 && j != k ==> ns[j].next == ns[j + 1]
    requires k > 0 ==> ns[k - 1].next == if k + 1 < |ns| then ns[k + 1] else null
    requires k + 1 < |ns| ==> ns[|ns| - 1].next == null
    ensures Linked(ns[..k] + ns[k + 1..])
  {
    var r := ns[..k] + ns[k + 1..];
    assert forall i :: 0 <= i < |r| ==> r[i] == if i < k then ns[i] else ns[i + 1];
  }

  /** Splicing a node into a node sequence splices its element into the
      element sequence at the same position. */
  lemma ElementsOfSplice(ns: seq<Node>, x: Node, k: int)
    requires 0 <= k <= |ns|
    ensures ElementsOf(ns[..k] + [x] + ns[k..]) == ElementsOf(ns)[..k] + [x.element] + ElementsOf(ns)[k..]
  {
  }

  /** Dropping a node from a node sequence drops its element from the element
      sequence at the same position. */
  lemma ElementsOfDrop(ns: seq<Node>, k: int)
    requires 0 <= k < |ns|
    ensures ElementsOf(ns[..k] + ns[k + 1..]) == ElementsOf(ns)[..k] + ElementsOf(ns)[k + 1..]
  {
  }

  class SparseVector {
    var head: Node?
    var tail: Node?
    var size: int
    /** The nodes reachable from head, in list order. */
    ghost var nodes: seq<Node>

    /** What iterating the vector yields. */
    ghost function Elements(): seq<Element>
      reads this
    {
      ElementsOf(nodes)
    }

    /** nodes is exactly the null-terminated chain of distinct nodes reachable
        from head. */
    ghost predicate Chain()
      reads this, nodes
    {
      head == (if nodes == [] then null else nodes[0]) && Linked(nodes)
    }

    /** Indices strictly increase along the list and no stored value is zero. */
    ghost predicate Ordered()
      reads this
    {
      Sorted(Elements()) && NonZero(Elements())
    }

    /** The size field counts the reachable nodes. */
    ghost predicate Counted()
      reads this
    {
      size == |nodes|
    }

    /** tail is the last reachable node, and null exactly when the list is empty. */
    ghost predicate TailIsLast()
      reads this
    {
      tail == if nodes == [] then null else nodes[|nodes| - 1]
    }

    /** The class invariant: a well-formed chain, ordered and non-zero, whose
        size field counts its nodes and whose tail field is its last node. */
    ghost predicate Valid()
      reads this, nodes
    {
      Chain() && Ordered() && Counted() && TailIsLast()
    }

    /** The node at position p holds the p-th element and links to the node
        at position p + 1, or to null when it is the last. */
    lemma NodeAt(p: int)
      requires Chain() && 0 <= p < |nodes|
      ensures nodes[p].element == Elements()[p]
      ensures nodes[p].next == if p + 1 < |nodes| then nodes[p + 1] else null
    {
    }

    /** Head and tail coincide on a non-empty vector exactly when it has one
        node. */
    lemma SingleNode()
      requires Valid() && nodes != []
      ensures head == tail <==> |nodes| == 1
    {
      if |nodes| >= 2 {
        NoRepeat(nodes, 0, |nodes| - 1);
      }
    }

    constructor ()
      ensures Valid() && Elements() == [] && nodes == []
    {
      head := null;
      tail := null;
      size := 0;
      nodes := [];
    }

    /** The size field, which on a well-formed vector counts its elements. */
    function GetSize(): (n: int)
      reads this, nodes
      ensures Valid() ==> n == |Elements()|
    {
      size
    }

    /** The first node of a well-formed vector holds the smallest index. */
    lemma HeadIsFirst()
      ensures Valid() && head != null ==> head.element == Elements()[0]
      ensures Valid() && head != null ==> forall k :: k in Indices(Elements()) ==> head.element.index <= k
    {
      if Valid() && head != null {
        var s := Elements();
        assert s[0] == head.element;
        assert forall i :: 0 <= i < |s| ==> head.element.index <= s[i].index;
        IndicesAbove(s, head.element.index - 1);
      }
    }

    /** The first node holds the smallest index; on a well-formed vector there
        is none exactly when the vector is empty. */
    function GetFirst(): (n: Node?)
      reads this, nodes
      ensures Valid() ==> (n == null <==> Elements() == [])
      ensures Valid() && n != null ==> n.element == Elements()[0]
      ensures Valid() && n != null ==> forall k :: k in Indices(Elements()) ==> n.element.index <= k
    {
      HeadIsFirst();
      head
    }

    /** The append step shared by both places where the source adds after the
        tail: link the new node after tail, move tail onto it, count it. It
        touches nothing but tail, the tail node's link and size. */
    method LinkAtTail(newNode: Node)
      requires tail != null
      modifies this`tail, this`size, tail
      ensures old(tail).next == newNode && tail == newNode && size == old(size) + 1
    {
      tail.SetNext(newNode);
      tail := tail.GetNext();
      size := size + 1;
    }

    /** Makes newNode the first node (the prepend step of the source, written
        out at two places there). */
    method LinkFirst(newNode: Node)
      requires Valid() && nodes != [] && newNode !in nodes
      requires newNode.element.index < nodes[0].element.index && newNode.element.value != 0.0
      modifies this, newNode
      ensures Valid() && nodes == [newNode] + old(nodes) && size == old(size) + 1
      ensures Elements() == Insert(old(Elements()), newNode.element)
      ensures forall i :: 0 <= i < |nodes| ==> nodes[i] in old(nodes) || nodes[i] == newNode
    {
      ghost var s := Elements();
      ghost var ns := nodes;
      newNode.SetNext(head);
      head := newNode;
      size := size + 1;
      nodes := [newNode] + ns;
      assert Chain() by {
        assert forall j :: 0 <= j < |ns| ==> ns[j].next == old(ns[j].next);
        SpliceFront(ns, newNode);
        LinkedSplice(ns, newNode, 0);
      }
      assert Ordered() && Elements() == Insert(s, newNode.element) by {
        InsertAt(s, newNode.element, 0);
        InsertSorted(s, newNode.element);
        ElementsOfSplice(ns, newNode, 0);
        SpliceFront(ns, newNode);
        assert s[..0] + [newNode.element] + s[0..] == Insert(s, newNode.element);
      }
    }

    /** Links newNode between primary, the node at position k, and secondary,
        its successor (the middle insertion step of the source). */
    method LinkBetween(primary: Node, secondary: Node, newNode: Node, ghost k: int)
      requires Valid() && 0 <= k && k + 1 < |nodes| && primary == nodes[k] && secondary == nodes[k + 1]
      requires newNode !in nodes && newNode.element.value != 0.0
      requires primary.element.index < newNode.element.index < secondary.element.index
      modifies this, primary, newNode
      ensures Valid() && nodes == old(nodes)[..k + 1] + [newNode] + old(nodes)[k + 1..] && size == old(size) + 1
      ensures Elements() == Insert(old(Elements()), newNode.element)
      ensures forall i :: 0 <= i < |nodes| ==> nodes[i] in old(nodes) || nodes[i] == newNode
    {
      ghost var s := Elements();
      ghost var e := newNode.element;
      ghost var ns := nodes;
      ghost var ns' := ns[..k + 1] + [newNode] + ns[k + 1..];
      assert Sorted(ElementsOf(ns')) && NonZero(ElementsOf(ns')) && ElementsOf(ns') == Insert(s, e) by {
        InsertAt(s, e, k + 1);
        InsertSorted(s, e);
        ElementsOfSplice(ns, newNode, k + 1);
      }
      assert ns'[|ns'| - 1] == ns[|ns| - 1];
      SpliceMembers(ns, newNode, k + 1);
      assert ns'[0] == ns[0];
      Relink(primary, secondary, newNode, ns, k);
      size := size + 1;
      nodes := ns';
    }

    /** The two link updates of the middle insertion: newNode takes secondary as
        its successor and becomes primary's successor. Only those two links
        change. */
    static method Relink(primary: Node, secondary: Node, newNode: Node, ghost ns: seq<Node>, ghost k: int)
      requires Linked(ns) && 0 <= k && k + 1 < |ns| && primary == ns[k] && secondary == ns[k + 1]
      requires newNode !in ns
      modifies primary, newNode
      ensures Linked(ns[..k + 1] + [newNode] + ns[k + 1..])
    {
      NoOtherPosition(ns, k);
      newNode.SetNext(secondary);
      primary.SetNext(newNode);
      assert forall j :: 0 <= j < |ns| && j != k ==> ns[j].next == old(ns[j].next);
      LinkedSplice(ns, newNode, k + 1);
    }

    /** Appends newNode after the last node, keeping the ghost view in step. */
    method LinkLast(newNode: Node)
      requires Valid() && nodes != [] && newNode !in nodes && newNode.next == null
      requires nodes[|nodes| - 1].element.index < newNode.element.index && newNode.element.value != 0.0
      modifies this, tail
      ensures Valid() && nodes == old(nodes) + [newNode] && size == old(size) + 1
      ensures Elements() == Insert(old(Elements()), newNode.element)
      ensures forall i :: 0 <= i < |nodes| ==> nodes[i] in old(nodes) || nodes[i] == newNode
    {
      ghost var s := Elements();
      ghost var ns := nodes;
      NoOtherPosition(ns, |ns| - 1);
      LinkAtTail(newNode);
      nodes := ns + [newNode];
      assert Chain() by {
        assert forall j :: 0 <= j < |ns| - 1 ==> ns[j].next == old(ns[j].next);
        SpliceBack(ns, newNode);
        LinkedSplice(ns, newNode, |ns|);
      }
      assert Ordered() && Elements() == Insert(s, newNode.element) by {
        InsertAt(s, newNode.element, |s|);
        InsertSorted(s, newNode.element);
        ElementsOfSplice(ns, newNode, |ns|);
        SpliceBack(ns, newNode);
        assert s[..|s|] + [newNode.element] + s[|s|..] == Insert(s, newNode.element);
      }
    }

    /** Inserts e at its sorted position, or rejects a zero value or an index
        already present, leaving the vector (and every node link) as it was. */
    method Add(e: Element) returns (r: AddResult)
      requires Valid()
      modifies this, nodes
      ensures Valid()
      ensures r == if e.value == 0.0 then Rejected(ZeroValue)
                   else if e.index in Indices(old(Elements())) then Rejected(DuplicateIndex)
                   else Added
      ensures r.Rejected? ==> unchanged(this) && unchanged(old(nodes))
      ensures r == Added ==> Elements() == Insert(old(Elements()), e) && size == old(size) + 1
      ensures forall i :: 0 <= i < |nodes| ==> nodes[i] in old(nodes) || fresh(nodes[i])
    {
      var newNode := new Node(e, null);
      if newNode.GetElement().value == 0.0 {
        return Rejected(ZeroValue);
      }
      ghost var s := Elements();
      if head == null && tail == null {
        head := newNode;
        tail := head;
        size := size + 1;
        nodes := [newNode];
        assert Elements() == [e];
        return Added;
      } else if head == tail {
        SingleNode();
        assert s[0] == head.element;
        if e.index == head.GetElement().index {
          return Rejected(DuplicateIndex);
        }
        if e.index < head.GetElement().index {
          LinkFirst(newNode);
          InsertAt(s, e, 0);
        } else {
          // the source's test at line 72, made after a prepend has moved head onto
          // the new node, holds exactly when no prepend took place
          LinkLast(newNode);
          InsertAt(s, e, 1);
        }
        return Added;
      } else {
        assert s[0] == head.element;
        if e.index < head.GetElement().index {
          LinkFirst(newNode);
          InsertAt(s, e, 0);
          return Added;
        }
        r := LinkInOrder(newNode);
      }
    }

    /** The scan of a vector of two or more nodes whose head index does not
        exceed the new one: find the slot, rejecting an index met on the way, then
        link the new node between the pair that encloses its index, or after the
        last node when no pair does. */
    method LinkInOrder(newNode: Node) returns (r: AddResult)
      requires Valid() && |nodes| >= 2 && newNode !in nodes && newNode.next == null
      requires newNode.element.value != 0.0 && nodes[0].element.index <= newNode.element.index
      modifies this, newNode, nodes
      ensures Valid()
      ensures r == if newNode.element.index in Indices(old(Elements())) then Rejected(DuplicateIndex) else Added
      ensures r.Rejected? ==> unchanged(this) && unchanged(newNode) && unchanged(old(nodes))
      ensures r == Added ==> Elements() == Insert(old(Elements()), newNode.element) && size == old(size) + 1
      ensures forall i :: 0 <= i < |nodes| ==> nodes[i] in old(nodes) || nodes[i] == newNode
    {
      ghost var s := Elements();
      var e := newNode.GetElement();
      var duplicate, primary, secondary, k := FindSlot(e);
      if duplicate {
        return Rejected(DuplicateIndex);
      }
      if secondary != null {
        LinkBetween(primary, secondary, newNode, k);
        return Added;
      }
      LinkLast(newNode);
      return Added;
    }

    /** The loop of the add: the pair (primary, secondary) walks along adjacent
        nodes and stops at the first pair whose second index exceeds the new
        one, or runs off the end; meeting the new index on either node of a pair
        is a duplicate. Nothing is changed. */
    method FindSlot(e: Element) returns (duplicate: bool, primary: Node, secondary: Node?, ghost k: int)
      requires Valid() && |nodes| >= 2 && nodes[0].element.index <= e.index
      ensures 0 <= k < |nodes| && primary == nodes[k]
      ensures secondary == if k + 1 < |nodes| then nodes[k + 1] else null
      ensures duplicate <==> e.index in Indices(Elements())
      ensures !duplicate ==> Elements()[k].index < e.index
      ensures !duplicate && k + 1 < |nodes| ==> e.index < Elements()[k + 1].index
    {
      ghost var s := Elements();
      primary := head;
      secondary := primary.GetNext();
      k := 0;
      NodeAt(0);
      while secondary != null
        invariant 0 <= k < |nodes| && primary == nodes[k]
        invariant secondary == if k + 1 < |nodes| then nodes[k + 1] else null
        invariant s[k].index <= e.index && (k > 0 ==> s[k].index < e.index)
        decreases |nodes| - k
      {
        NodeAt(k + 1);
        var i := primary.GetElement().index;
        var j := secondary.GetElement().index;
        if e.index == i || e.index == j {
          return true, primary, secondary, k;
        }
        if e.index < j {
          InsertAt(s, e, k + 1);
          return false, primary, secondary, k;
        }
        primary := primary.GetNext();
        secondary := secondary.GetNext();
        k := k + 1;
      }
      InsertAt(s, e, |s|);
      duplicate := false;
    }

    /** The search of a vector of two or more nodes for the node of a given
        index past the head: the pair (primary, secondary) walks along adjacent
        nodes until secondary holds the index or runs off the end. Nothing is
        changed. */
    method ScanFor(index: int) returns (primary: Node, secondary: Node?, ghost k: int)
      requires Valid() && |nodes| >= 2
      ensures 0 <= k < |nodes| && primary == nodes[k]
      ensures secondary == if k + 1 < |nodes| then nodes[k + 1] else null
      ensures secondary != null ==> secondary.element.index == index
      ensures forall i :: 0 < i <= k ==> Elements()[i].index != index
    {
      primary := head;
      secondary := primary.GetNext();
      k := 0;
      while secondary != null
        invariant 0 <= k < |nodes| && primary == nodes[k]
        invariant secondary == if k + 1 < |nodes| then nodes[k + 1] else null
        invariant forall i :: 0 < i <= k ==> Elements()[i].index != index
        decreases |nodes| - k
      {
        NodeAt(k + 1);
        if secondary.GetElement().index == index {
          return;
        }
        primary := primary.GetNext();
        secondary := secondary.GetNext();
        k := k + 1;
      }
    }

    /** Unlinks the head of a vector of two or more nodes by moving head onto its
        successor; tail is still the last node. */
    method UnlinkFirst()
      requires Valid() && |nodes| >= 2
      modifies this
      ensures Valid() && nodes == old(nodes)[1..]
    {
      ghost var ns := nodes;
      head := head.GetNext();
      size := size - 1;
      nodes := ns[1..];
      assert Chain() by {
        assert forall j :: 0 <= j < |ns| ==> ns[j].next == old(ns[j].next);
        DropFront(ns);
        LinkedDrop(ns, 0);
      }
      assert Ordered() by {
        ghost var es := ElementsOf(ns);
        assert Elements() == es[1..];
        SortedTail(es);
      }
    }

    /** Unlinks secondary, the node at position k + 1, by linking its predecessor
        primary to secondary's successor. The tail field is left alone, so it is
        no longer the last node when secondary was. */
    method UnlinkAfter(primary: Node, secondary: Node, ghost k: int)
      requires Valid() && 0 <= k && k + 1 < |nodes| && primary == nodes[k] && secondary == nodes[k + 1]
      modifies this, primary
      ensures Chain() && Ordered() && Counted()
      ensures nodes == old(nodes)[..k + 1] + old(nodes)[k + 2..] && tail == old(tail)
    {
      ghost var ns := nodes;
      NoOtherPosition(ns, k);
      primary.SetNext(secondary.GetNext());
      size := size - 1;
      nodes := ns[..k + 1] + ns[k + 2..];
      assert Chain() by {
        assert forall j :: 0 <= j < |ns| && j != k ==> ns[j].next == old(ns[j].next);
        LinkedDrop(ns, k + 1);
      }
      assert Ordered() by {
        ElementsOfDrop(ns, k + 1);
        DropSorted(ElementsOf(ns), k + 1);
      }
    }

    /** Removes the element of the given index from a vector of two or more nodes
        and reports whether there was one. As the source is written the tail
        field is left alone; with the correction, unlinking the last node moves
        tail onto its predecessor. */
    method RemoveFromLonger(index: int, corrected: bool) returns (removed: bool)
      requires Valid() && |nodes| >= 2
      modifies this, nodes
      ensures Chain() && Ordered() && Counted()
      ensures removed == (index in Indices(old(Elements())))
      ensures Elements() == RemoveIndex(old(Elements()), index)
      ensures !removed ==> unchanged(this) && unchanged(old(nodes))
      ensures TailIsLast() <==> corrected || !(removed && old(Elements())[|old(nodes)| - 1].index == index)
      ensures !TailIsLast() ==> tail == old(tail) && tail !in nodes
      ensures forall i :: 0 <= i < |nodes| ==> nodes[i] in old(nodes)
    {
      ghost var s := Elements();
      var primary := head;
      var secondary := primary.GetNext();
      assert s[0] == head.element;
      if primary.GetElement().index == index {
        UnlinkFirst();
        RemoveAt(s, 0);
        ElementsOfDrop(old(nodes), 0);
        assert s[|s| - 1].index != index;
        return true;
      }
      ghost var k;
      primary, secondary, k := ScanFor(index);
      if secondary == null {
        forall i | 0 <= i < |s| ensures s[i].index != index {
          if i > 0 {
            assert s[i] == Elements()[i];
          }
        }
        NotInIndices(s, index);
        return false;
      }
      assert s[k + 1] == secondary.element;
      UnlinkAt(primary, secondary, k, corrected);
      RemoveAt(s, k + 1);
      ElementsOfDrop(old(nodes), k + 1);
      return true;
    }

    /** Unlinks the node at position k + 1 found by the scan; with the
        correction, tail moves onto primary when that node was the last. */
    method UnlinkAt(primary: Node, secondary: Node, ghost k: int, corrected: bool)
      requires Valid() && 0 <= k && k + 1 < |nodes| && primary == nodes[k] && secondary == nodes[k + 1]
      modifies this, primary
      ensures Chain() && Ordered() && Counted()
      ensures nodes == old(nodes)[..k + 1] + old(nodes)[k + 2..]
      ensures TailIsLast() <==> corrected || k + 2 < |old(nodes)|
      ensures !TailIsLast() ==> tail == old(tail) && tail !in nodes
    {
      ghost var ns := nodes;
      NoOtherPosition(ns, |ns| - 1);
      var last := secondary == tail;
      UnlinkAfter(primary, secondary, k);
      if corrected && last {
        // the correction: the predecessor of the unlinked last node becomes last
        tail := primary;
      }
      assert k + 2 == |ns| ==> nodes == ns[..k + 1];
    }

    /** Removes the element of the given index, if there is one, and reports
        whether there was: the removal as the source evidently intends it, with the
        empty vector answered by false and tail moved back when the last node
        goes. */
    method Remove(index: int) returns (removed: bool)
      requires Valid()
      modifies this, nodes
      ensures Valid()
      ensures removed == (index in Indices(old(Elements())))
      ensures Elements() == RemoveIndex(old(Elements()), index)
      ensures size == if removed then old(size) - 1 else old(size)
      ensures !removed ==> unchanged(this) && unchanged(old(nodes))
      ensures forall i :: 0 <= i < |nodes| ==> nodes[i] in old(nodes)
    {
      if head == null {
        return false;
      }
      ghost var s := Elements();
      SingleNode();
      if head == tail {
        assert s == [head.element];
        if head.GetElement().index == index {
          head := null;
          tail := null;
          size := size - 1;
          nodes := [];
          return true;
        }
        return false;
      }
      removed := RemoveFromLonger(index, true);
    }

    /** The removal exactly as the source is written: on an empty vector it
        dereferences the null head, and when it unlinks the last node of a list of
        two or more it leaves tail on the unlinked node. */
    method RemoveAsWritten(index: int) returns (r: RemoveOutcome)
      requires Valid()
      modifies this, nodes
      ensures r == NullDereference <==> old(nodes) == []
      ensures r == NullDereference ==> unchanged(this)
      ensures r.Returned? ==> Chain() && Ordered() && Counted()
      ensures r.Returned? ==> r.removed == (index in Indices(old(Elements())))
      ensures r.Returned? ==> Elements() == RemoveIndex(old(Elements()), index)
      ensures r.Returned? ==>
                (TailIsLast() <==> !(r.removed && |old(nodes)| >= 2 && old(Elements())[|old(nodes)| - 1].index == index))
      ensures !TailIsLast() ==> tail == old(tail) && tail !in nodes
      ensures r == Returned(false) ==> unchanged(this) && unchanged(old(nodes))
      ensures forall i :: 0 <= i < |nodes| ==> nodes[i] in old(nodes)
    {
      if head == tail {
        if head == null {
          return NullDereference;
        }
        ghost var s := Elements();
        SingleNode();
        assert s == [head.element];
        if head.GetElement().index == index {
          head := null;
          tail := null;
          size := size - 1;
          nodes := [];
          return Returned(true);
        }
        return Returned(false);
      }
      var removed := RemoveFromLonger(index, false);
      return Returned(removed);
    }

    /** The inner product exactly as the source computes it: cursors walk both
        lists, choosing their steps by comparing the two size fields. With unequal
        size fields this is the inner product; with equal size fields it can pass
        a shared index by (see DotEqualSizeMissesSharedIndex). The walk reads
        neither tail nor the counts, so only the chains and their order are
        required: a size field left wrong by the removal as written still steers
        the choice of steps. */
    method Dot(y: SparseVector) returns (r: real)
      requires Chain() && Ordered() && y.Chain() && y.Ordered()
      ensures r == DotFrom(Elements(), y.Elements(), size, y.size, 0, 0)
      ensures size != y.size ==> r == InnerProduct(Elements(), y.Elements())
      ensures Counted() && y.Counted() && |Elements()| != |y.Elements()| ==> r == InnerProduct(Elements(), y.Elements())
      ensures Elements() == y.Elements() && (size == y.size || (Counted() && y.Counted())) ==> r == SumOfSquares(Elements())
      ensures Elements() == [] || y.Elements() == [] ==> r == 0.0
    {
      ghost var a, b := Elements(), y.Elements();
      var myNode := head;
      var givenNode := y.head;
      r := 0.0;
      var mySize, givenSize := size, y.size;
      ghost var p: nat, q: nat := 0, 0;
      while myNode != null && givenNode != null
        invariant p <= |a| && q <= |b|
        invariant p < |a| ==> myNode == nodes[p]
        invariant p == |a| ==> myNode == null
        invariant q < |b| ==> givenNode == y.nodes[q]
        invariant q == |b| ==> givenNode == null
        invariant r + DotFrom(a, b, mySize, givenSize, p, q) == DotFrom(a, b, mySize, givenSize, 0, 0)
        decreases if mySize > givenSize then |b| - q else |a| - p,
                  if mySize > givenSize then |a| - p else |b| - q
      {
        var gain;
        myNode, givenNode, gain, p, q := DotStep(y, myNode, givenNode, mySize, givenSize, p, q);
        r := r + gain;
      }
      DotFromMeaning(a, b, mySize, givenSize);
    }

    /** One iteration of the dot loop, with the cursors on the nodes at position
        p of this vector and q of y: it returns the moved cursors and the product
        it adds, and leaves exactly DotFrom's remainder from the new positions. */
    method DotStep(y: SparseVector, myNode: Node, givenNode: Node, mySize: int, givenSize: int, ghost p: nat, ghost q: nat)
      returns (myNext: Node?, givenNext: Node?, gain: real, ghost p': nat, ghost q': nat)
      requires Chain() && y.Chain() && p < |nodes| && q < |y.nodes|
      requires myNode == nodes[p] && givenNode == y.nodes[q]
      ensures p' <= |nodes| && q' <= |y.nodes|
      ensures p' < |nodes| ==> myNext == nodes[p']
      ensures p' == |nodes| ==> myNext == null
      ensures q' < |y.nodes| ==> givenNext == y.nodes[q']
      ensures q' == |y.nodes| ==> givenNext == null
      ensures DotFrom(Elements(), y.Elements(), mySize, givenSize, p, q)
              == gain + DotFrom(Elements(), y.Elements(), mySize, givenSize, p', q')
      ensures gain == if Elements()[p].index == y.Elements()[q].index then Elements()[p].value * y.Elements()[q].value else 0.0
      ensures if mySize > givenSize then q' > q || (q' == q && p' > p) else p' > p || (p' == p && q' > q)
    {
      var myIndex, givenIndex := myNode.GetElement().index, givenNode.GetElement().index;
      var myValue, givenValue := myNode.GetElement().value, givenNode.GetElement().value;
      NodeAt(p);
      y.NodeAt(q);
      myNext, givenNext, gain, p', q' := myNode, givenNode, 0.0, p, q;
      if mySize == givenSize {
        if myIndex == givenIndex {
          gain := myValue * givenValue;
          myNext, p' := myNode.GetNext(), p + 1;
          givenNext, q' := givenNode.GetNext(), q + 1;
        } else if myNode.GetNext() != null {
          myNext, p' := myNode.GetNext(), p + 1;
        } else {
          givenNext, q' := givenNode.GetNext(), q + 1;
        }
      } else if myIndex == givenIndex {
        gain := myValue * givenValue;
        if mySize < givenSize {
          myNext, p' := myNode.GetNext(), p + 1;
        } else {
          givenNext, q' := givenNode.GetNext(), q + 1;
        }
      } else if mySize > givenSize {
        if myNode.GetNext() != null {
          myNext, p' := myNode.GetNext(), p + 1;
        } else {
          givenNext, q' := givenNode.GetNext(), q + 1;
          myNext, p' := head, 0;
        }
      } else {
        if givenNode.GetNext() != null {
          givenNext, q' := givenNode.GetNext(), q + 1;
        } else {
          myNext, p' := myNode.GetNext(), p + 1;
          givenNext, q' := y.head, 0;
        }
      }
    }

    /** The inner product as the source's documentation describes it: one pass
        of each list in step, advancing the cursor on the smaller index and
        multiplying on a shared one. */
    method MergeDot(y: SparseVector) returns (r: real)
      requires Chain() && Ordered() && y.Chain() && y.Ordered()
      ensures r == InnerProduct(Elements(), y.Elements())
    {
      ghost var a, b := Elements(), y.Elements();
      var myNode := head;
      var givenNode := y.head;
      r := 0.0;
      ghost var p, q := 0, 0;
      assert a[0..] == a && b[0..] == b;
      while myNode != null && givenNode != null
        invariant p <= |a| && q <= |b|
        invariant p < |a| ==> myNode == nodes[p]
        invariant p == |a| ==> myNode == null
        invariant q < |b| ==> givenNode == y.nodes[q]
        invariant q == |b| ==> givenNode == null
        invariant r + InnerProduct(a[p..], b[q..]) == InnerProduct(a, b)
        decreases |a| - p + |b| - q
      {
        var myIndex, givenIndex := myNode.GetElement().index, givenNode.GetElement().index;
        NodeAt(p);
        y.NodeAt(q);
        if myIndex == givenIndex {
          var product := myNode.GetElement().value * givenNode.GetElement().value;
          assert (r + product) + InnerProduct(a[p + 1..], b[q + 1..]) == InnerProduct(a, b) by {
            assert product == a[p].value * b[q].value;
            MergeMatch(a, b, p, q);
            Accumulate(InnerProduct(a, b), r, product, InnerProduct(a[p..], b[q..]), InnerProduct(a[p + 1..], b[q + 1..]));
          }
          r := r + product;
          myNode, p := myNode.GetNext(), p + 1;
          givenNode, q := givenNode.GetNext(), q + 1;
        } else if myIndex < givenIndex {
          MergeSkipFirst(a, b, p, q);
          myNode, p := myNode.GetNext(), p + 1;
        } else {
          MergeSkipSecond(a, b, p, q);
          givenNode, q := givenNode.GetNext(), q + 1;
        }
      }
      InnerProductEmpty(a[p..]);
    }
  }
}
