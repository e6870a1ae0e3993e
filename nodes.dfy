/** The list node of a sparse vector: a heap cell holding one element and a
    mutable link to the next node. */
module Nodes {
  import opened Elements

  class Node {
    /** The stored element; there is no setter, so it is fixed for the node's
        lifetime. */
    const element: Element
    var next: Node?

    constructor (e: Element, n: Node?)
      ensures element == e && next == n
    {
      element := e;
      next := n;
    }

    function GetElement(): (e: Element)
      ensures e == element
    {
      element
    }

    function GetNext(): (n: Node?)
      reads this
      ensures n == next
    {
      next
    }

    /** Relinks this node; the element and every other object stay as they were. */
    method SetNext(n: Node?)
      modifies this
      ensures next == n
    {
      next := n;
    }
  }
}
