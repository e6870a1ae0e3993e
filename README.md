# Sparse numeric vector

A model of a sparse numeric vector kept as a sorted singly-linked list.
The vector stores (index, value) elements in strictly increasing index order.
It never holds two elements with the same index, and it never holds a zero value.
The object keeps three fields: `head`, `tail` and a `size` counter.
It has three operations with logic in them:

- `add` inserts an element at its sorted position. It rejects a zero value and an index already present.
- `remove` unlinks the element of a given index and reports whether there was one.
- `dot` computes an inner product by walking both lists with two cursors.

Two getters return the size field and the first node.

The project has five modules:

- `Elements` (`elements.dfy`): the element datatype and the abstract view of a vector as a sequence of elements. It defines sortedness, the set of occupied indices, the value read at an index, and sorted insertion (`Insert`) and removal by index (`RemoveIndex`). It proves the round trips and value-level facts about them.
- `Products` (`products.dfy`): the inner product by its definition (`InnerProduct`, the sum over shared indices of the value products) and the cursor walk that `dot` performs (`DotFrom`). It proves what that walk computes, and where it computes something else.
- `Nodes` (`nodes.dfy`): the list node, a heap cell. Its element is fixed; its `next` link is mutable.
- `Vectors` (`vector.dfy`): the vector as a class over those nodes. Its ghost field `nodes` lists the nodes reachable from `head`, in order. The class invariant `Valid()` says four things:
  - `nodes` is the null-terminated chain from `head`;
  - the indices increase along it and no value is zero;
  - `size` counts the nodes;
  - `tail` is the last node.

  Each operation is proved against the `Elements` view. For example, `Add` leaves `Insert(old(Elements()), e)`, and `Remove` leaves `RemoveIndex(old(Elements()), index)`.
- `Scenarios` (`scenarios.dfy`): concrete client scenarios, proved by the verifier, that exhibit each defect listed under Findings, each next to the corrected operation.

Where the class's documentation promises more than the code does, the model follows the code as written. It then states the intended behaviour as a separate corrected member; see Findings.

## Model

| member | source | states |
|---|---|---|
| Elements.Indices | SparseNumericVector.java:44-47 | every stored element's index is among the occupied indices |
| Elements.ValueAt | SparseNumericVector.java:3-8 | the vector reads zero at every index it does not store |
| Elements.Insert | SparseNumericVector.java:44-47 | insertion adds exactly one element, and the result holds the old elements plus the new one as a multiset |
| Elements.RemoveIndex | SparseNumericVector.java:108-115 | removal shortens the sequence by one exactly when the index is present; an absent index leaves it unchanged |
| Elements.InsertAt | SparseNumericVector.java:87-97 | a new index lying strictly between two neighbours is unoccupied, and sorted insertion places it exactly between them |
| Elements.InsertSorted | SparseNumericVector.java:59-105 | inserting an unoccupied index keeps the order strictly increasing, adds exactly that index, and keeps every value non-zero |
| Elements.RemoveAt | SparseNumericVector.java:138-144 | removing an index of a sorted vector drops exactly the element at the position holding it |
| Elements.RemoveSorted | SparseNumericVector.java:116-150 | removal keeps the order strictly increasing and every value non-zero |
| Elements.RemoveIndices | SparseNumericVector.java:108-115 | removal frees exactly the given index and keeps all others |
| Elements.ValueAtInsert | SparseNumericVector.java:44-47 | after an insertion the vector reads the new value at the new index and the old value everywhere else |
| Elements.ValueAtRemove | SparseNumericVector.java:108-115 | after a removal the vector reads zero at the removed index and the old value everywhere else |
| Elements.RemoveInsert | SparseNumericVector.java:52-150 | removing the index just inserted gives back the original vector |
| Elements.InsertRemove | SparseNumericVector.java:52-150 | removing an element and inserting it again gives back the original vector |
| Products.InnerProductEmpty | SparseNumericVector.java:152-157 | the inner product with an empty vector, on either side, is zero |
| Products.InnerProductSymmetric | SparseNumericVector.java:152-157 | the inner product of two well-formed vectors does not depend on their order |
| Products.InnerProductSelf | SparseNumericVector.java:152-157 | the inner product of a well-formed vector with itself is its sum of squares |
| Products.DotFromReceiverSmaller | SparseNumericVector.java:190-215 | when the receiver's size is the smaller one, for each receiver element the argument's cursor scans on from where it stands and restarts at its head only after running off its end; the walk sums the receiver's elements against the whole argument |
| Products.DotFromReceiverLarger | SparseNumericVector.java:190-215 | when the receiver's size is the larger one, for each argument element the receiver's cursor scans on from where it stands and restarts at its head only after running off its end; the walk sums the argument's elements against the whole receiver |
| Products.DotFromUnequalSizes | SparseNumericVector.java:190-215 | when the element counts differ, the walk computes exactly the inner product |
| Products.DotFromSelf | SparseNumericVector.java:178-182 | walking a vector against itself matches at every step and yields its sum of squares |
| Products.DotFromMeaning | SparseNumericVector.java:163-218 | from the start, for any size fields, the walk yields the inner product when the size fields differ, the sum of squares for a vector against itself under equal size fields, and zero when either vector is empty |
| Products.MergeMatch | SparseNumericVector.java:152-157 | at a shared index, the inner product of the remainders is the product of the two values plus the inner product of both remainders moved on |
| Products.MergeSkipFirst | SparseNumericVector.java:152-157 | an index of the first vector below the second's cursor contributes nothing, so the first cursor can move on alone |
| Products.MergeSkipSecond | SparseNumericVector.java:152-157 | an index of the second vector below the first's cursor contributes nothing, so the second cursor can move on alone |
| Products.DotEqualSizeMissesSharedIndex | SparseNumericVector.java:178-189 | for the vectors {3: 1, 4: 1} and {1: 1, 3: 1}, the inner product is 1; the equal-size walk yields 0 one way round and 1 the other |
| Nodes.Node.constructor | SparseNumericNode.java:10-13 | a new node holds exactly the given element and next link |
| Nodes.Node.GetElement | SparseNumericNode.java:14 | returns the stored element, which is a constant of the node |
| Nodes.Node.GetNext | SparseNumericNode.java:15 | returns the current next link and changes nothing |
| Nodes.Node.SetNext | SparseNumericNode.java:16 | sets the next link and modifies nothing but this node; the element cannot change |
| Vectors.SparseVector.SingleNode | SparseNumericVector.java:63 | on a non-empty well-formed vector, head and tail coincide exactly when there is one node |
| Vectors.SparseVector.constructor | SparseNumericVector.java:17-19 | a new vector is empty and well formed, with null head and tail and size zero |
| Vectors.SparseVector.GetSize | SparseNumericVector.java:32-34 | on a well-formed vector the size field is the number of elements |
| Vectors.SparseVector.HeadIsFirst | SparseNumericVector.java:39-41 | the head of a well-formed non-empty vector holds its first element, whose index is the smallest |
| Vectors.SparseVector.GetFirst | SparseNumericVector.java:39-41 | there is no first node exactly when the vector is empty; otherwise it holds the first and smallest index |
| Vectors.SparseVector.LinkAtTail | SparseNumericVector.java:102-104 | the old tail links to the new node, tail moves onto it and size grows by one; nothing else changes |
| Vectors.SparseVector.LinkFirst | SparseNumericVector.java:80-84 | prepending a node with an index below the head's keeps the invariant and yields the sorted insertion |
| Vectors.SparseVector.LinkBetween | SparseNumericVector.java:93-98 | linking a node between two neighbours that enclose its index keeps the invariant and yields the sorted insertion |
| Vectors.SparseVector.Relink | SparseNumericVector.java:94-95 | the two link updates of a middle insertion leave the chain with the new node spliced in after the first neighbour |
| Vectors.SparseVector.LinkLast | SparseNumericVector.java:72-76 | appending a node with an index above the last one keeps the invariant and yields the sorted insertion |
| Vectors.SparseVector.Add | SparseNumericVector.java:52-106 | rejects a zero value, then an index already present, each leaving every field and link unchanged; otherwise it inserts at the sorted position, grows size by one and keeps the invariant |
| Vectors.SparseVector.LinkInOrder | SparseNumericVector.java:77-105 | on a list of two or more nodes whose head index does not exceed the new one, it rejects a present index and otherwise yields the sorted insertion |
| Vectors.SparseVector.FindSlot | SparseNumericVector.java:87-101 | the scan reports a duplicate exactly when the index is present; otherwise it stops at the node after which the new index belongs |
| Vectors.SparseVector.ScanFor | SparseNumericVector.java:138-147 | the scan stops at the first node past the head that holds the index, or at the end when no node past the head holds it |
| Vectors.SparseVector.UnlinkFirst | SparseNumericVector.java:132-137 | moving head onto its successor drops the first node and keeps the invariant |
| Vectors.SparseVector.UnlinkAfter | SparseNumericVector.java:139-143 | relinking past the found node drops it from the chain and keeps order and count, with tail left where it was |
| Vectors.SparseVector.UnlinkAt | SparseNumericVector.java:139-143 | after unlinking the found node, tail is the last node unless that node was the last and the correction is off; in that case tail is the unlinked node |
| Vectors.SparseVector.RemoveFromLonger | SparseNumericVector.java:129-149 | on two or more nodes it reports whether the index was present and leaves exactly the sorted removal; tail goes stale exactly when the last element is removed without the correction |
| Vectors.SparseVector.Remove | SparseNumericVector.java:108-150 | the corrected removal: it returns whether the index was present, leaves exactly the removal, shrinks size on success, keeps the invariant and changes nothing when the index is absent |
| Vectors.SparseVector.RemoveAsWritten | SparseNumericVector.java:116-150 | the removal as written: it dereferences null exactly on an empty vector; otherwise it returns presence and leaves the removal, with tail stale exactly when the last element of two or more is removed; an absent index changes no field and no link |
| Vectors.SparseVector.Dot | SparseNumericVector.java:163-218 | reading both vectors and changing neither, it returns the walk's value. That value is the inner product when the size fields differ, and so for well-formed vectors of different counts. It is the sum of squares for a vector against itself and zero when either vector is empty. It requires only sorted chains, not a correct tail or size |
| Vectors.SparseVector.DotStep | SparseNumericVector.java:174-215 | one iteration adds the product of the two current values when their indices agree and nothing otherwise; it moves the cursors to positions from which the walk's remainder is what is left to add, with progress in the walk's order |
| Vectors.SparseVector.MergeDot | SparseNumericVector.java:152-157 | the one-pass merge the documentation describes returns the inner product of any two sorted chains |
| Scenarios.EmptyRemoveScenario | SparseNumericVector.java:120-121 | removing from a new, empty vector dereferences null as written and returns false when corrected |
| Scenarios.StaleTailScenario | SparseNumericVector.java:138-144 | after adding 1 and 2, removing 2 as written and appending 3, size says 2 while the chain from head holds only index 1 |
| Scenarios.CorrectedTailScenario | SparseNumericVector.java:138-144 | the same steps with the corrected removal leave indices 1 and 3, with size 2 |
| Scenarios.VectorOf | SparseNumericVector.java:52-106 | two adds of distinct non-zero elements to a new vector give a well-formed vector of their sorted insertion |
| Scenarios.EqualSizeDotScenario | SparseNumericVector.java:178-189 | on vectors holding indices {3, 4} and {1, 3}, the dot as written returns 0 one way and 1 the other, while the merge returns 1 both ways |

`Products.InnerProduct`, `Products.SumOfSquares` and `Products.DotFrom` are the reference definitions that these contracts use. `DotFrom` is the cursor walk of `dot`, one unfolding per loop iteration, with the same branches and the same head resets as the source.

## Left out

- `iterator()` and `SparseNumericIterator` (SparseNumericVector.java:25-27): the iterator class is not part of this model. The sequence the iteration yields is the ghost `Elements()`.
- `toString` (SparseNumericVector.java:225-234): string formatting of `long` and `double` is not modelled.
- `SparseNumericElement` is not part of this model. It is an immutable datatype `Element(index, value)`.
- Java `double` is modelled as `real`. Rounding, summation order, NaN (which passes the `== 0` test) and negative zero (which it rejects) are not modelled.
- Java `long` is modelled as `int`. The 1 to `Long.MAX_VALUE` index range from the class comment is not checked by `add`, and neither is it here. Overflow of `size` is not modelled.
- `Vectors.SparseVector.Remove`: takes an `int` index, so the `NullPointerException` of unboxing a null `Long` argument is not modelled.
- `Vectors.SparseVector.Add` and `Vectors.SparseVector.Dot`: their arguments have the non-null types `Element` and `SparseVector`. The `NullPointerException`s of `add(null)` at line 55 and of `dot(null)` at line 168 are not modelled.
- `Vectors.SparseVector.Add`: both rejections throw one `UnsupportedOperationException` in the source. Here they return `Rejected(ZeroValue)` or `Rejected(DuplicateIndex)`, with the vector unchanged.
- `Vectors.SparseVector.Add`: in the single-node branch, the source's third test (line 72) runs after a prepend has moved head onto the new node. It then compares the new index with itself and fails, so it holds exactly when no prepend took place. The model writes it as the `else` of the prepend test.
- `Vectors.SparseVector.LinkInOrder`: the source links inside its scan loop. The model runs the same scan to the same stopping pair (`FindSlot`, which changes nothing) and links after it. The outcome is the same, because a rejection on the way changes nothing.
- `Vectors.SparseVector.Dot`: the loop body is the method `DotStep`. The loop and each branch of its body are as in the source.
- `Vectors.SparseVector.LinkAtTail`: does not maintain the ghost `nodes` view. Its callers do that, and `StaleTailScenario` calls it on a vector whose tail is already stale, as the source's `add` does there.
- `Vectors.SparseVector.RemoveAsWritten`: like `Add` and `Remove`, it requires `Valid()`, so behaviour after the as-written removal has left a stale tail is outside these contracts. Only `StaleTailScenario` follows a vector past that point, and `Dot` and `MergeDot`, which require only sorted chains, still apply there. Further operations from such states are not modelled, for example the null dereferences at lines 79 and 131 after removing the remaining head.
- The assignments `primary = null` and `secondary = null` in `remove` (lines 134, 141) clear local variables only and have no effect on the vector; they are omitted.
- The O(m+n) running-time claim in the comment on `dot` (line 155) is not a functional property. In the unequal-size branch the longer vector's cursor restarts at its head after running off its end, which makes the walk O(m·n) in the worst case.

## Findings

| source | as written | input that shows it | evidently intended | confidence | as-written member | corrected member |
|---|---|---|---|---|---|---|
| SparseNumericVector.java:120-121 | an empty vector has head == tail == null, so `remove` takes the single-node branch and reads the element of a null head | `remove(7)` on a new vector (`EmptyRemoveScenario`) | return false, as the documentation says for an absent index | not executed | Vectors.SparseVector.RemoveAsWritten | Vectors.SparseVector.Remove |
| SparseNumericVector.java:138-144 | unlinking the last node of a list of two or more leaves `tail` on the unlinked node; a later append links after that node and still increments `size` | add 1, add 2, remove 2, add 3 (`StaleTailScenario`, against `CorrectedTailScenario`) | move tail onto the predecessor when the last node is unlinked, so that size keeps counting the reachable nodes | not executed | Vectors.SparseVector.RemoveAsWritten | Vectors.SparseVector.Remove |
| SparseNumericVector.java:178-189 | with equal sizes, the receiver's cursor moves on past any unmatched index and the argument's cursor moves only from the receiver's last element, so a shared index can be passed by | {3: 1.0, 4: 1.0} dot {1: 1.0, 3: 1.0} is 0, and the other way round it is 1 (`EqualSizeDotScenario`) | the inner product, 1 both ways | not executed | Products.DotEqualSizeMissesSharedIndex | Vectors.SparseVector.MergeDot |
