# MyContainer in Dafny

A model of `ariel::MyContainer<int>` from `include/MyContainer.hpp`, with proofs about it. The container stores values in insertion order in a `std::vector`, and values are added and removed in place. It offers six iterator types. Each iterator builds an index vector (an *order*) from a snapshot of the values when it is created. It then walks that vector with a position counter.

The six order policies are:

- **insertion order**: `iota`;
- **reverse**: `iota`, then `std::reverse`;
- **ascending** and **descending**: `iota`, then `std::sort` with `<` or `>`;
- **side-cross**: sort ascending, then take smallest, largest, second smallest, and so on, with two cursors;
- **middle-out**: start at position n/2, then step alternately left and right.

The modules follow that structure:

| file | module | what it holds |
|---|---|---|
| `index_orders.dfy` | `IndexOrders` | `Iota`, `Reversed`, `Collect` (the values an order visits), permutations of 0..n-1 |
| `sorting.dfy` | `Sorting` | the two sorting policies; the index sort is an in-place selection sort proved against the postcondition of `std::sort` |
| `side_cross.dfy` | `SideCrossOrder` | the two-cursor loop as written, what it emits, and the corrected loop |
| `middle_out.dfy` | `MiddleOutOrder` | the offset loop, where each position lands, and the proof that it is a permutation |
| `policies.dfy` | `Policies` | the policy type, the dispatching build, and what every walk visits, including the test data |
| `container.dfy` | `Containers` | the `Container` class, the `OrderedIterator` class, and the begin-to-end walk |

Each imperative part of the source stays imperative in the model:

- `addElement` and `removeElement` are methods that change the container's `data` field.
- `removeElement` runs `std::remove`'s compaction loop on an array.
- `operator++` changes the iterator's `pos` field.
- Each policy's build is a method with the source's loop. Its contract ties the result to a specification function, and the lemmas beside that function state what the order is.

The model follows what the code does in four places where a reader might expect otherwise:

- **`removeElement` removes every copy, not only the first.** It uses `std::remove` with `erase`.
- **Ascending and descending are not stable.** `std::sort` may put equal values in either order. The model only promises a sorted permutation. `Sorting.TiesUnordered` shows that both tie orders are allowed.
- **Middle-out starts at the upper middle** (`n/2`) when n is even. For n = 4 the order is 2, 1, 3, 0.
- **Side-cross emits n - 1 positions for even n ≥ 2.** See Findings below.

## Model

| member | source | states |
|---|---|---|
| IndexOrders.FillIota | include/MyContainer.hpp:102-103 | `resize(n)` with `iota` leaves the fresh index vector 0, 1, ..., n-1 |
| IndexOrders.PermutationMeaning | include/MyContainer.hpp:100-129 | an order with the multiset of 0..n-1 has n entries, all valid positions, each position occurs, and no entry repeats |
| IndexOrders.CollectIota | include/MyContainer.hpp:100-105 | walking the identity order visits the stored values exactly as stored |
| IndexOrders.CollectReversed | include/MyContainer.hpp:107-113 | walking an order backwards visits the same values backwards |
| IndexOrders.PermutationVisitsAll | include/MyContainer.hpp:89 | a walk along a permutation visits every stored value exactly as often as it is stored |
| IndexOrders.ReversedIotaIsPermutation | include/MyContainer.hpp:107-113 | the reversed identity order is a permutation of 0..n-1 |
| Sorting.SelectFirst | include/MyContainer.hpp:119 | the selected index holds a value that no value in the rest comes strictly before, under the comparator |
| Sorting.SortIndices | include/MyContainer.hpp:119 | sorting the index vector in place keeps its multiset and leaves the visited values in comparator order |
| Sorting.BuildSorted | include/MyContainer.hpp:115-129 | the ascending and descending builds return a permutation of 0..n-1 whose visited values are in order |
| Sorting.OrderedUnique | include/MyContainer.hpp:119 | two ordered sequences with the same multiset are equal |
| Sorting.SortedOrderVisitsAll | include/MyContainer.hpp:115-121 | a sorted order has n entries and visits exactly the stored multiset, in order |
| Sorting.SortedValuesDetermined | include/MyContainer.hpp:119 | however `std::sort` breaks ties, the visited values are the same |
| Sorting.ReversedOrdered | include/MyContainer.hpp:127 | ascending values read backwards are descending |
| Sorting.DescendingValuesReverseAscending | include/MyContainer.hpp:115-129 | the descending walk visits exactly the ascending walk's values backwards, duplicates included |
| Sorting.TiesUnordered | include/MyContainer.hpp:119 | with two equal values, both index orders are valid sorted outcomes, in either direction |
| SideCrossOrder.EmitSideCross | include/MyContainer.hpp:136-141 | the two-cursor loop as written emits `SideCross` of the sorted vector |
| SideCrossOrder.BuildSideCross | include/MyContainer.hpp:131-143 | the side-cross build is `SideCross` of an ascending sorted permutation |
| SideCrossOrder.SideCrossLength | include/MyContainer.hpp:138-141 | the loop emits n entries for odd or zero n, and n - 1 for even n > 0 |
| SideCrossOrder.SideCrossAt | include/MyContainer.hpp:139-140 | output position 2k holds the k-th smallest entry and 2k+1 the k-th largest |
| SideCrossOrder.SideCrossMultisetOdd | include/MyContainer.hpp:138-141 | for odd n the loop emits every entry exactly once |
| SideCrossOrder.SideCrossMultisetEven | include/MyContainer.hpp:138-141 | for even n = 2h > 0 the loop misses exactly one copy of the entry at position h |
| SideCrossOrder.SideCrossCollect | include/MyContainer.hpp:131-143 | the values visited along the side-cross order are the side-cross of the sorted values |
| SideCrossOrder.SideCrossOfPermutation | include/MyContainer.hpp:131-143 | over a sorted permutation, the emitted positions are valid and distinct. They are all n positions when n is odd or 0; otherwise all but `sorted[n/2]` |
| SideCrossOrder.EmitSideCrossIntended | include/MyContainer.hpp:138-141 | the corrected loop (`right` moves only when it emits) emits `SideCrossIntended` |
| SideCrossOrder.SideCrossIntendedMultiset | include/MyContainer.hpp:138-141 | the corrected walk emits every entry exactly once, for every n |
| SideCrossOrder.SideCrossIntendedIsPermutation | include/MyContainer.hpp:131-143 | the corrected walk over a permutation is a permutation |
| SideCrossOrder.SideCrossAgreesWhenOdd | include/MyContainer.hpp:138-141 | for odd and zero n the code as written and the corrected walk agree |
| SideCrossOrder.SideCrossOfFour | include/MyContainer.hpp:138-141 | four entries a, b, c, d: the code emits a, d, b and never c, the entry at position 4/2. So over sorted positions 0..3 it emits 0, 3, 1 and never 2. The corrected walk emits a, d, b, c |
| SideCrossOrder.SideCrossOfFive | tests.cpp:67 | five entries a..e are emitted a, e, b, d, c |
| MiddleOutOrder.BuildMiddleOut | include/MyContainer.hpp:145-157 | the offset loop, with its `mid >= offset` guard, returns `MiddleOut(n)` |
| MiddleOutOrder.MiddleOutFromMultiset | include/MyContainer.hpp:152-155 | the rounds from `offset` on emit each position below mid - offset + 1 and from mid + offset up exactly once |
| MiddleOutOrder.MiddleOutIsPermutation | include/MyContainer.hpp:145-157 | the middle-out order is a permutation of 0..n-1 |
| MiddleOutOrder.MiddleOutFromAt | include/MyContainer.hpp:152-155 | in the rounds from `offset` on, round k emits mid - k, then mid + k if that is a position |
| MiddleOutOrder.MiddleOutAt | include/MyContainer.hpp:150-155 | n/2 comes first; n/2 - k is at 2k-1 and n/2 + k at 2k |
| MiddleOutOrder.MiddleOutSmall | tests.cpp:49-70 | n = 4 gives 2, 1, 3, 0, upper middle first (tests.cpp:54). n = 5 gives 2, 1, 3, 0, 4 (tests.cpp:70) |
| Policies.OrderLength | include/MyContainer.hpp:100-157 | every policy emits n positions, except side-cross over an even n > 0, which emits n - 1; over odd n side-cross emits n |
| Policies.BuildOrder | include/MyContainer.hpp:100-105 | the insertion-order build is the identity order |
| Policies.ReverseInPlace | include/MyContainer.hpp:111 | `std::reverse` leaves the array read back to front |
| Policies.BuildReverse | include/MyContainer.hpp:107-113 | the reverse build is the identity order reversed |
| Policies.Build | include/MyContainer.hpp:85 | `OrderPolicy::build` returns an order the chosen policy allows |
| Policies.BuildsShape | include/MyContainer.hpp:100-157 | every build has `OrderLength` distinct valid positions, and it is a permutation exactly when it has n entries |
| Policies.BuildsSmall | include/MyContainer.hpp:83-87 | with no values every build is empty; with one value every build is [0] |
| Policies.OrderAndReverseVisits | include/MyContainer.hpp:100-113 | insertion order visits the values as stored; reverse visits them back to front |
| Policies.SideCrossVisits | include/MyContainer.hpp:131-143 | side-cross visits the side-cross of what the ascending walk visits |
| Policies.VisitedValuesDetermined | include/MyContainer.hpp:115-143 | under any policy, all allowed orders visit the same values |
| Policies.CanonicalSorted | tests.cpp:65-66 | over 7, 15, 6, 1, 2 any sorted order visits 1, 2, 6, 7, 15 ascending and 15, 7, 6, 2, 1 descending |
| Policies.CanonicalVisits | tests.cpp:62-71 | over 7, 15, 6, 1, 2 each policy visits exactly the values its test expects |
| Policies.EvenCountVisits | tests.cpp:49-58 | over 10, 20, 30, 40 middle-out visits 30, 20, 40, 10, and side-cross visits only 10, 40, 20 |
| Containers.RemoveAllMultiset | include/MyContainer.hpp:49 | removal drops every copy of `v` and keeps every other value's count |
| Containers.RemoveAllAppend | include/MyContainer.hpp:49 | removing from a concatenation removes from both parts |
| Containers.RemoveAllLength | include/MyContainer.hpp:49-53 | the size falls by the number of copies; nothing changes exactly when `v` is absent |
| Containers.RemoveAllIdempotent | include/MyContainer.hpp:48-54 | removing the same value twice removes nothing more |
| Containers.RemoveCompact | include/MyContainer.hpp:49 | `std::remove`'s loop moves the other values to the front, in order, and returns the new end |
| Containers.Container.constructor | include/MyContainer.hpp:39 | a new container holds no values |
| Containers.Container.Size | include/MyContainer.hpp:56 | `size()` counts every stored value, copies included, and is 0 exactly when nothing is stored |
| Containers.Container.AddElement | include/MyContainer.hpp:46 | `push_back` appends the value, and `Size` grows by one |
| Containers.Container.RemoveElement | include/MyContainer.hpp:48-54 | throws `out_of_range` exactly when `v` is absent, leaving the values unchanged. Otherwise it removes every copy, keeps the order of the rest, and `Size` falls by the number of copies |
| Containers.Container.Begin | include/MyContainer.hpp:168-183 | `begin_*()` builds an order for the current values and starts at position 0 |
| Containers.Container.End | include/MyContainer.hpp:169-184 | `end_*()` builds an order for the current values and sits at position `order.size()` |
| Containers.OrderedIterator.constructor | include/MyContainer.hpp:83-87 | with no container nothing is built; otherwise the policy builds the order and the position is 0 or the end |
| Containers.OrderedIterator.Current | include/MyContainer.hpp:89 | `operator*` reads the live values at the index the order holds at the current position. It needs only that index to be a position of the container, and the result is a stored value. When every index of the order is in range, the result is the value a walk along the order visits at that position |
| Containers.OrderedIterator.Next | include/MyContainer.hpp:92 | `operator++` advances the position by exactly one and nothing else |
| Containers.OrderedIterator.Equals | include/MyContainer.hpp:95 | `operator==` holds exactly when the two iterators have the same position over the same container. The orders they built are not compared |
| Containers.BeginIsEndIffEmpty | include/MyContainer.hpp:95 | begin `==` end over one container exactly when it holds no values |
| Containers.CollectRange | tests.cpp:17-23 | `collect(first, last)`, stepping with `++` until `==` and reading with `*`, returns the stored values along `first`'s order |
| Containers.Traverse | include/MyContainer.hpp:83-96 | `collect` from `begin_*()` to `end_*()` visits the stored values along an order the policy builds |
| Containers.SmallTraversals | tests.cpp:27-46 | every walk over zero or one value visits exactly the stored values |
| Containers.RemoveMiddleOfFive | tests.cpp:113-114 | removing a value stored once, in the middle of five values, leaves the other four in order |
| Containers.RemoveBothEnds | include/MyContainer.hpp:49 | removing a value stored at both ends of three values takes both copies and leaves the middle one |
| Containers.RemoveScenarios | tests.cpp:113-114 | removing 2 from 0..4 leaves 0, 1, 3, 4, as in the copy test. The second case is an example of this model's own, not from the tests: removing 2 from 2, 5, 2 takes both copies and leaves 5 |
| Containers.RemoveAllKeeps | include/MyContainer.hpp:49 | what survives a removal was stored and is not the removed value |
| Containers.RemoveEveryValueEmpties | tests.cpp:140-144 | removing every stored value in turn empties the container |

## Left out

- `operator<<` (include/MyContainer.hpp:59-66) is stream output. It is not modelled.
- `is_comparable` and the `static_assert` (include/MyContainer.hpp:19-37) are compile-time checks with no behaviour at run time.
- The element type is `int`, the template's default. The tests with `std::string` and a custom struct are not modelled.
- `operator->`, post-increment and `operator!=` (include/MyContainer.hpp:90, 93, 96) only forward to `operator*`, `operator++` and `operator==`.
- Copy and move (tests.cpp:106-119) are object lifetime and are not modelled.
- The random values of tests.cpp:122-136 are not modelled. `Sorting.SortedOrderVisitsAll` states that test's property for every input.
- An iterator keeps its order after the container changes. `operator*` (include/MyContainer.hpp:89) reads the live `data_` through the container pointer, so it is defined exactly when the one index it reads, `order_[pos_]`, is below `size()`. After an `addElement` this always holds. After a `removeElement` it can fail, and the read is then undefined behaviour. `Containers.OrderedIterator.Current` has the same precondition: only the index it reads must be in range. The model does not describe the undefined case.
- Sorting.SortIndices: the body is a selection sort, not the library's introsort. Only the postcondition of `std::sort` is stated and relied on: a sorted permutation, with no tie order.
- Containers.RemoveCompact: the entries past the new end are left unspecified, as `std::remove` leaves them.
- `size_type` is modelled as an unbounded `nat`. No index in these loops exceeds n + 1, so wrap-around cannot occur.
- `std::iota(..., 0)` (include/MyContainer.hpp:103, 110, 118, 126, 134) counts with an `int`, because its start value is the literal `0`. The model ignores the overflow past `INT_MAX` entries that this would cause.
- `order.reserve(n)` (include/MyContainer.hpp:148) only manages storage.
- `order.clear()` (:136) destroys the order's contents. It has no visible effect here only because the iterator always passes its fresh, empty `order_` (:85). The model starts every build from an empty sequence.
- Containers.Container.RemoveElement: the value is passed by value, so it cannot alias a stored element. In the source, `value` is a `const T&` (include/MyContainer.hpp:48), and a caller may pass a reference into the container itself, such as `c.removeElement(*c.begin_order())` (:89). `std::remove` (:49) then compares against an element it is overwriting, so copies can survive. For example, over 1, 2, 1, 3 with `value` bound to the first element, the first write turns that element into 2, and the second 1 stays. The model promises that every copy goes, which holds only when `value` is not a reference into the container.

## Findings

| source | as written | input that shows it | evidently intended | confidence | as-written member | corrected member |
|---|---|---|---|---|---|---|
| include/MyContainer.hpp:138-141 | `right` is decremented every round, even when nothing is pushed, so for even n ≥ 2 the last round emits only `sorted_idx[left]` and the loop ends after n - 1 pushes | values 10, 20, 30, 40: the walk visits 10, 40, 20 and never 30 | smallest, largest, second smallest, ... with every stored value visited once (decrement `right` only when pushing) | not executed; follows from the proofs | SideCrossOrder.SideCrossOfFour | SideCrossOrder.SideCrossIntendedIsPermutation |

The corrected loop is `SideCrossOrder.EmitSideCrossIntended`, proved against `SideCrossIntended`. For odd n the two loops agree (`SideCrossOrder.SideCrossAgreesWhenOdd`), and odd n is all the tests check. The iterator model keeps the code's loop, because the iterator describes what the container does today. `Policies.EvenCountVisits` shows the missing value through the iterator's own build.
