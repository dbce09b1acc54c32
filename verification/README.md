# Tail list: a sequential model of `LockLessLinkedListTailLIFO`

This project models the singly-linked list with a tail pointer from
`LockLessLinkedListTailLIFO`, run one operation at a time. The list has a
permanent sentinel `head`, a `tail` reference, and nodes that hold an
`element` and a `next` link. It offers three operations:

- `push` appends at the end.
- `pop` removes the last node. It walks two cursors from the sentinel to
  find that node and its predecessor.
- `insertAfter` inserts a new element after a located one.

`contains` is the membership scan `insertAfter` uses.

## How the model is built

- **The node store is a value.** `Heap.LinkedList` holds a map from
  references to `Node(element, next)`, plus `head`, `tail` and `free`.
  `free` is the next fresh reference, which models `new`. Each operation
  takes a list and returns the list it leaves behind. `Option`'s `None`
  stands for Java's `null`, both for links and for elements.
- **Invariant and abstraction.** `Heap.Valid` says there is a chain from
  `head` that follows `next` to `tail`, and that `tail.next` is null. The
  sentinel holds no element and every node after it holds one.
  - `Heap.Spine` is that chain. It is unique (`SpineUnique`) and acyclic
    (`SpineAcyclic`).
  - `Heap.Contents` is the sequence of elements along the chain. It is the
    list as a caller sees it.
- **Atomic steps.** `casNext`, `casTail` and `new Node` are
  `Heap.CasNext`, `Heap.CasTail` and `Heap.Alloc`. With one thread, a
  compare-and-swap is a compare followed by a write.
- **Retry paths.** Some branches only matter when another thread
  interferes:
  - a failed CAS;
  - a null cursor, which triggers `continue outer`;
  - a tail whose `next` is not null, which triggers the helping branch.

  These branches are not modelled as code. Instead, an `assert` of the
  fact that rules each one out sits where the source tests it, so the
  first pass through every retry loop is proved to finish.
- **Modules.**
  - `Edits` holds the lemmas that move the abstraction across each pointer
    edit: linking at the tail, unlinking the tail, and splicing.
  - `Sequences` states what `insertAfter` does to the contents.
  - `TailList` holds the operations.
  - `Scenarios` holds the sequential tests and the push/pop round trip.
- **Element equality.** Java's `equals` on elements is modelled as Dafny
  equality on the element type `T`.

## Model

Paths are relative to the repository root.

| member | source | states |
|---|---|---|
| Heap.Empty | src/main/java/net/hamendi/LockLessLinkedListTailLIFO.java:24-35 | A new list is valid and empty: `tail` names the sentinel `head`, which holds no element and has a null `next` |
| Heap.Alloc | src/main/java/net/hamendi/LockLessLinkedListTailLIFO.java:198-201 | `new Node(e, null)` returns a reference to a node that did not exist before. The node holds `e` with a null `next`, and no existing node changes |
| Heap.CasNext | src/main/java/net/hamendi/LockLessLinkedListTailLIFO.java:211-213 | Succeeds exactly when the node's `next` equals the expected value, and then writes the new value. The element and every other node stay as they were |
| Heap.CasTail | src/main/java/net/hamendi/LockLessLinkedListTailLIFO.java:31-33 | Succeeds exactly when `tail` names the expected node, and then moves `tail`. The nodes and `head` stay as they were |
| Heap.SpineUnique | src/main/java/net/hamendi/LockLessLinkedListTailLIFO.java:24-26 | Any two chains from `head` that follow `next` and stop at `tail` (whose `next` is null) are the same chain |
| Heap.SpineAcyclic | src/main/java/net/hamendi/LockLessLinkedListTailLIFO.java:24-26 | No node appears twice on the chain from `head` to `tail` |
| Heap.TailOnlyAtEnd | src/main/java/net/hamendi/LockLessLinkedListTailLIFO.java:24-26 | `tail` appears on the chain only as its last node |
| Heap.EmptyIffNoSuccessor | src/main/java/net/hamendi/LockLessLinkedListTailLIFO.java:44-46 | The contents are empty exactly when `head.next` is null, and exactly when `tail` names `head` |
| Edits.OffChainChange | src/main/java/net/hamendi/LockLessLinkedListTailLIFO.java:76 | Adding a node that is not yet linked leaves the chain and the contents unchanged |
| Edits.LinkAtTail | src/main/java/net/hamendi/LockLessLinkedListTailLIFO.java:82-83 | Linking an unreachable node after the tail and moving `tail` to it extends the chain by that node and the contents by its element |
| Edits.UnlinkTail | src/main/java/net/hamendi/LockLessLinkedListTailLIFO.java:57-58 | Moving `tail` back to the predecessor and clearing its `next` drops exactly the last node and the last element |
| Edits.LinkAfter | src/main/java/net/hamendi/LockLessLinkedListTailLIFO.java:152-153 | Pointing the new node at the `k+1`-th chain node, and then the `k`-th chain node at the new node, puts the new element at position `k` of the contents. `tail` does not move |
| TailList.AppendNode | src/main/java/net/hamendi/LockLessLinkedListTailLIFO.java:78-89 | The tail's `next` is null, so the helping branch is not taken and the CAS never fails. The contents become `s + [x]`, `tail` names the new node with a null `next`, and only the old tail's `next` changes |
| TailList.Push | src/main/java/net/hamendi/LockLessLinkedListTailLIFO.java:72-92 | `push(null)` throws and leaves the list unchanged. `push(x)` returns true, the contents become `s + [x]` and the chain grows by one fresh node, the only node allocated. `tail` names that node, which holds `x` and has a null `next`. Only the old tail's `next` changes |
| TailList.FindLastTwo | src/main/java/net/hamendi/LockLessLinkedListTailLIFO.java:47-56 | The two-cursor walk never meets a null cursor. It ends with `right == tail`, with `left` as its predecessor on the chain, and with `left.next == right` |
| TailList.Pop | src/main/java/net/hamendi/LockLessLinkedListTailLIFO.java:42-62 | On an empty list `pop` returns null and changes nothing. Otherwise it returns the last element and the contents lose it. `tail` becomes the old predecessor (`head` when one element was left), whose `next` becomes null. Only that node's `next` changes |
| TailList.Contains | src/main/java/net/hamendi/LockLessLinkedListTailLIFO.java:160-171 | `contains(obj)` is true exactly when `obj` is not null and some element equals it |
| TailList.ScanForAfter | src/main/java/net/hamendi/LockLessLinkedListTailLIFO.java:141-150 | The scan stops at the first node holding `after`, or at the tail's predecessor. No node it passed holds `after`. `right` is the successor of `left` |
| TailList.SpliceAfter | src/main/java/net/hamendi/LockLessLinkedListTailLIFO.java:151-156 | Both CAS steps succeed. The new node is linked between `left` and `right`, the new element lands right after `left`'s, and `tail` does not move |
| TailList.AppendToSingleton | src/main/java/net/hamendi/LockLessLinkedListTailLIFO.java:120-127 | With one element, moving `tail` first and linking second still ends with the new element appended and `tail` on the new node |
| TailList.PlaceInLonger | src/main/java/net/hamendi/LockLessLinkedListTailLIFO.java:128-157 | With two or more elements: if the last node holds `after`, the new node is appended. Otherwise it is spliced in after the first node holding `after`, and only that node's `next` changes |
| TailList.InsertPresent | src/main/java/net/hamendi/LockLessLinkedListTailLIFO.java:114-157 | When `after` is present, exactly one node is allocated, holding the new element, and the contents become the code's placement of it. `tail` advances to the new node when the last element is `after` and stays put otherwise. Only one old node's `next` changes |
| TailList.InsertAfter | src/main/java/net/hamendi/LockLessLinkedListTailLIFO.java:107-158 | A null argument throws and changes nothing. An empty list or an absent `after` gives false and changes nothing. Otherwise the result is true and the contents follow the code's placement |
| TailList.PlaceInLongerFirst | src/main/java/net/hamendi/LockLessLinkedListTailLIFO.java:94-97 | Corrected placement: in a list of two or more elements, the new element goes right after the first element equal to `after` |
| TailList.InsertPresentFirst | src/main/java/net/hamendi/LockLessLinkedListTailLIFO.java:94-97 | Corrected placement once `after` is known to be present: right after its first occurrence |
| TailList.InsertAfterFirstOccurrence | src/main/java/net/hamendi/LockLessLinkedListTailLIFO.java:94-113 | `insertAfter` with the documented first-occurrence rule. It has the same null, empty and absent-`after` outcomes as the code |
| Sequences.InsertAfterAsWritten | src/main/java/net/hamendi/LockLessLinkedListTailLIFO.java:120-157 | The code's placement on the contents: an absent `after` leaves them unchanged; otherwise they grow by one, and when the last element is `after` the new element is appended behind all of them |
| Sequences.InsertAfterFirst | src/main/java/net/hamendi/LockLessLinkedListTailLIFO.java:95-97 | The documented placement: an absent `after` leaves the contents unchanged; otherwise the new element lands right after the first `after`, with the elements before and after it kept in order |
| Sequences.InsertAfterFirstIsFirstPlacement | src/main/java/net/hamendi/LockLessLinkedListTailLIFO.java:95-97 | A result is a placement of the new element right after the first `after` exactly when it equals the documented placement (both directions) |
| Sequences.AsWrittenPlacesAfterAnOccurrence | src/main/java/net/hamendi/LockLessLinkedListTailLIFO.java:128-157 | The code always puts the new element right after some element equal to `after`, though not always the first |
| Sequences.FirstIndexUnique | src/main/java/net/hamendi/LockLessLinkedListTailLIFO.java:95-97 | A position holding `a` with no `a` before it is the first occurrence |
| Sequences.InsertAfterFirstAt | src/main/java/net/hamendi/LockLessLinkedListTailLIFO.java:95-97 | With the first `a` at `k`, the documented placement puts the new element at `k + 1` |
| Sequences.InsertAfterFirstPlacement | src/main/java/net/hamendi/LockLessLinkedListTailLIFO.java:95-97 | After insertion the new element directly follows an `a` with no `a` before it. Removing the new element gives back the original sequence |
| Sequences.FirstAfterScan | src/main/java/net/hamendi/LockLessLinkedListTailLIFO.java:141-150 | Where the scan stops is the first `a`. If the node it stops at does not hold `a`, the first `a` is in the last position |
| Sequences.AsWrittenAgreesWithoutLateDuplicate | src/main/java/net/hamendi/LockLessLinkedListTailLIFO.java:128-150 | The code's placement and the documented one agree unless `a` is the last element and also occurs earlier |
| Sequences.TailShortcutSkipsFirstOccurrence | src/main/java/net/hamendi/LockLessLinkedListTailLIFO.java:128-134 | On `[1, 2, 1]`, `insertAfter(9, 1)` gives `[1, 2, 1, 9]` as written, but `[1, 9, 2, 1]` under the documented rule |
| Scenarios.PushThenPop | src/main/java/net/hamendi/LockLessLinkedListTailLIFO.java:42-92 | `pop` undoes `push`: it returns the pushed element and restores the chain, the contents and the `tail` reference |
| Scenarios.PushRange | src/test/java/net/hamendi/LockLessLinkedListTailLIFOTest.java:57-59 | Pushing 0..n-1 onto a new list gives the contents 0..n-1 in order |
| Scenarios.PushAllThenPopAll | src/test/java/net/hamendi/LockLessLinkedListTailLIFOTest.java:55-63 | Pushing 0..n-1 and then popping n times yields n-1, n-2, ..., 0, and one more pop returns null |
| Scenarios.PushFiveThenPopTwo | src/test/java/net/hamendi/LockLessLinkedListTailLIFOTest.java:23-29 | Pushing 0..4 and popping twice returns 4 and then 3, and leaves `[0, 1, 2]` |
| Scenarios.InsertThreeAfterZero | src/test/java/net/hamendi/LockLessLinkedListTailLIFOTest.java:29 | `insertAfter(3, 0)` on `[0, 1, 2]` gives `[0, 3, 1, 2]` |
| Scenarios.InsertTwentyAfterOne | src/test/java/net/hamendi/LockLessLinkedListTailLIFOTest.java:31 | `insertAfter(20, 1)` on `[0, 3, 1, 2]` gives `[0, 3, 1, 20, 2]` |
| Scenarios.InsertFourAfterTwo | src/test/java/net/hamendi/LockLessLinkedListTailLIFOTest.java:35 | `insertAfter(4, 2)` on `[0, 3, 1, 20, 2]` takes the tail path and gives `[0, 3, 1, 20, 2, 4]` |
| Scenarios.SequentialPopTest | src/test/java/net/hamendi/LockLessLinkedListTailLIFOTest.java:20-37 | The whole sequential test. The pops give 4 and then 3. The inserts give true, true, false (4 is absent) and true. The final contents are `[0, 3, 1, 20, 2, 4]` |

## Left out

- Concurrency is not modelled: interleavings, linearizability and
  lock-freedom. Operations run one at a time. As a result the retry
  paths are unreachable and are asserted so rather than modelled:
  - the failed-CAS retries;
  - the tail-helping branches (`LockLessLinkedListTailLIFO.java:87-89`,
    `:136-138`);
  - the `continue outer` restarts (`:52-54`, `:146-148`).
- The re-reads of `tail` (`oldTail == tail` at `:80`, `:121`, `:129`,
  `:151`) are not modelled as tests. Without another thread they always
  hold.
- `AtomicReferenceFieldUpdater` and `volatile` (`:28-33`, `:195-213`) are
  JVM memory-model plumbing. Only their compare-then-write effect is
  modelled.
- `toString` and `Node.toString` (`:173-187`, `:215-218`) only render the
  list for debugging.
- Unlinked nodes stay in the node map. Garbage collection and memory
  reclamation are not modelled.
- The thread-driven tests (`Pusher`, `Poper`, `Inserter` and the parallel
  tests) only exercise concurrency.
- `SinglyLinkedList.java` declares the three method names and has no
  behaviour.
- Java's `equals` is called in both directions: `contains` calls
  `obj.equals(element)` (`:166`), while the tail check and the scan call
  `element.equals(after)` (`:128`, `:143`). The model uses Dafny equality
  for both, so it assumes `equals` is symmetric (and reflexive and
  consistent), as its contract in `java.lang.Object` requires.
- Sequences.InsertAfterAsWritten: its own contract places the new element
  only in the tail case, to keep the concrete test lemmas cheap to check.
  The other case is stated by Sequences.AsWrittenPlacesAfterAnOccurrence
  and Sequences.AsWrittenAgreesWithoutLateDuplicate.
- TailList.InsertAfter: its contract gives the result and the new
  contents. The position of `tail` and the frame (which old node's `next`
  changes) are stated on TailList.InsertPresent, which it calls.
- TailList.InsertAfterFirstOccurrence: it states only the result and the
  new contents. It does not state the tail or frame facts of
  TailList.InsertPresent.

## Notes on the source

- `pop` on an empty list returns null, modelled as `None`. It is not an
  error.
- The sequential test pops only down to the element 1
  (`LockLessLinkedListTailLIFOTest.java:60`). `Scenarios.PushAllThenPopAll`
  drains the whole list and shows that one more `pop` returns null.
- The Javadoc of `insertAfter` (`LockLessLinkedListTailLIFO.java:95-97`)
  promises insertion after the first instance of `after`. The code at
  `:128-134` appends whenever the last node holds `after`; that branch is
  documented only by a `//last element` comment. The two disagree when the
  last element equals `after` and an earlier element does too. The model
  follows the code (`InsertAfter`) and records the difference below. The
  sequential test has no duplicate values, so both placements agree on it.
  `Scenarios` uses the as-written `InsertAfter`.

## Findings

| source | as written | input that shows it | evidently intended | confidence | as-written member | corrected member |
|---|---|---|---|---|---|---|
| src/main/java/net/hamendi/LockLessLinkedListTailLIFO.java:128-134 | If the last node holds `after`, the new element is appended, even when an earlier node also holds `after` | Contents `[1, 2, 1]`, `insertAfter(9, 1)`: the result is `[1, 2, 1, 9]` | `[1, 9, 2, 1]`: the new element goes after the first instance of `after`, as the method comment at :95-97 promises | medium, not executed | TailList.InsertAfter, Sequences.TailShortcutSkipsFirstOccurrence | TailList.InsertAfterFirstOccurrence |
