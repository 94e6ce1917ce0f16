# DList: a verified model of a doubly linked list

`DList` (DList.py) implements part of Python's built-in `list` interface on a
chain of `DListNode`s linked both ways. The list object holds three fields:
`size` (the number of items), `head` (the first node, `None` when empty) and
`tail` (the last node, kept so that `append` takes constant time). Every
operation either walks the `prev`/`next` links or rewires them in place.

The model has two modules.

- `ListSpec` (ListSpec.dfy) states, on plain sequences, what each operation
  does to the items, exactly as DList.py behaves. This includes the cases where
  it differs from Python's `list`. Lemmas compare these functions with the
  behaviour of `list` and with each other: insertion then deletion, reversal
  twice, first-occurrence search.
- `LinkedList` (LinkedList.dfy) is the linked structure itself. It has a class
  `DListNode` (item, `prev`, `next`) and a class `DList` with the real fields
  `size`, `head` and `tail`. It also has the ghost fields `nodes` (the nodes
  from head to tail), `Contents` (their items) and `Repr`. `Valid()` is the
  representation invariant of DList.py:20-27:
  - `size` counts the nodes.
  - `head` and `tail` are the first and last node, and both are null when the
    list is empty.
  - The nodes are distinct.
  - Neighbours point at each other through `next` and `prev`.
  - The ends have no outer link.
  - The nodes hold `Contents`.

  Every method requires and re-establishes `Valid()`. Its contract ties the
  new `Contents` and its result to the `ListSpec` function of the old
  `Contents`. The read-only walks (`_find`, iteration, `count`, `index`,
  `__min__`, `__max__`) are `while` loops with invariants over `nodes`.

Errors are values: `Result<T>` for operations that return something and
`Status` for the others. `IndexError` and `ValueError` stand for the Python
exceptions. The optional argument of `pop` is an `Option<int>`.

Behaviour of DList.py that differs from Python's `list`, modelled as written:

- `_delete` (and so `__delitem__`) works on the raw position, and the model
  keeps that:
  - A one-element list is emptied whatever the position.
  - On a list of two or more items, position `-size` raises IndexError.
  - Any other negative position in range deletes the item it denotes, except
    -1 on a list of two or more items, where the code crashes (see Left out).
- `pop(-size)` on a list of two or more items raises IndexError: `_find`
  accepts the position, then `_delete` rejects it. No link has changed when
  this happens.
- `insert(i, x)` with `i <= -size` raises IndexError. Python's `list` would
  insert at the front. For any other `i`, it inserts where `list.insert` would
  (`ListSpec.Inserted`), except `insert(0, x)` on an empty list, where the code
  crashes (see Left out).
- `remove(x)` on an empty list raises the IndexError of its internal
  `index(x)` call, not ValueError.
- `index(x, start)` raises IndexError when `start` is out of range, including
  `start == size` and any `start` on an empty list (the IndexError of
  `_find(start)`). For `start >= 0` it returns None when `x` is absent. For a
  negative `start` it returns 0 when `x` is absent, and the found position
  minus `size` when it is present (see Findings).

## Model

| member | source | states |
|---|---|---|
| `LinkedList.DList.Valid` | DList.py:20-27 | The representation invariant: `size`, `head`, `tail` and the two-way links agree with the node sequence holding `Contents`. |
| `LinkedList.DListNode.constructor` | DList.py:153-176 | `DListNode(x, prev, next)` holds `x` and exactly the two links given. |
| `LinkedList.DList.constructor` | DList.py:31-39 | The new list is valid, uses only fresh objects, and holds exactly the items of the seed sequence, in order (empty seed gives empty list). |
| `LinkedList.DList.Len` | DList.py:43-47 | Returns the number of items in `Contents`. |
| `LinkedList.DList.Iter` | DList.py:51-59 | Walking `next` links from `head` yields exactly `Contents`, head to tail. |
| `LinkedList.DList.ReverseIter` | DList.py:282-289 | Walking `prev` links from `tail` yields exactly `Reverse(Contents)`. |
| `ListSpec.Reverse` | DList.py:282-289 | What `reverse_iter` yields: as many items as the list. Item by item it is described by `ReverseIndex` and `ReverseInvolution`. |
| `ListSpec.ReverseIndex` | DList.py:282-289 | Item `k` of the reversal is item `n-1-k` of the list. |
| `ListSpec.ReverseInvolution` | test_DList.py:21-28 | Reversing the backward iteration gives the forward iteration, the second check of `check_list`. |
| `LinkedList.DList.Find` | DList.py:63-89 | Succeeds exactly when `-size <= position < size` (else IndexError). It returns the node at `position`, or at `size + position` for a negative one. It follows at most `size / 2` links and changes nothing. |
| `ListSpec.Normalize` | DList.py:75-77 | A valid negative position maps into `0..size-1`. |
| `ListSpec.ItemAt` | DList.py:94-103 | Ok exactly in range. Gives `s[p]` for `p >= 0` and `s[n+p]` for negative `p`. Otherwise IndexError. |
| `LinkedList.DList.GetItem` | DList.py:94-103 | The result is `ItemAt(Contents, position)`, read through `_find`. |
| `ListSpec.WithItem` | DList.py:107-111 | Fails exactly where `ItemAt` fails. On success the length is unchanged, the position then reads back `v`, and every other item is unchanged. |
| `LinkedList.DList.SetItem` | DList.py:107-111 | Same nodes and footprint. Contents become `WithItem(old Contents)`, or stay unchanged with IndexError. |
| `LinkedList.DList.DelItem` | DList.py:115-119 | Same contract as `_delete`, on the unvalidated position. |
| `ListSpec.DeleteCrashes` | DList.py:129-141 | The positions at which `_delete` dereferences a missing node. All are -1 or `size`, and none is on a one-item list. |
| `ListSpec.Deleted` | DList.py:123-142 | Ok exactly when the list has one item, or the position is in range and not `-n`. A one-item list becomes empty. For an in-range position the item it denotes, and only that item, is removed. |
| `LinkedList.DList.Delete` | DList.py:123-142 | Re-establishes `Valid()` and gives contents `Deleted(old Contents, position)`, or IndexError with nothing changed. Surviving nodes keep their items. |
| `LinkedList.DList.UnlinkSole` | DList.py:129-131 | Dropping the only node leaves a valid empty list. |
| `LinkedList.DList.UnlinkTail` | DList.py:132-134 | The predecessor of the tail becomes the tail, and the contents lose their last item. |
| `LinkedList.DList.UnlinkHead` | DList.py:135-137 | The successor of the head becomes the head, and the contents lose their first item. |
| `LinkedList.DList.UnlinkAfter` | DList.py:138-141 | Splicing past an inner node removes exactly item `j+1`, and the links stay symmetric. |
| `LinkedList.DList.Append` | DList.py:146-158 | Contents become `old + [x]`, with one fresh node, and existing nodes keep their items. |
| `ListSpec.Inserted` | DList.py:162-179 | Raises IndexError exactly when `i <= -n`. Otherwise the result is Python's `list.insert(i, x)`: `x` lands at `ListInsertPosition(n, i)` and the rest is kept in order. |
| `ListSpec.InsertThenDelete` | DList.py:162-179 | After an insert, the new position reads `x`, and deleting it restores the original list. |
| `LinkedList.DList.Insert` | DList.py:162-179 | Contents become `Inserted(old Contents, i, x)`, or stay unchanged with IndexError. The list stays valid. |
| `LinkedList.DList.LinkHead` | DList.py:168-171 | A fresh node in front of the head gives contents `[x] + old`. |
| `LinkedList.DList.LinkAfter` | DList.py:174-179 | A fresh node spliced after node `j` gives `old[..j+1] + [x] + old[j+1..]`. |
| `LinkedList.DList.Pop` | DList.py:183-195 | Returns the item and leaves the contents that `Popped(old Contents, i)` describes. On an error, contents are unchanged. |
| `ListSpec.PopPosition` | DList.py:189-190 | An explicit `i` is used as given. The default position (the last one) is valid exactly when the list is non-empty. |
| `ListSpec.Popped` | DList.py:183-195 | `pop` as written: the guard at :191, then `_find`, then `_delete` on the raw position. Every error is IndexError. On success the position is in range, one item is removed, and the item returned is the one the position denotes. `PopLast` and `PopMatchesListPop` describe it fully. |
| `ListSpec.PopLast` | DList.py:183-195 | `pop()` removes and returns the last item, and raises IndexError on an empty list. |
| `ListSpec.PopMatchesListPop` | DList.py:183-195 | Out of range gives IndexError. In range (except `-n` on two or more items), `pop(i)` returns item `i` and removes exactly it. `-n` there raises IndexError. (-1 on two or more items is excluded; it crashes.) |
| `ListSpec.Removed` | DList.py:199-207 | `remove` as written: `index(x)` from 0, then `_delete`. IndexError exactly on an empty list, and a success removes one item. `RemoveFirstOccurrence` and `RemoveTakesOneOccurrence` describe it fully. |
| `ListSpec.RemoveFirstOccurrence` | DList.py:199-207 | An empty list gives IndexError. If `x` is absent, ValueError. Otherwise exactly the first occurrence is removed, and the items around it keep their order. |
| `ListSpec.RemoveTakesOneOccurrence` | DList.py:199-207 | A successful `remove(x)` leaves the multiset of items minus one `x`. |
| `LinkedList.DList.Remove` | DList.py:199-207 | Contents become `Removed(old Contents, x)`, or stay unchanged with the error it raises. |
| `LinkedList.DList.Min` | DList.py:211-223 | ValueError exactly on an empty list. Otherwise returns an item of the list that no item is less than. |
| `LinkedList.DList.Max` | DList.py:227-239 | ValueError exactly on an empty list. Otherwise returns an item of the list that no item is greater than. |
| `LinkedList.DList.Extend` | DList.py:243-249 | Contents become `old + l`, with `l` appended in order. |
| `LinkedList.DList.Count` | DList.py:253-262 | Returns the number of occurrences of `x` in `Contents` (its multiplicity). |
| `ListSpec.FirstFrom` | DList.py:272-275 | A found position is at or after `from` and holds `x`. |
| `ListSpec.FirstFromIsLeast` | DList.py:272-275 | The search finds the least occurrence, and finds nothing exactly when `x` does not occur from `from` on. |
| `ListSpec.FirstFromSkip` | DList.py:272-275 | Advancing past positions that do not hold `x` does not change the search result. |
| `ListSpec.IndexAsWritten` | DList.py:266-278 | `index` as written: IndexError exactly when `start` is out of range. A reported position lies in `start..size-1`. `IndexAgreesFromNonNegativeStart`, `IndexNegativeStartReportsZero` and `IndexNegativeStartOffset` describe its value for every `start`. |
| `LinkedList.DList.Index` | DList.py:266-278 | The result is `IndexAsWritten(Contents, x, start)`, the code's own counter arithmetic (see Findings). |
| `ListSpec.IndexOf` | DList.py:266-278 | Intended `index`: IndexError exactly when `start` is out of range. |
| `ListSpec.IndexOfFindsFirst` | DList.py:266-278 | `IndexOf` returns exactly the least position at or after `start` holding `x`, or None when there is none. |
| `ListSpec.IndexAgreesFromNonNegativeStart` | DList.py:266-278 | For `start >= 0` the code's result equals the intended one, so `remove` is unaffected. |
| `ListSpec.IndexNegativeStartReportsZero` | DList.py:272-278 | With a negative `start` and `x` absent from the searched part, the code returns 0 where None is intended. |
| `ListSpec.IndexNegativeStartOffset` | DList.py:272-278 | With a negative `start` and a match at position `j`, the code returns `j - size` instead of `j`. |
| `ListSpec.IndexNegativeStartExample` | DList.py:272-278 | `index(5, -1)` on `[1, 2]` returns 0 as written, and None as intended. |

## Findings

| source | as written | input that shows it | evidently intended | confidence | as-written member | corrected member |
|---|---|---|---|---|---|---|
| DList.py:272-278 | The cursor starts at the node `start` denotes, but the counter starts at the raw `start`. Not-found is detected by `counter == size`, so a negative `start` reports positions offset by `-size` (`ListSpec.IndexNegativeStartOffset`), and 0 when `x` is absent. | `DList([1, 2]).index(5, -1)` returns 0 (`ListSpec.IndexNegativeStartExample`) | None, and in general the non-negative position of the first match | not executed | `LinkedList.DList.Index` | `ListSpec.IndexOf` |

`Removed`, and so `LinkedList.DList.Remove`, searches with `FirstFrom` from
position 0. `FirstFrom` is the search that `IndexOf` is built on. From
position 0 the code and the intended search agree
(`IndexAgreesFromNonNegativeStart`).

## Left out

- `__str__` (DList.py:293-300) is diagnostic formatting through `'{}'.format` and is not modelled.
- DListNode.py is not part of this model. The node is modelled from its constructor calls (DList.py:153, 156, 169, 176) as a class with `item`, `prev` and `next`.
- `__iter__` and `reverse_iter` are generators. The model returns the whole sequence they would yield. It does not model laziness, or mutation during iteration.
- `LinkedList.DList.Delete`, `LinkedList.DList.DelItem`: require `!DeleteCrashes(size, position)`. In those cases (position -1 or 0 on an empty list, and -1 or `size` on a list of two or more items) the code dereferences `None`. At -1 it has already cleared one link, leaving the list broken.
- `LinkedList.DList.Pop`: requires that `i` is not -1 when the list has two or more items. `_delete(-1)` crashes there, as above.
- `LinkedList.DList.Insert`: requires a non-empty list when `i == 0`, because `insert(0, x)` on an empty list dereferences the missing head (DList.py:169).
- `LinkedList.DList.Min`, `LinkedList.DList.Max`: take the comparison as a parameter `lt`, required to be a strict order on the items (`>` read as `lt` with the arguments swapped). Python's comparison of arbitrary objects, and its TypeError for incomparable ones, are not modelled.
- `LinkedList.DList.Min`, `LinkedList.DList.Max`: do not say which item is returned when several items are tied (none is `lt` the other, yet they differ). The code keeps the first such item, because it replaces the running value only on a strict comparison. For a strict total order the returned value is unique.
- `LinkedList.DList.Extend`: takes a sequence value. `l` being any iterable is not modelled. Neither is `a.extend(a)`, which in the code never ends because it appends to the list it is iterating.
- `LinkedList.DList.Count`: walks the nodes directly. The code goes through `__iter__`, which yields the same items.
- `LinkedList.DList.Find`: the walk's cost is stated as a bound on links followed (`steps <= size / 2`), not as running time.
- Python truthiness: `if seq:` is read as "seq is non-empty", and `while curNode` as "curNode is not None" (nodes are taken to be truthy).
