# Array-backed positional list with cursors

This project models `PosListWithCursorsViaArray`. It is a list of items whose
nodes live in four parallel arrays:

- `contents` holds the items;
- `prev` and `next` hold the links, as slot indices;
- `refCntr` holds, per slot, the number of cursors resting there.

Slot 0 is a permanent rear sentinel. The front node's `prev` is -1. Slots freed by
`remove` are pushed onto an "avail" chain threaded through `next` from `availLoc`.
`insert` reuses the head of that chain, or else takes slot `numItems + 1` when the
chain is empty. When the arrays are full, `insert` first reallocates them to
length `2 * numItems`.

A cursor belongs to one list and holds the slot it rests on. It can move to the
front, to the rear, one step either way, or onto another cursor's slot. It can
insert before its position, remove the node it is on, replace that node's item,
and swap items with another cursor. The exceptions the Java class
throws become `Result`/`Outcome` values, and a refused operation leaves every field as it was.

The project has two modules.

- `SlotLinks` (`slot_links.dfy`) treats the link part of the state as a value,
  `Links(prev, next, frontLoc, availLoc, numItems)`. It is paired with two ghost
  sequences:
  - `nodes`: the occupied slots, front to rear;
  - `avail`: the avail chain, head first.

  The invariant `Linked` says the links encode exactly those two chains. It also
  says that the used slots are exactly `1 .. |nodes| + |avail|` and that
  `numItems == |nodes|`. The module defines `InsertLinks`, `RemoveLinks` and
  `ResizedLinks`, which perform the list's own array writes step by step. It
  proves what each does to the invariant and to the items (`Gather`). It also
  holds the finding about the shrinking reallocation.
- `PosListViaArray` (`pos_list.dfy`) has the class `PosList`, with the four
  arrays and the three index fields, and the class `Cursor`, with `myList` and
  `loc`.
  - Each method performs the Java statements on those fields, in the same order
    and with the same branches. The exception is `remove`: it decrements
    `numItems` earlier and has no shrink branch, as the next two paragraphs
    explain.
  - The list's ghost state is `nodes`, `avail` and a map `cursorLocs`. The map
    sends every cursor handed out for the list to the slot it rests on, or to -1
    once that cursor has been disposed.
  - `Valid()` ties `refCntr[i]` to the number of cursors resting on slot `i`
    (`CountsMatch`). It also says that every live cursor rests on a position of
    the list (`AllPlaced`).
  - `Items()` is the list's contents front to rear. `Cursor.Pos()` is the
    cursor's index in `nodes + [0]`, so the rear is position `|Items()|`.

In the Java `remove`, the cursor moves (`changeLocTo`) before `numItems` is
decremented. In the model, the decrement comes with the rest of the unlinking,
before the move. `changeLocTo` reads neither `numItems` nor any link, so the
final state is the same.

The comment above the shrink in `remove`
(PosListWithCursorsViaArray.java:296-297) means to cut the arrays in half, and
the comment on `changeAryLen` (line 349) gives its precondition `newLen >=
numItems` as the guard "to avoid loss of data". That guard is not enough: the
copy loses used slots (see Findings). The model follows the code for
`changeAryLen`, and it leaves the shrink out of the corrected `remove`.

The comment on `dispose` (lines 123-127) says a cursor should be disposed of
once it logically ceases to exist; the code then sets `loc` to -1. Of the later
cursor operations, `atFront`, `atRear`, `equals` and `getList` read no array,
and the model answers them for a disposed cursor as Java does: not at the
front, not at the rear, and equal to another cursor exactly when both are
disposed cursors of the same list. Every other operation except `dispose`
fails in Java on a disposed cursor. Most index an array at -1. `setTo` with a
cursor of another list throws the other-list error first. `insert` updates
`numItems`, `availLoc`, `contents` and `next` before it fails at `prev[-1]`.
The model requires a live cursor (`Live()`) for all of these, so it does not
describe those failures or the partial writes of `insert`.

## Model

| member | source | states |
|---|---|---|
| PosListViaArray.PosList.constructor | PosListWithCursorsViaArray.java:28-39 | a new list is valid and empty: arrays of length 8, `numItems == 0`, `frontLoc == 0`, `availLoc == -1`, no nodes, no free slots, no cursors |
| PosListViaArray.PosList.IsEmpty | PosListWithCursorsViaArray.java:57 | true exactly when the list has no items |
| PosListViaArray.PosList.LengthOf | PosListWithCursorsViaArray.java:59 | the number of items of the list |
| PosListViaArray.PosList.GetCursor | PosListWithCursorsViaArray.java:88 | a fresh live cursor at the rear; `refCntr[0]` goes up by one and nothing else is counted differently |
| PosListViaArray.Cursor.constructor | PosListWithCursorsViaArray.java:104-109 | the new cursor rests on the rear, is registered there, and `refCntr[0]` goes up by one; the list stays valid |
| PosListViaArray.CountsAfterNew | PosListWithCursorsViaArray.java:104-109 | counting one new cursor on slot `at` keeps every count equal to the number of cursors on its slot |
| PosListViaArray.Cursor.Dispose | PosListWithCursorsViaArray.java:129-134 | a live cursor's slot count drops by one and the cursor is parked on -1; a second dispose changes nothing; the list stays valid |
| PosListViaArray.CountsAfterDispose | PosListWithCursorsViaArray.java:129-134 | uncounting a disposed cursor keeps every count accurate |
| PosListViaArray.Cursor.AtFront | PosListWithCursorsViaArray.java:140 | for a live cursor, true exactly when it is at position 0; false for a disposed cursor |
| PosListViaArray.Cursor.AtRear | PosListWithCursorsViaArray.java:142 | for a live cursor, true exactly when it is at position `|Items()|`; false for a disposed cursor |
| PosListViaArray.Cursor.GetItem | PositionalListCursor.java:22-26 | an error exactly at the rear; otherwise the item at the cursor's position |
| PosListViaArray.Cursor.Equals | PosListWithCursorsViaArray.java:154-164 | for live cursors, true exactly when both are on the same list at the same position; when either is disposed, true exactly when both are disposed cursors of the same list |
| PosListViaArray.Cursor.ChangeLocTo | PosListWithCursorsViaArray.java:338-343 | the cursor rests on the new slot; the old slot's count goes down by one and the new one's up by one; the list stays valid |
| PosListViaArray.Moved | PosListWithCursorsViaArray.java:339-341 | the count transfer of `changeLocTo`: every slot's count changes by minus one at the old slot plus one at the new slot, and by nothing elsewhere |
| PosListViaArray.CountsAfterMove | PosListWithCursorsViaArray.java:338-343 | moving one count along with a cursor keeps every count accurate |
| PosListViaArray.PlacedAfterMove | PosListWithCursorsViaArray.java:338-343 | moving a cursor to a position, or parking it on -1, keeps every cursor on a position |
| PosListViaArray.Cursor.ToFront | PositionalListCursor.java:43-47 | afterwards `AtFront()` holds and the position is 0; the counts move with the cursor |
| PosListViaArray.Cursor.ToRear | PositionalListCursor.java:50-54 | afterwards `AtRear()` holds and the position is `|Items()|`; the counts move with the cursor |
| PosListViaArray.Cursor.ToNext | PosListWithCursorsViaArray.java:182-190 | refused at the rear with nothing changed; otherwise the cursor moves to `next[loc]`, which is position + 1 |
| PosListViaArray.Cursor.ToPrev | PosListWithCursorsViaArray.java:192-200 | refused at the front with nothing changed; otherwise the cursor moves to `prev[loc]`, which is position - 1 |
| SlotLinks.NextThenPrev | PosListWithCursorsViaArray.java:182-200 | from any position but the rear, `next` leads to the following position and `prev` leads back from there |
| SlotLinks.PrevThenNext | PosListWithCursorsViaArray.java:192-200 | from any position but the front, `prev` leads to the preceding position and `next` leads back from there |
| PosListViaArray.Cursor.SetTo | PosListWithCursorsViaArray.java:203-220 | refused when the other cursor is on another list, with nothing changed; otherwise this cursor rests where that one does and `Equals` holds |
| PosListViaArray.Cursor.Clone | PosListWithCursorsViaArray.java:329-332 | a fresh live cursor equal to this one; that slot's count goes up by one; the list's cursor map gains exactly the new cursor at that slot |
| PosListViaArray.CountThenMove | PosListWithCursorsViaArray.java:329-332 | counting a new cursor on the rear and then moving it to slot `to` counts it once on `to` |
| PosListViaArray.Cursor.Insert | PosListWithCursorsViaArray.java:226-258 | the item is inserted just before the cursor's position, which moves up by one; the node sequence gains the new slot at that index, so every other cursor keeps its node and item; the cursor stays on its node; `numItems` goes up by one; the arrays grow to `2 * numItems` exactly when they were full; the new node takes the avail head, or else slot `numItems + 1`; the list's arrays are its old ones or freshly allocated |
| PosListViaArray.PosList.InsertBefore | PosListWithCursorsViaArray.java:226-258 | insert at the list level, before the node at position k: the list stays valid, the item and the new slot enter the items and the node sequence at index k, slot `loc` moves to index k + 1, the cursor map is unchanged, and the arrays grow exactly when full |
| PosListViaArray.PosList.InsertAt | PosListWithCursorsViaArray.java:233-257 | with a free slot available, linking in keeps the whole list invariant, cursor counts and places included, with the same effect on items, node sequence and avail chain |
| PosListViaArray.PosList.MakeRoom | PosListWithCursorsViaArray.java:228-231 | afterwards a slot beyond `numItems + 1` exists; the length becomes `2 * numItems` when the arrays were full and is unchanged otherwise; the items, nodes, free slots and cursors stay the same |
| PosListViaArray.PosList.LinkIn | PosListWithCursorsViaArray.java:233-257 | the new node takes the avail head or slot `numItems + 1` and is linked in just before position k; the invariant holds; the position that was at index k is now at index k + 1 |
| PosListViaArray.PosList.SpliceIn | PosListWithCursorsViaArray.java:233-257 | the array writes of insert produce exactly `InsertLinks` of the old links, with the item stored in the new slot |
| PosListViaArray.PlacedAfterInsert | PosListWithCursorsViaArray.java:233-257 | after a node is linked in, every cursor still rests on a position |
| SlotLinks.NewSlotIsFree | PosListWithCursorsViaArray.java:235-240 | the slot insert takes is the avail head, or `numItems + 1` when the chain is empty, and no node occupies it |
| SlotLinks.InsertChain | PosListWithCursorsViaArray.java:244-257 | linking the new slot in before position k gives the occupied chain with the new slot at index k |
| SlotLinks.InsertNextLinks | PosListWithCursorsViaArray.java:245-253 | after the splice, every node's `next` leads to the following position |
| SlotLinks.InsertPrevLinks | PosListWithCursorsViaArray.java:247-257 | after the splice, the front is the first position, its `prev` is -1, and every later position's `prev` leads back |
| SlotLinks.InsertAvail | PosListWithCursorsViaArray.java:237-239 | the avail chain survives without its head when the new slot came from there |
| SlotLinks.InsertPacked | PosListWithCursorsViaArray.java:235-242 | the occupied and free slots stay disjoint and exactly `1 .. |nodes| + |avail|` |
| SlotLinks.InsertKeepsLinked | PosListWithCursorsViaArray.java:233-257 | with a slot beyond `numItems + 1`, inserting before position k keeps the whole link invariant |
| SlotLinks.InsertedItems | PosListWithCursorsViaArray.java:244 | storing the item and linking it in at index k puts the item just before index k and keeps every other item |
| SlotLinks.NewSlot | PosListWithCursorsViaArray.java:235-240 | the slot insert takes is the avail head, or `numItems + 1` when the chain is empty; `NewSlotIsFree` proves it free and within the arrays |
| SlotLinks.InsertLinks | PosListWithCursorsViaArray.java:233-257 | the links after insert's writes: the arrays' lengths are kept, `numItems` goes up by one, the new slot becomes `loc`'s predecessor, and a slot taken from the avail chain advances its head; `InsertKeepsLinked` proves they keep the invariant with the new slot at index k |
| SlotLinks.InsertStep | PosListWithCursorsViaArray.java:233-257 | the whole insert splice on values: the links and items as above, and the old position k moves to k + 1 |
| PosListViaArray.Cursor.Remove | PositionalListCursor.java:94-99 | refused at the rear, or when other cursors share the node, with nothing changed; otherwise it returns the item at the cursor, deletes it from the items, and leaves the cursor on the successor at the same index; `numItems` goes down by one, the slot heads the avail chain, and its count is 0; in every case the list keeps the same four arrays |
| PosListViaArray.Cursor.Counted | PosListWithCursorsViaArray.java:17 | the count on a live cursor's slot is at least 1, and it is exactly 1 when, and only when, no other cursor rests there (the test at line 271) |
| PosListViaArray.Cursor.RemoveUnshared | PosListWithCursorsViaArray.java:276-294 | for a cursor alone on a node: the same success effect, on the same four arrays |
| PosListViaArray.PosList.UnlinkAlone | PosListWithCursorsViaArray.java:271-292 | when one cursor alone rests on the node, unlinking it keeps the list valid except for that cursor |
| PosListViaArray.PosList.Unlink | PosListWithCursorsViaArray.java:278-292 | the node at index k leaves the chain and its slot heads the avail chain; the item at index k is dropped; the successor ends up at index k |
| PosListViaArray.PosList.SpliceOut | PosListWithCursorsViaArray.java:278-294 | the array writes of remove produce exactly `RemoveLinks` of the old links |
| PosListViaArray.AloneAt | PosListWithCursorsViaArray.java:271-274 | a slot counted at most once holds only the cursor resting there |
| PosListViaArray.PlacedAfterRemoveAlone | PosListWithCursorsViaArray.java:271-292 | when a cursor is alone on a node, every other cursor rests on a position after that node is unlinked |
| PosListViaArray.PlacedAfterRemove | PosListWithCursorsViaArray.java:278-292 | unlinking a node keeps placed every cursor not on it |
| SlotLinks.RemoveChain | PosListWithCursorsViaArray.java:278-288 | unlinking the node at index k gives the occupied chain without it |
| SlotLinks.RemoveNextLinks | PosListWithCursorsViaArray.java:286-288 | after unlinking, every node's `next` leads to the following position |
| SlotLinks.RemovePrevLinks | PosListWithCursorsViaArray.java:281-285 | after unlinking, the front is the first position, its `prev` is -1, and every later position's `prev` leads back |
| SlotLinks.RemoveAvail | PosListWithCursorsViaArray.java:291-292 | the freed slot followed by the old avail chain is the new avail chain |
| SlotLinks.RemovePacked | PosListWithCursorsViaArray.java:291-294 | the occupied and free slots stay disjoint and exactly `1 .. |nodes| + |avail|` |
| SlotLinks.RemoveKeepsLinked | PosListWithCursorsViaArray.java:278-294 | unlinking the node at index k keeps the whole link invariant, with its slot on the avail chain |
| SlotLinks.RemovedItems | PosListWithCursorsViaArray.java:276-292 | unlinking index k drops exactly the k-th item |
| SlotLinks.RemoveLinks | PosListWithCursorsViaArray.java:278-292 | the links after remove's writes: the arrays' lengths are kept, `numItems` goes down by one, and the freed slot heads the avail chain, linked to the old head; `RemoveKeepsLinked` proves they keep the invariant with the slot moved to the avail chain |
| SlotLinks.RemoveStep | PosListWithCursorsViaArray.java:278-294 | the whole unlinking on values: links and items as above, and the successor ends up at index k |
| PosListViaArray.Cursor.Replace | PosListWithCursorsViaArray.java:308-320 | refused at the rear with nothing changed; otherwise it returns the old item, and the item at that position, and only it, becomes the new one |
| SlotLinks.ReplacedItems | PosListWithCursorsViaArray.java:317-318 | overwriting the contents of the node at index k changes exactly the k-th item |
| PosListViaArray.Cursor.SwapItems | PosListWithCursorsViaArray.java:322-327 | refused before any write when either cursor is at the rear; otherwise the two items are exchanged, on one list or across two |
| PosListViaArray.Cursor.SwapWithin | PosListWithCursorsViaArray.java:324-326 | on one list, the item at each cursor becomes the other's |
| PosListViaArray.Cursor.SwapAcross | PosListWithCursorsViaArray.java:324-326 | across two lists, each list gets the other cursor's item at its cursor |
| PosListViaArray.PosList.ChangeAryLen | PosListWithCursorsViaArray.java:351-367 | when no used slot lies above `numItems`: fresh arrays of the new length holding slots `0..numItems`, with the list, its items and its cursors intact |
| SlotLinks.CopyUpTo | PosListWithCursorsViaArray.java:353-362 | what the copy loop leaves in a fresh array of length `newLen`: slot i holds the old slot i when i is at most `last`, and the fill value (null or 0) otherwise |
| PosListViaArray.CopiedArrays | PosListWithCursorsViaArray.java:353-362 | four fresh, distinct arrays of length `newLen` holding slots `0..last` of the old ones and null or 0 elsewhere |
| PosListViaArray.CountsAfterResize | PosListWithCursorsViaArray.java:356-361 | when no cursor rests above `last`, the copied counts stay accurate |
| SlotLinks.CopiedItems | PosListWithCursorsViaArray.java:357-358 | when no node lies above `last`, the copied contents give the same items |
| SlotLinks.ResizedLinks | PosListWithCursorsViaArray.java:351-367 | both link arrays get length `newLen`; `ResizeKeepsLinked` and `ResizeDropsUsedSlot` say when the copy keeps the invariant |
| SlotLinks.ShrinkDue | PosListWithCursorsViaArray.java:298-299 | when the shrink test passes, half the length is still at least the minimum length and above `numItems` |
| PosListViaArray.PosList.FullMeansPacked | PosListWithCursorsViaArray.java:228-229 | when the arrays are full, the avail chain is empty and every used slot is at most `numItems`, so growing loses nothing |
| SlotLinks.ResizeKeepsLinked | PosListWithCursorsViaArray.java:351-367 | when every used slot is at most `numItems`, copying `0..numItems` keeps the link invariant; this happens only when the avail chain is empty |
| SlotLinks.ResizeDropsUsedSlot | PosListWithCursorsViaArray.java:357-362 | when the avail chain is non-empty, the highest used slot lies above `numItems` and the copy never keeps the link invariant |
| SlotLinks.RemoveThenShrinkBreaksList | PosListWithCursorsViaArray.java:278-302 | remove as written: whenever the shrink test passes, the list after unlinking and halving the arrays is not linked |
| SlotLinks.ShrinkScenario | PosListWithCursorsViaArray.java:298-302 | a concrete reachable state in which the ninth removal shrinks 26 slots to 13 and leaves the front node pointing straight at the rear sentinel |

## Left out

- `toString`: it builds a string from each item's own `toString`, which is a foreign call. `Items()` captures the order it walks.
- `getList`: it returns the cursor's `myList` field, which the model exposes directly.
- The interface of the list: it has no behaviour beyond `isEmpty`, `lengthOf` and `getCursor`, which are modelled on the class.
- The unrelated real-function interface: it is not part of this model.
- The commented-out debugging printer and `finalize`: they are not part of the code.
- Casts and exception plumbing: the class-cast catches in `equals` and `setTo` are left out, and there is a single cursor type.
- Exceptions: they become error results, and the model states that a refused operation changes nothing.
- `null`: contents slots are `Option`. `None` stands for the null of a fresh Java array, and the model never reads such a slot as an item.
- Integer width: indices and counts are unbounded integers. `int` overflow is not modelled. This covers `2 * numItems` in the growth step (line 229), which wraps from `numItems` = 1,610,612,737 on, where Java fails to allocate and the model's insert succeeds. It also covers the reference counts, which would wrap after 2^31 - 1 cursors on one slot.
- Concurrency: none exists, and the model is sequential.
- The remove-time shrink, because it corrupts the list (see Findings): the corrected `PosListViaArray.Cursor.Remove` never shrinks, so array lengths only grow.
- PosListViaArray.Cursor.SwapItems: requires that two different lists do not share one `contents` array. Java allocates each list's arrays itself, so this always holds there.

## Findings

| source | as written | input that shows it | evidently intended | confidence | as-written member | corrected member |
|---|---|---|---|---|---|---|
| PosListWithCursorsViaArray.java:298-302 | after unlinking, when `numItems < length / 4` and `length >= 16`, remove calls `changeAryLen(length / 2)`. That copies only slots `0..numItems` (lines 357-362), but the avail chain is non-empty at that point, so some used slot lies above `numItems` and is dropped | a new list; 14 inserts through one cursor at the rear (lengths 8 → 14 → 26); `toFront`; 9 removes. The ninth remove shrinks to 13 slots and keeps slots 0..5, while the 5 remaining items sit in slots 10..14: the new front slot 10 has `next == 0`, and the avail head 9 has `next == 0` | shrinking keeps every item, link and count, for example by compacting the used slots or by not shrinking | not executed | SlotLinks.RemoveThenShrinkBreaksList | PosListViaArray.Cursor.Remove |
