# Far Away packing list — a Dafny model of its state

The app keeps a packing list of items. Each item has:
- a numeric `id`;
- a `description`;
- a `quantity`;
- a `packed` flag.

The list starts with two seed items. The list is changed by:
- a form that appends a new item;
- a checkbox that toggles an item's packed flag;
- a button that deletes an item;
- a select that reorders the list by description, packed status or input order;
- a button that clears the list.

A footer summarises the list: an invitation to start adding, "ready to travel", or the total and the packed count.

This project models that state logic from `src/App.js` in three modules:

- `Items` (`items.dfy`) holds the item record, the seed list, and these pure operations on `seq<Item>`:
  - toggle (`items.map`);
  - remove (`items.filter`);
  - submission (the new item and the guard against an empty description);
  - the packed/unpacked filters and the footer (`Stats`).
- `Ordering` (`ordering.dfy`) holds the comparators of `orderInputs` and the stable sort that `Array.prototype.sort` performs with them:
  - `SortBy` is a stable insertion sort on sequences.
  - `SortByUnique` shows that it is the only sorted, stable permutation, so the choice of sorting algorithm does not affect the result.
  - `SortInPlace` is the in-place sort of the copied array, proved equal to `SortBy`.
- `PackingApp` (`app.dfy`) holds the two stateful components:
  - `App` has an `items` field that every handler replaces, as `setItems` does.
  - `Form` has `quantity` and `description` fields, and its submit handler appends to an `App`.
  - `PlanTrip` walks one session through the handlers' contracts.

The new item's id is `itemLength + 1`, as the form computes it. It is not a fresh counter. After a removal, the next submission can therefore reuse an id that is still in the list. For a list numbered 1..n in list order, which is what submissions alone build, two lemmas together state exactly when this happens. `RemoveThenSubmitDuplicatesId` shows that removing any item but the last and then submitting duplicates an id. `RemoveThenSubmitKeepsDistinct` shows that removing the last item, or an id no item carries, keeps ids distinct. Lists that have been reordered are not covered by this pair. The rest of the model keeps this behaviour as written.

## Model

| member | source | states |
|---|---|---|
| Items.CountId | src/App.js:21 | the number of items carrying an id is at most the length, and zero exactly when no item carries it |
| Items.Toggle | src/App.js:12-17 | the length is kept; every item keeps its id, description and quantity; `packed` is flipped exactly on the items whose id matches; every other item is unchanged |
| Items.ToggleTail | src/App.js:13-15 | toggling maps item by item, so it commutes with dropping the first item |
| Items.ToggleAbsent | src/App.js:13-15 | toggling an id no item carries leaves the list unchanged |
| Items.ToggleTwice | src/App.js:12-17 | toggling the same id twice restores the list |
| Items.Remove | src/App.js:20-23 | the result is shorter by the number of items carrying the id, and no survivor carries it |
| Items.RemoveMembers | src/App.js:21 | an item survives removal exactly when it was in the list and has a different id |
| Items.RemoveAppend | src/App.js:21 | removal distributes over concatenation, so survivors keep their relative order |
| Items.RemoveAbsent | src/App.js:21 | removing an id nobody carries leaves the list unchanged |
| Items.RemoveUnique | src/App.js:20-23 | with distinct ids, removing a present id shortens the list by exactly one |
| Items.DistinctTail | src/App.js:21 | dropping the first item keeps ids distinct |
| Items.HeadIdFresh | src/App.js:21 | with distinct ids, the first item's id occurs nowhere after it |
| Items.DistinctCons | src/App.js:21 | an item with a fresh id placed in front of distinct ids keeps them distinct |
| Items.CountIdDistinct | src/App.js:21 | with distinct ids, a present id is carried by exactly one item |
| Items.RemoveKeepsDistinct | src/App.js:20-23 | removal keeps ids distinct |
| Items.Submit | src/App.js:90-103 | an empty description yields no change (the alert path), and only an empty one does; otherwise the old list is kept as the prefix and one item is appended with id `length + 1`, the given description and quantity, and unpacked |
| Items.NewItem | src/App.js:95-100 | the new item has id `itemLength + 1`, the form's description and quantity, and is not packed |
| Items.SubmitKeepsNumbering | src/App.js:93-100 | submissions alone keep ids numbered 1..n in list order, hence distinct |
| Items.RemoveThenSubmitDuplicatesId | src/App.js:93-100 | on a list numbered 1..n, removing any item but the last and then submitting produces a duplicate id |
| Items.DistinctSnoc | src/App.js:26-29 | appending an item whose id is fresh keeps ids distinct |
| Items.RemoveThenSubmitKeepsDistinct | src/App.js:93-100 | on a list numbered 1..n, removing the last item or an absent id and then submitting keeps ids distinct: the converse of the row above |
| Items.PackedItems | src/App.js:203 | the packed filter is no longer than the list |
| Items.UnpackedItems | src/App.js:39-41 | the unpacked filter is no longer than the list |
| Items.PackedMembers | src/App.js:203 | the packed filter keeps exactly the packed items of the list, and the unpacked filter exactly the unpacked ones |
| Items.PackedCount | src/App.js:203 | `packedItems`, the length of the packed filter, is at most the total; its meaning is stated by the two rows below |
| Items.PackedCountFull | src/App.js:202-208 | the packed count equals the total exactly when every item is packed |
| Items.PackedCountZero | src/App.js:203 | the packed count is zero exactly when no item is packed |
| Items.TogglePacksOne | src/App.js:12-17 | with distinct ids, ticking an unpacked item raises the packed count by exactly one |
| Items.Stats | src/App.js:193-216 | the footer invites adding exactly when the list is empty; it says "ready to travel" exactly when the list is non-empty and all items are packed; otherwise it shows the total and the packed count, with packed < total |
| Ordering.CompareText | src/App.js:36 | the text comparison returns -1, 0 or 1 |
| Ordering.CompareTextZero | src/App.js:36 | two texts compare as equal exactly when they are equal |
| Ordering.CompareTextFlip | src/App.js:36 | swapping the arguments negates the comparison |
| Ordering.CompareTextTransitive | src/App.js:36 | "not after" on texts is transitive |
| Ordering.OrderOf | src/App.js:34-48 | "description", "packed" and "input" select the three criteria, each exactly on its own value; any other value selects none |
| Ordering.Compare | src/App.js:36-44 | the comparator passed to `sort` for each criterion: the text comparison of the descriptions (line 36); zero for equal packed flags, otherwise positive exactly when the first item is packed (lines 39-41); the difference of the ids (line 44). It has no contract of its own: `CompareSign` states what each result means |
| Ordering.CompareSign | src/App.js:36-44 | the description and packed comparators return -1, 0 or 1; descriptions tie exactly when equal; by packed status, items tie exactly when their flags agree and an unpacked item goes before a packed one; by input, ids tie exactly when equal and a smaller id goes first |
| Ordering.CompareAntisymmetric | src/App.js:36-44 | for every criterion, swapping the arguments flips the comparison's sign and keeps ties |
| Ordering.CompareTransitive | src/App.js:36-44 | for every criterion, "not after" is transitive |
| Ordering.CompareReflexive | src/App.js:36-44 | every item ties with itself |
| Ordering.TieTransitive | src/App.js:36-44 | two items that tie with a third tie with each other |
| Ordering.TiesAppend | src/App.js:36-44 | the items tying with `e` in a concatenation are those of each part, in order |
| Ordering.TiesSnoc | src/App.js:36-44 | the same, for appending one item |
| Ordering.Insert | src/App.js:36-44 | one insertion step adds exactly one element |
| Ordering.InsertPermutation | src/App.js:36-44 | insertion adds exactly the inserted item to the multiset |
| Ordering.SortBy | src/App.js:36-44 | the sort keeps the length |
| Ordering.SortByPermutation | src/App.js:36-44 | the sort is a permutation of its input |
| Ordering.SortedSnoc | src/App.js:36-44 | appending an item that nothing earlier is put after keeps a list sorted |
| Ordering.BelowLast | src/App.js:36-44 | in a sorted list, the items before the last and an item inserted before the last are not put after the last |
| Ordering.InsertSorted | src/App.js:36-44 | insertion into a sorted list keeps it sorted |
| Ordering.SortBySorted | src/App.js:36-44 | the sort puts the items in comparator order |
| Ordering.InsertTies | src/App.js:36-44 | insertion keeps the relative order of tying items |
| Ordering.SortByStable | src/App.js:36-44 | the sort is stable: items that tie keep their relative order |
| Ordering.SortBySortedIdentity | src/App.js:36-44 | sorting an already sorted list changes nothing |
| Ordering.SortByIdempotent | src/App.js:36-44 | choosing the same criterion twice is the same as choosing it once |
| Ordering.TiesLast | src/App.js:36-44 | an item that ties with `e` and ends the list ends its ties with `e` |
| Ordering.SortedLastIsMax | src/App.js:36-44 | the last item of a sorted list is not put before any of its items |
| Ordering.PermutationFacts | src/App.js:36-44 | permutations have the same length and the same members |
| Ordering.SameLast | src/App.js:36-44 | two sorted, stable permutations of each other end with the same item |
| Ordering.TiesDropLast | src/App.js:36-44 | stability survives dropping that common last item |
| Ordering.MultisetSnoc | src/App.js:36-44 | a list's multiset is its front's plus its last element |
| Ordering.PermutationDropLast | src/App.js:36-44 | permutations ending in the same item stay permutations without it |
| Ordering.SameInitAndLast | src/App.js:36-44 | lists with the same front and the same last element are equal |
| Ordering.SortedInit | src/App.js:36-44 | the front of a sorted list is sorted |
| Ordering.SortedStableUnique | src/App.js:36-44 | two sorted lists that are permutations of each other, with ties in the same order, are equal |
| Ordering.SortByUnique | src/App.js:36-44 | any sorted, stable permutation of a list equals `SortBy` of it, so any stable `sort` gives this result |
| Ordering.SortByInputIds | src/App.js:43-44 | sorting by input order leaves ids non-decreasing |
| Ordering.SortByDescriptionOrdered | src/App.js:35-36 | sorting by description leaves descriptions in lexicographic order |
| Ordering.TiesPacked | src/App.js:38-41 | under the packed comparator, the items tying with `e` are the packed items or the unpacked items, as `e` is |
| Ordering.PackedAppend | src/App.js:38-41 | both filters distribute over concatenation |
| Ordering.SortByPackedPartition | src/App.js:38-41 | sorting by packed status gives the unpacked items in list order, then the packed ones in list order |
| Ordering.PartitionSorted | src/App.js:38-41 | that partition is sorted by the packed comparator |
| Ordering.PartitionStable | src/App.js:38-41 | that partition keeps tying items in list order |
| Ordering.PartitionPermutation | src/App.js:38-41 | that partition is a permutation of the list |
| Ordering.PartitionParts | src/App.js:38-41 | filtering is idempotent, and each filter drops everything the other keeps |
| Ordering.Reorder | src/App.js:31-52 | the result is a permutation of the list; an unknown value leaves it unchanged; a known criterion leaves it sorted and stable by that criterion |
| Ordering.ReorderIdempotent | src/App.js:31-52 | choosing the same value of the sort select twice gives the same list as choosing it once |
| Ordering.InsertAt | src/App.js:36-44 | insertion places the item right after the last element not put after it |
| Ordering.Shifted | src/App.js:36-44 | an array laid out as front, item, back begins with that concatenation |
| Ordering.InsertedPrefix | src/App.js:36-44 | an array laid out around the insertion point begins with `Insert` of the item |
| Ordering.InsertInPlace | src/App.js:36-44 | one in-place insertion step leaves the prefix equal to `Insert` of the old prefix and the moved item, and the rest of the array unchanged |
| Ordering.SortByStep | src/App.js:36-44 | sorting one more element is inserting it into the sorted prefix |
| Ordering.SortInPlace | src/App.js:36-44 | the in-place sort leaves the array equal to `SortBy` of its old contents |
| PackingApp.App.constructor | src/App.js:3-9 | the list starts as the two seed items, Passports ×2 and Socks ×12, both unpacked |
| PackingApp.App.TogglePacked | src/App.js:12-17 | the new list is the toggle of the old one |
| PackingApp.App.ClearSelect | src/App.js:20-23 | the new list is the old one without the items carrying the id |
| PackingApp.App.HandleAddItem | src/App.js:26-29 | the new list is the old one with the item appended |
| PackingApp.App.OrderInputs | src/App.js:31-52 | the new list is the reorder of the old one, computed by sorting a copied array in place |
| PackingApp.App.ClearList | src/App.js:54-56 | the new list is empty |
| PackingApp.Form.constructor | src/App.js:79-80 | the form starts with quantity 1 and an empty description |
| PackingApp.Form.HandleQuantityChange | src/App.js:82-84 | the quantity becomes the chosen value; the description is kept |
| PackingApp.Form.HandleDescriptionChange | src/App.js:86-88 | the description becomes the typed value; the quantity is kept |
| PackingApp.Form.HandleSubmit | src/App.js:90-108 | it alerts exactly when the description is empty, and then changes nothing; otherwise the app's list becomes `Submit` of the old list and the form resets to quantity 1 and an empty description |

## Left out

- Rendering (JSX, `Logo`, `Item`, `PackingList`'s markup), styling and React's re-render cycle: they are presentation, not state.
- `PackingList`'s own `sortby` state (lines 144-150) only mirrors the select's value for display. The model goes straight to `OrderInputs`.
- `alert`: it is a side effect only. The model reports it as `HandleSubmit`'s `alerted` result.
- `event.preventDefault()`: it concerns browser form submission, not the list.
- Form.HandleQuantityChange: takes the integer that `parseInt` would produce. The parse of the select's text (and its `NaN` case) is not modelled.
- The 1–100 quantity options (lines 110-118): they only build the select's choices. Quantity is a plain `int`, not range-checked.
- The percentage text (`toFixed(2)`, line 213): it is floating-point formatting. `Stats` reports the total and the packed count it is computed from.
- Ordering.CompareText: compares by character code, lexicographically. It does not model `localeCompare`'s locale-dependent collation (case, accents, ordering of punctuation).
- The engine's sorting algorithm: `SortBy` is an insertion sort. `SortByUnique` shows that any stable sort yields the same list, and `Array.prototype.sort` is stable.
- Ordering.CompareText, Ordering.Insert, Ordering.SortBy, Items.PackedItems, Items.UnpackedItems, Items.PackedCount: their own `ensures` state only lengths or bounds. The meaning of each is proved in the lemmas listed beside it (membership, permutation, order, stability).
- Ids are unbounded integers. JavaScript number precision is not modelled, since lists never reach 2^53 items.
