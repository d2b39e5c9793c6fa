# Resume section ordering and list reordering, in Dafny

This project models the two list helpers of a resume-building interface and proves
what they promise.

- **Section order normalizer** (`section_order.dfy`, module `SectionOrder`). A resume has
  seven sections. Their canonical order is `DEFAULT_SECTION_ORDER`, written here
  `DefaultSectionOrder`. `normalizeSectionOrder` accepts a caller's order, which may be
  absent, partial, duplicated or contain unknown values. It returns every section
  exactly once. The recognised keys of the input come first, at their first
  occurrence and in input order. The missing keys follow in canonical order. The
  method `NormalizeSectionOrder` keeps the source's two loops that push onto a fresh
  array. It is proved equal to the specification function `Normalized`, and the
  lemmas state what `Normalized` means.
- **List item mover** (`reorder.dfy`, module `Reorder`). `moveItem` changes the caller's
  list in place. It removes the element at `from` and reinserts it at `to`, clamped to
  the shortened list. A `from` equal to `to`, or outside the list, does nothing. The
  list is a class `ItemList` with a `seq` field. `MoveItem` reassigns that field with
  the source's two splices. It is proved equal to `Moved`, which is defined index by
  index instead. The lemmas prove what `Moved` promises.

Modelling choices:

- A section key is the datatype `SectionKey`. `Name` gives the string it is at run time.
- An input element is an `Entry`. It is either `Key(k)` or `Foreign(text)`. A `Foreign`
  text is any string other than the seven key strings. `NameIsBijection` shows that
  distinct keys have distinct strings, so each string has exactly one
  representation. An unknown value can therefore be modelled and dropped.
- The optional argument (`undefined`, `null` or a non-array) is `Option<seq<Entry>>`.
  `None` is read as the empty array, as in sectionOrder.ts line 15.
- The input is a `seq` value, so the normalizer cannot mutate it. The result is a new
  value.
- JavaScript numbers for `from` and `to` are `int`.

## Model

| member | source | states |
|---|---|---|
| `SectionOrder.Name` | src/constants/sectionOrder.ts:4-10 | each section key's run-time string is one of the seven key strings |
| `SectionOrder.NameIsBijection` | src/constants/sectionOrder.ts:4-10 | distinct keys have distinct strings, and the key strings are exactly the seven literals, so a string names at most one key |
| `SectionOrder.DefaultIsCanonical` | src/constants/sectionOrder.ts:3-11 | the default order has seven keys, without duplicates. Every key appears in it, at the position given by its rank |
| `SectionOrder.NormalizeSectionOrder` | src/constants/sectionOrder.ts:13-30 | the two push loops compute `Normalized(order)`. The result holds every key exactly once and has the default order's length |
| `SectionOrder.FirstOccurrencesMembers` | src/constants/sectionOrder.ts:17-21 | the first loop keeps no duplicates. A key is kept if and only if the input holds it |
| `SectionOrder.FirstOccurrencesOrder` | src/constants/sectionOrder.ts:17-21 | the kept keys appear in the order of their first occurrences in the input |
| `SectionOrder.FirstOccurrencesOfDistinct` | src/constants/sectionOrder.ts:17-21 | a duplicate-free input of keys is kept unchanged, in the same order |
| `SectionOrder.AbsentMembers` | src/constants/sectionOrder.ts:23-27 | the second loop appends a key if and only if it is canonical and not already in the result |
| `SectionOrder.AbsentInOrder` | src/constants/sectionOrder.ts:23-27 | keys are appended in canonical order |
| `SectionOrder.AbsentFromNothing` | src/constants/sectionOrder.ts:23-27 | after an empty first loop, every canonical key is appended in order |
| `SectionOrder.AbsentFromAll` | src/constants/sectionOrder.ts:23-27 | when every key is already present, nothing is appended |
| `SectionOrder.NormalizedIsComplete` | src/constants/sectionOrder.ts:13-30 | for every input, the result holds every key exactly once |
| `SectionOrder.NormalizedShape` | src/constants/sectionOrder.ts:17-27 | the result is a prefix followed by a suffix. The prefix holds exactly the input's keys, in first-occurrence order. The suffix holds exactly the keys the input lacks, in canonical order |
| `SectionOrder.NormalizedOfNothing` | src/constants/sectionOrder.ts:15-27 | an absent, null or empty input gives exactly `DEFAULT_SECTION_ORDER` |
| `SectionOrder.NormalizedFixesCompleteOrder` | src/constants/sectionOrder.ts:17-27 | an input that already holds every key exactly once comes back unchanged |
| `SectionOrder.CompleteOrderIsPermutation` | src/constants/sectionOrder.ts:3-11 | holding every key exactly once is the same as being a permutation of the default order. Such an order has seven elements |
| `SectionOrder.NormalizedFixesPermutation` | src/constants/sectionOrder.ts:17-27 | a permutation of the default order comes back unchanged |
| `SectionOrder.NormalizedIdempotent` | src/constants/sectionOrder.ts:13-30 | normalizing an already-normalized order returns it unchanged |
| `SectionOrder.UnknownKeyDropped` | src/constants/sectionOrder.ts:18 | an unknown value is dropped. With `education` after it, the result is `education` followed by the other six keys in canonical order |
| `Reorder.Clamp` | src/utils/reorder.ts:8-10 | the target index stays in range. It equals `to` unless `to` lies below or above that range, in which case it is the nearest bound |
| `Reorder.RemoveAt` | src/utils/reorder.ts:5 | `splice(from, 1)` shortens the list by one and shifts the later elements down |
| `Reorder.InsertAt` | src/utils/reorder.ts:12 | `splice(t, 0, item)` places the item at `t` and shifts the later elements up |
| `Reorder.Moved` | src/utils/reorder.ts:1-13 | a call never changes the list's length |
| `Reorder.ItemList.MoveItem` | src/utils/reorder.ts:1-13 | the list after the two splices is `Moved` of the list before |
| `Reorder.MovedIsRemoveThenInsert` | src/utils/reorder.ts:5-12 | a valid move is removal at `from` followed by insertion of that element at the clamped target |
| `Reorder.MovedNoOp` | src/utils/reorder.ts:2-3 | `from == to` (tested before the bounds), or `from` outside the list, leaves the list unchanged |
| `Reorder.MovedPermutes` | src/utils/reorder.ts:5-12 | every call keeps the length and the multiset of elements |
| `Reorder.RemoveAtMultiset` | src/utils/reorder.ts:5 | removing an element takes exactly that element out of the multiset |
| `Reorder.InsertAtMultiset` | src/utils/reorder.ts:12 | inserting an element adds exactly that element to the multiset |
| `Reorder.MovedPlacesItem` | src/utils/reorder.ts:8-12 | the moved element lands at `to` clamped to `[0, length-1]`. A negative `to` puts it first; a `to` at or past the last index puts it last |
| `Reorder.MovedKeepsOthersInOrder` | src/utils/reorder.ts:5-12 | removing the moved element from the result gives the original list without it. The other elements keep their relative order |
| `Reorder.MoveBackRestores` | src/utils/reorder.ts:1-13 | moving the element back from where it landed to `from` restores the original list |
| `Reorder.MoveExamples` | src/utils/reorder.ts:1-13 | `[a,b,c,d]` 0→2 gives `[b,c,a,d]`. `[a,b,c]` 0→99 gives `[b,c,a]` and 2→-5 gives `[c,a,b]`. 1→1 and 5→0 leave `[a,b,c]` unchanged |

## Left out

- The `item === undefined` branch of reorder.ts line 6 is not modelled. When the slot at `from` holds `undefined`, the source removes the element and does not reinsert it. Dafny element types have no `undefined`, so in the model every valid move reinserts the element.
- The run-time type test `Array.isArray` (sectionOrder.ts line 15) becomes the `Option` argument. Any non-array value is `None`.
- The `Foreign` alternative of `Entry` stands for every non-key value, including non-strings such as numbers or `null` inside the array. Their identity is not modelled, only that they are not keys.
- Non-integer, `NaN` and infinite numbers passed as `from` or `to` are not modelled. Indices are mathematical integers.
- The `SectionKey` type of `../types/resume` is not part of this model. It is rebuilt from the seven literals of the default order.
- Callers (drag-and-drop, rendering, persistence) are outside both files and are not modelled.
- The list that `moveItem` mutates is modelled as a `seq` field of a class. Aliasing of that array by other holders is not modelled.
