# GPS.Collections: sparse arrays and an ordered dictionary, in Dafny

This project models three collections from the C# library GPS.Collections.

- **`LinkedArray<T>`**
  - A sparse list indexed by any `int`.
  - It holds a chain of `ArrayLink<T>` segments rooted at index 0.
  - Each segment covers a window `[Start, Start + ArraySize)` and allocates its storage on the first write into it.
  - A write outside every window creates a `Lower` or `Higher` neighbour. The neighbour is `ArraySize * 1.25` slots, rounded up.
  - `Lowest` and `Highest` are updated on each write by the setter's rule (`ArrayLinks.WriteBounds`), which is not always the minimum and maximum of the written indices. `Count` is derived from them.
  - Operations that would shift indices (`Insert`, `Remove`, `RemoveAt`) are rejected.
  - A `LinkedArrayEnumerator` walks the written indices from `Lowest` to `Highest`.
- **`MatrixArray<T>`**
  - A sparse list over two fixed tables of 32768 pages, one for indices ≥ 0 and one for negative indices.
  - Each page has `depth` cells (1024 by default) and is allocated on its first write.
  - Index `i` lives on page `|i| / depth` at position `|i| % depth`.
  - A `MatrixArrayEnumerator` walks the written cells.
- **`OrderedConcurrentDictionary<K, V>`**
  - A dictionary for lookups beside a queue of `(key, value)` pairs.
  - The queue fixes the order of `Keys`, `Values` and enumeration.
  - `Reorder` replaces the queue with a stable sort of it by a selected key, ascending or descending.

## How each part is modelled

**Segment chain.** The chain of segments is a datatype (`ArrayLinks.ArrayLink`) with pure functions:
- `Get` is the indexer's getter.
- `Set` is the indexer's setter; it returns the new chain.

**`LinkedArray`.** A class whose methods reassign its `root` field.
- Its `Valid` invariant ties the chain to a ghost map `Contents` of every index written.
- Every operation is specified against that map and the bounds the setter keeps.

**`MatrixArray`.** A class over two `array`s of pages.
- Its ghost map `Contents` records every written index.
- `Valid` says that a cell reads back exactly what `Contents` holds.

**`OrderedConcurrentDictionary`.** A class with a `map` field and a `seq` field for the queue.
- `Valid` says the queue names each key once and only keys of the dictionary.
- `Synced` adds that every key of the dictionary is queued.
- `Reorder` is specified by a stable insertion sort, `StableSorting.SortBy`. That function is proved to:
  - return a permutation of its input;
  - produce sorted output under a total preorder;
  - keep tied elements in their original order.

**Code against documentation.** Where the code and its documentation disagree, the model follows the code.
- A segment's `Lowest` and `Highest` are not the minimum and maximum of the written keys.
  - A write routed to `Lower` only lowers `Lowest`; one routed to `Higher` only raises `Highest`.
  - `ArrayLinks.WriteBounds` states this, and `ArrayLinks.HighestMissesLaterLowerWrite` shows it.
- `LinkedArrayEnumerator.MoveNext` calls `IsSet` on the list, but `LinkedArray.cs` has no such member.
  - The model adds `LinkedArrays.LinkedArray.IsSet`: "the index holds a written value".

**Error cases.** Exceptions are modelled as error values:
- `Result` carries a value or an error.
- `Outcome` is `Pass` or `Fail(error)`.
- The `Error` kinds are those the source throws: index out of range, invalid operation, not implemented, divide by zero, argument, key not found.

**`default(T)`.** C#'s `default(T)` is a constructor parameter: `empty`, `dflt` or `defaultPair`.

## Model

| member | source | states |
|---|---|---|
| ArrayLinks.Capacity | src/GPS.Collections/ArrayLink.cs:116-121 | a segment's size is abs(size) raised to at least 1024, and is one of the two |
| ArrayLinks.NextSize | src/GPS.Collections/ArrayLink.cs:202-206 | a neighbour's size is the least integer r with 5·size ≤ 4·r (`ArraySize * 1.25` rounded up) |
| ArrayLinks.NextSizeIsIntegerCeiling | src/GPS.Collections/ArrayLink.cs:202-206 | the rounded-up product equals (5n + 3) / 4 for every n |
| ArrayLinks.FirstNeighbourSize | src/GPS.Collections/ArrayLink.cs:36-44 | a 1024-slot segment grows a 1280-slot neighbour, spanning 2304 together |
| ArrayLinks.SourceOffset | src/GPS.Collections/ArrayLink.cs:188-190 | the offset as written is `key - Start` when key and `Start` lie on the same side of 0, and `key + Start` when they do not |
| ArrayLinks.Offset | src/GPS.Collections/ArrayLink.cs:253-255 | the intended in-window offset is below the size and lands on the key |
| ArrayLinks.SourceOffsetAgrees | src/GPS.Collections/ArrayLink.cs:188-190 | the source's `Abs(key) - Abs(Start)` offset is the true offset in any window that does not straddle 0 |
| ArrayLinks.SourceOffsetAliasesAcrossZero | src/GPS.Collections/ArrayLink.cs:253-255 | in a window straddling 0 two keys share one slot and a key gets a negative offset |
| ArrayLinks.WriteBounds | src/GPS.Collections/ArrayLink.cs:209-258 | the first write sets both bounds; a write below the window changes only `Lowest`, one above only `Highest`, one inside takes min and max |
| ArrayLinks.WriteInWindowExtends | src/GPS.Collections/ArrayLink.cs:257-258 | a write inside the window extends the bounds to the key |
| ArrayLinks.HighestMissesLaterLowerWrite | src/GPS.Collections/ArrayLink.cs:217-231 | writing -5 then -3 at a segment at 0 leaves `Highest` at -5, below a written key |
| ArrayLinks.WriteBoundsStayWritten | src/GPS.Collections/ArrayLink.cs:209-258 | after any write both bounds are still written keys, in order |
| ArrayLinks.Lo | src/GPS.Collections/ArrayLink.cs:100 | the chain reaches no higher than its own start at its low end |
| ArrayLinks.Hi | src/GPS.Collections/ArrayLink.cs:107 | the chain reaches at least to its own window's end at its high end |
| ArrayLinks.SlotInExtent | src/GPS.Collections/ArrayLink.cs:157-197 | only keys inside the chain's windows can hold a value |
| ArrayLinks.New | src/GPS.Collections/ArrayLink.cs:116-121 | a new segment has the given start, `Capacity(size)` slots, no storage, no neighbours, no bounds |
| ArrayLinks.NewIsEmpty | src/GPS.Collections/ArrayLink.cs:116-121 | a new segment holds no key |
| ArrayLinks.Get | src/GPS.Collections/ArrayLink.cs:159-197 | the getter fails with IndexOutOfRange exactly on an unwritten root or a key outside the windows, else returns the slot's value or `default(T)` |
| ArrayLinks.SourceGet | src/GPS.Collections/ArrayLink.cs:159-197 | the getter as written, with the abs-formula offset: an offset outside the storage throws IndexOutOfRange |
| ArrayLinks.UpwardUnstraddled | src/GPS.Collections/ArrayLink.cs:238-242 | Higher neighbours of a window at or above 0 all start at or above 0 |
| ArrayLinks.DownwardUnstraddled | src/GPS.Collections/ArrayLink.cs:221-225 | Lower neighbours of a window ending at or below 0 all end at or below 0 |
| ArrayLinks.ZeroRootedUnstraddled | src/GPS.Collections/ArrayLink.cs:221-242 | no window of a chain rooted at 0 straddles 0 |
| ArrayLinks.SourceGetAgrees | src/GPS.Collections/ArrayLink.cs:186-196 | on a chain with no window straddling 0 the getter as written equals `Get` |
| ArrayLinks.SourceGetAliasesAcrossZero | src/GPS.Collections/ArrayLink.cs:186-196 | in a standalone window [-10, 1014), a value written at -5 is read back by the source at 15 as well |
| ArrayLinks.Store | src/GPS.Collections/ArrayLink.cs:261-262 | storage is allocated empty if missing and exactly one slot takes the value |
| ArrayLinks.Set | src/GPS.Collections/ArrayLink.cs:199-263 | the setter keeps the chain's shape and start and updates the bounds by `WriteBounds`; a missing neighbour on the key's side is created flush against the window with `NextSize(ArraySize)` slots (`Lower` at `Start - NextSize`, `Higher` at `Start + ArraySize`); an existing neighbour keeps its window, and the other side is untouched |
| ArrayLinks.SetSlot | src/GPS.Collections/ArrayLink.cs:199-263 | after a write the key holds the value and every other key's slot is unchanged |
| ArrayLinks.SetSlotBelow | src/GPS.Collections/ArrayLink.cs:217-231 | the same for a key routed to the `Lower` neighbour |
| ArrayLinks.SetSlotAbove | src/GPS.Collections/ArrayLink.cs:234-248 | the same for a key routed to the `Higher` neighbour |
| ArrayLinks.SetLo | src/GPS.Collections/ArrayLink.cs:217-231 | after a write the chain covers the key, and grows downwards only for a key below its start |
| ArrayLinks.SetHi | src/GPS.Collections/ArrayLink.cs:234-248 | after a write the chain covers the key, and grows upwards only for a key above its window |
| ArrayLinks.WriteThenRead | src/GPS.Collections/ArrayLink.cs:157-263 | a written key reads back its value and every other readable key reads as before |
| ArrayLinks.SetKeepsBoundsWritten | src/GPS.Collections/ArrayLink.cs:209-258 | if a segment's `Lowest` and `Highest` hold values, they still do after any write through it |
| ArrayLinks.FirstNeighbours | src/GPS.Collections/ArrayLink.cs:221-241 | writing 1024 creates the neighbour [1024, 2304); writing -1 creates [-1280, 0) |
| SparseCommon.Span | src/GPS.Collections/ArrayLink.cs:79-87 | `Size` is `Highest - Lowest + 1` for ordered bounds, 0 before any write |
| SparseCommon.Extend | src/GPS.Collections/MatrixArray.cs:210-219 | a write extends the bounds to contain the key, or sets both on the first write |
| SparseCommon.ExtendEncloses | src/GPS.Collections/MatrixArray.cs:210-219 | taking min and max keeps the bounds exactly the least range of the written keys |
| SparseCommon.OverwriteAt | src/GPS.Collections/LinkedArray.cs:122-128 | writing a run from `index` sets `index + j` to `c[j]` and leaves other keys alone |
| SparseCommon.OverwriteSnoc | src/GPS.Collections/LinkedArray.cs:124-127 | a run's write of one more element is one more single write |
| LinkedArrays.RunBounds | src/GPS.Collections/LinkedArray.cs:120-128 | the bounds after writing a run in order; unchanged for an empty run |
| LinkedArrays.RunBoundsReachingWindow | src/GPS.Collections/LinkedArray.cs:120-128 | a run reaching the window from at or above `Lowest` keeps `Lowest` and raises `Highest` to its last key |
| LinkedArrays.RunBoundsBelowWindow | src/GPS.Collections/LinkedArray.cs:120-128 | a run wholly below the window leaves `Highest` where it was |
| LinkedArrays.TwoAppendsBounds | src/GPS.Collections.Tests/LinkedArray_Tests.cs:86-104 | two `AddRange` of n values span 0 .. 2n-1, so `Count` is 2n |
| LinkedArrays.TwoAppendsValues | src/GPS.Collections.Tests/LinkedArray_Tests.cs:86-104 | after two `AddRange` of s, index i holds s[i mod len(s)] |
| LinkedArrays.FromMinusOne | src/GPS.Collections.Tests/LinkedArray_Tests.cs:106-123 | `AddRangeAt(-1, s)` on an empty list gives `Lowest` -1 and `Count` len(s) |
| LinkedArrays.RunBelowZeroCountsOne | src/GPS.Collections/LinkedArray.cs:120-128 | five writes from -10 on an empty list leave `Count` at 1 |
| LinkedArrays.AppendBelowZeroStaysPut | src/GPS.Collections/LinkedArray.cs:104-107 | when `Highest` is below -1 an append does not raise `Highest`, so the next append writes the same index |
| LinkedArrays.LinkedArray.Initialized | src/GPS.Collections/LinkedArray.cs:106 | the root's `Initialized` flag is set exactly when the list holds a value |
| LinkedArrays.LinkedArray.InitializedHolds | src/GPS.Collections/LinkedArray.cs:106 | a written root holds its `Lowest`, and an unwritten root holds nothing |
| LinkedArrays.LinkedArray.Lowest | src/GPS.Collections/LinkedArray.cs:43 | once the list is written, `Lowest` is an index holding a value, at or below `Highest` |
| LinkedArrays.LinkedArray.Highest | src/GPS.Collections/LinkedArray.cs:48 | once the list is written, `Highest` is an index holding a value |
| LinkedArrays.LinkedArray.At | src/GPS.Collections/LinkedArray.cs:142-149 | the value at an index is the one written there, else `default(T)` |
| LinkedArrays.LinkedArray.constructor | src/GPS.Collections/LinkedArray.cs:58-61 | an empty list with a 1024-slot root |
| LinkedArrays.LinkedArray.WithValue | src/GPS.Collections/LinkedArray.cs:71-74 | a list holding one value, with `Lowest == Highest == index` and `Count` 1 |
| LinkedArrays.LinkedArray.WithCapacity | src/GPS.Collections/LinkedArray.cs:81-84 | an empty list whose root has `Capacity(initialSize)` slots |
| LinkedArrays.LinkedArray.FromCollection | src/GPS.Collections/LinkedArray.cs:91-96 | the collection's values at 0, 1, ..., with the bounds of that run |
| LinkedArrays.LinkedArray.Get | src/GPS.Collections/LinkedArray.cs:142-146 | reads the written value; fails exactly on a list never written or an index outside the windows; equals the segment getter as written, abs-formula offset included |
| LinkedArrays.LinkedArray.IsSet | src/GPS.Collections/LinkedArrayEnumerator.cs:70 | true exactly for an index holding a written value |
| LinkedArrays.LinkedArray.Count | src/GPS.Collections/LinkedArray.cs:154 | `Highest - Lowest + 1` after a write, positive; 0 before any |
| LinkedArrays.LinkedArray.SetItem | src/GPS.Collections/LinkedArray.cs:142-149 | the index takes the value, nothing else changes, the bounds follow `WriteBounds` |
| LinkedArrays.LinkedArray.AddRangeAt | src/GPS.Collections/LinkedArray.cs:120-128 | `c[j]` is written at `index + j` for every j, in order |
| LinkedArrays.LinkedArray.AddRange | src/GPS.Collections/LinkedArray.cs:104-107 | appends from `Highest + 1` (0 on an empty list); a run ending at or above 0 sets `Highest` to its last index |
| LinkedArrays.LinkedArray.Add | src/GPS.Collections/LinkedArray.cs:165-168 | appends one value after `Highest` and, at or above 0, raises `Count` by one |
| LinkedArrays.LinkedArray.Clear | src/GPS.Collections/LinkedArray.cs:173-177 | nothing is held, `Count` is 0 and every read fails |
| LinkedArrays.LinkedArray.IndexOf | src/GPS.Collections/LinkedArray.cs:215-223 | the first index from `Lowest` holding the item, else `Lowest - 1`; fails on a list never written |
| LinkedArrays.LinkedArray.Contains | src/GPS.Collections/LinkedArray.cs:184-187 | true exactly when some index from `Lowest` to `Highest` holds the item |
| LinkedArrays.LinkedArray.Insert | src/GPS.Collections/LinkedArray.cs:230-234 | always an invalid-operation error |
| LinkedArrays.LinkedArray.Remove | src/GPS.Collections/LinkedArray.cs:241-245 | always an invalid-operation error |
| LinkedArrays.LinkedArray.RemoveAt | src/GPS.Collections/LinkedArray.cs:251-255 | always an invalid-operation error |
| LinkedArrays.LinkedArray.CopyTo | src/GPS.Collections/LinkedArray.cs:194-198 | always a not-implemented error |
| LinkedArrayEnumerators.LinkedArrayEnumerator.constructor | src/GPS.Collections/LinkedArrayEnumerator.cs:36-40 | the cursor starts just below `Lowest` |
| LinkedArrayEnumerators.LinkedArrayEnumerator.Current | src/GPS.Collections/LinkedArrayEnumerator.cs:46-48 | the value at the cursor through the indexer, failing exactly on a list never written or a cursor outside every window (such as `Lowest - 1` on a fresh cursor); an unwritten index inside a window reads `default(T)`, and the `Int32.MinValue` sentinel reads `default(T)` |
| LinkedArrayEnumerators.LinkedArrayEnumerator.MoveNext | src/GPS.Collections/LinkedArrayEnumerator.cs:68-75 | moves to the next written index up to `Highest` (skipping none) or to `Highest + 1`, true exactly when it found one |
| LinkedArrayEnumerators.LinkedArrayEnumerator.Reset | src/GPS.Collections/LinkedArrayEnumerator.cs:80-83 | the cursor goes back just below `Lowest` |
| MatrixArrays.Locate | src/GPS.Collections/MatrixArray.cs:177-189 | range check, division and page-table check: the place's page and position recompose abs(index), the table matches the sign |
| MatrixArrays.LocateSucceeds | src/GPS.Collections/MatrixArray.cs:177-189 | an index is storable exactly when depth > 0 and abs(index) < depth · 32768 |
| MatrixArrays.LocateInjective | src/GPS.Collections/MatrixArray.cs:177-189 | two indices never share a cell |
| MatrixArrays.MaxIndexFails | src/GPS.Collections/MatrixArray.cs:69-74 | ±`MaxIndex` passes the range check but lands one page past the table |
| MatrixArrays.RunLocatable | src/GPS.Collections/MatrixArray.cs:152-168 | a run is storable exactly when both its ends are |
| MatrixArrays.StorablePrefix | src/GPS.Collections/MatrixArray.cs:152-168 | the run's indices before the first unstorable one are all storable, and that one is not |
| MatrixArrays.ExtendRunSpan | src/GPS.Collections/MatrixArray.cs:152-168 | after a run the bounds are the old ones extended to both ends of the run |
| MatrixArrays.SourceCopyReads | src/GPS.Collections/MatrixArray.cs:336-339 | the copy loop as written reads `Lowest`, ..., `Lowest + Highest` |
| MatrixArrays.CopyReads | src/GPS.Collections/MatrixArray.cs:331-340 | a copy reads `Lowest`, ..., `Highest` |
| MatrixArrays.SourceCopyReadsWrongRange | src/GPS.Collections/MatrixArray.cs:336-339 | the loop as written copies 3 of 6 values for bounds [-3, 2] and reads past `Highest` for [5, 7] |
| MatrixArrays.CopyReadsCount | src/GPS.Collections/MatrixArray.cs:265-275 | the corrected copy reads `Count` indices, all within the bounds |
| MatrixArrays.PutCell | src/GPS.Collections/MatrixArray.cs:208-221 | a page is allocated empty if missing and exactly one cell is set |
| MatrixArrays.ReadAfterPut | src/GPS.Collections/MatrixArray.cs:196-222 | a write changes the value read at its own index only and keeps the tables shaped |
| MatrixArrays.ReadEmpty | src/GPS.Collections/MatrixArray.cs:304-310 | fresh tables hold no value |
| MatrixArrays.MatrixArray.MaxIndex | src/GPS.Collections/MatrixArray.cs:69 | `MaxIndex` is the first index the positive table cannot hold: it fails and the index below it is storable |
| MatrixArrays.MatrixArray.MinIndex | src/GPS.Collections/MatrixArray.cs:74 | `MinIndex` is the first index the negative table cannot hold: it fails and the index above it is storable |
| MatrixArrays.MatrixArray.constructor | src/GPS.Collections/MatrixArray.cs:90-93 | depth 1024, fresh empty tables, no bounds |
| MatrixArrays.MatrixArray.WithDepth | src/GPS.Collections/MatrixArray.cs:113-118 | the requested depth is accepted (the setter sees the default depth) and the tables are empty |
| MatrixArrays.MatrixArray.WithValue | src/GPS.Collections/MatrixArray.cs:103-106 | one value at `index` if it is storable at depth 1024, else an out-of-range error |
| MatrixArrays.MatrixArray.FromCollection | src/GPS.Collections/MatrixArray.cs:125-128 | the values at 0, 1, ..., with bounds [0, n-1], unless n exceeds the capacity |
| MatrixArrays.MatrixArray.SetArrayDepth | src/GPS.Collections/MatrixArray.cs:47-58 | fails exactly when the current depth is outside [2, 1024]; otherwise installs the new depth and empties the collection |
| MatrixArrays.MatrixArray.Reset | src/GPS.Collections/MatrixArray.cs:304-310 | fresh empty tables, no bounds, same depth |
| MatrixArrays.MatrixArray.Clear | src/GPS.Collections/MatrixArray.cs:295-298 | nothing is held, `Count` is 0 and every read fails |
| MatrixArrays.MatrixArray.Get | src/GPS.Collections/MatrixArray.cs:177-195 | succeeds exactly for a written index, with its value; otherwise out of range (or divide by zero at depth 0, index 0) |
| MatrixArrays.MatrixArray.IsSet | src/GPS.Collections/MatrixArray.cs:233-258 | true for a written index and an exception for every other, never false |
| MatrixArrays.MatrixArray.CellWritten | src/GPS.Collections/MatrixArrayEnumerator.cs:79-84 | the enumerator's cell read fails exactly when `Locate` does and is true exactly for a written index |
| MatrixArrays.MatrixArray.Count | src/GPS.Collections/MatrixArray.cs:265-275 | `Highest - Lowest + 1` after a write, 0 before any |
| MatrixArrays.MatrixArray.SetItem | src/GPS.Collections/MatrixArray.cs:196-222 | succeeds exactly for a storable index; then the index takes the value and the bounds extend to it; on failure nothing changes |
| MatrixArrays.MatrixArray.Add | src/GPS.Collections/MatrixArray.cs:287-290 | writes at `Highest + 1`, or 0 when empty, with the setter's outcome |
| MatrixArrays.MatrixArray.AddRangeAt | src/GPS.Collections/MatrixArray.cs:152-168 | writes the run in order; succeeds exactly when every index is storable; on failure exactly the values before the first unstorable index are written, the bounds extend over them, and the error is that index's |
| MatrixArrays.MatrixArray.WriteNext | src/GPS.Collections/MatrixArray.cs:156-159 | one turn of that loop: inside the storable prefix the run grows by `c[j]` at `index + j` with the bounds extended to it, or, exactly at the prefix's end, nothing changes and the error is that index's |
| MatrixArrays.MatrixArray.AddRange | src/GPS.Collections/MatrixArray.cs:136-139 | appends from `Highest + 1` (0 when empty); on success the bounds end at the run's last index; on failure the prefix before the first unstorable index is written, with its bounds and that index's error |
| MatrixArrays.MatrixArray.IndexOf | src/GPS.Collections/MatrixArray.cs:358-374 | the least written index holding the item, or `Int32.MinValue` exactly when none does |
| MatrixArrays.MatrixArray.Contains | src/GPS.Collections/MatrixArray.cs:318-321 | true exactly when some written index holds the item |
| MatrixArrays.MatrixArray.CopyTo | src/GPS.Collections/MatrixArray.cs:331-340 | argument error when the target is too small; on success the target holds `Lowest..Highest` from `arrayIndex` and nothing else changed; a later failure is IndexOutOfRange at the first unwritten index or place before the array, with the values before it copied and nothing else changed |
| MatrixArrays.MatrixArray.Insert | src/GPS.Collections/MatrixArray.cs:381-384 | always a not-implemented error |
| MatrixArrays.MatrixArray.Remove | src/GPS.Collections/MatrixArray.cs:391-394 | always a not-implemented error |
| MatrixArrays.MatrixArray.RemoveAt | src/GPS.Collections/MatrixArray.cs:400-403 | always a not-implemented error |
| MatrixArrayEnumerators.SourceNext | src/GPS.Collections/MatrixArrayEnumerator.cs:75-93 | one move as written succeeds exactly when the next index is within `Highest` and written or outside the tables |
| MatrixArrayEnumerators.Next | src/GPS.Collections/MatrixArrayEnumerator.cs:67-94 | one intended move lands on the next written index, skipping only unwritten ones, or past `Highest` |
| MatrixArrayEnumerators.Visits | src/GPS.Collections/MatrixArrayEnumerator.cs:67-94 | a walk visits every written index up to `Highest`, in increasing order |
| MatrixArrayEnumerators.SourceVisits | src/GPS.Collections/MatrixArrayEnumerator.cs:67-94 | a walk as written visits only consecutive indices |
| MatrixArrayEnumerators.SourceNextStopsAtGap | src/GPS.Collections/MatrixArrayEnumerator.cs:79-89 | with 0 and 2 written the walk as written visits [0] where [0, 2] is meant |
| MatrixArrayEnumerators.SourceNextWithoutGap | src/GPS.Collections/MatrixArrayEnumerator.cs:79-89 | without a gap ahead the move as written is the intended one |
| MatrixArrayEnumerators.SourceVisitsWithoutGaps | src/GPS.Collections/MatrixArrayEnumerator.cs:67-94 | over a gap-free range both walks visit the same indices |
| MatrixArrayEnumerators.MatrixArrayEnumerator.constructor | src/GPS.Collections/MatrixArrayEnumerator.cs:38-41 | the cursor starts at the `Int32.MinValue` sentinel |
| MatrixArrayEnumerators.MatrixArrayEnumerator.Current | src/GPS.Collections/MatrixArrayEnumerator.cs:47 | the value at the cursor, present exactly for a written index |
| MatrixArrayEnumerators.MatrixArrayEnumerator.MoveNext | src/GPS.Collections/MatrixArrayEnumerator.cs:67-94 | false on an empty collection; otherwise exactly the move `SourceNext` from the cursor (the sentinel counting as `Lowest - 1`) |
| MatrixArrayEnumerators.MatrixArrayEnumerator.MoveNextSkippingGaps | src/GPS.Collections/MatrixArrayEnumerator.cs:67-94 | the corrected move, exactly `Next` from the cursor |
| MatrixArrayEnumerators.MatrixArrayEnumerator.Reset | src/GPS.Collections/MatrixArrayEnumerator.cs:99-102 | the cursor goes back to the sentinel |
| StableSorting.Flip | src/GPS.Collections/OrderedConcurrentDictionary.cs:285 | `OrderByDescending` compares with the arguments swapped |
| StableSorting.FlipTotalPreorder | src/GPS.Collections/OrderedConcurrentDictionary.cs:303 | the swapped comparer is still a total preorder |
| StableSorting.Insert | src/GPS.Collections/OrderedConcurrentDictionary.cs:285 | one insertion adds exactly that element |
| StableSorting.SortBy | src/GPS.Collections/OrderedConcurrentDictionary.cs:285 | the sort is a permutation of its input |
| StableSorting.InsertSorted | src/GPS.Collections/OrderedConcurrentDictionary.cs:285 | inserting into sorted pairs keeps them sorted |
| StableSorting.SortBySorted | src/GPS.Collections/OrderedConcurrentDictionary.cs:285 | the sort's result is sorted by the selected key |
| StableSorting.TiedWith | src/GPS.Collections/OrderedConcurrentDictionary.cs:285 | the elements tied with a key, each from the input |
| StableSorting.InsertStable | src/GPS.Collections/OrderedConcurrentDictionary.cs:285 | an insertion goes ahead of its ties and moves no other tie |
| StableSorting.SortByStable | src/GPS.Collections/OrderedConcurrentDictionary.cs:303 | stability: tied elements keep their relative order |
| StableSorting.SortBySortedIdentity | src/GPS.Collections/OrderedConcurrentDictionary.cs:303 | an already sorted queue is left as it is |
| OrderedDictionaries.KeysOf | src/GPS.Collections/OrderedConcurrentDictionary.cs:109 | the keys of the pairs, in order |
| OrderedDictionaries.ValuesOf | src/GPS.Collections/OrderedConcurrentDictionary.cs:114 | the values of the pairs, in order |
| OrderedDictionaries.MapOf | src/GPS.Collections/OrderedConcurrentDictionary.cs:62-67 | the dictionary of pairs with distinct keys holds exactly their keys, each with its value |
| OrderedDictionaries.KeyIndex | src/GPS.Collections/OrderedConcurrentDictionary.cs:97 | the first position holding the key, or the length |
| OrderedDictionaries.FirstOrDefault | src/GPS.Collections/OrderedConcurrentDictionary.cs:231 | the first pair with the key, else the default pair |
| OrderedDictionaries.FirstIndex | src/GPS.Collections/OrderedConcurrentDictionary.cs:231 | the first position of an element, found exactly when present |
| OrderedDictionaries.RemoveFirst | src/GPS.Collections/OrderedConcurrentDictionary.cs:231 | `List.Remove` drops the first occurrence only, and nothing when absent |
| OrderedDictionaries.SourceQueueAfterRemove | src/GPS.Collections/OrderedConcurrentDictionary.cs:230-232 | the queue as written after `Remove(key)`: a queued key loses its first pair and nothing else moves; an unqueued key leaves the queue as it is, unless the default pair is queued, whose first occurrence it then removes, every other pair kept in order |
| OrderedDictionaries.QueueAfterRemove | src/GPS.Collections/OrderedConcurrentDictionary.cs:224-240 | removing a key keeps every other pair in order |
| OrderedDictionaries.QueueAfterRemoveMembers | src/GPS.Collections/OrderedConcurrentDictionary.cs:224-240 | a pair remains exactly when it was queued and has another key |
| OrderedDictionaries.OtherKeysKept | src/GPS.Collections/OrderedConcurrentDictionary.cs:224-240 | every other key stays queued |
| OrderedDictionaries.FirstIndexOfDistinct | src/GPS.Collections/OrderedConcurrentDictionary.cs:231 | with distinct keys `List.Remove` finds a pair where its key is |
| OrderedDictionaries.QueueAfterRemoveConcat | src/GPS.Collections/OrderedConcurrentDictionary.cs:224-240 | the removal distributes over concatenation |
| OrderedDictionaries.QueueAfterRemoveOnly | src/GPS.Collections/OrderedConcurrentDictionary.cs:224-240 | when one pair carries the key, removal drops just that pair |
| OrderedDictionaries.QueueAfterRemoveAt | src/GPS.Collections/OrderedConcurrentDictionary.cs:224-240 | the same, by position |
| OrderedDictionaries.KeyOnlyAt | src/GPS.Collections/OrderedConcurrentDictionary.cs:97 | with distinct keys the first pair of a key is its only one |
| OrderedDictionaries.SourceRemoveWhenQueued | src/GPS.Collections/OrderedConcurrentDictionary.cs:228-233 | for a key queued once, the removal as written is the intended one |
| OrderedDictionaries.NoKeyNoRemoval | src/GPS.Collections/OrderedConcurrentDictionary.cs:224-240 | removing a key the queue lacks leaves it unchanged |
| OrderedDictionaries.SourceRemoveDropsDefaultPair | src/GPS.Collections/OrderedConcurrentDictionary.cs:228-233 | with (0, 0) queued, removing an unqueued key 5 empties the queue |
| OrderedDictionaries.InsertDistinct | src/GPS.Collections/OrderedConcurrentDictionary.cs:285 | an insertion of a new key keeps keys distinct |
| OrderedDictionaries.SortByDistinct | src/GPS.Collections/OrderedConcurrentDictionary.cs:287 | reordering keeps keys distinct |
| OrderedDictionaries.HeadKeyFresh | src/GPS.Collections/OrderedConcurrentDictionary.cs:43 | the first key of a queue with distinct keys does not recur |
| OrderedDictionaries.KeySetCons | src/GPS.Collections/OrderedConcurrentDictionary.cs:43 | the key set of a queue is its head's key and the rest's keys |
| OrderedDictionaries.DistinctKeysCount | src/GPS.Collections/OrderedConcurrentDictionary.cs:119 | distinct keys are as many as the pairs |
| OrderedDictionaries.ReorderByKeyIncreasing | src/GPS.Collections.Tests/OrderedConcurrentDictionaries/OrderedConcurrentDictionary_Tests.cs:39-57 | sorting by the key itself gives strictly increasing keys |
| OrderedDictionaries.UpdateQueued | src/GPS.Collections/OrderedConcurrentDictionary.cs:97-101 | the pair of the key takes the value, keys and other pairs unchanged |
| OrderedDictionaries.UpdateQueuedAgrees | src/GPS.Collections/OrderedConcurrentDictionary.cs:92-103 | updating the queued pair with the dictionary keeps the two in agreement |
| OrderedDictionaries.SourceSetLeavesStaleValue | src/GPS.Collections/OrderedConcurrentDictionary.cs:97-101 | after `Add(1, 10)` and `this[1] = 20` the queue still says 10 |
| OrderedDictionaries.QueueAfterRemoveDistinct | src/GPS.Collections/OrderedConcurrentDictionary.cs:224-240 | removal keeps keys distinct |
| OrderedDictionaries.SubsequenceKeepsKeys | src/GPS.Collections/OrderedConcurrentDictionary.cs:230-232 | `List.Remove` keeps keys distinct, keeps only queued pairs and drops the key it found |
| OrderedDictionaries.OrderedConcurrentDictionary.constructor | src/GPS.Collections/OrderedConcurrentDictionary.cs:50-55 | an empty queue and dictionary |
| OrderedDictionaries.OrderedConcurrentDictionary.FromDictionary | src/GPS.Collections/OrderedConcurrentDictionary.cs:62-67 | the pairs queued in order, the dictionary of them |
| OrderedDictionaries.OrderedConcurrentDictionary.FromPairs | src/GPS.Collections/OrderedConcurrentDictionary.cs:75-80 | succeeds exactly for distinct keys; a repeated key is an argument error |
| OrderedDictionaries.OrderedConcurrentDictionary.Get | src/GPS.Collections/OrderedConcurrentDictionary.cs:91 | the dictionary's value, or key-not-found exactly for a missing key |
| OrderedDictionaries.OrderedConcurrentDictionary.SetItem | src/GPS.Collections/OrderedConcurrentDictionary.cs:92-103 | the dictionary takes the value and the queue is unchanged |
| OrderedDictionaries.OrderedConcurrentDictionary.SetItemUpdatingQueue | src/GPS.Collections/OrderedConcurrentDictionary.cs:92-103 | the corrected setter updates the queued pair too, keeping queue and dictionary in agreement |
| OrderedDictionaries.OrderedConcurrentDictionary.Keys | src/GPS.Collections/OrderedConcurrentDictionary.cs:109 | the queue's keys in order, distinct, exactly the dictionary's keys when synced |
| OrderedDictionaries.OrderedConcurrentDictionary.Values | src/GPS.Collections/OrderedConcurrentDictionary.cs:114 | the queue's values in order, position by position, even when the queue is stale; the dictionary's values when they agree |
| OrderedDictionaries.OrderedConcurrentDictionary.Enumerate | src/GPS.Collections/OrderedConcurrentDictionary.cs:214-217 | exactly the queue, in its order; its keys distinct and exactly the dictionary's keys when synced |
| OrderedDictionaries.OrderedConcurrentDictionary.Count | src/GPS.Collections/OrderedConcurrentDictionary.cs:119 | the dictionary's size, zero exactly when it holds nothing |
| OrderedDictionaries.EnumerateFromDictionary | src/GPS.Collections/OrderedConcurrentDictionary.cs:62-67 | built from a dictionary, enumeration yields that dictionary's pairs in its order |
| OrderedDictionaries.SetThenValuesIsStale | src/GPS.Collections/OrderedConcurrentDictionary.cs:97-101 | on the collection itself, `Add(1, 10)` then `this[1] = 20`: the indexer reads 20 while `Values` yields [10] |
| OrderedDictionaries.OrderedConcurrentDictionary.CountIsQueueLength | src/GPS.Collections/OrderedConcurrentDictionary.cs:119 | `Count` equals the number of queued pairs and keys |
| OrderedDictionaries.OrderedConcurrentDictionary.ContainsKey | src/GPS.Collections/OrderedConcurrentDictionary.cs:185-188 | true exactly when the getter succeeds |
| OrderedDictionaries.OrderedConcurrentDictionary.TryGetValue | src/GPS.Collections/OrderedConcurrentDictionary.cs:259-262 | found exactly for a present key, with its value, else `default(TValue)` |
| OrderedDictionaries.OrderedConcurrentDictionary.Contains | src/GPS.Collections/OrderedConcurrentDictionary.cs:175-178 | true exactly when the key is present with that value |
| OrderedDictionaries.OrderedConcurrentDictionary.Add | src/GPS.Collections/OrderedConcurrentDictionary.cs:131-145 | a new key is queued last and stored; a present key goes through the setter |
| OrderedDictionaries.OrderedConcurrentDictionary.AddPair | src/GPS.Collections/OrderedConcurrentDictionary.cs:152-155 | the same, for a pair |
| OrderedDictionaries.OrderedConcurrentDictionary.Clear | src/GPS.Collections/OrderedConcurrentDictionary.cs:160-167 | both are empty |
| OrderedDictionaries.OrderedConcurrentDictionary.Remove | src/GPS.Collections/OrderedConcurrentDictionary.cs:224-240 | true exactly for a present key; the key leaves the dictionary and the pair `FirstOrDefault` finds leaves the queue |
| OrderedDictionaries.OrderedConcurrentDictionary.RemovePair | src/GPS.Collections/OrderedConcurrentDictionary.cs:247-250 | the same, by the pair's key |
| OrderedDictionaries.OrderedConcurrentDictionary.RemoveKey | src/GPS.Collections/OrderedConcurrentDictionary.cs:224-240 | the corrected removal: exactly the pairs of the key leave the queue, whether or not it was queued |
| OrderedDictionaries.OrderedConcurrentDictionary.Reorder | src/GPS.Collections/OrderedConcurrentDictionary.cs:282-306 | the queue becomes the stable sort by the selector, a permutation of it; the dictionary is untouched |

## Left out

- Locks and concurrency: the `lock` blocks and the concurrent queue and dictionary are modelled as sequential state.
- `OrderedConcurrentDictionary.CopyTo` (lines 196-206): it copies through a temporary array into a `KeyValuePair` array. The model has no C# array layout for it.
- `IsReadOnly`, `Dispose` and the `[Serializable]` attribute are not modelled. Neither are the non-generic `IEnumerable.GetEnumerator` and `IEnumerator.Current`, which only forward to the generic ones.
- `GetEnumerator` of each collection only constructs the enumerator. The enumerator's constructor is modelled instead.
- 32-bit integers are unbounded here.
  - `Highest + 1` at `Int32.MaxValue` and the `Size` arithmetic do not wrap around.
  - `MatrixArray` keeps the depth within ±65535, so that `depth * 32768` fits an `Int32`.
- MatrixArrays.MatrixArray.WithDepth: requires the depth within ±65535, a bound the source does not check. Beyond it `MaxIndex` would wrap around.
- MatrixArrays.MatrixArray.SetArrayDepth: requires the same bound, for the same reason.
- The segment chain is a value, not a graph of objects.
  - The setter returns a new chain instead of updating the segments in place.
  - Aliasing and the identity of segments are not modelled.
  - A proof over the heap-allocated chain exceeded the verifier's resource limit.
- ArrayLinks.Get / ArrayLinks.Set: both find the in-window slot as `key - Start`. On a standalone segment whose window straddles 0 the source's abs formula differs: it aliases two keys, or throws IndexOutOfRange in the setter after the bounds were already updated. `SourceGet` models the getter as written; the setter's throw with partial state is not modelled. No window of a chain rooted at 0, which every `LinkedArray` chain is, straddles 0 (`ZeroRootedUnstraddled`), and there the two offsets agree (`SourceOffsetAgrees`).
- `LinkedArray` keeps the source's bound rule (`WriteBounds`), not the corrected min/max rule; its `Count` and `AddRange` are defined by it.
- The `foreach` branch of both `AddRangeAt`s (collections that are not `IList`) is not modelled. Only the indexed loop is, and it writes the same indices in the same order.
- `default(T)` is passed in as a value. Null keys and values are not modelled, and neither is `Equals` on null.
- `Equals` is Dafny equality.
- The comparer of `Reorder` is a relation `le` standing for `Compare(a, b) <= 0`. Its properties are assumed only where a lemma requires them (a total preorder).
- MatrixArrays.MatrixArray.CellWritten: only the exceptions the enumerator's page lookup can raise are modelled. The empty `catch` swallows any exception, but in this model only the page index can fail.
- The test data sets (`IntDataSet`, `LinkedArrayDataSet1`, comparison sets) and the benchmark test are not modelled.
- The older copies of `LinkedArray`, `ArrayLink` and their enumerator under the top-level `GPS.Collections/` directory are not part of this model.

## Findings

| source | as written | input that shows it | evidently intended | confidence | as-written member | corrected member |
|---|---|---|---|---|---|---|
| src/GPS.Collections/ArrayLink.cs:253-255 | the offset is `Abs(key) - Abs(Start)` for key ≥ 0 and `Abs(Start) - Abs(key)` for key < 0 | a standalone segment [-10, 1014): keys -5 and 15 share slot 5, key 5 gets offset -5 | `key - Start` | not executed; unreachable from a `LinkedArray`: its chain is rooted at 0, where `ZeroRootedUnstraddled` shows no window straddles 0 and `SourceGetAgrees` makes the two getters equal | ArrayLinks.SourceGetAliasesAcrossZero | ArrayLinks.Offset |
| src/GPS.Collections/MatrixArray.cs:336-339 | the loop runs `index` from `arrayIndex` to `Highest + arrayIndex` and reads `this[Lowest + index - arrayIndex]` | bounds [-3, 2] copy 3 of 6 values; bounds [5, 7] read index 8, past `Highest`, and throw | copy the `Count` indices `Lowest` .. `Highest` | not executed | MatrixArrays.SourceCopyReadsWrongRange | MatrixArrays.MatrixArray.CopyTo |
| src/GPS.Collections/ArrayLink.cs:217-248 | a write routed to `Lower` only lowers `Lowest`, one routed to `Higher` only raises `Highest` | on a root at 0, writing -5 then -3 leaves `Highest` at -5; five writes from -10 leave `Count` 1, and appends below 0 keep rewriting one index | `Lowest` and `Highest` the least and greatest written index, as `MatrixArray` keeps them | not executed | ArrayLinks.HighestMissesLaterLowerWrite | SparseCommon.ExtendEncloses |
| src/GPS.Collections/MatrixArrayEnumerator.cs:79-89 | page and position are computed once, so the loop tests the same cell and runs to `Highest + 1` at the first gap | indices 0 and 2 written: the walk yields [0] | skip unwritten cells to the next written one | not executed | MatrixArrayEnumerators.SourceNextStopsAtGap | MatrixArrayEnumerators.MatrixArrayEnumerator.MoveNextSkippingGaps |
| src/GPS.Collections/OrderedConcurrentDictionary.cs:97-101 | `pair` is a copy of a value tuple, so setting `pair.Value` changes nothing in the queue | `Add(1, 10)` then `this[1] = 20`: `Values` still yields 10 | the queued pair takes the new value | not executed | OrderedDictionaries.SourceSetLeavesStaleValue | OrderedDictionaries.OrderedConcurrentDictionary.SetItemUpdatingQueue |
| src/GPS.Collections/OrderedConcurrentDictionary.cs:228-233 | for a key set through the indexer only, `FirstOrDefault` returns the default pair and `List.Remove` deletes a pair equal to it | queue [(0, 0)], key 5 stored by the indexer: `Remove(5)` empties the queue | remove only pairs of the key | not executed | OrderedDictionaries.SourceRemoveDropsDefaultPair | OrderedDictionaries.OrderedConcurrentDictionary.RemoveKey |
