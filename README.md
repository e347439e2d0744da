# codestorming-collections in Dafny

A model of the core of the codestorming-collections Java library. It covers:

- **OrderedHashSet.** A `Set` that is also a `List`. A `HashSet` answers membership. An array keeps the members in insertion order, and all index-based `List` operations use that array. The nested `OrderedSetIterator` is a `ListIterator` over the array.
- **The change-tracking ("chrono") collections.** These are `ChronoHashSet`, `ChronoArrayList` and `ChronoHashMap`. Each behaves like its JDK parent. Beside its elements, each keeps an `added` and a `removed` collection: what changed since the last `reset()` (the *checkpoint*). The rules `ChronoHelper.updateAdded` and `ChronoHelper.updateRemoved` maintain these deltas, letting an addition cancel an earlier removal and a removal cancel an earlier addition.
- **The map views.** `ChronoHashMap.keySet()`, `entrySet()` and `values()` return views. They inherit their bulk loops from `DelegatedCollection` and `DelegatedSet`, and they record removals through their own `remove` and iterator `remove`.
- **`Arrays2`.** Copying helpers that remove a range from an array or insert a slice into it.

How the Java maps onto Dafny:

- Pure code becomes functions on values: `Arrays2` works on `seq`, and the delta rules work on `ListDeltas` / `SetDeltas` / `MapDeltas`.
- Every object whose fields change in place becomes a `class` with `modifies` clauses:
  - `OrderedHashSet` holds a real `array` plus the hash set as a `set` field;
  - the chrono collections hold their elements as `set`, `seq` or `map` fields, and the checkpoint as a ghost field;
  - each view and iterator holds a reference to the collection it works on.
- **The ledger.** Each chrono collection has a ledger predicate (`Ledger()`): what was live at the checkpoint, minus `removed`, plus `added`, is what is live now. For the list this is a multiset equation. For the set it is a set equation. For the map it is a map equation where `removed` holds checkpoint values. Each mutating method states its new state exactly. It also states whether the ledger survives the call. The value lemmas beside it prove when it does and when it does not.
- **Code as written.** The model follows the code, including behaviour a `java.util` caller would not expect:
  - an `OrderedHashSet.add(index, e)` that throws after the hash set already took `e`;
  - `set(index, e)` with a present `e`, which evicts a different element;
  - the map's `put`, which never records the value it replaces;
  - the map's `remove`, which does not record a removed `null`.

  The example modules (`ordered_set_examples.dfy`, `chrono_examples.dfy`) exhibit each of these on concrete inputs.

## Model

| member | source | states |
|---|---|---|
| Arrays2.FirstNegative | src/main/java/org/codestorming/collection/Arrays2.java:27-33 | finds the first negative index, if any; none exactly when every index is non-negative |
| Arrays2.Remove | src/main/java/org/codestorming/collection/Arrays2.java:49-66 | succeeds iff 0 <= begin < length and begin <= end <= length; IllegalArgument exactly when end < begin with both in range, otherwise ArrayIndexOutOfBounds; the result keeps the prefix before `begin` and shifts the suffix from `end` down |
| Arrays2.RemoveAt | src/main/java/org/codestorming/collection/Arrays2.java:78-80 | succeeds iff the index is in range; the result is the array without that element |
| Arrays2.Insert | src/main/java/org/codestorming/collection/Arrays2.java:94-112 | succeeds iff the insertion point is within the array and the slice bounds are valid (an empty `values` always fails); IllegalArgument exactly for end < begin; the result is prefix, slice, suffix |
| Arrays2.InsertOne | src/main/java/org/codestorming/collection/Arrays2.java:123-127 | succeeds iff 0 <= at <= length; the value lands at `at` |
| Arrays2.EmptyRangeIsIdentity | src/main/java/org/codestorming/collection/Arrays2.java:38-46 | an empty range removes or inserts nothing |
| Arrays2.InsertThenRemove | src/main/java/org/codestorming/collection/Arrays2.java:94-112 | removing the range just inserted gives back the original array |
| Arrays2.RemoveThenInsert | src/main/java/org/codestorming/collection/Arrays2.java:78-80 | re-inserting a removed element at its index gives back the original array |
| Arrays2.EmptyArraysAlwaysFail | src/main/java/org/codestorming/collection/Arrays2.java:49-66 | removing from, or inserting a slice of, an empty array always throws |
| ChronoHelper.UpdateAdded | src/main/java/org/codestorming/collection/chrono/ChronoHelper.java:32-38 | an element in `removed` loses one occurrence there; otherwise it is appended to `added`; disjoint deltas stay disjoint |
| ChronoHelper.UpdateRemoved | src/main/java/org/codestorming/collection/chrono/ChronoHelper.java:46-52 | the mirror rule: cancel one occurrence in `added`, otherwise append to `removed` |
| ChronoHelper.UpdateAddedNet | src/main/java/org/codestorming/collection/chrono/ChronoHelper.java:32-38 | as multisets, an addition adds the element to added-minus-removed |
| ChronoHelper.UpdateRemovedNet | src/main/java/org/codestorming/collection/chrono/ChronoHelper.java:46-52 | as multisets, a removal adds the element to removed-minus-added |
| ChronoHelper.AddedAllNet | src/main/java/org/codestorming/collection/chrono/ChronoHelper.java:26-30 | the bulk addition shifts added-minus-removed by exactly the multiset of the elements |
| ChronoHelper.RemovedAllNet | src/main/java/org/codestorming/collection/chrono/ChronoHelper.java:40-44 | the bulk removal shifts removed-minus-added by exactly the multiset of the elements |
| ChronoHelper.AddedAllLedger | src/main/java/org/codestorming/collection/chrono/ChronoHelper.java:26-30 | after recording a bulk addition, the list ledger holds iff the live multiset grew by exactly those elements |
| ChronoHelper.RemovedAllLedger | src/main/java/org/codestorming/collection/chrono/ChronoHelper.java:40-44 | after recording a bulk removal, the list ledger holds iff the live multiset shrank by exactly those elements |
| ChronoHelper.UpdateAddedLedger | src/main/java/org/codestorming/collection/chrono/ChronoHelper.java:32-38 | after recording one addition, the ledger holds iff exactly that element joined the live multiset |
| ChronoHelper.UpdateRemovedLedger | src/main/java/org/codestorming/collection/chrono/ChronoHelper.java:46-52 | after recording one removal, the ledger holds iff exactly that element left the live multiset |
| ChronoHelper.ListLedgerDeltasAreDifferences | src/main/java/org/codestorming/collection/chrono/ChronoHelper.java:26-52 | with disjoint deltas the ledger pins them down: added = live - checkpoint, removed = checkpoint - live (multisets) |
| ChronoHelper.UpdateAddedSet | src/main/java/org/codestorming/collection/chrono/ChronoHelper.java:32-38 | the rule on set-valued deltas: leave `removed`, or join `added` |
| ChronoHelper.UpdateRemovedSet | src/main/java/org/codestorming/collection/chrono/ChronoHelper.java:46-52 | the rule on set-valued deltas: leave `added`, or join `removed` |
| ChronoHelper.AddedAllSet | src/main/java/org/codestorming/collection/chrono/ChronoHelper.java:26-30 | the bulk rule on sets: with distinct elements, `added` gains the elements not in `removed`, and `removed` loses the elements |
| ChronoHelper.RemovedAllSet | src/main/java/org/codestorming/collection/chrono/ChronoHelper.java:40-44 | the mirror of AddedAllSet |
| ChronoHelper.AddedAllSetKeepsLedger | src/main/java/org/codestorming/collection/chrono/ChronoHelper.java:26-30 | adding new distinct elements and recording them keeps the set ledger |
| ChronoHelper.RemovedAllSetKeepsLedger | src/main/java/org/codestorming/collection/chrono/ChronoHelper.java:40-44 | removing present distinct elements and recording them keeps the set ledger |
| ChronoHelper.AddedAllSetNoCancel | src/main/java/org/codestorming/collection/chrono/ChronoHelper.java:26-30 | elements none of which were removed are all simply added |
| ChronoHelper.RemovedAllSetNoCancel | src/main/java/org/codestorming/collection/chrono/ChronoHelper.java:40-44 | elements none of which were added are all simply removed |
| ChronoHelper.ListCancellation | src/main/java/org/codestorming/collection/chrono/ChronoHelper.java:32-52 | adding and then removing an untracked element restores the list deltas |
| ChronoHelper.ListCancellationReversed | src/main/java/org/codestorming/collection/chrono/ChronoHelper.java:32-52 | removing and then adding an untracked element restores the list deltas |
| ChronoHelper.SetCancellation | src/main/java/org/codestorming/collection/chrono/ChronoHelper.java:32-52 | both orders of add/remove of an untracked element restore the set deltas |
| ChronoHelper.SameValueReplaced | src/main/java/org/codestorming/collection/chrono/ChronoHelper.java:32-52 | replacing an element by itself leaves the delta multisets unchanged |
| ChronoHelper.ListAndSetRulesAgree | src/main/java/org/codestorming/collection/chrono/ChronoHelper.java:32-52 | on duplicate-free, disjoint deltas the list rule and the set rule compute the same sets |
| ChronoHelper.RemoveFirstDistinct | src/main/java/org/codestorming/collection/chrono/ChronoHelper.java:32-38 | removing an element from a duplicate-free list removes it from its set of values |
| ChronoHelper.UpdateAddedAll | src/main/java/org/codestorming/collection/chrono/ChronoHelper.java:26-30 | the loop computes the fold AddedAll, whose net effect AddedAllNet states |
| ChronoHelper.UpdateRemovedAll | src/main/java/org/codestorming/collection/chrono/ChronoHelper.java:40-44 | the loop computes the fold RemovedAll, whose net effect RemovedAllNet states |
| ChronoHelper.UpdateAddedAllSet | src/main/java/org/codestorming/collection/chrono/ChronoHelper.java:26-30 | the loop over set deltas computes AddedAllSet |
| ChronoHelper.UpdateRemovedAllSet | src/main/java/org/codestorming/collection/chrono/ChronoHelper.java:40-44 | the loop over set deltas computes RemovedAllSet |
| ChronoHelper.Elements | src/main/java/org/codestorming/collection/chrono/ChronoHelper.java:59-69 | the objects, in order and with repeats, whose membership in the collection equals `complement`; Seqs.SelectMembers and Seqs.SelectCount characterise it |
| ChronoHelper.Reset | src/main/java/org/codestorming/collection/chrono/ChronoHelper.java:54-57 | both deltas are empty |
| Seqs.SelectMembers | src/main/java/org/codestorming/collection/chrono/ChronoHelper.java:59-69 | a value is selected iff it occurs in the sequence and its membership equals `keep` |
| Seqs.SelectCount | src/main/java/org/codestorming/collection/chrono/ChronoHelper.java:59-69 | selection keeps every occurrence of a selected value and none of the others |
| Seqs.SelectAppend | src/main/java/org/codestorming/collection/chrono/ChronoHelper.java:59-69 | selection distributes over concatenation, so it keeps order |
| Seqs.RemoveFirst | src/main/java/org/codestorming/collection/chrono/ChronoArrayList.java:131-139 | `List.remove(Object)`: when the value occurs, exactly its first occurrence (at FirstIndex) is cut out; unchanged otherwise |
| Seqs.RemoveFirstCount | src/main/java/org/codestorming/collection/chrono/ChronoArrayList.java:131-139 | removing the first occurrence takes exactly one copy out of the multiset |
| ChronoHashSets.SetLedgerForms | src/main/java/org/codestorming/collection/chrono/ChronoHashSet.java:77-80 | the set ledger holds iff `added` is new, `removed` came from the checkpoint and live = (checkpoint - removed) + added |
| ChronoHashSets.AddAllLedger | src/main/java/org/codestorming/collection/chrono/ChronoHashSet.java:101-108 | the ledger survives addAll iff none of the newly added elements is in `removed` |
| ChronoHashSets.RemoveAllLedger | src/main/java/org/codestorming/collection/chrono/ChronoHashSet.java:121-128 | the ledger survives removeAll iff none of the removed members is in `added` |
| ChronoHashSets.ChronoHashSet.constructor | src/main/java/org/codestorming/collection/chrono/ChronoHashSet.java:25 | an empty set with empty deltas |
| ChronoHashSets.ChronoHashSet.Create | src/main/java/org/codestorming/collection/chrono/ChronoHashSet.java:58-65 | the given elements are live and are the checkpoint; nothing tracked; ledger holds |
| ChronoHashSets.ChronoHashSet.RawAdd | src/main/java/org/codestorming/collection/chrono/ChronoHashSet.java:87-89 | untracked insertion |
| ChronoHashSets.ChronoHashSet.Reset | src/main/java/org/codestorming/collection/chrono/ChronoHashSet.java:77-80 | deltas emptied; the checkpoint moves to the live set |
| ChronoHashSets.ChronoHashSet.Add | src/main/java/org/codestorming/collection/chrono/ChronoHashSet.java:92-98 | true iff new; a new element is recorded by UpdateAddedSet; the ledger is kept |
| ChronoHashSets.ChronoHashSet.Remove | src/main/java/org/codestorming/collection/chrono/ChronoHashSet.java:112-118 | true iff present; a present element is recorded by UpdateRemovedSet; the ledger is kept |
| ChronoHashSets.ChronoHashSet.AddAll | src/main/java/org/codestorming/collection/chrono/ChronoHashSet.java:101-108 | the union is live; on change, the new elements are recorded twice (once by add, once by the bulk rule); the ledger is kept when none of them was removed |
| ChronoHashSets.ChronoHashSet.RemoveAll | src/main/java/org/codestorming/collection/chrono/ChronoHashSet.java:121-128 | the difference is live; on change, the removed members are recorded twice; the ledger is kept when none of them was added |
| ChronoHashSets.ChronoHashSet.RemoveEach | src/main/java/org/codestorming/collection/chrono/DelegatedSet.java:33-38 | the per-argument branch of the inherited removeAll, through the tracked remove |
| ChronoHashSets.ChronoHashSet.RemoveIterating | src/main/java/org/codestorming/collection/chrono/DelegatedSet.java:39-45 | the iterator branch of the inherited removeAll, through the tracked iterator remove |
| ChronoHashSets.ChronoHashSet.Clear | src/main/java/org/codestorming/collection/chrono/ChronoHashSet.java:131-136 | empties the set and records every member as removed (cancelling additions); the ledger is kept |
| ChronoHashSets.ChronoHashSet.Traversal | src/main/java/org/codestorming/collection/chrono/ChronoHashSet.java:139-141 | an iteration visits every member exactly once |
| ChronoHashSets.ChronoSetIterator.Next | src/main/java/org/codestorming/collection/chrono/ChronoHashSet.java:159-162 | returns an unvisited member, or NoSuchElement when all were visited |
| ChronoHashSets.ChronoSetIterator.Remove | src/main/java/org/codestorming/collection/chrono/ChronoHashSet.java:165-170 | removes the last returned member and records it; the ledger is kept |
| ChronoArrayLists.Reached | src/main/java/org/codestorming/collection/chrono/ChronoArrayList.java:121-129 | the sub-list read for a valid range |
| ChronoArrayLists.RemoveAllLedger | src/main/java/org/codestorming/collection/chrono/ChronoArrayList.java:141-150 | the ledger survives removeAll iff each value both in the list and in `c` occurs equally often in both |
| ChronoArrayLists.RemoveAllCounts | src/main/java/org/codestorming/collection/chrono/ChronoArrayList.java:141-150 | the multiset identity behind RemoveAllLedger |
| ChronoArrayLists.ReplaceLedger | src/main/java/org/codestorming/collection/chrono/ChronoArrayList.java:113-119 | set(index, e) with its two recordings keeps the ledger |
| ChronoArrayLists.UntrackedLedger | src/main/java/org/codestorming/collection/chrono/ChronoArrayList.java:23 | an untracked change (inherited clear, retainAll) keeps the ledger iff it keeps the multiset |
| ChronoArrayLists.UnmatchedRecordLedger | src/main/java/org/codestorming/collection/chrono/ChronoArrayList.java:95-111 | recording elements without changing the list breaks the ledger unless nothing is recorded |
| ChronoArrayLists.RemoveRangeLedger | src/main/java/org/codestorming/collection/chrono/ChronoArrayList.java:121-129 | a valid removeRange keeps the ledger; an invalid one that recorded elements breaks it |
| ChronoArrayLists.RecordRange | src/main/java/org/codestorming/collection/chrono/ChronoArrayList.java:121-129 | records the reachable elements of the range one by one; throws iff the range is non-empty and out of bounds |
| ChronoArrayLists.ChronoArrayList.constructor | src/main/java/org/codestorming/collection/chrono/ChronoArrayList.java:23-33 | an empty list with empty deltas |
| ChronoArrayLists.ChronoArrayList.Create | src/main/java/org/codestorming/collection/chrono/ChronoArrayList.java:56-63 | the given elements in order are live and are the checkpoint |
| ChronoArrayLists.ChronoArrayList.RawAdd | src/main/java/org/codestorming/collection/chrono/ChronoArrayList.java:85-87 | untracked append |
| ChronoArrayLists.ChronoArrayList.Reset | src/main/java/org/codestorming/collection/chrono/ChronoArrayList.java:75-78 | deltas emptied; checkpoint moves to the live list |
| ChronoArrayLists.ChronoArrayList.Add | src/main/java/org/codestorming/collection/chrono/ChronoArrayList.java:89-93 | appends and records; the ledger is kept |
| ChronoArrayLists.ChronoArrayList.AddAt | src/main/java/org/codestorming/collection/chrono/ChronoArrayList.java:95-99 | records before inserting, so an out-of-range index throws with the element recorded: the ledger then breaks |
| ChronoArrayLists.ChronoArrayList.AddAll | src/main/java/org/codestorming/collection/chrono/ChronoArrayList.java:101-105 | appends and records all; true iff non-empty; the ledger is kept |
| ChronoArrayLists.ChronoArrayList.AddAllAt | src/main/java/org/codestorming/collection/chrono/ChronoArrayList.java:107-111 | records before inserting; an out-of-range index keeps the ledger only for an empty argument |
| ChronoArrayLists.ChronoArrayList.Set | src/main/java/org/codestorming/collection/chrono/ChronoArrayList.java:113-119 | returns the old element, records new-added then old-removed; the ledger is kept |
| ChronoArrayLists.ChronoArrayList.RemoveRange | src/main/java/org/codestorming/collection/chrono/ChronoArrayList.java:121-129 | records the reachable range before the bounds check; the ledger is kept iff the call succeeds or recorded nothing |
| ChronoArrayLists.ChronoArrayList.Remove | src/main/java/org/codestorming/collection/chrono/ChronoArrayList.java:131-139 | removes the first occurrence and records it; the ledger is kept |
| ChronoArrayLists.ChronoArrayList.RemoveAt | src/main/java/org/codestorming/collection/chrono/ChronoArrayList.java:152-159 | returns and records the removed element; index errors change nothing |
| ChronoArrayLists.ChronoArrayList.RemoveAll | src/main/java/org/codestorming/collection/chrono/ChronoArrayList.java:141-150 | removes every occurrence of every value of `c`, but records the argument's matching elements; the ledger survives iff counts agree |
| ChronoArrayLists.ChronoArrayList.Clear | src/main/java/org/codestorming/collection/chrono/ChronoArrayList.java:23 | the inherited clear records nothing, so the ledger survives iff the list was empty |
| ChronoArrayLists.ChronoArrayList.RetainAll | src/main/java/org/codestorming/collection/chrono/ChronoArrayList.java:23 | the inherited retainAll records nothing, so the ledger survives iff nothing was removed |
| ChronoHashMaps.PutLedger | src/main/java/org/codestorming/collection/chrono/ChronoHashMap.java:87-95 | after put's recording the map ledger holds iff the put is one the rule can track (not a replacement of a value, not a new null) |
| ChronoHashMaps.RemoveLedger | src/main/java/org/codestorming/collection/chrono/ChronoHashMap.java:106-117 | after remove's recording the ledger holds iff the key was added since the checkpoint or its value is non-null |
| ChronoHashMaps.ViewRemoveLedger | src/main/java/org/codestorming/collection/chrono/ChronoHashMap.java:235-246 | the view's removal rule always keeps the ledger |
| ChronoHashMaps.RemoveRulesAgree | src/main/java/org/codestorming/collection/chrono/ChronoHashMap.java:106-117 | the map's and the view's removal rules agree iff the key was added or its value is non-null |
| ChronoHashMaps.DropKeysLedger | src/main/java/org/codestorming/collection/chrono/DelegatedSet.java:29-48 | removing any set of live keys through the view rule keeps the ledger |
| ChronoHashMaps.DropKeysStep | src/main/java/org/codestorming/collection/chrono/DelegatedCollection.java:87-98 | one more view removal extends the accumulated deltas by that key |
| ChronoHashMaps.ClearLedger | src/main/java/org/codestorming/collection/chrono/ChronoHashMap.java:120-129 | from a ledger state, clear leaves no additions and removes exactly the checkpoint |
| ChronoHashMaps.PutAllSingle | src/main/java/org/codestorming/collection/chrono/ChronoHashMap.java:98-102 | putAll of one entry records like put |
| ChronoHashMaps.PutAllStep | src/main/java/org/codestorming/collection/chrono/ChronoHashMap.java:98-102 | putAll of one more entry is put after putAll |
| ChronoHashMaps.PutsCommute | src/main/java/org/codestorming/collection/chrono/ChronoHashMap.java:87-95 | recording puts of distinct keys does not depend on their order |
| ChronoHashMaps.PutThenRemove | src/main/java/org/codestorming/collection/chrono/ChronoHashMap.java:87-117 | putting a new non-null value and removing it restores the map and the deltas |
| ChronoHashMaps.ReplacedValueForgotten | src/main/java/org/codestorming/collection/chrono/ChronoHashMap.java:87-95 | replacing a checkpoint value records only the new one, so the ledger breaks |
| ChronoHashMaps.NullPutUnrecorded | src/main/java/org/codestorming/collection/chrono/ChronoHashMap.java:87-95 | putting null under a new key records nothing, so the ledger breaks |
| ChronoHashMaps.UntrackedRemovalLedger | src/main/java/org/codestorming/collection/chrono/DelegatedCollection.java:66-69 | removing a live key without recording always breaks the ledger |
| ChronoHashMaps.ChronoHashMap.constructor | src/main/java/org/codestorming/collection/chrono/ChronoHashMap.java:26-30 | an empty map with empty deltas |
| ChronoHashMaps.ChronoHashMap.Create | src/main/java/org/codestorming/collection/chrono/ChronoHashMap.java:32-60 | the given pairs (a later key wins) are live and are the checkpoint |
| ChronoHashMaps.ChronoHashMap.RawPut | src/main/java/org/codestorming/collection/chrono/ChronoHashMap.java:82-84 | untracked put returning the previous value |
| ChronoHashMaps.ChronoHashMap.Reset | src/main/java/org/codestorming/collection/chrono/ChronoHashMap.java:77-80 | deltas emptied; checkpoint moves to the live map |
| ChronoHashMaps.ChronoHashMap.Put | src/main/java/org/codestorming/collection/chrono/ChronoHashMap.java:87-95 | returns the previous value, stores the new one, records it with PutDeltas; the ledger survives iff PutTracked |
| ChronoHashMaps.ChronoHashMap.PutAll | src/main/java/org/codestorming/collection/chrono/ChronoHashMap.java:98-102 | the map is overridden by `m`; the deltas are PutAllDeltas, i.e. one put per entry (PutAllStep) |
| ChronoHashMaps.ChronoHashMap.Remove | src/main/java/org/codestorming/collection/chrono/ChronoHashMap.java:106-117 | returns the value, removes the key, records with RemoveDeltas; the ledger survives iff no untracked null is removed |
| ChronoHashMaps.ChronoHashMap.Clear | src/main/java/org/codestorming/collection/chrono/ChronoHashMap.java:120-129 | empties the map; from a ledger state, `removed` becomes the checkpoint |
| ChronoHashMaps.ChronoHashMap.KeySet | src/main/java/org/codestorming/collection/chrono/ChronoHashMap.java:137-139 | a fresh key view over this map |
| ChronoHashMaps.ChronoHashMap.EntrySet | src/main/java/org/codestorming/collection/chrono/ChronoHashMap.java:132-134 | a fresh entry view over this map |
| ChronoHashMaps.ChronoHashMap.Values | src/main/java/org/codestorming/collection/chrono/ChronoHashMap.java:142-144 | a fresh value view over this map |
| ChronoHashMaps.MatchedKeys | src/main/java/org/codestorming/collection/chrono/ChronoHashMap.java:183-194 | the live keys whose entry (key and value) is in a set of entries |
| ChronoHashMaps.SweepKeys | src/main/java/org/codestorming/collection/chrono/DelegatedCollection.java:87-111 | removing the live keys inside (removeAll) or outside (retainAll) `c`: exactly those leave, recorded as DropKeys; modified iff any did |
| ChronoHashMaps.SweepEntries | src/main/java/org/codestorming/collection/chrono/DelegatedCollection.java:87-111 | the same over entries: exactly the keys whose entry is (or is not) in `c` leave |
| ChronoHashMaps.FindValue | src/main/java/org/codestorming/collection/chrono/DelegatedCollection.java:87-111 | whether the value iterator meets a value whose membership in `c` equals removeInside |
| ChronoHashMaps.KeySet.Add | src/main/java/org/codestorming/collection/chrono/DelegatedCollection.java:61-64 | always UnsupportedOperation (the JDK key view) |
| ChronoHashMaps.KeySet.AddAll | src/main/java/org/codestorming/collection/chrono/DelegatedCollection.java:76-85 | false for an empty argument, otherwise UnsupportedOperation |
| ChronoHashMaps.KeySet.Remove | src/main/java/org/codestorming/collection/chrono/ChronoHashMap.java:235-246 | true iff the key was live; records the key's value (null included); the ledger is kept |
| ChronoHashMaps.KeySet.RemoveAll | src/main/java/org/codestorming/collection/chrono/DelegatedSet.java:29-48 | the keys of `c` leave the map, recorded as DropKeys, whichever branch runs; modified iff any was live; the ledger is kept |
| ChronoHashMaps.KeySet.RemoveEach | src/main/java/org/codestorming/collection/chrono/DelegatedSet.java:33-38 | the per-argument branch gives the same result as the sweep |
| ChronoHashMaps.KeySet.Sweep | src/main/java/org/codestorming/collection/chrono/DelegatedCollection.java:87-111 | the iterator loop on the view, stated on the owning map |
| ChronoHashMaps.KeySet.RetainAll | src/main/java/org/codestorming/collection/chrono/DelegatedCollection.java:100-111 | the keys outside `c` leave, recorded; modified iff any did; the ledger is kept |
| ChronoHashMaps.KeySet.Clear | src/main/java/org/codestorming/collection/chrono/DelegatedSet.java:50-57 | every key leaves and is recorded; the ledger is kept |
| ChronoHashMaps.KeySet.Iterator | src/main/java/org/codestorming/collection/chrono/ChronoHashMap.java:204-231 | a fresh iterator that has returned nothing |
| ChronoHashMaps.KeySetIterator.Next | src/main/java/org/codestorming/collection/chrono/ChronoHashMap.java:215-218 | returns an unvisited live key, or NoSuchElement |
| ChronoHashMaps.KeySetIterator.Remove | src/main/java/org/codestorming/collection/chrono/ChronoHashMap.java:221-229 | removes the last key and records its value; the ledger is kept |
| ChronoHashMaps.EntrySet.Add | src/main/java/org/codestorming/collection/chrono/DelegatedCollection.java:61-64 | always UnsupportedOperation |
| ChronoHashMaps.EntrySet.AddAll | src/main/java/org/codestorming/collection/chrono/DelegatedCollection.java:76-85 | false for an empty argument, otherwise UnsupportedOperation |
| ChronoHashMaps.EntrySet.Remove | src/main/java/org/codestorming/collection/chrono/ChronoHashMap.java:183-194 | true iff the key maps to that exact value; then the key leaves and the entry is recorded; the ledger is kept |
| ChronoHashMaps.EntrySet.RemoveAll | src/main/java/org/codestorming/collection/chrono/DelegatedSet.java:29-48 | exactly the matching entries leave, recorded, whichever branch runs; the ledger is kept |
| ChronoHashMaps.EntrySet.RemoveEach | src/main/java/org/codestorming/collection/chrono/DelegatedSet.java:33-38 | the per-argument branch gives the same result as the sweep |
| ChronoHashMaps.EntrySet.Sweep | src/main/java/org/codestorming/collection/chrono/DelegatedCollection.java:87-111 | the iterator loop on the entry view, stated on the owning map |
| ChronoHashMaps.EntrySet.RetainAll | src/main/java/org/codestorming/collection/chrono/DelegatedCollection.java:100-111 | exactly the entries not in `c` leave, recorded; the ledger is kept |
| ChronoHashMaps.EntrySet.Clear | src/main/java/org/codestorming/collection/chrono/DelegatedSet.java:50-57 | every entry leaves and is recorded; the ledger is kept |
| ChronoHashMaps.EntrySet.Iterator | src/main/java/org/codestorming/collection/chrono/ChronoHashMap.java:153-179 | a fresh iterator that has returned nothing |
| ChronoHashMaps.EntrySetIterator.Next | src/main/java/org/codestorming/collection/chrono/ChronoHashMap.java:164-167 | returns the entry of an unvisited live key, or NoSuchElement |
| ChronoHashMaps.EntrySetIterator.Remove | src/main/java/org/codestorming/collection/chrono/ChronoHashMap.java:170-177 | removes the last entry and records it; the ledger is kept |
| ChronoHashMaps.Values.Add | src/main/java/org/codestorming/collection/chrono/DelegatedCollection.java:61-64 | always UnsupportedOperation |
| ChronoHashMaps.Values.AddAll | src/main/java/org/codestorming/collection/chrono/DelegatedCollection.java:76-85 | false for an empty argument, otherwise UnsupportedOperation |
| ChronoHashMaps.Values.Remove | src/main/java/org/codestorming/collection/chrono/DelegatedCollection.java:66-69 | true iff some key maps to the value; one such key leaves unrecorded, so the ledger survives iff nothing changed |
| ChronoHashMaps.Values.RemoveAll | src/main/java/org/codestorming/collection/chrono/DelegatedCollection.java:87-98 | throws UnsupportedOperation iff some live value is in `c` (the iterator cannot remove); otherwise false |
| ChronoHashMaps.Values.RetainAll | src/main/java/org/codestorming/collection/chrono/DelegatedCollection.java:100-111 | throws UnsupportedOperation iff some live value is outside `c`; otherwise false |
| ChronoHashMaps.Values.Clear | src/main/java/org/codestorming/collection/chrono/DelegatedCollection.java:113-120 | throws UnsupportedOperation iff the map is non-empty |
| ChronoHashMaps.Values.Sweep | src/main/java/org/codestorming/collection/chrono/DelegatedCollection.java:87-111 | the iterator loop on the value view: throws at the first value it would remove |
| ChronoHashMaps.Values.Iterator | src/main/java/org/codestorming/collection/chrono/ChronoHashMap.java:256-278 | a fresh iterator that has returned nothing |
| ChronoHashMaps.ValuesIterator.Next | src/main/java/org/codestorming/collection/chrono/ChronoHashMap.java:268-271 | returns the value of some unvisited live key, or NoSuchElement |
| ChronoHashMaps.ValuesIterator.Remove | src/main/java/org/codestorming/collection/chrono/ChronoHashMap.java:274-276 | always UnsupportedOperation |
| OrderedSets.GrownCapacity | src/main/java/org/codestorming/collection/OrderedHashSet.java:462-474 | the grown capacity always exceeds the capacity asked for |
| OrderedSets.UnseenMembers | src/main/java/org/codestorming/collection/OrderedHashSet.java:340-355 | addAll inserts a duplicate-free sequence: exactly the elements of `c` not yet members |
| OrderedSets.SelectTwice | src/main/java/org/codestorming/collection/OrderedHashSet.java:137-206 | two removal passes equal one pass with the union |
| OrderedSets.DeleteAtIsSelect | src/main/java/org/codestorming/collection/OrderedHashSet.java:127-134 | deleting a unique element's position is removing that value |
| OrderedSets.DistinctUpdate | src/main/java/org/codestorming/collection/OrderedHashSet.java:383-397 | overwriting a slot with a non-member keeps the list duplicate-free |
| OrderedSets.ShiftRight | src/main/java/org/codestorming/collection/OrderedHashSet.java:357-366 | the arraycopy that opens a slot: the block moves one to the right |
| OrderedSets.ShiftLeft | src/main/java/org/codestorming/collection/OrderedHashSet.java:167-173 | the arraycopy that closes a slot: the block moves one to the left |
| OrderedSets.CopyPrefix | src/main/java/org/codestorming/collection/OrderedHashSet.java:462-484 | a fresh array of the new length with the same members in front |
| OrderedSets.OrderedHashSet.ContentsDistinct | src/main/java/org/codestorming/collection/OrderedHashSet.java:57-62 | the ordered list never repeats a member |
| OrderedSets.OrderedHashSet.constructor | src/main/java/org/codestorming/collection/OrderedHashSet.java:73-76 | empty, with the default capacity and load factor |
| OrderedSets.OrderedHashSet.Init | src/main/java/org/codestorming/collection/OrderedHashSet.java:98-102 | empty, with the given capacity and load factor |
| OrderedSets.OrderedHashSet.WithLoadFactor | src/main/java/org/codestorming/collection/OrderedHashSet.java:98-102 | IllegalArgument iff the capacity is negative or the load factor is not positive |
| OrderedSets.OrderedHashSet.WithCapacity | src/main/java/org/codestorming/collection/OrderedHashSet.java:110-113 | IllegalArgument iff the capacity is negative |
| OrderedSets.OrderedHashSet.FromCollection | src/main/java/org/codestorming/collection/OrderedHashSet.java:84-89 | the distinct elements of `c` in first-occurrence order |
| OrderedSets.OrderedHashSet.Size | src/main/java/org/codestorming/collection/OrderedHashSet.java:176-178 | the number of members |
| OrderedSets.OrderedHashSet.IsEmpty | src/main/java/org/codestorming/collection/OrderedHashSet.java:181-183 | true iff there are no members |
| OrderedSets.OrderedHashSet.Contains | src/main/java/org/codestorming/collection/OrderedHashSet.java:186-188 | membership |
| OrderedSets.OrderedHashSet.ContainsAll | src/main/java/org/codestorming/collection/OrderedHashSet.java:191-193 | every element of `c` is a member |
| OrderedSets.OrderedHashSet.Get | src/main/java/org/codestorming/collection/OrderedHashSet.java:369-374 | the element at an index, or IndexOutOfBounds outside [0, size) |
| OrderedSets.OrderedHashSet.ToArray | src/main/java/org/codestorming/collection/OrderedHashSet.java:221-225 | the members in order, position by position equal to get |
| OrderedSets.OrderedHashSet.SubList | src/main/java/org/codestorming/collection/OrderedHashSet.java:457-459 | always UnsupportedOperation |
| OrderedSets.OrderedHashSet.IndexOf | src/main/java/org/codestorming/collection/OrderedHashSet.java:421-438 | the unique position of a member, -1 iff absent |
| OrderedSets.OrderedHashSet.LastIndexOf | src/main/java/org/codestorming/collection/OrderedHashSet.java:441-444 | the last position of a member, -1 iff absent |
| OrderedSets.OrderedHashSet.Equals | src/main/java/org/codestorming/collection/OrderedHashSet.java:299-324 | false unless the other object is an ordered set (the instanceof test); then true iff it has the same elements in the same order |
| OrderedSets.OrderedHashSet.EnsureCapacity | src/main/java/org/codestorming/collection/OrderedHashSet.java:462-474 | keeps the members; reallocates to GrownCapacity only when too small |
| OrderedSets.OrderedHashSet.Compaction | src/main/java/org/codestorming/collection/OrderedHashSet.java:477-484 | keeps the members; halves the array when fewer than half the slots are used |
| OrderedSets.OrderedHashSet.InternalAdd | src/main/java/org/codestorming/collection/OrderedHashSet.java:357-366 | a non-member is inserted at the index; a full array makes the shift throw after the hash set took the element |
| OrderedSets.OrderedHashSet.InternalListRemove | src/main/java/org/codestorming/collection/OrderedHashSet.java:167-173 | the slot is closed up; unless it was the last slot, the last slot keeps its old value |
| OrderedSets.OrderedHashSet.InternalRemove | src/main/java/org/codestorming/collection/OrderedHashSet.java:159-165 | removes the element at a found index; -1 changes nothing |
| OrderedSets.OrderedHashSet.Add | src/main/java/org/codestorming/collection/OrderedHashSet.java:116-119 | appends a non-member and returns true; a member leaves the set alone |
| OrderedSets.OrderedHashSet.AddAt | src/main/java/org/codestorming/collection/OrderedHashSet.java:400-406 | inserts a non-member at the index; IndexOutOfBounds outside [0, size]; ArrayIndexOutOfBounds exactly when the array is one short |
| OrderedSets.OrderedHashSet.AddAllAt | src/main/java/org/codestorming/collection/OrderedHashSet.java:340-355 | inserts the unseen elements of `c` in order at the index; true iff any; the exact overrun condition, and on overrun the membership set holds all of `c` while the array holds all but the last element spliced in |
| OrderedSets.OrderedHashSet.Remove | src/main/java/org/codestorming/collection/OrderedHashSet.java:127-134 | true iff a member; the order of the rest is kept; after a removal the array is halved exactly when size() drops below half its length |
| OrderedSets.OrderedHashSet.RemoveAt | src/main/java/org/codestorming/collection/OrderedHashSet.java:409-418 | returns and deletes the element at the index; IndexOutOfBounds changes nothing |
| OrderedSets.OrderedHashSet.RemoveAll | src/main/java/org/codestorming/collection/OrderedHashSet.java:137-157 | the members in `c` leave, the rest keep their order; modified iff any left; after a removal the array is halved exactly when size() drops below half its length |
| OrderedSets.OrderedHashSet.RemoveEach | src/main/java/org/codestorming/collection/OrderedHashSet.java:140-146 | the per-argument branch of removeAll |
| OrderedSets.OrderedHashSet.IteratorSweep | src/main/java/org/codestorming/collection/OrderedHashSet.java:147-155 | the iterator branch: the members whose membership in `c` differs from `keep` leave, in order |
| OrderedSets.OrderedHashSet.SweepFrom | src/main/java/org/codestorming/collection/OrderedHashSet.java:147-155 | the rest of the iterator walk from a cursor |
| OrderedSets.OrderedHashSet.RetainAll | src/main/java/org/codestorming/collection/OrderedHashSet.java:196-206 | the members outside `c` leave, the rest keep their order; modified iff any left |
| OrderedSets.OrderedHashSet.Clear | src/main/java/org/codestorming/collection/OrderedHashSet.java:210-213 | no members; a fresh array of the default capacity |
| OrderedSets.OrderedHashSet.Set | src/main/java/org/codestorming/collection/OrderedHashSet.java:383-397 | a non-member replaces the element at the index, which is returned; a member is first closed up out of its slot, so the slot read and evicted is that of the shifted list (except at the last position, under Left out) |
| OrderedSets.OrderedHashSet.ListIterator | src/main/java/org/codestorming/collection/OrderedHashSet.java:452-454 | a fresh iterator at the index |
| OrderedSets.OrderedHashSet.Iterator | src/main/java/org/codestorming/collection/OrderedHashSet.java:216-218 | a fresh iterator at the start |
| OrderedSets.OrderedSetIterator.HasNext | src/main/java/org/codestorming/collection/OrderedHashSet.java:528-530 | the cursor is before the end |
| OrderedSets.OrderedSetIterator.HasPrevious | src/main/java/org/codestorming/collection/OrderedHashSet.java:558-560 | the cursor is after the start |
| OrderedSets.OrderedSetIterator.NextIndex | src/main/java/org/codestorming/collection/OrderedHashSet.java:573-575 | the cursor |
| OrderedSets.OrderedSetIterator.PreviousIndex | src/main/java/org/codestorming/collection/OrderedHashSet.java:578-580 | the cursor minus one |
| OrderedSets.OrderedSetIterator.Next | src/main/java/org/codestorming/collection/OrderedHashSet.java:533-540 | the element at the cursor, which advances; NoSuchElement at the end |
| OrderedSets.OrderedSetIterator.Previous | src/main/java/org/codestorming/collection/OrderedHashSet.java:563-570 | the element before the cursor, which steps back; NoSuchElement at the start |
| OrderedSets.OrderedSetIterator.Remove | src/main/java/org/codestorming/collection/OrderedHashSet.java:543-555 | deletes the last returned element once; IllegalState before next/previous or after a removal |
| OrderedSets.OrderedSetIterator.Set | src/main/java/org/codestorming/collection/OrderedHashSet.java:583-588 | writes the slot and swaps the hash-set member, without checking for duplicates |
| OrderedSets.OrderedSetIterator.Add | src/main/java/org/codestorming/collection/OrderedHashSet.java:591-593 | inserts a non-member at the cursor; the cursor always advances |
| OrderedSetExamples.AddAtOverrun | src/main/java/org/codestorming/collection/OrderedHashSet.java:357-366 | add(0, e) on a one-element set with two slots throws, leaving the array untouched |
| OrderedSetExamples.OneTwoThree | src/main/java/org/codestorming/collection/OrderedHashSet.java:116-119 | three adds give the list [1, 2, 3] |
| OrderedSetExamples.SetToItself | src/main/java/org/codestorming/collection/OrderedHashSet.java:383-397 | set(0, 1) on [1, 2, 3] returns 2 and leaves [1, 3] |
| OrderedSetExamples.IteratorSetDuplicate | src/main/java/org/codestorming/collection/OrderedHashSet.java:583-588 | the iterator's set can duplicate an element in the list view |
| OrderedSetExamples.IteratorAddMember | src/main/java/org/codestorming/collection/OrderedHashSet.java:591-593 | adding a member through the iterator changes nothing but moves the cursor past size |
| ChronoExamples.SetHistory | src/main/java/org/codestorming/collection/chrono/ChronoHashSet.java:92-118 | remove then re-add cancels; only the new element is recorded |
| ChronoExamples.ListSetSame | src/main/java/org/codestorming/collection/chrono/ChronoArrayList.java:113-119 | set of an element to itself leaves both deltas empty |
| ChronoExamples.MapPutThenRemove | src/main/java/org/codestorming/collection/chrono/ChronoHashMap.java:87-117 | put of a new key then its removal leaves both deltas empty |
| ChronoExamples.MapReplaceThenRemove | src/main/java/org/codestorming/collection/chrono/ChronoHashMap.java:87-117 | replacing then removing a checkpoint key records nothing, though the key is gone |
| ChronoExamples.MapNullPut | src/main/java/org/codestorming/collection/chrono/ChronoHashMap.java:87-95 | a null put under a new key is not recorded |
| ChronoExamples.KeyViewRecordsNull | src/main/java/org/codestorming/collection/chrono/ChronoHashMap.java:235-246 | the key view records a removed null where the map's remove does not |

## Left out

- Null elements of sets and lists are not modelled. Map values are `Option<V>`, with `None` standing for Java `null`; map keys are never null.
- Float arithmetic: the load factor is a `real`. The capacity growth is computed exactly (GrownCapacity), with no float rounding, and NaN is not modelled.
- OrderedSets.OrderedHashSet.IteratorSweep: the iterator `while` loop of removeAll/retainAll is written as the tail-recursive method SweepFrom, with one call per `hasNext()`.
- OrderedSets.OrderedHashSet.Set: when `index` is the last position and `e` is already a member, only `e` in that slot and the membership update are promised. The slot read is past the shrunk prefix: a stale copy, or the cleared slot the source sets to `null`.
- OrderedSets.OrderedHashSet / OrderedSets.OrderedSetIterator: every member requires Valid(), so the model stops where the source runs on outside it. That happens after an add(index)/addAll(index) overrun, after an iterator `set` that duplicates an element, and with a cursor outside [0, size()], since listIterator(index) does not check the index.
- Iterators are modelled for legal use. `remove()` on the chrono set and map-view iterators requires that a key was returned and is still live; the IllegalStateException path is not modelled there.
- The JDK classes underneath are `set`, `seq` and `map` values. `HashSet`, `ArrayList` and `HashMap` are not part of this model.
  - Where a chrono collection calls `super`, the JDK's documented dispatch back into the overridden methods is modelled. For example, `AbstractSet.removeAll` chooses between its two loops by size.
  - `ArrayList.removeRange` follows the JDK 9+ bounds check.
- The views' bulk loops walk an iterator in an unspecified order. They are written as value loops over the keys not yet visited: SweepKeys, SweepEntries and FindValue.
- The views' `size`, `isEmpty`, `contains`, `containsAll`, `toArray`, `equals` and `hashCode` forward to the JDK view. Only `Size` and `Contains` are present, as forwarding functions.
- ChronoHashMaps.KeySet.AddAll: the loop stops at the first `add`, which always throws. The same holds for EntrySet.AddAll and Values.AddAll.
- ChronoHashMaps.ChronoHashMap.Create: the pairs form of the four `create` overloads, so 1 to 4 pairs.
- ChronoHashMaps.ChronoHashMap.PutAll: no ledger clause; PutLedger and PutAllStep state it one entry at a time.
- ChronoHashMaps.Values.Remove: removes some key holding the value. Which key the JDK iterator meets first is left open.
- ChronoHashSets.ChronoHashSet.AddAll: the ledger is stated only when no newly added element was in `removed`. AddAllLedger states the converse.
- Not modelled:
  - serialization;
  - `clone`, `hashCode` and `toArray(T[])`;
  - `Collections3`;
  - the `OrderedSet` interface's default `sort`, `spliterator` and `replaceAll`;
  - the primitive overloads of `Arrays2.insert`;
  - the `added()`/`removed()` accessors, which are the fields themselves.
- Concurrency and `ConcurrentModificationException` are left out. Each call runs alone.
