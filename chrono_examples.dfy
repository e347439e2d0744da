/**
 * Concrete histories of the change-tracking collections. Each builds a
 * fresh collection through `create`, applies a few tracked operations and
 * states what `added` and `removed` then hold.
 */
module ChronoExamples {
  import opened Lang
  import opened Seqs
  import opened ChronoHelper
  import opened ChronoHashSets
  import opened ChronoArrayLists
  import opened ChronoHashMaps

  /**
   * From {1, 2}: remove 1, add 3, add 1. The removal of 1 and its return
   * cancel, so only 3 is recorded as added and nothing as removed.
   */
  method SetHistory() returns (live: set<int>, added: set<int>, removed: set<int>)
    ensures live == {1, 2, 3} && added == {3} && removed == {}
  {
    var s := ChronoHashSet.Create(1, [2]);
    assert SetOf([2]) == {2};
    var _ := s.Remove(1);
    var _ := s.Add(3);
    var _ := s.Add(1);
    live, added, removed := s.live, s.added, s.removed;
  }

  /**
   * set(0, get(0)) on the list [1, 2]: updateAdded(1) records 1 as added
   * and updateRemoved(1) takes it back, so both delta lists stay empty.
   */
  method ListSetSame() returns (previous: Result<int>, live: seq<int>, d: ListDeltas<int>)
    ensures previous == Ok(1) && live == [1, 2] && d == ListDeltas([], [])
  {
    var l := ChronoArrayList.Create(1, [2]);
    previous := l.Set(0, 1);
    live, d := l.live, l.Deltas();
  }

  /**
   * put(2, 20) then remove(2) on the map {1: 10}: the fresh key is
   * recorded as added and then forgotten, leaving both deltas empty.
   */
  method MapPutThenRemove() returns (live: map<int, Option<int>>, d: MapDeltas<int, int>)
    ensures live == map[1 := Some(10)] && d == MapDeltas(map[], map[])
  {
    var m := ChronoHashMap.Create([(1, Some(10))]);
    var _ := m.Put(2, Some(20));
    var _ := m.Remove(2);
    live, d := m.live, m.Deltas();
  }

  /**
   * put(1, 11) then remove(1) on the map {1: 10}: put never records the
   * replaced 10, and remove finds 11 in `added` and drops it, so the key
   * is gone while neither delta mentions it.
   */
  method MapReplaceThenRemove() returns (live: map<int, Option<int>>, d: MapDeltas<int, int>)
    ensures live == map[] && d == MapDeltas(map[], map[])
  {
    var m := ChronoHashMap.Create([(1, Some(10))]);
    var _ := m.Put(1, Some(11));
    var _ := m.Remove(1);
    live, d := m.live, m.Deltas();
  }

  /** put(2, null) on the map {1: 10}: the new key's null value is not recorded. */
  method MapNullPut() returns (live: map<int, Option<int>>, d: MapDeltas<int, int>)
    ensures live == map[1 := Some(10), 2 := None] && d == MapDeltas(map[], map[])
  {
    var m := ChronoHashMap.Create([(1, Some(10))]);
    var _ := m.Put(2, None);
    live, d := m.live, m.Deltas();
  }

  /**
   * keySet().remove(1) on the map {1: null}: the view records the null
   * value as removed, where the map's own remove(1) would record nothing.
   */
  method KeyViewRecordsNull() returns (viewRemoved: MapDeltas<int, int>, mapRemoved: MapDeltas<int, int>)
    ensures viewRemoved == MapDeltas(map[], map[1 := None])
    ensures mapRemoved == MapDeltas(map[], map[])
  {
    var m := ChronoHashMap.Create([(1, None)]);
    var keys := m.KeySet();
    var _ := keys.Remove(1);
    viewRemoved := m.Deltas();
    var m2 := ChronoHashMap.Create([(1, None)]);
    var _ := m2.Remove(1);
    mapRemoved := m2.Deltas();
  }
}
