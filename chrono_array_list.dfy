/**
 * ChronoArrayList: an array list that records, in two further lists
 * `added` and `removed`, the changes made since its last reset.
 *
 * The live list is a sequence (the `ArrayList` it extends). The overridden
 * mutators update the deltas with the list form of the ChronoHelper rule;
 * `clear` and `retainAll` are inherited unchanged and record nothing.
 * `checkpoint` is a ghost: the live contents at creation or at the last
 * reset.
 */
module ChronoArrayLists {
  import opened Lang
  import opened Seqs
  import opened ChronoHelper

  function Min(a: int, b: int): int {
    if a < b then a else b
  }

  /**
   * The elements removeRange(from, to) reads with `get(i)` before `get`
   * throws: none when `from` is out of range, those up to the end of the
   * list when `to` is past it.
   */
  function Reached<E>(live: seq<E>, from: int, to: int): (r: seq<E>)
    ensures |r| <= |live|
    ensures 0 <= from <= to <= |live| ==> r == live[from..to]
  {
    if from < to && 0 <= from <= |live| then live[from..Min(to, |live|)] else []
  }

  /**
   * removeAll(c) records each element of `c` that occurs in the list, as
   * often as it occurs in `c`, while the list loses every occurrence of it.
   * The ledger survives exactly when, for every such element, the two
   * counts agree.
   */
  lemma RemoveAllLedger<E>(checkpoint: seq<E>, live: seq<E>, d: ListDeltas<E>, c: seq<E>)
    requires ListLedger(checkpoint, live, d)
    ensures ListLedger(checkpoint, Select(live, SetOf(c), false), RemovedAll(d, Select(c, SetOf(live), true)))
        <==> forall x :: x in live && x in c ==> multiset(c)[x] == multiset(live)[x]
  {
    var kept, recorded := Select(live, SetOf(c), false), Select(c, SetOf(live), true);
    RemovedAllLedger(checkpoint, live, d, recorded, kept);
    RemoveAllCounts(live, c);
  }

  /** What removeAll(c) keeps plus what it records is the old list exactly when the counts agree. */
  lemma RemoveAllCounts<E>(live: seq<E>, c: seq<E>)
    ensures multiset(Select(live, SetOf(c), false)) + multiset(Select(c, SetOf(live), true)) == multiset(live)
        <==> forall x :: x in live && x in c ==> multiset(c)[x] == multiset(live)[x]
  {
    var kept, recorded := multiset(Select(live, SetOf(c), false)), multiset(Select(c, SetOf(live), true));
    forall x ensures (kept + recorded)[x] == if x in live && x in c then multiset(c)[x] else multiset(live)[x] {
      SelectCount(live, SetOf(c), false, x);
      SelectCount(c, SetOf(live), true, x);
      assert x in SetOf(c) <==> x in c;
      assert x in SetOf(live) <==> x in live;
    }
    if forall x :: x in live && x in c ==> multiset(c)[x] == multiset(live)[x] {
      MultisetsAgree(kept + recorded, multiset(live));
    }
  }

  lemma MultisetsAgree<E>(a: multiset<E>, b: multiset<E>)
    requires forall x :: a[x] == b[x]
    ensures a == b
  {
  }

  /** set(index, e) keeps the ledger: one `e` went live and the old element left. */
  lemma ReplaceLedger<E>(checkpoint: seq<E>, live: seq<E>, d: ListDeltas<E>, index: nat, e: E)
    requires ListLedger(checkpoint, live, d) && index < |live|
    ensures ListLedger(checkpoint, live[index := e], UpdateRemoved(UpdateAdded(d, e), live[index]))
  {
    var between := live + [e];
    UpdateAddedLedger(checkpoint, live, d, e, between);
    UpdateRemovedLedger(checkpoint, between, UpdateAdded(d, e), live[index], live[index := e]);
    assert multiset(live[index := e]) + multiset{live[index]} == multiset(between);
  }

  /** A change the deltas do not see keeps the ledger only if it leaves the same multiset of elements. */
  lemma UntrackedLedger<E>(checkpoint: seq<E>, live: seq<E>, d: ListDeltas<E>, live': seq<E>)
    requires ListLedger(checkpoint, live, d)
    ensures ListLedger(checkpoint, live', d) <==> multiset(live') == multiset(live)
  {
    RemovedAllLedger(checkpoint, live, d, [], live');
  }

  /**
   * Recording additions or removals while the list stays as it is breaks
   * the ledger, unless nothing was recorded: the failure paths of add(index,
   * e), addAll(index, c) and removeRange.
   */
  lemma UnmatchedRecordLedger<E>(checkpoint: seq<E>, live: seq<E>, d: ListDeltas<E>, elements: seq<E>)
    requires ListLedger(checkpoint, live, d)
    ensures ListLedger(checkpoint, live, AddedAll(d, elements)) <==> elements == []
    ensures ListLedger(checkpoint, live, RemovedAll(d, elements)) <==> elements == []
  {
    AddedAllLedger(checkpoint, live, d, elements, live);
    RemovedAllLedger(checkpoint, live, d, elements, live);
    assert |multiset(live) + multiset(elements)| == |live| + |elements|;
  }

  /**
   * removeRange(from, to) keeps the ledger when it succeeds; when it throws,
   * the list is unchanged, and the ledger survives only if no element was
   * recorded before the throw.
   */
  lemma RemoveRangeLedger<E>(checkpoint: seq<E>, live: seq<E>, d: ListDeltas<E>, from: int, to: int)
    requires ListLedger(checkpoint, live, d)
    ensures 0 <= from <= to <= |live| ==>
              ListLedger(checkpoint, live[..from] + live[to..], RemovedAll(d, live[from..to]))
    ensures !(0 <= from <= to <= |live|) ==>
              (ListLedger(checkpoint, live, RemovedAll(d, Reached(live, from, to))) <==> Reached(live, from, to) == [])
  {
    if 0 <= from <= to <= |live| {
      assert live == live[..from] + live[from..to] + live[to..];
      RemovedAllLedger(checkpoint, live, d, live[from..to], live[..from] + live[to..]);
    } else {
      UnmatchedRecordLedger(checkpoint, live, d, Reached(live, from, to));
    }
  }

  /**
   * The loop of removeRange: when from < to, updateRemoved(get(i)) for i
   * from `from` up to `to`, stopping at the first `get` that throws.
   */
  method RecordRange<E(==)>(live: seq<E>, d: ListDeltas<E>, from: int, to: int) returns (r: Outcome, d': ListDeltas<E>)
    ensures r.Thrown? <==> from < to && !(0 <= from && to <= |live|)
    ensures r.Thrown? ==> r.failure == IndexOutOfBounds
    ensures d' == RemovedAll(d, Reached(live, from, to))
  {
    r, d' := Normal, d;
    if from < to {
      if from < 0 || from > |live| {
        return Thrown(IndexOutOfBounds), d';
      }
      var end := Min(to, |live|);
      for i := from to end
        invariant d' == RemovedAll(d, live[from..i])
      {
        assert live[from..i + 1] == live[from..i] + [live[i]];
        d' := UpdateRemoved(d', live[i]);
      }
      if to > |live| {
        r := Thrown(IndexOutOfBounds);
      }
    }
  }

  class ChronoArrayList<E(==)> {
    var live: seq<E>
    var added: seq<E>
    var removed: seq<E>
    ghost var checkpoint: seq<E>

    function Deltas(): ListDeltas<E>
      reads this
    {
      ListDeltas(added, removed)
    }

    ghost predicate Ledger()
      reads this
    {
      ListLedger(checkpoint, live, Deltas())
    }

    /** `new ChronoArrayList<>()`. */
    constructor ()
      ensures live == [] && added == [] && removed == [] && checkpoint == []
      ensures Ledger()
    {
      live, added, removed := [], [], [];
      checkpoint := [];
    }

    /** create(e) and create(e, elements...): filled through `_add`, so nothing is recorded. */
    static method Create(e: E, elements: seq<E>) returns (l: ChronoArrayList<E>)
      ensures fresh(l)
      ensures l.live == [e] + elements && l.added == [] && l.removed == []
      ensures l.checkpoint == l.live && l.Ledger()
    {
      l := new ChronoArrayList();
      var _ := l.RawAdd(e);
      for i := 0 to |elements|
        invariant l.live == [e] + elements[..i] && l.added == [] && l.removed == []
      {
        assert elements[..i + 1] == elements[..i] + [elements[i]];
        var _ := l.RawAdd(elements[i]);
      }
      assert elements[..|elements|] == elements;
      l.checkpoint := l.live;
    }

    /** `_add`: appends without touching the deltas. */
    method RawAdd(e: E) returns (changed: bool)
      modifies this
      ensures changed && live == old(live) + [e]
      ensures Deltas() == old(Deltas()) && checkpoint == old(checkpoint)
    {
      live := live + [e];
      changed := true;
    }

    /** reset(): forget the recorded changes; the live list becomes the checkpoint. */
    method Reset()
      modifies this
      ensures live == old(live) && added == [] && removed == []
      ensures checkpoint == live && Ledger()
    {
      var d := ChronoHelper.Reset<E>();
      added, removed := d.added, d.removed;
      checkpoint := live;
    }

    /** add(e): updateAdded(e), then append. */
    method Add(e: E) returns (changed: bool)
      modifies this
      ensures changed && live == old(live) + [e]
      ensures Deltas() == UpdateAdded(old(Deltas()), e)
      ensures checkpoint == old(checkpoint)
      ensures old(Ledger()) ==> Ledger()
    {
      var d := UpdateAdded(Deltas(), e);
      added, removed := d.added, d.removed;
      live := live + [e];
      changed := true;
      if old(Ledger()) {
        UpdateAddedLedger(checkpoint, old(live), old(Deltas()), e, live);
      }
    }

    /**
     * add(index, e): updateAdded(e) runs before `ArrayList.add` checks the
     * index, so an IndexOutOfBoundsException leaves `e` recorded as added
     * although the list is unchanged; the ledger then no longer holds.
     */
    method AddAt(index: int, e: E) returns (r: Outcome)
      modifies this
      ensures Deltas() == UpdateAdded(old(Deltas()), e)
      ensures r.Normal? <==> 0 <= index <= |old(live)|
      ensures r.Normal? ==> live == InsertAt(old(live), index, e)
      ensures r.Thrown? ==> r.failure == IndexOutOfBounds && live == old(live)
      ensures checkpoint == old(checkpoint)
      ensures old(Ledger()) ==> (Ledger() <==> r.Normal?)
    {
      var d := UpdateAdded(Deltas(), e);
      added, removed := d.added, d.removed;
      if index < 0 || index > |live| {
        r := Thrown(IndexOutOfBounds);
        if old(Ledger()) {
          UpdateAddedLedger(checkpoint, live, old(Deltas()), e, live);
          assert (multiset(live) + multiset{e})[e] == multiset(live)[e] + 1;
        }
      } else {
        assert live == live[..index] + live[index..];
        live := InsertAt(live, index, e);
        r := Normal;
        if old(Ledger()) {
          UpdateAddedLedger(checkpoint, old(live), old(Deltas()), e, live);
        }
      }
    }

    /** addAll(c): the bulk updateAdded over `c`, then append `c`; true when `c` is not empty. */
    method AddAll(c: seq<E>) returns (changed: bool)
      modifies this
      ensures live == old(live) + c
      ensures Deltas() == AddedAll(old(Deltas()), c)
      ensures changed <==> c != []
      ensures checkpoint == old(checkpoint)
      ensures old(Ledger()) ==> Ledger()
    {
      var d := UpdateAddedAll(Deltas(), c);
      added, removed := d.added, d.removed;
      live := live + c;
      changed := |c| != 0;
      if old(Ledger()) {
        AddedAllLedger(checkpoint, old(live), old(Deltas()), c, live);
      }
    }

    /**
     * addAll(index, c): the bulk updateAdded runs before the index check, so
     * an IndexOutOfBoundsException leaves `c` recorded as added.
     */
    method AddAllAt(index: int, c: seq<E>) returns (r: Result<bool>)
      modifies this
      ensures Deltas() == AddedAll(old(Deltas()), c)
      ensures r.Ok? <==> 0 <= index <= |old(live)|
      ensures r.Ok? ==> live == old(live)[..index] + c + old(live)[index..] && (r.value <==> c != [])
      ensures r.Err? ==> r.failure == IndexOutOfBounds && live == old(live)
      ensures checkpoint == old(checkpoint)
      ensures old(Ledger()) ==> (Ledger() <==> r.Ok? || c == [])
    {
      var d := UpdateAddedAll(Deltas(), c);
      added, removed := d.added, d.removed;
      if index < 0 || index > |live| {
        r := Err(IndexOutOfBounds);
        if old(Ledger()) {
          AddedAllLedger(checkpoint, live, old(Deltas()), c, live);
          if c != [] {
            assert (multiset(live) + multiset(c))[c[0]] == multiset(live)[c[0]] + multiset(c)[c[0]];
          }
        }
      } else {
        assert live == live[..index] + live[index..];
        live := live[..index] + c + live[index..];
        r := Ok(|c| != 0);
        if old(Ledger()) {
          AddedAllLedger(checkpoint, old(live), old(Deltas()), c, live);
        }
      }
    }

    /**
     * set(index, e): `ArrayList.set` checks the index and returns the old
     * element; then updateAdded(e) and updateRemoved(old element).
     */
    method Set(index: int, e: E) returns (r: Result<E>)
      modifies this
      ensures r.Ok? <==> 0 <= index < |old(live)|
      ensures r.Ok? ==> r.value == old(live)[index] && live == old(live)[index := e]
                        && Deltas() == UpdateRemoved(UpdateAdded(old(Deltas()), e), r.value)
      ensures r.Err? ==> r.failure == IndexOutOfBounds && live == old(live) && Deltas() == old(Deltas())
      ensures checkpoint == old(checkpoint)
      ensures old(Ledger()) ==> Ledger()
    {
      if index < 0 || index >= |live| {
        return Err(IndexOutOfBounds);
      }
      var previous := live[index];
      live := live[index := e];
      var d := UpdateAdded(Deltas(), e);
      d := UpdateRemoved(d, previous);
      added, removed := d.added, d.removed;
      r := Ok(previous);
      if old(Ledger()) {
        ReplaceLedger(checkpoint, old(live), old(Deltas()), index, e);
      }
    }

    /**
     * removeRange(from, to): when from < to, updateRemoved(get(i)) for each i
     * in [from, to) in order, then `ArrayList.removeRange`. A `get` past the
     * end throws after the earlier elements were recorded; `removeRange`
     * throws unless 0 <= from <= to <= size.
     */
    method RemoveRange(from: int, to: int) returns (r: Outcome)
      modifies this
      ensures r.Normal? <==> 0 <= from <= to <= |old(live)|
      ensures r.Normal? ==> live == old(live)[..from] + old(live)[to..]
                            && Deltas() == RemovedAll(old(Deltas()), old(live)[from..to])
      ensures r.Thrown? ==> r.failure == IndexOutOfBounds && live == old(live)
                            && Deltas() == RemovedAll(old(Deltas()), Reached(old(live), from, to))
      ensures checkpoint == old(checkpoint)
      ensures old(Ledger()) ==> (Ledger() <==> r.Normal? || Reached(old(live), from, to) == [])
    {
      var d;
      r, d := RecordRange(live, Deltas(), from, to);
      added, removed := d.added, d.removed;
      if r.Normal? {
        if from < 0 || to > |live| || from > to {
          r := Thrown(IndexOutOfBounds);
        } else {
          live := live[..from] + live[to..];
        }
      }
      if old(Ledger()) {
        RemoveRangeLedger(checkpoint, old(live), old(Deltas()), from, to);
      }
    }

    /** remove(o): updateRemoved(o) only when an occurrence was removed. */
    method Remove(o: E) returns (changed: bool)
      modifies this
      ensures changed <==> o in old(live)
      ensures live == RemoveFirst(old(live), o)
      ensures changed ==> Deltas() == UpdateRemoved(old(Deltas()), o)
      ensures !changed ==> Deltas() == old(Deltas())
      ensures checkpoint == old(checkpoint)
      ensures old(Ledger()) ==> Ledger()
    {
      changed := o in live;
      live := RemoveFirst(live, o);
      if changed {
        var d := UpdateRemoved(Deltas(), o);
        added, removed := d.added, d.removed;
        if old(Ledger()) {
          RemoveFirstCount(old(live), o);
          UpdateRemovedLedger(checkpoint, old(live), old(Deltas()), o, live);
        }
      }
    }

    /** remove(index): `ArrayList.remove` checks the index; the removed element goes through updateRemoved. */
    method RemoveAt(index: int) returns (r: Result<E>)
      modifies this
      ensures r.Ok? <==> 0 <= index < |old(live)|
      ensures r.Ok? ==> r.value == old(live)[index] && live == DeleteAt(old(live), index)
                        && Deltas() == UpdateRemoved(old(Deltas()), r.value)
      ensures r.Err? ==> r.failure == IndexOutOfBounds && live == old(live) && Deltas() == old(Deltas())
      ensures checkpoint == old(checkpoint)
      ensures old(Ledger()) ==> Ledger()
    {
      if index < 0 || index >= |live| {
        return Err(IndexOutOfBounds);
      }
      var element := live[index];
      assert live == live[..index] + [element] + live[index + 1..];
      live := DeleteAt(live, index);
      var d := UpdateRemoved(Deltas(), element);
      added, removed := d.added, d.removed;
      r := Ok(element);
      if old(Ledger()) {
        UpdateRemovedLedger(checkpoint, old(live), old(Deltas()), element, live);
      }
    }

    /**
     * removeAll(c): the elements of `c` present in the list are computed
     * first, with their repetitions in `c`; `ArrayList.removeAll` drops every
     * occurrence of every element of `c`, and if that changed the list the
     * computed elements go through the bulk updateRemoved.
     */
    method RemoveAll(c: seq<E>) returns (changed: bool)
      modifies this
      ensures live == Select(old(live), SetOf(c), false)
      ensures changed <==> exists x :: x in old(live) && x in c
      ensures changed ==> Deltas() == RemovedAll(old(Deltas()), Select(c, SetOf(old(live)), true))
      ensures !changed ==> Deltas() == old(Deltas())
      ensures checkpoint == old(checkpoint)
      ensures old(Ledger()) ==> (Ledger() <==> forall x :: x in old(live) && x in c ==> multiset(c)[x] == multiset(old(live))[x])
    {
      var elements := Elements(SetOf(live), c, true);
      var kept := Select(live, SetOf(c), false);
      SelectMembers(live, SetOf(c), false);
      SelectFull(live, SetOf(c), false);
      if forall x :: x in live ==> x !in SetOf(c) {
        SelectNone(live, SetOf(c));
      }
      changed := |kept| < |live|;
      live := kept;
      if changed {
        var d := UpdateRemovedAll(Deltas(), elements);
        added, removed := d.added, d.removed;
      }
      if old(Ledger()) {
        RemoveAllLedger(checkpoint, old(live), old(Deltas()), c);
      }
    }

    /** clear(), inherited from `ArrayList`: the list empties and nothing is recorded. */
    method Clear()
      modifies this
      ensures live == [] && Deltas() == old(Deltas()) && checkpoint == old(checkpoint)
      ensures old(Ledger()) ==> (Ledger() <==> old(live) == [])
    {
      live := [];
      if old(Ledger()) {
        UntrackedLedger(checkpoint, old(live), Deltas(), live);
      }
    }

    /** retainAll(c), inherited from `ArrayList`: the elements not in `c` leave and nothing is recorded. */
    method RetainAll(c: seq<E>) returns (changed: bool)
      modifies this
      ensures live == Select(old(live), SetOf(c), true)
      ensures changed <==> exists x :: x in old(live) && x !in c
      ensures Deltas() == old(Deltas()) && checkpoint == old(checkpoint)
      ensures old(Ledger()) ==> (Ledger() <==> !changed)
    {
      var kept := Select(live, SetOf(c), true);
      SelectMembers(live, SetOf(c), true);
      SelectFull(live, SetOf(c), true);
      if forall x :: x in live ==> x in SetOf(c) {
        SelectAllInside(live, SetOf(c));
      }
      changed := |kept| < |live|;
      if changed {
        assert |multiset(kept)| < |multiset(live)|;
      }
      live := kept;
      if old(Ledger()) {
        UntrackedLedger(checkpoint, old(live), Deltas(), live);
      }
    }
  }
}
