/**
 * ChronoHashSet: a hash set that records, in two further sets `added` and
 * `removed`, the changes made since its last reset.
 *
 * The live set is a mathematical set (the `HashSet` it extends). Its bulk
 * operations follow the standard library's dispatch: `HashSet.addAll` is
 * `AbstractCollection.addAll`, which calls the overridden `add` once per
 * element, and `HashSet.removeAll` is `AbstractSet.removeAll`, which calls
 * the overridden `remove` or the overridden iterator's `remove`. So every
 * element that a bulk call changes is reconciled once by that overridden
 * path and once more by the bulk call's own `updateAdded`/`updateRemoved`.
 *
 * `checkpoint` is a ghost: the live contents at creation or at the last
 * reset, against which the deltas are read.
 */
module ChronoHashSets {
  import opened Lang
  import opened Seqs
  import opened ChronoHelper

  /**
   * The ledger stated the other way round: nothing added was in the
   * checkpoint, everything removed was, and the live set is the checkpoint
   * without the removed elements plus the added ones.
   */
  lemma SetLedgerForms<E>(checkpoint: set<E>, live: set<E>, d: SetDeltas<E>)
    ensures SetLedger(checkpoint, live, d)
        <==> d.added !! checkpoint && d.removed <= checkpoint && live == (checkpoint - d.removed) + d.added
  {
    if d.added !! checkpoint && d.removed <= checkpoint && live == (checkpoint - d.removed) + d.added {
      assert d.added == live - checkpoint;
      assert d.removed == checkpoint - live;
    }
  }

  /**
   * addAll(c) as dispatched: each new element is reconciled by `add` and
   * again by the bulk `updateAdded`. The ledger survives exactly when no
   * new element is one that was removed since the checkpoint.
   */
  lemma AddAllLedger<E>(checkpoint: set<E>, live: set<E>, d: SetDeltas<E>, c: set<E>)
    requires SetLedger(checkpoint, live, d)
    ensures var incoming := c - live;
            (SetLedger(checkpoint, live + c, SetDeltas(d.added + incoming, d.removed - incoming))
             <==> incoming !! d.removed)
  {
    var incoming := c - live;
    if !(incoming !! d.removed) {
      var x :| x in incoming && x in d.removed;
      assert x in d.added + incoming && x in checkpoint;
    }
  }

  /**
   * removeAll(c) as dispatched: each removed element is reconciled by
   * `remove` (or iterator `remove`) and again by the bulk `updateRemoved`.
   * The ledger survives exactly when no removed element is one that was
   * added since the checkpoint.
   */
  lemma RemoveAllLedger<E>(checkpoint: set<E>, live: set<E>, d: SetDeltas<E>, c: set<E>)
    requires SetLedger(checkpoint, live, d)
    ensures var gone := live * c;
            (SetLedger(checkpoint, live - c, SetDeltas(d.added - gone, d.removed + gone))
             <==> gone !! d.added)
  {
    var gone := live * c;
    if !(gone !! d.added) {
      var x :| x in gone && x in d.added;
      assert x in d.removed + gone && x !in checkpoint;
    }
  }

  /** One more new element reconciled by `add` during addAll. */
  lemma AddStep<E>(added: set<E>, removed: set<E>, incoming: set<E>, x: E)
    requires x !in incoming
    ensures UpdateAddedSet(SetDeltas(added + (incoming - removed), removed - incoming), x)
         == SetDeltas(added + ((incoming + {x}) - removed), removed - (incoming + {x}))
  {
  }

  /** One more element reconciled by `remove` or iterator `remove` during removeAll. */
  lemma RemoveStep<E>(added: set<E>, removed: set<E>, gone: set<E>, x: E)
    requires x !in gone
    ensures UpdateRemovedSet(SetDeltas(added - gone, removed + (gone - added)), x)
         == SetDeltas(added - (gone + {x}), removed + ((gone + {x}) - added))
  {
  }

  class ChronoHashSet<E(==)> {
    var live: set<E>
    var added: set<E>
    var removed: set<E>
    ghost var checkpoint: set<E>

    ghost predicate Ledger()
      reads this
    {
      SetLedger(checkpoint, live, SetDeltas(added, removed))
    }

    /** `new ChronoHashSet<>()`. */
    constructor ()
      ensures live == {} && added == {} && removed == {} && checkpoint == {}
      ensures Ledger()
    {
      live, added, removed := {}, {}, {};
      checkpoint := {};
    }

    /** create(e) and create(e, elements...): filled through `_add`, so nothing is recorded. */
    static method Create(e: E, elements: seq<E>) returns (s: ChronoHashSet<E>)
      ensures fresh(s)
      ensures s.live == {e} + SetOf(elements) && s.added == {} && s.removed == {}
      ensures s.checkpoint == s.live && s.Ledger()
    {
      s := new ChronoHashSet();
      var _ := s.RawAdd(e);
      for i := 0 to |elements|
        invariant s.live == {e} + SetOf(elements[..i]) && s.added == {} && s.removed == {}
      {
        SetOfSnoc(elements, i);
        var _ := s.RawAdd(elements[i]);
      }
      assert elements[..|elements|] == elements;
      s.checkpoint := s.live;
    }

    /** `_add`: adds without touching the deltas. */
    method RawAdd(e: E) returns (changed: bool)
      modifies this
      ensures changed <==> e !in old(live)
      ensures live == old(live) + {e}
      ensures added == old(added) && removed == old(removed) && checkpoint == old(checkpoint)
    {
      changed := e !in live;
      live := live + {e};
    }

    /** reset(): forget the recorded changes; the live set becomes the checkpoint. */
    method Reset()
      modifies this
      ensures live == old(live) && added == {} && removed == {}
      ensures checkpoint == live && Ledger()
    {
      added, removed := {}, {};
      checkpoint := live;
    }

    /** add(e): the deltas are touched only when the set changed. */
    method Add(e: E) returns (changed: bool)
      modifies this
      ensures changed <==> e !in old(live)
      ensures live == old(live) + {e}
      ensures changed ==> SetDeltas(added, removed) == UpdateAddedSet(old(SetDeltas(added, removed)), e)
      ensures !changed ==> added == old(added) && removed == old(removed)
      ensures checkpoint == old(checkpoint)
      ensures old(Ledger()) ==> Ledger()
    {
      changed := e !in live;
      live := live + {e};
      if changed {
        var d := UpdateAddedSet(SetDeltas(added, removed), e);
        added, removed := d.added, d.removed;
      }
    }

    /** remove(o): the deltas are touched only when `o` was a member. */
    method Remove(o: E) returns (changed: bool)
      modifies this
      ensures changed <==> o in old(live)
      ensures live == old(live) - {o}
      ensures changed ==> SetDeltas(added, removed) == UpdateRemovedSet(old(SetDeltas(added, removed)), o)
      ensures !changed ==> added == old(added) && removed == old(removed)
      ensures checkpoint == old(checkpoint)
      ensures old(Ledger()) ==> Ledger()
    {
      changed := o in live;
      live := live - {o};
      if changed {
        var d := UpdateRemovedSet(SetDeltas(added, removed), o);
        added, removed := d.added, d.removed;
      }
    }

    /**
     * addAll(c): the elements of `c` not yet present are computed first;
     * `AbstractCollection.addAll` then calls `add` for each element of `c`,
     * and if that changed the set the bulk `updateAdded` runs over the
     * computed elements. Each new element is thus recorded as added even
     * when its first reconciliation cancelled a removal.
     */
    method AddAll(c: seq<E>) returns (modified: bool)
      modifies this
      ensures live == old(live) + SetOf(c)
      ensures modified <==> !(SetOf(c) <= old(live))
      ensures modified ==> (added == old(added) + (SetOf(c) - old(live))
                            && removed == old(removed) - (SetOf(c) - old(live)))
      ensures !modified ==> added == old(added) && removed == old(removed)
      ensures checkpoint == old(checkpoint)
      ensures old(Ledger()) && (SetOf(c) - old(live)) !! old(removed) ==> Ledger()
    {
      var elements := Elements(live, c, false);
      SelectMembers(c, old(live), false);
      assert SetOf(elements) == SetOf(c) - old(live);
      modified := false;
      ghost var incoming: set<E> := {};
      for i := 0 to |c|
        invariant incoming == SetOf(c[..i]) - old(live)
        invariant live == old(live) + incoming
        invariant added == old(added) + (incoming - old(removed)) && removed == old(removed) - incoming
        invariant modified <==> incoming != {}
        invariant checkpoint == old(checkpoint)
      {
        SetOfSnoc(c, i);
        if c[i] !in live {
          AddStep(old(added), old(removed), incoming, c[i]);
          incoming := incoming + {c[i]};
        }
        var changed := Add(c[i]);
        modified := modified || changed;
      }
      assert c[..|c|] == c;
      if modified {
        AddedAllSetNoCancel(SetDeltas(added, removed), elements);
        var d := UpdateAddedAllSet(SetDeltas(added, removed), elements);
        added, removed := d.added, d.removed;
      }
      if old(Ledger()) {
        AddAllLedger(checkpoint, old(live), old(SetDeltas(added, removed)), SetOf(c));
      }
    }

    /**
     * removeAll(c): the present elements of `c` are computed first;
     * `AbstractSet.removeAll` then removes them one by one, through `remove`
     * when the set is larger than `c` and through the iterator otherwise,
     * and if that changed the set the bulk `updateRemoved` runs over the
     * computed elements. Each removed element is thus recorded as removed
     * even when its first reconciliation cancelled an addition.
     */
    method RemoveAll(c: seq<E>) returns (modified: bool)
      modifies this
      ensures live == old(live) - SetOf(c)
      ensures modified <==> old(live) * SetOf(c) != {}
      ensures modified ==> (added == old(added) - (old(live) * SetOf(c))
                            && removed == old(removed) + (old(live) * SetOf(c)))
      ensures !modified ==> added == old(added) && removed == old(removed)
      ensures checkpoint == old(checkpoint)
      ensures old(Ledger()) && (old(live) * SetOf(c)) !! old(added) ==> Ledger()
    {
      var elements := Elements(live, c, true);
      SelectMembers(c, old(live), true);
      assert SetOf(elements) == old(live) * SetOf(c);
      if |live| > |c| {
        modified := RemoveEach(c);
      } else {
        modified := RemoveIterating(c);
      }
      if modified {
        RemovedAllSetNoCancel(SetDeltas(added, removed), elements);
        var d := UpdateRemovedAllSet(SetDeltas(added, removed), elements);
        added, removed := d.added, d.removed;
      }
      if old(Ledger()) {
        RemoveAllLedger(checkpoint, old(live), old(SetDeltas(added, removed)), SetOf(c));
      }
    }

    /** The first strategy of `AbstractSet.removeAll`: `remove(o)` for each `o` of `c`. */
    method RemoveEach(c: seq<E>) returns (modified: bool)
      modifies this
      ensures live == old(live) - SetOf(c)
      ensures added == old(added) - (old(live) * SetOf(c))
      ensures removed == old(removed) + ((old(live) * SetOf(c)) - old(added))
      ensures modified <==> old(live) * SetOf(c) != {}
      ensures checkpoint == old(checkpoint)
    {
      modified := false;
      ghost var gone: set<E> := {};
      for i := 0 to |c|
        invariant gone == old(live) * SetOf(c[..i])
        invariant live == old(live) - gone
        invariant added == old(added) - gone && removed == old(removed) + (gone - old(added))
        invariant modified <==> gone != {}
        invariant checkpoint == old(checkpoint)
      {
        SetOfSnoc(c, i);
        if c[i] in live {
          RemoveStep(old(added), old(removed), gone, c[i]);
          gone := gone + {c[i]};
        }
        var changed := Remove(c[i]);
        modified := modified || changed;
      }
      assert c[..|c|] == c;
    }

    /**
     * The second strategy of `AbstractSet.removeAll`: walk this set's
     * (overridden) iterator and remove through it every element of `c`.
     */
    method RemoveIterating(c: seq<E>) returns (modified: bool)
      modifies this
      ensures live == old(live) - SetOf(c)
      ensures added == old(added) - (old(live) * SetOf(c))
      ensures removed == old(removed) + ((old(live) * SetOf(c)) - old(added))
      ensures modified <==> old(live) * SetOf(c) != {}
      ensures checkpoint == old(checkpoint)
    {
      var it := Iterator();
      modified := false;
      ghost var gone: set<E> := {};
      while it.HasNext()
        invariant it.owner == this && it.returned <= old(live)
        invariant gone == it.returned * SetOf(c)
        invariant live == old(live) - gone
        invariant added == old(added) - gone && removed == old(removed) + (gone - old(added))
        invariant modified <==> gone != {}
        invariant checkpoint == old(checkpoint)
        decreases |old(live) - it.returned|
      {
        modified, gone := RemoveVisit(it, c, modified, old(live), old(added), old(removed), gone);
      }
      assert gone == old(live) * SetOf(c) by {
        forall x | x in old(live) * SetOf(c) ensures x in it.returned {
          assert x !in live - it.returned;
        }
      }
    }

    /** One round of the iterating strategy: `next()`, and `remove()` when the element is in `c`. */
    method RemoveVisit(it: ChronoSetIterator<E>, c: seq<E>, modified: bool,
                       ghost live0: set<E>, ghost added0: set<E>, ghost removed0: set<E>, ghost gone: set<E>)
      returns (modified': bool, ghost gone': set<E>)
      requires it.HasNext()
      requires it.owner == this && it.returned <= live0
      requires gone == it.returned * SetOf(c)
      requires live == live0 - gone
      requires added == added0 - gone && removed == removed0 + (gone - added0)
      requires modified <==> gone != {}
      modifies this, it
      ensures it.owner == this && it.returned <= live0
      ensures gone' == it.returned * SetOf(c)
      ensures live == live0 - gone'
      ensures added == added0 - gone' && removed == removed0 + (gone' - added0)
      ensures modified' <==> gone' != {}
      ensures checkpoint == old(checkpoint)
      ensures |live0 - it.returned| < |live0 - old(it.returned)|
    {
      var next := it.Next();
      modified', gone' := modified, gone;
      if next.Ok? && next.value in c {
        RemoveStep(added0, removed0, gone, next.value);
        it.Remove();
        gone' := gone + {next.value};
        modified' := true;
      }
      assert live0 - it.returned < live0 - old(it.returned);
    }

    /**
     * clear(): a non-empty set first passes every live element, in its
     * iteration order, through updateRemoved; then it is emptied.
     */
    method Clear()
      modifies this
      ensures live == {}
      ensures old(live) != {} ==> (added == old(added) - old(live)
                                   && removed == old(removed) + (old(live) - old(added)))
      ensures old(live) == {} ==> added == old(added) && removed == old(removed)
      ensures checkpoint == old(checkpoint)
      ensures old(Ledger()) ==> Ledger()
    {
      if live != {} {
        var order := Traversal();
        var d := UpdateRemovedAllSet(SetDeltas(added, removed), order);
        added, removed := d.added, d.removed;
      }
      live := {};
    }

    /** The elements in the order this set's iterator returns them, which `HashSet` leaves unspecified. */
    method Traversal() returns (order: seq<E>)
      ensures Distinct(order) && SetOf(order) == live
    {
      var it := Iterator();
      order := [];
      while it.HasNext()
        invariant it.owner == this && it.returned <= live
        invariant Distinct(order) && SetOf(order) == it.returned
        decreases |live - it.returned|
      {
        var next := it.Next();
        if next.Ok? {
          DistinctInsertAt(order, |order|, next.value);
          assert InsertAt(order, |order|, next.value) == order + [next.value];
          order := order + [next.value];
        }
      }
    }

    /** iterator(): wraps the set's own iterator so that removals are recorded. */
    method Iterator() returns (it: ChronoSetIterator<E>)
      ensures fresh(it) && it.owner == this && it.returned == {} && it.last == None
    {
      it := new ChronoSetIterator(this);
    }
  }

  /**
   * ChronoHashSetIterator. `returned` is the part of the set the underlying
   * iterator has already handed out; it hands out the rest in an order
   * `HashSet` does not specify.
   */
  class ChronoSetIterator<E(==)> {
    const owner: ChronoHashSet<E>
    var returned: set<E>
    var last: Option<E>

    constructor (owner: ChronoHashSet<E>)
      ensures this.owner == owner && returned == {} && last == None
    {
      this.owner := owner;
      returned, last := {}, None;
    }

    /** hasNext(): some live element has not been returned yet. */
    predicate HasNext()
      reads this, owner
    {
      owner.live - returned != {}
    }

    /** next(): some element not yet returned; NoSuchElementException when there is none. */
    method Next() returns (r: Result<E>)
      modifies this
      ensures r.Ok? <==> old(HasNext())
      ensures r.Ok? ==> (r.value in owner.live && r.value !in old(returned)
                         && returned == old(returned) + {r.value} && last == Some(r.value))
      ensures r.Err? ==> r.failure == NoSuchElement && returned == old(returned) && last == old(last)
    {
      if owner.live - returned == {} {
        return Err(NoSuchElement);
      }
      var e :| e in owner.live - returned;
      returned := returned + {e};
      last := Some(e);
      r := Ok(e);
    }

    /**
     * remove(): the last returned element goes through updateRemoved and
     * then leaves the set. Only a legal removal is modelled: the last
     * returned element is still in the set.
     */
    method Remove()
      requires last.Some? && last.value in owner.live
      modifies owner
      ensures owner.live == old(owner.live) - {last.value}
      ensures SetDeltas(owner.added, owner.removed)
           == UpdateRemovedSet(old(SetDeltas(owner.added, owner.removed)), last.value)
      ensures owner.checkpoint == old(owner.checkpoint)
      ensures old(owner.Ledger()) ==> owner.Ledger()
    {
      var d := UpdateRemovedSet(SetDeltas(owner.added, owner.removed), last.value);
      owner.added, owner.removed := d.added, d.removed;
      owner.live := owner.live - {last.value};
    }
  }
}
