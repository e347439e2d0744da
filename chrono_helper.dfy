/**
 * ChronoHelper: the rule every chrono collection uses to keep its `added`
 * and `removed` collections up to date. A change is recorded by cancelling
 * the opposite change when there is one, and by recording it otherwise.
 *
 * The rule runs over two kinds of collections: `ArrayList`s (for
 * ChronoArrayList), whose `remove` drops the first occurrence and whose
 * `add` appends, and `HashSet`s (for ChronoHashSet). The helper mutates the
 * collections it is given; here it takes the pair of deltas as a value and
 * returns the updated pair, which the owning collection stores back.
 */
module ChronoHelper {
  import opened Seqs

  /** The `added` and `removed` lists of a ChronoArrayList. */
  datatype ListDeltas<E> = ListDeltas(added: seq<E>, removed: seq<E>)

  /** The `added` and `removed` sets of a ChronoHashSet. */
  datatype SetDeltas<E> = SetDeltas(added: set<E>, removed: set<E>)

  /** No value is recorded both as added and as removed. */
  ghost predicate Disjoint<E>(d: ListDeltas<E>) {
    forall x :: x in d.added ==> x !in d.removed
  }

  /**
   * The list deltas account for every difference between the checkpoint
   * (the contents at the last reset) and the live contents, counted with
   * multiplicity: what is live plus what was removed is what was there plus
   * what was added.
   */
  ghost predicate ListLedger<E>(checkpoint: seq<E>, live: seq<E>, d: ListDeltas<E>) {
    multiset(live) + multiset(d.removed) == multiset(checkpoint) + multiset(d.added)
  }

  /** The set deltas are exactly what the live set gained and lost since the checkpoint. */
  ghost predicate SetLedger<E>(checkpoint: set<E>, live: set<E>, d: SetDeltas<E>) {
    d.added == live - checkpoint && d.removed == checkpoint - live
  }

  // ---------------------------------------------------------------- lists

  /** updateAdded(added, removed, element) on lists. */
  function UpdateAdded<E(==)>(d: ListDeltas<E>, e: E): (r: ListDeltas<E>)
    ensures e in d.removed ==> r.added == d.added && |r.removed| == |d.removed| - 1
    ensures e !in d.removed ==> r.removed == d.removed && r.added == d.added + [e]
    ensures Disjoint(d) ==> Disjoint(r)
  {
    if e in d.removed then d.(removed := RemoveFirst(d.removed, e))
    else d.(added := d.added + [e])
  }

  /** updateRemoved(added, removed, element) on lists. */
  function UpdateRemoved<E(==)>(d: ListDeltas<E>, e: E): (r: ListDeltas<E>)
    ensures e in d.added ==> r.removed == d.removed && |r.added| == |d.added| - 1
    ensures e !in d.added ==> r.added == d.added && r.removed == d.removed + [e]
    ensures Disjoint(d) ==> Disjoint(r)
  {
    if e in d.added then d.(added := RemoveFirst(d.added, e))
    else d.(removed := d.removed + [e])
  }

  /** updateAdded(e) records `e` exactly once, as an addition or as a cancelled removal. */
  lemma UpdateAddedNet<E>(d: ListDeltas<E>, e: E)
    ensures var r := UpdateAdded(d, e);
            multiset(r.added) + multiset(d.removed) == multiset(d.added) + multiset(r.removed) + multiset{e}
  {
    if e in d.removed {
      RemoveFirstCount(d.removed, e);
    }
  }

  /** updateRemoved(e) records `e` exactly once, as a removal or as a cancelled addition. */
  lemma UpdateRemovedNet<E>(d: ListDeltas<E>, e: E)
    ensures var r := UpdateRemoved(d, e);
            multiset(r.removed) + multiset(d.added) == multiset(d.removed) + multiset(r.added) + multiset{e}
  {
    if e in d.added {
      RemoveFirstCount(d.added, e);
    }
  }

  /** The bulk updateAdded: the single rule applied to each element in turn. */
  function AddedAll<E(==)>(d: ListDeltas<E>, elements: seq<E>): (r: ListDeltas<E>)
    ensures Disjoint(d) ==> Disjoint(r)
  {
    if elements == [] then d
    else UpdateAdded(AddedAll(d, elements[..|elements| - 1]), elements[|elements| - 1])
  }

  /** The bulk updateRemoved: the single rule applied to each element in turn. */
  function RemovedAll<E(==)>(d: ListDeltas<E>, elements: seq<E>): (r: ListDeltas<E>)
    ensures Disjoint(d) ==> Disjoint(r)
  {
    if elements == [] then d
    else UpdateRemoved(RemovedAll(d, elements[..|elements| - 1]), elements[|elements| - 1])
  }

  /** Two net-effect equations chain into one: the intermediate deltas cancel. */
  lemma NetChain<E>(am: multiset<E>, rm: multiset<E>, ad: multiset<E>, rd: multiset<E>,
                    ar: multiset<E>, rr: multiset<E>, er: multiset<E>, l: multiset<E>)
    requires am + rd == ad + rm + er
    requires ar + rm == am + rr + l
    ensures ar + rd == ad + rr + er + l
  {
    forall x ensures (ar + rd)[x] == (ad + rr + er + l)[x] {
      assert (am + rd)[x] == (ad + rm + er)[x];
      assert (ar + rm)[x] == (am + rr + l)[x];
    }
  }

  /** Net effect of the bulk updateAdded: every element is recorded exactly once, as an addition or a cancellation. */
  lemma {:induction false} AddedAllNet<E>(d: ListDeltas<E>, elements: seq<E>)
    ensures var r := AddedAll(d, elements);
            multiset(r.added) + multiset(d.removed) == multiset(d.added) + multiset(r.removed) + multiset(elements)
    decreases |elements|
  {
    if elements != [] {
      var rest, last := elements[..|elements| - 1], elements[|elements| - 1];
      assert elements == rest + [last];
      AddedAllNet(d, rest);
      var m := AddedAll(d, rest);
      var r := UpdateAdded(m, last);
      UpdateAddedNet(m, last);
      NetChain(multiset(m.added), multiset(m.removed), multiset(d.added), multiset(d.removed),
               multiset(r.added), multiset(r.removed), multiset(rest), multiset{last});
      assert r == AddedAll(d, elements);
    }
  }

  /** Net effect of the bulk updateRemoved. */
  lemma {:induction false} RemovedAllNet<E>(d: ListDeltas<E>, elements: seq<E>)
    ensures var r := RemovedAll(d, elements);
            multiset(r.removed) + multiset(d.added) == multiset(d.removed) + multiset(r.added) + multiset(elements)
    decreases |elements|
  {
    if elements != [] {
      var rest, last := elements[..|elements| - 1], elements[|elements| - 1];
      assert elements == rest + [last];
      RemovedAllNet(d, rest);
      var m := RemovedAll(d, rest);
      var r := UpdateRemoved(m, last);
      UpdateRemovedNet(m, last);
      NetChain(multiset(m.removed), multiset(m.added), multiset(d.removed), multiset(d.added),
               multiset(r.removed), multiset(r.added), multiset(rest), multiset{last});
      assert r == RemovedAll(d, elements);
    }
  }

  /**
   * The bulk updateAdded keeps the list ledger exactly when the live list
   * gained the recorded elements, no more and no fewer. In particular,
   * recording elements that never went live breaks it.
   */
  lemma AddedAllLedger<E>(checkpoint: seq<E>, live: seq<E>, d: ListDeltas<E>, elements: seq<E>, live': seq<E>)
    requires ListLedger(checkpoint, live, d)
    ensures ListLedger(checkpoint, live', AddedAll(d, elements))
        <==> multiset(live') == multiset(live) + multiset(elements)
  {
    AddedAllNet(d, elements);
    var r := AddedAll(d, elements);
    GainBalance(multiset(live), multiset(live'), multiset(checkpoint), multiset(d.added), multiset(d.removed),
                multiset(r.added), multiset(r.removed), multiset(elements));
  }

  /**
   * The bulk updateRemoved keeps the list ledger exactly when the live
   * list lost the recorded elements, no more and no fewer.
   */
  lemma RemovedAllLedger<E>(checkpoint: seq<E>, live: seq<E>, d: ListDeltas<E>, elements: seq<E>, live': seq<E>)
    requires ListLedger(checkpoint, live, d)
    ensures ListLedger(checkpoint, live', RemovedAll(d, elements))
        <==> multiset(live') + multiset(elements) == multiset(live)
  {
    RemovedAllNet(d, elements);
    var r := RemovedAll(d, elements);
    LossBalance(multiset(live), multiset(live'), multiset(checkpoint), multiset(d.added), multiset(d.removed),
                multiset(r.added), multiset(r.removed), multiset(elements));
  }

  /** updateAdded(e) keeps the list ledger exactly when one `e` went live. */
  lemma UpdateAddedLedger<E>(checkpoint: seq<E>, live: seq<E>, d: ListDeltas<E>, e: E, live': seq<E>)
    requires ListLedger(checkpoint, live, d)
    ensures ListLedger(checkpoint, live', UpdateAdded(d, e)) <==> multiset(live') == multiset(live) + multiset{e}
  {
    assert [e][..0] == [];
    AddedAllLedger(checkpoint, live, d, [e], live');
  }

  /** updateRemoved(e) keeps the list ledger exactly when one `e` left. */
  lemma UpdateRemovedLedger<E>(checkpoint: seq<E>, live: seq<E>, d: ListDeltas<E>, e: E, live': seq<E>)
    requires ListLedger(checkpoint, live, d)
    ensures ListLedger(checkpoint, live', UpdateRemoved(d, e)) <==> multiset(live') + multiset{e} == multiset(live)
  {
    assert [e][..0] == [];
    RemovedAllLedger(checkpoint, live, d, [e], live');
  }

  /** The multiset bookkeeping behind AddedAllLedger. */
  lemma GainBalance<E>(live: multiset<E>, live': multiset<E>, checkpoint: multiset<E>,
                       added: multiset<E>, removed: multiset<E>,
                       added': multiset<E>, removed': multiset<E>, elements: multiset<E>)
    requires live + removed == checkpoint + added
    requires added' + removed == added + removed' + elements
    ensures live' + removed' == checkpoint + added' <==> live' == live + elements
  {
    if live' + removed' == checkpoint + added' {
      forall x ensures live'[x] == (live + elements)[x] {
        assert (live + removed)[x] == (checkpoint + added)[x];
        assert (added' + removed)[x] == (added + removed' + elements)[x];
        assert (live' + removed')[x] == (checkpoint + added')[x];
      }
    }
    if live' == live + elements {
      forall x ensures (live' + removed')[x] == (checkpoint + added')[x] {
        assert (live + removed)[x] == (checkpoint + added)[x];
        assert (added' + removed)[x] == (added + removed' + elements)[x];
      }
    }
  }

  /** The multiset bookkeeping behind RemovedAllLedger. */
  lemma LossBalance<E>(live: multiset<E>, live': multiset<E>, checkpoint: multiset<E>,
                       added: multiset<E>, removed: multiset<E>,
                       added': multiset<E>, removed': multiset<E>, elements: multiset<E>)
    requires live + removed == checkpoint + added
    requires removed' + added == removed + added' + elements
    ensures live' + removed' == checkpoint + added' <==> live' + elements == live
  {
    if live' + removed' == checkpoint + added' {
      forall x ensures (live' + elements)[x] == live[x] {
        assert (live + removed)[x] == (checkpoint + added)[x];
        assert (removed' + added)[x] == (removed + added' + elements)[x];
        assert (live' + removed')[x] == (checkpoint + added')[x];
      }
    }
    if live' + elements == live {
      forall x ensures (live' + removed')[x] == (checkpoint + added')[x] {
        assert (live + removed)[x] == (checkpoint + added)[x];
        assert (removed' + added)[x] == (removed + added' + elements)[x];
        assert (live' + elements)[x] == live[x];
      }
    }
  }

  /**
   * With disjoint deltas the ledger pins them down: `added` holds exactly
   * the surplus of the live contents over the checkpoint and `removed` the
   * shortfall, so no change is ever recorded twice.
   */
  lemma ListLedgerDeltasAreDifferences<E>(checkpoint: seq<E>, live: seq<E>, d: ListDeltas<E>)
    requires ListLedger(checkpoint, live, d) && Disjoint(d)
    ensures multiset(d.added) == multiset(live) - multiset(checkpoint)
    ensures multiset(d.removed) == multiset(checkpoint) - multiset(live)
  {
    forall x ensures multiset(d.added)[x] == (multiset(live) - multiset(checkpoint))[x]
                  && multiset(d.removed)[x] == (multiset(checkpoint) - multiset(live))[x]
    {
      var lhs, rhs := multiset(live) + multiset(d.removed), multiset(checkpoint) + multiset(d.added);
      assert lhs[x] == rhs[x];
      if multiset(d.added)[x] > 0 {
        assert x in d.added;
      }
    }
  }

  // ----------------------------------------------------------------- sets

  /** updateAdded(added, removed, element) on hash sets. */
  function UpdateAddedSet<E(==)>(d: SetDeltas<E>, e: E): (r: SetDeltas<E>)
    ensures e in d.removed ==> r == SetDeltas(d.added, d.removed - {e})
    ensures e !in d.removed ==> r == SetDeltas(d.added + {e}, d.removed)
    ensures d.added !! d.removed ==> r.added !! r.removed
  {
    if e in d.removed then d.(removed := d.removed - {e})
    else d.(added := d.added + {e})
  }

  /** updateRemoved(added, removed, element) on hash sets. */
  function UpdateRemovedSet<E(==)>(d: SetDeltas<E>, e: E): (r: SetDeltas<E>)
    ensures e in d.added ==> r == SetDeltas(d.added - {e}, d.removed)
    ensures e !in d.added ==> r == SetDeltas(d.added, d.removed + {e})
    ensures d.added !! d.removed ==> r.added !! r.removed
  {
    if e in d.added then d.(added := d.added - {e})
    else d.(removed := d.removed + {e})
  }

  /** The bulk updateAdded on hash sets, one element after the other. */
  function AddedAllSet<E(==)>(d: SetDeltas<E>, elements: seq<E>): (r: SetDeltas<E>)
    ensures Distinct(elements) ==> r.added == d.added + (SetOf(elements) - d.removed)
    ensures r.removed == d.removed - SetOf(elements)
  {
    if elements == [] then d
    else
      var rest, last := elements[..|elements| - 1], elements[|elements| - 1];
      assert SetOf(elements) == SetOf(rest) + {last} by { assert elements == rest + [last]; }
      UpdateAddedSet(AddedAllSet(d, rest), last)
  }

  /** The bulk updateRemoved on hash sets, one element after the other. */
  function RemovedAllSet<E(==)>(d: SetDeltas<E>, elements: seq<E>): (r: SetDeltas<E>)
    ensures Distinct(elements) ==> r.removed == d.removed + (SetOf(elements) - d.added)
    ensures r.added == d.added - SetOf(elements)
  {
    if elements == [] then d
    else
      var rest, last := elements[..|elements| - 1], elements[|elements| - 1];
      assert SetOf(elements) == SetOf(rest) + {last} by { assert elements == rest + [last]; }
      UpdateRemovedSet(RemovedAllSet(d, rest), last)
  }

  /** Recording the elements that went live keeps the set ledger. */
  lemma AddedAllSetKeepsLedger<E>(checkpoint: set<E>, live: set<E>, d: SetDeltas<E>, elements: seq<E>)
    requires SetLedger(checkpoint, live, d)
    requires Distinct(elements) && SetOf(elements) !! live
    ensures SetLedger(checkpoint, live + SetOf(elements), AddedAllSet(d, elements))
  {
  }

  /** Recording the elements that left keeps the set ledger. */
  lemma RemovedAllSetKeepsLedger<E>(checkpoint: set<E>, live: set<E>, d: SetDeltas<E>, elements: seq<E>)
    requires SetLedger(checkpoint, live, d)
    requires Distinct(elements) && SetOf(elements) <= live
    ensures SetLedger(checkpoint, live - SetOf(elements), RemovedAllSet(d, elements))
  {
  }

  /**
   * When none of the elements is recorded as removed, the bulk updateAdded
   * records every one of them as added, repeated elements included.
   */
  lemma {:induction false} AddedAllSetNoCancel<E>(d: SetDeltas<E>, elements: seq<E>)
    requires SetOf(elements) !! d.removed
    ensures AddedAllSet(d, elements) == SetDeltas(d.added + SetOf(elements), d.removed)
    decreases |elements|
  {
    if elements != [] {
      var rest, last := elements[..|elements| - 1], elements[|elements| - 1];
      assert elements == rest + [last];
      assert SetOf(elements) == SetOf(rest) + {last};
      AddedAllSetNoCancel(d, rest);
    }
  }

  /**
   * When none of the elements is recorded as added, the bulk updateRemoved
   * records every one of them as removed, repeated elements included.
   */
  lemma {:induction false} RemovedAllSetNoCancel<E>(d: SetDeltas<E>, elements: seq<E>)
    requires SetOf(elements) !! d.added
    ensures RemovedAllSet(d, elements) == SetDeltas(d.added, d.removed + SetOf(elements))
    decreases |elements|
  {
    if elements != [] {
      var rest, last := elements[..|elements| - 1], elements[|elements| - 1];
      assert elements == rest + [last];
      assert SetOf(elements) == SetOf(rest) + {last};
      RemovedAllSetNoCancel(d, rest);
    }
  }

  /** Adding a value nowhere recorded and then removing it leaves the list deltas as they were. */
  lemma ListCancellation<E>(d: ListDeltas<E>, e: E)
    requires e !in d.added && e !in d.removed
    ensures UpdateRemoved(UpdateAdded(d, e), e) == d
  {
    RemoveFirstLast(d.added, e);
  }

  /** Removing a value nowhere recorded and then adding it back leaves the list deltas as they were. */
  lemma ListCancellationReversed<E>(d: ListDeltas<E>, e: E)
    requires e !in d.added && e !in d.removed
    ensures UpdateAdded(UpdateRemoved(d, e), e) == d
  {
    RemoveFirstLast(d.removed, e);
  }

  /** Dropping the first occurrence of a value that occurs only at the end. */
  lemma {:induction false} RemoveFirstLast<E>(s: seq<E>, e: E)
    requires e !in s
    ensures RemoveFirst(s + [e], e) == s
    decreases |s|
  {
    if s != [] {
      assert (s + [e])[1..] == s[1..] + [e];
      RemoveFirstLast(s[1..], e);
      assert s == [s[0]] + s[1..];
    }
  }

  /** The set rule: an addition and a removal of a value nowhere recorded cancel out, in either order. */
  lemma SetCancellation<E>(d: SetDeltas<E>, e: E)
    requires e !in d.added && e !in d.removed
    ensures UpdateRemovedSet(UpdateAddedSet(d, e), e) == d
    ensures UpdateAddedSet(UpdateRemovedSet(d, e), e) == d
  {
    assert d.added + {e} - {e} == d.added;
    assert d.removed + {e} - {e} == d.removed;
  }

  /**
   * Replacing a list slot by the value it already holds (updateAdded then
   * updateRemoved of that value) leaves disjoint deltas the same as
   * multisets, and exactly as they were when the value was recorded nowhere.
   */
  lemma SameValueReplaced<E>(d: ListDeltas<E>, e: E)
    ensures var r := UpdateRemoved(UpdateAdded(d, e), e);
            Disjoint(d) ==> multiset(r.added) == multiset(d.added) && multiset(r.removed) == multiset(d.removed)
    ensures e !in d.added && e !in d.removed ==> UpdateRemoved(UpdateAdded(d, e), e) == d
  {
    var m := UpdateAdded(d, e);
    if e in d.removed {
      RemoveFirstCount(d.removed, e);
      if Disjoint(d) {
        assert e !in m.added;
      }
    } else {
      RemoveFirstCount(m.added, e);
    }
    if e !in d.added && e !in d.removed {
      ListCancellation(d, e);
    }
  }

  /**
   * On duplicate-free lists the list rule and the set rule record the same
   * changes.
   */
  lemma ListAndSetRulesAgree<E>(d: ListDeltas<E>, e: E)
    requires Distinct(d.added) && Distinct(d.removed) && Disjoint(d)
    ensures SetOf(UpdateAdded(d, e).added) == UpdateAddedSet(SetDeltas(SetOf(d.added), SetOf(d.removed)), e).added
    ensures SetOf(UpdateAdded(d, e).removed) == UpdateAddedSet(SetDeltas(SetOf(d.added), SetOf(d.removed)), e).removed
    ensures SetOf(UpdateRemoved(d, e).added) == UpdateRemovedSet(SetDeltas(SetOf(d.added), SetOf(d.removed)), e).added
    ensures SetOf(UpdateRemoved(d, e).removed) == UpdateRemovedSet(SetDeltas(SetOf(d.added), SetOf(d.removed)), e).removed
  {
    if e in d.removed {
      RemoveFirstDistinct(d.removed, e);
    }
    if e in d.added {
      RemoveFirstDistinct(d.added, e);
    }
  }

  lemma {:induction false} RemoveFirstDistinct<E>(s: seq<E>, e: E)
    requires Distinct(s) && e in s
    ensures SetOf(RemoveFirst(s, e)) == SetOf(s) - {e}
  {
    assert s == [s[0]] + s[1..];
    if s[0] == e {
      assert e !in s[1..];
    } else {
      RemoveFirstDistinct(s[1..], e);
      var tail := RemoveFirst(s[1..], e);
      assert RemoveFirst(s, e) == [s[0]] + tail;
      assert SetOf([s[0]] + tail) == {s[0]} + SetOf(tail);
      assert SetOf(s) == {s[0]} + SetOf(s[1..]);
    }
  }

  // ------------------------------------------------------- loop methods

  /** updateAdded(added, removed, elements): the loop over `elements`. */
  method UpdateAddedAll<E(==)>(d: ListDeltas<E>, elements: seq<E>) returns (r: ListDeltas<E>)
    ensures r == AddedAll(d, elements)
  {
    r := d;
    for i := 0 to |elements|
      invariant r == AddedAll(d, elements[..i])
    {
      assert elements[..i + 1][..i] == elements[..i];
      r := UpdateAdded(r, elements[i]);
    }
    assert elements[..|elements|] == elements;
  }

  /** updateRemoved(added, removed, elements): the loop over `elements`. */
  method UpdateRemovedAll<E(==)>(d: ListDeltas<E>, elements: seq<E>) returns (r: ListDeltas<E>)
    ensures r == RemovedAll(d, elements)
  {
    r := d;
    for i := 0 to |elements|
      invariant r == RemovedAll(d, elements[..i])
    {
      assert elements[..i + 1][..i] == elements[..i];
      r := UpdateRemoved(r, elements[i]);
    }
    assert elements[..|elements|] == elements;
  }

  /** updateAdded(added, removed, elements) over hash sets. */
  method UpdateAddedAllSet<E(==)>(d: SetDeltas<E>, elements: seq<E>) returns (r: SetDeltas<E>)
    ensures r == AddedAllSet(d, elements)
  {
    r := d;
    for i := 0 to |elements|
      invariant r == AddedAllSet(d, elements[..i])
    {
      assert elements[..i + 1][..i] == elements[..i];
      r := UpdateAddedSet(r, elements[i]);
    }
    assert elements[..|elements|] == elements;
  }

  /** updateRemoved(added, removed, elements) over hash sets. */
  method UpdateRemovedAllSet<E(==)>(d: SetDeltas<E>, elements: seq<E>) returns (r: SetDeltas<E>)
    ensures r == RemovedAllSet(d, elements)
  {
    r := d;
    for i := 0 to |elements|
      invariant r == RemovedAllSet(d, elements[..i])
    {
      assert elements[..i + 1][..i] == elements[..i];
      r := UpdateRemovedSet(r, elements[i]);
    }
    assert elements[..|elements|] == elements;
  }

  /**
   * elements(collection, objects, complement): the objects, in order and
   * with repetitions, whose membership in `collection` equals `complement`.
   */
  method Elements<E(==)>(collection: set<E>, objects: seq<E>, complement: bool) returns (r: seq<E>)
    ensures r == Select(objects, collection, complement)
  {
    r := [];
    for i := 0 to |objects|
      invariant r == Select(objects[..i], collection, complement)
    {
      assert objects[..i + 1][..i] == objects[..i];
      if (objects[i] in collection) == complement {
        r := r + [objects[i]];
      }
    }
    assert objects[..|objects|] == objects;
  }

  /** reset(added, removed): both deltas become empty. */
  function Reset<E>(): (r: ListDeltas<E>)
    ensures r.added == [] && r.removed == []
  {
    ListDeltas([], [])
  }
}
