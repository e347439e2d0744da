/**
 * Concrete runs of OrderedHashSet and its iterator that exhibit behaviour
 * of the code as written which a caller of a java.util.Set / List would not
 * expect. Each builds a fresh set and states the observable outcome.
 */
module OrderedSetExamples {
  import opened Lang
  import opened OrderedSets

  /**
   * add(0, e) on a one-element set with two slots: ensureCapacity(2)
   * keeps the array, internalAdd's shift needs a third slot, and after the
   * ArrayIndexOutOfBoundsException the hash set counts `e` while the array
   * never received it.
   */
  method AddAtOverrun() returns (r: Outcome, size: nat, arrayUntouched: bool)
    ensures r == Thrown(ArrayIndexOutOfBounds)
    ensures size == 2 && arrayUntouched
  {
    var s := new OrderedHashSet<int>.Init(2, 0.75);
    var _ := s.Add(1);
    var before := s.elements[..];
    r := s.AddAt(0, 2);
    size := |s.internalSet|;
    arrayUntouched := s.elements[..] == before;
  }

  /** A fresh set holding 1, 2, 3 in that order, in the default ten slots. */
  method OneTwoThree() returns (s: OrderedHashSet<int>)
    ensures fresh(s) && fresh(s.elements) && s.Valid() && s.Contents() == [1, 2, 3]
  {
    s := new OrderedHashSet<int>();
    var _ := s.Add(1);
    var _ := s.Add(2);
    var _ := s.Add(3);
  }

  /**
   * set(0, 1) on [1, 2, 3]: 1 is first closed up out of position 0, so the
   * slot read and evicted is the one 2 slid into; 2 is returned and lost.
   */
  method SetToItself() returns (r: Result<int>, after: seq<int>)
    ensures r == Ok(2) && after == [1, 3]
  {
    var s := OneTwoThree();
    r := s.Set(0, 1);
    after := s.ToArray();
  }

  /**
   * On [1, 2, 3], next() twice and then set(1) through the iterator: the
   * slot of 2 now holds a second 1 and the hash set drops 2, so 3 is still
   * a member but lies past the size() slots the list view reads.
   */
  method IteratorSetDuplicate() returns (members: set<int>, listed: seq<int>)
    ensures members == {1, 3} && listed == [1, 1]
  {
    var s := OneTwoThree();
    var slots := s.elements[..];
    assert slots[..3] == [1, 2, 3];
    var it := s.Iterator();
    var _ := it.Next();
    var _ := it.Next();
    var r := it.Set(1);
    assert s.elements[..] == slots[1 := 1];
    assert s.internalSet == {1, 3};
    members := s.internalSet;
    listed := s.elements[..|s.internalSet|];
    assert listed == slots[1 := 1][..2];
  }

  /**
   * On [1], next() and then add(1) through the iterator: the set is
   * unchanged, but the cursor has moved to 2, past size().
   */
  method IteratorAddMember() returns (r: Outcome, cursor: int, size: nat)
    ensures r == Normal && cursor == 2 && size == 1
  {
    var s := new OrderedHashSet<int>();
    var _ := s.Add(1);
    var it := s.Iterator();
    var _ := it.Next();
    r := it.Add(1);
    cursor := it.NextIndex();
    size := |s.internalSet|;
  }
}
