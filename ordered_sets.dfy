/**
 * OrderedHashSet: a set that remembers insertion order and can be used as a
 * list. Membership lives in a hash set; the order lives in an array whose
 * first size() slots hold the elements. Slots past size() are stale. The
 * source fills them with `null`, which the model cannot tell apart from an
 * element: a fresh array holds Dafny's default value of `E`, and the slot
 * internalListRemove clears gets an arbitrary value. Either may equal a
 * real member (0 for integers), so nothing is concluded from a stale slot.
 *
 * The model follows the code as written, including the paths where the two
 * representations fall out of step; witness methods at the end of the
 * module exhibit them on concrete sets.
 */
module OrderedSets {
  import opened Lang
  import opened Seqs

  /** Capacity of the array of a set made with no argument, or cleared. */
  const DEFAULT_CAPACITY: nat := 10

  /** Load factor used unless the constructor is given one. */
  const DEFAULT_LOAD_FACTOR: real := 0.75

  /**
   * The capacity ensureCapacity allocates when the array is too small:
   * minCapacity * (loadFactor + 1), truncated, plus one, and never below
   * minCapacity. The float product is computed exactly here.
   */
  function GrownCapacity(minCapacity: nat, loadFactor: real): (r: nat)
    requires loadFactor > 0.0
    ensures r > minCapacity
  {
    var grown := (minCapacity as real * (loadFactor + 1.0)).Floor + 1;
    if grown < minCapacity then minCapacity else grown
  }

  /**
   * The elements of `c` an addAll inserts into a set holding `present`: in
   * the order of `c`, skipping members and elements already inserted.
   */
  function Unseen<E(==)>(present: seq<E>, c: seq<E>): (r: seq<E>)
    ensures |r| <= |c|
  {
    if c == [] then []
    else
      var prior, x := Unseen(present, c[..|c| - 1]), c[|c| - 1];
      if x in present || x in prior then prior else prior + [x]
  }

  /**
   * addAll inserts every element of `c` that is not yet present, and
   * nothing else, and inserts each of them once.
   */
  lemma {:induction false} UnseenMembers<E>(present: seq<E>, c: seq<E>)
    ensures Distinct(Unseen(present, c))
    ensures forall x :: x in Unseen(present, c) <==> x in c && x !in present
  {
    if c != [] {
      var prior, x := Unseen(present, c[..|c| - 1]), c[|c| - 1];
      UnseenMembers(present, c[..|c| - 1]);
      assert c == c[..|c| - 1] + [x];
      if !(x in present || x in prior) {
        assert forall i :: 0 <= i < |prior| ==> (prior + [x])[i] == prior[i];
      }
    }
  }

  /**
   * If every element of `c` is inserted, each prefix of `c` contributes
   * its whole length, and the next element of `c` is new at every step.
   */
  lemma {:induction false} UnseenAllNew<E>(present: seq<E>, c: seq<E>, k: nat)
    requires |Unseen(present, c)| == |c| && k <= |c|
    ensures |Unseen(present, c[..k])| == k
    ensures k < |c| ==> c[k] !in present && c[k] !in Unseen(present, c[..k])
    decreases |c| - k
  {
    if k < |c| {
      UnseenAllNew(present, c, k + 1);
      var prior := Unseen(present, c[..k]);
      assert c[..k + 1][..k] == c[..k];
      assert |prior| <= k;
      assert Unseen(present, c[..k + 1]) == (if c[k] in present || c[k] in prior then prior else prior + [c[k]]);
    } else {
      assert c[..k] == c;
    }
  }

  /**
   * Step k of addAll(index, c), on an array of `capacity` slots, overruns
   * it exactly when it is the last step, every element of `c` is new and
   * the array holds no more than size() + c.size() slots.
   */
  lemma OverrunStep<E>(pre: seq<E>, c: seq<E>, k: nat, index: nat, capacity: nat)
    requires k < |c| && index <= |pre| && capacity >= |pre| + |c|
    ensures var u := Unseen(pre, c[..k]);
            (c[k] !in pre && c[k] !in u && index < |pre| && capacity == |pre| + |u| + 1)
            <==> (k == |c| - 1 && index < |pre| && |Unseen(pre, c)| == |c| && capacity == |pre| + |c|)
  {
    var u := Unseen(pre, c[..k]);
    if c[k] !in pre && c[k] !in u && index < |pre| && capacity == |pre| + |u| + 1 {
      assert c[..k + 1][..k] == c[..k];
      assert c[..k + 1] == c;
    }
    if k == |c| - 1 && index < |pre| && |Unseen(pre, c)| == |c| && capacity == |pre| + |c| {
      UnseenAllNew(pre, c, k);
    }
  }

  /** If every element of `c` is inserted, every prefix of `c` is inserted whole and in order. */
  lemma {:induction false} UnseenAllPrefix<E>(present: seq<E>, c: seq<E>, k: nat)
    requires |Unseen(present, c)| == |c| && k <= |c|
    ensures Unseen(present, c[..k]) == c[..k]
  {
    if k > 0 {
      UnseenAllPrefix(present, c, k - 1);
      UnseenAllNew(present, c, k - 1);
      assert c[..k][..k - 1] == c[..k - 1];
      assert c[..k] == c[..k - 1] + [c[k - 1]];
    }
  }

  /**
   * The state addAll(index, c) leaves behind when its last insertion
   * overruns the array: the first |c| - 1 elements of `c` spliced in at
   * `index`, and the membership set already holding the last one too.
   */
  lemma OverrunState<E>(pre: seq<E>, c: seq<E>, index: nat, spliced: seq<E>)
    requires index <= |pre| && |c| > 0 && spliced == pre[..index] + c[..|c| - 1] + pre[index..]
    ensures SetOf(spliced) + {c[|c| - 1]} == SetOf(pre) + SetOf(c)
  {
    var front, run, back, last := pre[..index], c[..|c| - 1], pre[index..], c[|c| - 1];
    assert pre == front + back;
    assert c == run + [last];
    SetOfConcat(front + run, back);
    SetOfConcat(front, run);
    SetOfConcat(front, back);
    SetOfConcat(run, [last]);
  }

  /**
   * Step k of addAll(index, c) on a set holding `pre`: what has been
   * inserted so far is u = Unseen(pre, c[..k]), sitting at `index`. The
   * next element is new exactly when it is in neither `pre` nor `u`, and
   * then it goes right after `u`; the step overruns the array as
   * OverrunStep says.
   */
  lemma AddAllStep<E>(pre: seq<E>, c: seq<E>, k: nat, index: nat, capacity: nat)
    requires k < |c| && index <= |pre| && capacity >= |pre| + |c|
    ensures var u, x := Unseen(pre, c[..k]), c[k];
            && Unseen(pre, c[..k + 1]) == (if x in pre || x in u then u else u + [x])
            && (x in pre[..index] + u + pre[index..] <==> x in pre || x in u)
            && InsertAt(pre[..index] + u + pre[index..], index + |u|, x) == pre[..index] + (u + [x]) + pre[index..]
    ensures var u, x := Unseen(pre, c[..k]), c[k];
            (x !in pre && x !in u && index < |pre| && capacity == |pre| + |u| + 1)
            <==> (k == |c| - 1 && index < |pre| && |Unseen(pre, c)| == |c| && capacity == |pre| + |c|)
  {
    var u, x := Unseen(pre, c[..k]), c[k];
    assert c[..k + 1][..k] == c[..k];
    assert pre == pre[..index] + pre[index..];
    SpliceStep(pre[..index], u, pre[index..], x);
    OverrunStep(pre, c, k, index, capacity);
  }

  /** One more newcomer at the end of the spliced run. */
  lemma SpliceStep<E>(front: seq<E>, run: seq<E>, back: seq<E>, x: E)
    ensures InsertAt(front + run + back, |front| + |run|, x) == front + (run + [x]) + back
    ensures x in front + run + back <==> x in front + back || x in run
  {
    var whole := front + run + back;
    assert whole[..|front| + |run|] == front + run;
    assert whole[|front| + |run|..] == back;
  }

  /** Selecting twice is selecting once with both criteria. */
  lemma {:induction false} SelectTwice<E>(s: seq<E>, a: set<E>, b: set<E>)
    ensures Select(Select(s, a, false), b, false) == Select(s, a + b, false)
    ensures Select(Select(s, a, true), b, false) == Select(s, a - b, true)
    decreases |s|
  {
    if s != [] {
      var rest, last := s[..|s| - 1], s[|s| - 1];
      SelectTwice(rest, a, b);
      SelectAppend(Select(rest, a, false), if last !in a then [last] else [], b, false);
      SelectAppend(Select(rest, a, true), if last in a then [last] else [], b, false);
    }
  }

  /** When the value at position i occurs nowhere else, deleting position i is selecting away that value. */
  lemma DeleteAtIsSelect<E>(s: seq<E>, i: nat)
    requires i < |s| && s[i] !in DeleteAt(s, i)
    ensures DeleteAt(s, i) == Select(s, {s[i]}, false)
  {
    var x, front, back := s[i], s[..i], s[i + 1..];
    assert DeleteAt(s, i) == front + back;
    assert x !in front && x !in back;
    assert s == front + [x] + back;
    SelectOneAway(front, x, back);
  }

  /** Selecting away a value that occurs once, between `front` and `back`. */
  lemma SelectOneAway<E>(front: seq<E>, x: E, back: seq<E>)
    requires x !in front && x !in back
    ensures Select(front + [x] + back, {x}, false) == front + back
  {
    SelectNone(front, {x});
    SelectNone(back, {x});
    SelectAroundOne(front, x, back);
  }

  /** Selecting away `x` from front + [x] + back works on each side separately. */
  lemma SelectAroundOne<E>(front: seq<E>, x: E, back: seq<E>)
    ensures Select(front + [x] + back, {x}, false) == Select(front, {x}, false) + Select(back, {x}, false)
  {
    SelectAppend(front, [x], {x}, false);
    SelectAppend(front + [x], back, {x}, false);
    assert Select([x], {x}, false) == [] by {
      assert [x][..0] == [];
    }
  }

  /**
   * One step of removeAll's walk over `c`: in what is left of `pre` after
   * the values of `done` are gone, `o` sits at `index` only (or nowhere,
   * with index -1), and removing it there leaves `pre` without the values
   * of done + {o}.
   */
  lemma RemoveOneStep<E>(pre: seq<E>, done: set<E>, o: E, index: int, before: seq<E>)
    requires before == Select(pre, done, false)
    requires -1 <= index < |before| && (index == -1 <==> o !in before)
    requires index >= 0 ==> before[index] == o
    requires forall j :: 0 <= j < |before| && before[j] == o ==> j == index
    ensures (if index >= 0 then DeleteAt(before, index) else before) == Select(pre, done + {o}, false)
  {
    SelectTwice(pre, done, {o});
    if index >= 0 {
      forall j | 0 <= j < |before| - 1 ensures DeleteAt(before, index)[j] != o {
        if j < index {
          assert DeleteAt(before, index)[j] == before[j];
        } else {
          assert DeleteAt(before, index)[j] == before[j + 1];
        }
      }
      DeleteAtIsSelect(before, index);
    } else {
      SelectNone(before, {o});
    }
  }

  /** Overwriting one position of a duplicate-free sequence with a newcomer. */
  lemma DistinctUpdate<E>(s: seq<E>, i: nat, x: E)
    requires Distinct(s) && i < |s| && x !in s
    ensures Distinct(s[i := x])
    ensures SetOf(s[i := x]) == SetOf(s) - {s[i]} + {x}
  {
    var t := s[i := x];
    forall y | y in SetOf(s) - {s[i]} ensures y in t {
      var k :| 0 <= k < |s| && s[k] == y;
      assert t[k] == y;
    }
    assert t[i] == x;
    forall y | y in t ensures y in SetOf(s) - {s[i]} + {x} {
      var k :| 0 <= k < |t| && t[k] == y;
      if k != i {
        assert s[k] == y;
      }
    }
  }

  /**
   * One step of the iterator walk: after the first k elements of `s`, the
   * walk holds their selection followed by the untouched rest, and the
   * cursor sits on s[k]. Keeping s[k] moves the cursor on; dropping it
   * deletes it at the cursor.
   */
  lemma SweepStep<E>(s: seq<E>, k: nat, inside: set<E>, keep: bool)
    requires k < |s|
    ensures var kept := Select(s[..k], inside, keep);
            && (kept + s[k..])[|kept|] == s[k]
            && kept + s[k..] == (kept + [s[k]]) + s[k + 1..]
            && DeleteAt(kept + s[k..], |kept|) == kept + s[k + 1..]
            && Select(s[..k + 1], inside, keep) == kept + (if (s[k] in inside) == keep then [s[k]] else [])
  {
    assert s[..k + 1][..k] == s[..k];
    assert s[k..] == [s[k]] + s[k + 1..];
  }

  /**
   * Overwriting slot i of an array whose first m slots hold `front`: the
   * slot read is front[i], and afterwards the first m slots hold
   * front[i := x].
   */
  lemma OverwriteInPrefix<E>(slots: seq<E>, m: nat, i: nat, x: E, front: seq<E>)
    requires i < m <= |slots| && slots[..m] == front
    ensures slots[i] == front[i]
    ensures slots[i := x][..m] == front[i := x]
  {
    assert slots[i] == slots[..m][i];
  }

  /**
   * set(index, e) for a newcomer: the slot at `index` of an array whose
   * first |pre| slots are `pre` is read and overwritten; the old occupant
   * leaves the members and `e` joins them.
   */
  lemma OverwriteNewcomer<E>(pre: seq<E>, index: nat, e: E, slots: seq<E>)
    requires Distinct(pre) && e !in pre && index < |pre| <= |slots| && slots[..|pre|] == pre
    ensures slots[index] == pre[index] && slots[index] != e
    ensures slots[index := e][..|pre|] == pre[index := e]
    ensures SetOf(pre) + {e} - {slots[index]} == SetOf(pre[index := e])
    ensures SetOf(pre) - {slots[index]} + {e} == SetOf(pre[index := e])
    ensures |SetOf(pre[index := e])| == |pre|
  {
    OverwriteInPrefix(slots, |pre|, index, e, pre);
    OverwriteCount(pre, index, e);
  }

  /**
   * set(index, e) for a member at j, once the gap at j is closed: the slot
   * read at `index` is position `index` of the shrunk sequence, and
   * overwriting it puts `e` back at `index` instead.
   */
  lemma OverwriteAfterClosing<E>(pre: seq<E>, j: nat, index: nat, e: E, shifted: seq<E>)
    requires Distinct(pre) && j < |pre| && pre[j] == e && (j > index || index < |pre| - 1)
    requires |pre| - 1 <= |shifted| && shifted[..|pre| - 1] == DeleteAt(pre, j)
    ensures index < |pre| - 1
    ensures shifted[index] == DeleteAt(pre, j)[index] && shifted[index] != e
    ensures shifted[index := e][..|pre| - 1] == DeleteAt(pre, j)[index := e]
    ensures SetOf(pre) - {shifted[index]} == SetOf(DeleteAt(pre, j)[index := e])
    ensures |SetOf(DeleteAt(pre, j)[index := e])| == |pre| - 1
  {
    var shrunk := DeleteAt(pre, j);
    DistinctDeleteAt(pre, j);
    OverwriteInPrefix(shifted, |pre| - 1, index, e, shrunk);
    OverwriteCount(shrunk, index, e);
  }

  /** Overwriting a position of a duplicate-free sequence with a newcomer keeps one value per position. */
  lemma OverwriteCount<E>(s: seq<E>, i: nat, x: E)
    requires Distinct(s) && i < |s| && x !in s
    ensures SetOf(s[i := x]) == SetOf(s) - {s[i]} + {x}
    ensures |SetOf(s[i := x])| == |s|
  {
    DistinctUpdate(s, i, x);
    CardinalityDistinct(s[i := x]);
  }

  /**
   * Closing the gap at i of an array whose first |pre| slots hold the
   * duplicate-free `pre`: the first |pre| - 1 slots then hold
   * DeleteAt(pre, i), whose values are those of `pre` but pre[i].
   */
  lemma CloseGap<E>(pre: seq<E>, i: nat, slots: seq<E>, closed: seq<E>)
    requires Distinct(pre) && i < |pre| <= |slots| == |closed|
    requires slots[..|pre|] == pre && closed[..|slots| - 1] == slots[..i] + slots[i + 1..]
    ensures slots[i] == pre[i]
    ensures closed[..|pre| - 1] == DeleteAt(pre, i)
    ensures SetOf(DeleteAt(pre, i)) == SetOf(pre) - {pre[i]}
    ensures |SetOf(pre) - {pre[i]}| == |pre| - 1
  {
    assert slots[i] == slots[..|pre|][i];
    DeleteAtPrefix(slots, i, |pre|);
    assert closed[..|pre| - 1] == closed[..|slots| - 1][..|pre| - 1];
    DistinctDeleteAt(pre, i);
    CardinalityDistinct(pre);
    assert pre[i] in SetOf(pre);
  }

  /** Closing the gap at j in an array whose first n slots are `a[..n]` leaves DeleteAt(a[..n], j) in the first n - 1. */
  lemma DeleteAtPrefix<E>(a: seq<E>, j: nat, n: nat)
    requires j < n <= |a|
    ensures (a[..j] + a[j + 1..])[..n - 1] == DeleteAt(a[..n], j)
  {
    assert a[..n][..j] == a[..j];
    assert a[..n][j + 1..] == a[j + 1..n];
  }

  /** System.arraycopy(a, from, a, from + 1, count): a run of slots moves one to the right. */
  method ShiftRight<E>(a: array<E>, from: nat, count: nat)
    requires from + count + 1 <= a.Length
    modifies a
    ensures forall i :: 0 <= i <= from ==> a[i] == old(a[i])
    ensures forall i :: from < i <= from + count ==> a[i] == old(a[i - 1])
    ensures forall i :: from + count < i < a.Length ==> a[i] == old(a[i])
    ensures a[..] == old(a[..from + 1]) + old(a[from..from + count]) + old(a[from + count + 1..])
  {
    var k := count;
    while k > 0
      invariant 0 <= k <= count
      invariant forall i :: 0 <= i <= from + k ==> a[i] == old(a[i])
      invariant forall i :: from + k < i <= from + count ==> a[i] == old(a[i - 1])
      invariant forall i :: from + count < i < a.Length ==> a[i] == old(a[i])
    {
      a[from + k] := a[from + k - 1];
      k := k - 1;
    }
    ghost var moved := old(a[..from + 1]) + old(a[from..from + count]) + old(a[from + count + 1..]);
    assert forall i :: 0 <= i < a.Length ==> a[i] == moved[i];
  }

  /**
   * internalAdd's placement on the slots of a set of size n: either the
   * run from `index` up to slot n (one past the last element) has been
   * moved one slot to the right, or `index` is n and nothing moved; writing
   * `e` at `index` then yields the old elements with `e` inserted there.
   */
  lemma PlaceNew<E>(slots: seq<E>, n: nat, index: nat, e: E, shifted: seq<E>)
    requires index <= n < |slots| == |shifted|
    requires index < n ==> n + 2 <= |slots| && shifted == slots[..index + 1] + slots[index..n + 1] + slots[n + 2..]
    requires index == n ==> shifted == slots
    ensures shifted[index := e][..n + 1] == InsertAt(slots[..n], index, e)
  {
    var placed, inserted := shifted[index := e][..n + 1], InsertAt(slots[..n], index, e);
    forall i | 0 <= i < n + 1 ensures placed[i] == inserted[i] {
      if i < index {
        assert placed[i] == slots[i];
      } else if i > index {
        assert placed[i] == slots[i - 1];
      }
    }
  }

  /** System.arraycopy(a, from + 1, a, from, count): a run of slots moves one to the left. */
  method ShiftLeft<E>(a: array<E>, from: nat, count: nat)
    requires from + count + 1 <= a.Length
    modifies a
    ensures forall i :: 0 <= i < from ==> a[i] == old(a[i])
    ensures forall i :: from <= i < from + count ==> a[i] == old(a[i + 1])
    ensures forall i :: from + count <= i < a.Length ==> a[i] == old(a[i])
  {
    for k := 0 to count
      invariant forall i :: 0 <= i < from ==> a[i] == old(a[i])
      invariant forall i :: from <= i < from + k ==> a[i] == old(a[i + 1])
      invariant forall i :: from + k <= i < a.Length ==> a[i] == old(a[i])
    {
      a[from + k] := a[from + k + 1];
    }
  }

  /** A new array of `length` slots whose first `n` are copied from `src`. */
  method CopyPrefix<E(0)>(src: array<E>, n: nat, length: nat) returns (dst: array<E>)
    requires n <= src.Length && n <= length
    ensures fresh(dst) && dst.Length == length
    ensures dst[..n] == src[..n]
  {
    dst := new E[length];
    for i := 0 to n
      invariant dst[..i] == src[..i]
    {
      dst[i] := src[i];
    }
  }

  class OrderedHashSet<E(==,0)> {
    /** Membership (internalSet); its size is the size of the ordered set. */
    var internalSet: set<E>
    /** The elements in order, in the first size() slots. */
    var elements: array<E>
    /** Growth ratio used by ensureCapacity. */
    const loadFactor: real

    /**
     * The two representations agree: the first size() slots hold exactly
     * the members. As they are size() slots for size() values, no value
     * occurs twice (ContentsDistinct).
     */
    ghost predicate Valid()
      reads this, elements
    {
      && loadFactor > 0.0
      && |internalSet| <= elements.Length
      && internalSet == SetOf(elements[..|internalSet|])
    }

    /** The elements in order. */
    ghost function Contents(): seq<E>
      reads this, elements
      requires |internalSet| <= elements.Length
    {
      elements[..|internalSet|]
    }

    /** No member occurs twice in the ordered prefix. */
    lemma ContentsDistinct()
      requires Valid()
      ensures Distinct(Contents())
    {
      CardinalityDistinct(Contents());
    }

    /** OrderedHashSet(): an empty set with the default capacity. */
    constructor ()
      ensures Valid() && Contents() == []
      ensures fresh(elements) && elements.Length == DEFAULT_CAPACITY && loadFactor == DEFAULT_LOAD_FACTOR
    {
      internalSet := {};
      elements := new E[DEFAULT_CAPACITY];
      loadFactor := DEFAULT_LOAD_FACTOR;
    }

    /** An empty set with the given capacity and load factor, once the arguments are known to be legal. */
    constructor Init(initialCapacity: nat, loadFactor: real)
      requires loadFactor > 0.0
      ensures Valid() && Contents() == []
      ensures fresh(elements) && elements.Length == initialCapacity && this.loadFactor == loadFactor
    {
      internalSet := {};
      elements := new E[initialCapacity];
      this.loadFactor := loadFactor;
    }

    /**
     * OrderedHashSet(initialCapacity, loadFactor): the backing HashSet
     * rejects a negative capacity or a non-positive load factor.
     */
    static method WithLoadFactor(initialCapacity: int, loadFactor: real) returns (r: Result<OrderedHashSet<E>>)
      ensures r.Err? <==> initialCapacity < 0 || loadFactor <= 0.0
      ensures r.Err? ==> r.failure == IllegalArgument
      ensures r.Ok? ==> fresh(r.value) && fresh(r.value.elements) && r.value.Valid() && r.value.Contents() == []
      ensures r.Ok? ==> r.value.elements.Length == initialCapacity && r.value.loadFactor == loadFactor
    {
      if initialCapacity < 0 || loadFactor <= 0.0 {
        return Err(IllegalArgument);
      }
      var s := new OrderedHashSet.Init(initialCapacity, loadFactor);
      return Ok(s);
    }

    /** OrderedHashSet(initialCapacity), with the default load factor. */
    static method WithCapacity(initialCapacity: int) returns (r: Result<OrderedHashSet<E>>)
      ensures r.Err? <==> initialCapacity < 0
      ensures r.Err? ==> r.failure == IllegalArgument
      ensures r.Ok? ==> fresh(r.value) && fresh(r.value.elements) && r.value.Valid() && r.value.Contents() == []
      ensures r.Ok? ==> r.value.elements.Length == initialCapacity && r.value.loadFactor == DEFAULT_LOAD_FACTOR
    {
      r := WithLoadFactor(initialCapacity, DEFAULT_LOAD_FACTOR);
    }

    /**
     * OrderedHashSet(c): capacity c.size() / loadFactor + 1 (at least the
     * default), then addAll(c).
     */
    static method FromCollection(c: seq<E>) returns (s: OrderedHashSet<E>)
      ensures fresh(s) && s.Valid() && s.Contents() == Unseen([], c)
      ensures s.loadFactor == DEFAULT_LOAD_FACTOR
    {
      var wanted := (|c| as real / DEFAULT_LOAD_FACTOR).Floor + 1;
      var initialCapacity := if wanted > DEFAULT_CAPACITY then wanted else DEFAULT_CAPACITY;
      s := new OrderedHashSet.Init(initialCapacity, DEFAULT_LOAD_FACTOR);
      var r := s.AddAllAt(0, c);
      assert Unseen([], c) == [][..0] + Unseen([], c) + [][0..];
    }

    /** size(): the number of members, which is the length of the ordered prefix. */
    function Size(): (n: nat)
      reads this, elements
      requires Valid()
      ensures n == |Contents()|
    {
      |internalSet|
    }

    /** isEmpty() */
    function IsEmpty(): (b: bool)
      reads this, elements
      requires Valid()
      ensures b <==> Contents() == []
    {
      |internalSet| == 0
    }

    /** contains(o): answered by the hash set, in agreement with the order. */
    function Contains(o: E): (b: bool)
      reads this, elements
      requires Valid()
      ensures b <==> o in Contents()
    {
      o in internalSet
    }

    /** containsAll(c) */
    function ContainsAll(c: seq<E>): (b: bool)
      reads this, elements
      requires Valid()
      ensures b <==> forall i :: 0 <= i < |c| ==> c[i] in Contents()
    {
      forall i :: 0 <= i < |c| ==> c[i] in internalSet
    }

    /** get(index): the element at a position, or IndexOutOfBoundsException outside [0, size()). */
    function Get(index: int): (r: Result<E>)
      reads this, elements
      requires Valid()
      ensures r.Ok? <==> 0 <= index < |Contents()|
      ensures r.Err? ==> r.failure == IndexOutOfBounds
      ensures r.Ok? ==> r.value == Contents()[index]
    {
      if index < 0 || index >= |internalSet| then Err(IndexOutOfBounds)
      else Ok(elements[index])
    }

    /** toArray(): a copy of the ordered elements, position by position what get returns. */
    function ToArray(): (r: seq<E>)
      reads this, elements
      requires Valid()
      ensures |r| == Size()
      ensures forall i :: 0 <= i < |r| ==> Get(i) == Ok(r[i])
    {
      elements[..|internalSet|]
    }

    /** subList is not supported. */
    function SubList(fromIndex: int, toIndex: int): (r: Result<seq<E>>)
      ensures r == Err(UnsupportedOperation)
    {
      Err(UnsupportedOperation)
    }

    /** indexOf(o): a linear scan of the prefix; the position of `o`, or -1. */
    method IndexOf(o: E) returns (index: int)
      requires Valid()
      ensures -1 <= index < Size()
      ensures index == -1 <==> o !in Contents()
      ensures index >= 0 ==> Contents()[index] == o
      ensures forall j :: 0 <= j < Size() && Contents()[j] == o ==> j == index
    {
      ContentsDistinct();
      var size := |internalSet|;
      for i := 0 to size
        invariant o !in elements[..i]
      {
        if o == elements[i] {
          return i;
        }
      }
      return -1;
    }

    /** lastIndexOf(o): a set holds at most one occurrence, so this is indexOf. */
    method LastIndexOf(o: E) returns (index: int)
      requires Valid()
      ensures index == -1 <==> o !in Contents()
      ensures index >= 0 ==> index < Size() && Contents()[index] == o
      ensures forall j :: 0 <= j < Size() && Contents()[j] == o ==> j <= index
    {
      index := IndexOf(o);
    }

    /**
     * equals: false for an object that is not an OrderedSet; otherwise the
     * other ordered set, seen through its iterator, has the same elements in
     * the same order. `otherIsOrderedSet` is the instanceof test, `other`
     * the other set's iteration order. The same object compares equal
     * because its contents are its own.
     */
    method Equals(other: seq<E>, otherIsOrderedSet: bool) returns (b: bool)
      requires Valid()
      ensures b <==> otherIsOrderedSet && Contents() == other
    {
      if !otherIsOrderedSet {
        return false;
      }
      if |internalSet| != |other| {
        return false;
      }
      for i := 0 to |other|
        invariant elements[..i] == other[..i]
      {
        if elements[i] != other[i] {
          assert Contents()[i] != other[i];
          return false;
        }
        assert elements[..i + 1] == elements[..i] + [elements[i]];
        assert other[..i + 1] == other[..i] + [other[i]];
      }
      assert other[..|other|] == other;
      return true;
    }

    /**
     * ensureCapacity(minCapacity): a larger array, with the prefix copied,
     * when the current one has fewer than minCapacity slots.
     */
    method EnsureCapacity(minCapacity: nat)
      requires Valid()
      modifies this
      ensures Valid() && internalSet == old(internalSet) && Contents() == old(Contents())
      ensures elements.Length >= minCapacity && elements.Length >= old(elements.Length)
      ensures old(elements.Length) >= minCapacity ==> elements == old(elements)
      ensures old(elements.Length) < minCapacity ==>
                fresh(elements) && elements.Length == GrownCapacity(minCapacity, loadFactor)
    {
      if minCapacity > elements.Length {
        var newCapacity := GrownCapacity(minCapacity, loadFactor);
        elements := CopyPrefix(elements, |internalSet|, newCapacity);
      }
    }

    /**
     * compaction(): halves the array when fewer than half of its slots are
     * used. There is no lower bound on the new capacity.
     */
    method Compaction()
      requires Valid()
      modifies this
      ensures Valid() && internalSet == old(internalSet) && Contents() == old(Contents())
      ensures Size() < old(elements.Length) / 2 ==> fresh(elements) && elements.Length == old(elements.Length) / 2
      ensures Size() >= old(elements.Length) / 2 ==> elements == old(elements)
      ensures elements != old(elements) ==> elements.Length > Size()
    {
      var newSize := elements.Length / 2;
      if |internalSet| < newSize {
        elements := CopyPrefix(elements, |internalSet|, newSize);
      }
    }

    /**
     * internalAdd(index, e): puts `e` in the hash set, then shifts
     * size() - index slots right, with size() already counting `e`. The
     * shift reaches one slot past the new size, so an insertion before the
     * end needs two spare slots; with only one, System.arraycopy throws and
     * the hash set keeps `e` while the array does not.
     */
    method InternalAdd(index: nat, e: E) returns (r: Result<bool>)
      requires Valid() && index <= Size() < elements.Length
      modifies this, elements
      ensures elements == old(elements)
      ensures e in old(internalSet) ==> r == Ok(false) && internalSet == old(internalSet) && elements[..] == old(elements[..])
      ensures e !in old(internalSet) ==> internalSet == old(internalSet) + {e}
      ensures r.Err? <==> e !in old(internalSet) && index < old(Size()) && elements.Length == old(Size()) + 1
      ensures r.Err? ==> r.failure == ArrayIndexOutOfBounds && elements[..] == old(elements[..])
      ensures r.Ok? ==> Valid() && (r.value <==> e !in old(Contents()))
      ensures r.Ok? ==> Contents() == if r.value then InsertAt(old(Contents()), index, e) else old(Contents())
    {
      if e in internalSet {
        return Ok(false);
      }
      ghost var before := Contents();
      ghost var slots := elements[..];
      ContentsDistinct();
      internalSet := internalSet + {e};
      var size := |internalSet|;
      if index < size - 1 {
        if index + 1 + (size - index) > elements.Length {
          return Err(ArrayIndexOutOfBounds);
        }
        ShiftRight(elements, index, size - index);
      }
      ghost var shifted := elements[..];
      elements[index] := e;
      PlaceNew(slots, |before|, index, e, shifted);
      assert elements[..] == shifted[index := e];
      assert Contents() == elements[..][..size];
      DistinctInsertAt(before, index, e);
      return Ok(true);
    }

    /**
     * internalListRemove(index): closes the gap at `index` by shifting the
     * whole tail of the array left, or clears the last slot.
     */
    method InternalListRemove(index: nat)
      requires index < elements.Length
      modifies elements
      ensures elements[..old(elements.Length) - 1] == old(elements[..index]) + old(elements[index + 1..])
      ensures index < elements.Length - 1 ==> elements[elements.Length - 1] == old(elements[elements.Length - 1])
    {
      if index < elements.Length - 1 {
        ShiftLeft(elements, index, elements.Length - (index + 1));
      } else {
        var cleared: E := *;
        elements[index] := cleared;
      }
      assert forall i :: 0 <= i < elements.Length - 1 ==>
        elements[i] == (old(elements[..index]) + old(elements[index + 1..]))[i];
    }

    /**
     * internalRemove(index, o), where `index` is where `o` sits (or -1 when
     * it is no member): removes it from both representations.
     */
    method InternalRemove(index: int, o: E) returns (b: bool)
      requires Valid()
      requires index >= 0 ==> index < Size() && Contents()[index] == o
      requires index < 0 ==> o !in Contents()
      modifies this, elements
      ensures elements == old(elements) && Valid()
      ensures b <==> index >= 0
      ensures Contents() == if b then DeleteAt(old(Contents()), index) else old(Contents())
    {
      if index >= 0 && o in internalSet {
        ghost var before := Contents();
        ghost var slots := elements[..];
        ContentsDistinct();
        internalSet := internalSet - {o};
        InternalListRemove(index);
        CloseGap(before, index, slots, elements[..]);
        assert Contents() == elements[..][..|before| - 1];
        return true;
      }
      return false;
    }

    /** add(e): a new element is appended; a member stays where it is and false is returned. */
    method Add(e: E) returns (changed: bool)
      requires Valid()
      modifies this, elements
      ensures Valid()
      ensures changed <==> e !in old(Contents())
      ensures Contents() == if changed then old(Contents()) + [e] else old(Contents())
      ensures old(Size()) < old(elements.Length) ==> elements == old(elements)
    {
      EnsureCapacity(|internalSet| + 1);
      var r := InternalAdd(|internalSet|, e);
      changed := r.value;
      assert InsertAt(old(Contents()), |old(Contents())|, e) == old(Contents()) + [e];
    }

    /**
     * add(index, e): IndexOutOfBoundsException outside [0, size()];
     * otherwise a new element is inserted at `index` and a member stays
     * where it is. ensureCapacity(size() + 1) leaves one spare slot, which
     * is one too few for internalAdd's shift when inserting before the end.
     */
    method AddAt(index: int, e: E) returns (r: Outcome)
      requires Valid()
      modifies this, elements
      ensures r.Thrown? ==> r.failure == IndexOutOfBounds || r.failure == ArrayIndexOutOfBounds
      ensures r == Thrown(IndexOutOfBounds) <==> index < 0 || index > old(Size())
      ensures r == Thrown(IndexOutOfBounds) ==> unchanged(this) && unchanged(elements)
      ensures r == Thrown(ArrayIndexOutOfBounds) <==>
                0 <= index < old(Size()) && e !in old(Contents()) && old(elements.Length) == old(Size()) + 1
      ensures r == Thrown(ArrayIndexOutOfBounds) ==> internalSet == old(internalSet) + {e} && elements[..] == old(elements[..])
      ensures r.Normal? ==> Valid() && elements.Length >= old(elements.Length)
      ensures r.Normal? ==> Contents() == if e in old(Contents()) then old(Contents()) else InsertAt(old(Contents()), index, e)
    {
      if index < 0 || index > |internalSet| {
        return Thrown(IndexOutOfBounds);
      }
      EnsureCapacity(|internalSet| + 1);
      var added := InternalAdd(index, e);
      if added.Err? {
        return Thrown(added.failure);
      }
      return Normal;
    }

    /**
     * addAll(index, c): IndexOutOfBoundsException outside [0, size()];
     * otherwise the elements of `c` that are not members are inserted one
     * after the other from `index`, in the order of `c`; true iff one was.
     * The capacity is first made size() + c.size(); the last insertion
     * overruns the array exactly when every element of `c` is new, the
     * insertion point is before the end and no growth was needed.
     */
    method AddAllAt(index: int, c: seq<E>) returns (r: Result<bool>)
      requires Valid()
      modifies this, elements
      ensures r.Err? ==> r.failure == IndexOutOfBounds || r.failure == ArrayIndexOutOfBounds
      ensures r == Err(IndexOutOfBounds) <==> index < 0 || index > old(Size())
      ensures r == Err(IndexOutOfBounds) ==> unchanged(this) && unchanged(elements)
      ensures r == Err(ArrayIndexOutOfBounds) <==>
                0 <= index < old(Size()) && |c| > 0 && |Unseen(old(Contents()), c)| == |c|
                && old(elements.Length) == old(Size()) + |c|
      ensures r == Err(ArrayIndexOutOfBounds) ==>
                && elements == old(elements)
                && internalSet == old(internalSet) + SetOf(c)
                && elements[..old(Size()) + |c| - 1] == old(Contents())[..index] + c[..|c| - 1] + old(Contents())[index..]
      ensures r.Ok? ==> Valid()
      ensures r.Ok? ==> Contents() == old(Contents())[..index] + Unseen(old(Contents()), c) + old(Contents())[index..]
      ensures r.Ok? ==> (r.value <==> Unseen(old(Contents()), c) != [])
    {
      if index < 0 || index > |internalSet| {
        return Err(IndexOutOfBounds);
      }
      ghost var pre := Contents();
      ghost var oldLength := elements.Length;
      EnsureCapacity(|internalSet| + |c|);
      var arr := elements;
      ghost var overrun := index < |pre| && |c| > 0 && |Unseen(pre, c)| == |c| && arr.Length == |pre| + |c|;
      assert overrun <==> index < |pre| && |c| > 0 && |Unseen(pre, c)| == |c| && oldLength == |pre| + |c|;
      assert pre == pre[..index] + pre[index..];
      var modified := false;
      var insertionIndex := index;
      ghost var u: seq<E> := [];
      for k := 0 to |c|
        invariant Valid() && elements == arr
        invariant u == Unseen(pre, c[..k])
        invariant insertionIndex == index + |u|
        invariant Contents() == pre[..index] + u + pre[index..]
        invariant modified <==> |u| > 0
        invariant overrun ==> k < |c|
      {
        var added;
        added, insertionIndex, modified, u := AddAllVisit(index, c, k, insertionIndex, modified, pre, u, overrun);
        if added.Err? {
          assert elements == old(elements);
          return Err(added.failure);
        }
      }
      assert c[..|c|] == c;
      return Ok(modified);
    }

    /**
     * One step of addAll(index, c): c[k] goes in at `insertionIndex`, right
     * after the u elements this call has inserted so far, unless it is
     * already present.
     */
    method AddAllVisit(index: nat, c: seq<E>, k: nat, insertionIndex: nat, modified: bool, ghost pre: seq<E>,
                       ghost u: seq<E>, ghost overrun: bool)
      returns (r: Result<bool>, insertionIndex': nat, modified': bool, ghost u': seq<E>)
      requires Valid() && k < |c| && index <= |pre| && elements.Length >= |pre| + |c|
      requires u == Unseen(pre, c[..k]) && insertionIndex == index + |u|
      requires Contents() == pre[..index] + u + pre[index..]
      requires modified <==> |u| > 0
      requires overrun <==> index < |pre| && |c| > 0 && |Unseen(pre, c)| == |c| && elements.Length == |pre| + |c|
      requires overrun ==> k < |c|
      modifies this, elements
      ensures elements == old(elements)
      ensures r.Err? <==> overrun && k == |c| - 1
      ensures r.Err? ==> r.failure == ArrayIndexOutOfBounds
      ensures r.Err? ==> internalSet == SetOf(pre) + SetOf(c)
                         && elements[..|pre| + |c| - 1] == pre[..index] + c[..|c| - 1] + pre[index..]
      ensures r.Ok? ==> Valid() && u' == Unseen(pre, c[..k + 1]) && insertionIndex' == index + |u'|
      ensures r.Ok? ==> Contents() == pre[..index] + u' + pre[index..]
      ensures r.Ok? ==> (modified' <==> |u'| > 0) && (overrun ==> k + 1 < |c|)
    {
      AddAllStep(pre, c, k, index, elements.Length);
      ghost var before := Contents();
      ghost var after := pre[..index] + (u + [c[k]]) + pre[index..];
      assert InsertAt(before, insertionIndex, c[k]) == after;
      r := InternalAdd(insertionIndex, c[k]);
      if r.Err? {
        UnseenAllPrefix(pre, c, k);
        OverrunState(pre, c, index, before);
        assert elements[..|pre| + k] == before;
      }
      u', insertionIndex', modified' := u, insertionIndex, modified;
      if r.Ok? && r.value {
        u', insertionIndex', modified' := u + [c[k]], insertionIndex + 1, true;
        assert Contents() == after;
      }
    }

    /**
     * remove(o): the element is taken out of both representations, the
     * gap is closed and the array may be compacted; false for a non-member.
     */
    method Remove(o: E) returns (b: bool)
      requires Valid()
      modifies this, elements
      ensures Valid()
      ensures b <==> o in old(Contents())
      ensures Contents() == Select(old(Contents()), {o}, false)
      ensures !b ==> elements == old(elements)
      ensures b && Size() < old(elements.Length) / 2 ==> fresh(elements) && elements.Length == old(elements.Length) / 2
      ensures b && Size() >= old(elements.Length) / 2 ==> elements == old(elements)
    {
      ghost var pre := Contents();
      ContentsDistinct();
      var index := IndexOf(o);
      b := InternalRemove(index, o);
      if b {
        DistinctDeleteAt(pre, index);
        DeleteAtIsSelect(pre, index);
        Compaction();
      } else {
        SelectNone(pre, {o});
      }
    }

    /**
     * remove(index): IndexOutOfBoundsException outside [0, size());
     * otherwise the element there is removed and returned. No compaction.
     */
    method RemoveAt(index: int) returns (r: Result<E>)
      requires Valid()
      modifies this, elements
      ensures Valid() && elements == old(elements)
      ensures r.Ok? <==> 0 <= index < old(Size())
      ensures r.Err? ==> r.failure == IndexOutOfBounds && unchanged(this) && unchanged(elements)
      ensures r.Ok? ==> r.value == old(Contents())[index] && Contents() == DeleteAt(old(Contents()), index)
    {
      if index < 0 || index >= |internalSet| {
        return Err(IndexOutOfBounds);
      }
      ghost var pre := Contents();
      ghost var slots := elements[..];
      ContentsDistinct();
      var element := elements[index];
      if element in internalSet {
        internalSet := internalSet - {element};
        InternalListRemove(index);
        CloseGap(pre, index, slots, elements[..]);
        assert Contents() == elements[..][..|pre| - 1];
      }
      return Ok(element);
    }

    /**
     * removeAll(c): every element of `c` is removed, and the relative order
     * of the rest is kept; true iff something was removed, and only then
     * is the array compacted. With more elements than `c`, `c` is walked
     * and each of its elements looked up; otherwise the set is walked with
     * its own iterator.
     */
    method RemoveAll(c: seq<E>) returns (modified: bool)
      requires Valid()
      modifies this, elements
      ensures Valid()
      ensures Contents() == Select(old(Contents()), SetOf(c), false)
      ensures modified <==> Contents() != old(Contents())
      ensures !modified ==> elements == old(elements)
      ensures modified && Size() < old(elements.Length) / 2 ==>
                fresh(elements) && elements.Length == old(elements.Length) / 2
      ensures modified && Size() >= old(elements.Length) / 2 ==> elements == old(elements)
    {
      if |internalSet| > |c| {
        modified := RemoveEach(c);
      } else {
        modified := IteratorSweep(c, false);
      }
      SelectFull(old(Contents()), SetOf(c), false);
      if modified {
        Compaction();
      }
    }

    /** The first branch of removeAll: each element of `c` is looked up and removed. */
    method RemoveEach(c: seq<E>) returns (modified: bool)
      requires Valid()
      modifies this, elements
      ensures Valid() && elements == old(elements)
      ensures Contents() == Select(old(Contents()), SetOf(c), false)
      ensures modified <==> Size() < old(Size())
    {
      ghost var pre := Contents();
      modified := false;
      SelectNone(pre, {});
      assert SetOf(c[..0]) == {};
      for k := 0 to |c|
        invariant Valid() && elements == old(elements)
        invariant Contents() == Select(pre, SetOf(c[..k]), false)
        invariant modified <==> |Contents()| < |pre|
      {
        var o := c[k];
        ghost var before := Contents();
        var index := IndexOf(o);
        var removedOne := InternalRemove(index, o);
        RemoveOneStep(pre, SetOf(c[..k]), o, index, before);
        SetOfSnoc(c, k);
        modified := modified || removedOne;
      }
      assert c[..|c|] == c;
    }

    /**
     * The walk of the set's iterator shared by removeAll and retainAll:
     * each element whose membership in `c` differs from `keep` is removed
     * through the iterator, which steps back over it.
     */
    method IteratorSweep(c: seq<E>, keep: bool) returns (modified: bool)
      requires Valid()
      modifies this, elements
      ensures Valid() && elements == old(elements)
      ensures Contents() == Select(old(Contents()), SetOf(c), keep)
      ensures modified <==> Size() < old(Size())
    {
      ghost var pre := Contents();
      modified := SweepFrom(c, keep, 0, false, pre, SetOf(c), 0, []);
    }

    /**
     * The rest of the iterator walk from `cursor`, one hasNext() test per
     * call: the k elements of `pre` already visited left `kept` in front of
     * the cursor and the unvisited ones after it.
     */
    method SweepFrom(c: seq<E>, keep: bool, cursor: nat, modified: bool, ghost pre: seq<E>, ghost inside: set<E>,
                     ghost k: nat, ghost kept: seq<E>)
        returns (modified': bool)
      requires Valid() && inside == SetOf(c) && k <= |pre| && cursor == |kept| <= k
      requires kept == Select(pre[..k], inside, keep)
      requires Contents() == kept + pre[k..]
      requires modified <==> cursor < k
      requires |internalSet| - cursor == |pre| - k
      modifies this, elements
      ensures Valid() && elements == old(elements)
      ensures Contents() == Select(pre, inside, keep)
      ensures modified' <==> |internalSet| < |pre|
      decreases |pre| - k
    {
      if cursor < |internalSet| {
        var cursor', modified1, kept' := SweepVisit(c, keep, cursor, modified, pre, inside, k, kept);
        modified' := SweepFrom(c, keep, cursor', modified1, pre, inside, k + 1, kept');
      } else {
        assert pre[..k] == pre;
        modified' := modified;
      }
    }

    /**
     * One step of the iterator walk: next(), and remove() when the
     * element's membership in `c` is not `keep`, which steps the cursor
     * back; `modified` records that something was removed.
     */
    method SweepVisit(c: seq<E>, keep: bool, cursor: nat, modified: bool, ghost pre: seq<E>, ghost inside: set<E>,
                      ghost k: nat, ghost kept: seq<E>)
        returns (cursor': nat, modified': bool, ghost kept': seq<E>)
      requires Valid() && inside == SetOf(c) && k < |pre| && cursor == |kept| <= k
      requires kept == Select(pre[..k], inside, keep)
      requires Contents() == kept + pre[k..]
      requires modified <==> cursor < k
      requires |internalSet| - cursor == |pre| - k
      modifies this, elements
      ensures Valid() && elements == old(elements)
      ensures k + 1 <= |pre| && cursor' == |kept'| <= k + 1
      ensures kept' == Select(pre[..k + 1], inside, keep)
      ensures Contents() == kept' + pre[k + 1..]
      ensures modified' <==> cursor' < k + 1
      ensures |internalSet| - cursor' == |pre| - (k + 1)
    {
      SweepStep(pre, k, inside, keep);
      var x := elements[cursor];
      assert x == pre[k];
      cursor' := cursor + 1;
      if (x in c) != keep {
        var removedOne := InternalRemove(cursor' - 1, x);
        cursor' := cursor' - 1;
        kept' := kept;
        modified' := modified || removedOne;
      } else {
        kept' := kept + [x];
        modified' := modified;
      }
    }

    /**
     * retainAll(c): every element not in `c` is removed through the set's
     * iterator, keeping the relative order of the rest; true iff something
     * was removed. The array is never compacted.
     */
    method RetainAll(c: seq<E>) returns (modified: bool)
      requires Valid()
      modifies this, elements
      ensures Valid() && elements == old(elements)
      ensures Contents() == Select(old(Contents()), SetOf(c), true)
      ensures modified <==> Contents() != old(Contents())
    {
      modified := IteratorSweep(c, true);
      SelectFull(old(Contents()), SetOf(c), true);
    }

    /** clear(): no members, and a fresh array of the default capacity. */
    method Clear()
      requires Valid()
      modifies this
      ensures Valid() && Contents() == []
      ensures fresh(elements) && elements.Length == DEFAULT_CAPACITY
    {
      internalSet := {};
      elements := new E[DEFAULT_CAPACITY];
    }

    /**
     * set(index, e): IndexOutOfBoundsException outside [0, size()).
     * A non-member overwrites the slot and the old occupant is returned and
     * evicted. A member at position j is first closed up, and only then is
     * the slot at `index` read, evicted and overwritten: when j <= index the
     * occupant read is the element that slid into `index`, not the one that
     * was there. When `index` is also the last position, the slot read is
     * the one just past the shrunk prefix (a stale slot, or the cleared
     * one); beyond `e` in that slot and the membership update, nothing is
     * promised about the result or the new state.
     */
    method Set(index: int, e: E) returns (r: Result<E>)
      requires Valid()
      modifies this, elements
      ensures elements == old(elements)
      ensures r.Err? <==> index < 0 || index >= old(Size())
      ensures r.Err? ==> r.failure == IndexOutOfBounds && unchanged(this) && unchanged(elements)
      ensures r.Ok? ==> elements[index] == e && internalSet == old(internalSet) + {e} - {r.value}
      ensures r.Ok? && e !in old(Contents()) ==>
                Valid() && r.value == old(Contents())[index] && Contents() == old(Contents())[index := e]
      ensures r.Ok? ==> forall j :: 0 <= j < old(Size()) && old(Contents())[j] == e && (j > index || index < old(Size()) - 1) ==>
                Valid() && r.value == DeleteAt(old(Contents()), j)[index]
                && Contents() == DeleteAt(old(Contents()), j)[index := e]
    {
      if index < 0 || index >= |internalSet| {
        return Err(IndexOutOfBounds);
      }
      ghost var pre := Contents();
      ContentsDistinct();
      ghost var slots := elements[..];
      var elementIndex := IndexOf(e);
      if elementIndex >= 0 {
        InternalListRemove(elementIndex);
        DeleteAtPrefix(slots, elementIndex, |pre|);
      } else {
        internalSet := internalSet + {e};
      }
      ghost var shifted := elements[..];
      var previous := elements[index];
      internalSet := internalSet - {previous};
      elements[index] := e;
      r := Ok(previous);
      assert elements[..] == shifted[index := e];
      if elementIndex < 0 {
        OverwriteNewcomer(pre, index, e, shifted);
        assert Contents() == elements[..][..|pre|];
      } else if elementIndex > index || index < |pre| - 1 {
        OverwriteAfterClosing(pre, elementIndex, index, e, shifted);
        assert Contents() == elements[..][..|pre| - 1];
        assert forall j :: 0 <= j < |pre| && pre[j] == e ==> j == elementIndex;
      }
    }

    /** listIterator(index): a cursor before position `index`; the index is not checked. */
    method ListIterator(index: int) returns (it: OrderedSetIterator<E>)
      ensures fresh(it) && it.owner == this
      ensures it.currentIndex == index && it.lastReturned == -1 && !it.removed
    {
      it := new OrderedSetIterator(this, index);
    }

    /** iterator(): listIterator(0). */
    method Iterator() returns (it: OrderedSetIterator<E>)
      ensures fresh(it) && it.owner == this
      ensures it.currentIndex == 0 && it.lastReturned == -1 && !it.removed
    {
      it := ListIterator(0);
    }
  }

  /**
   * OrderedSetIterator: a list iterator over an OrderedHashSet. The cursor
   * sits between positions; `lastReturned` is the position of the element
   * last returned by next or previous (-1 before the first), and `removed`
   * says it has been removed since.
   */
  class OrderedSetIterator<E(==,0)> {
    const owner: OrderedHashSet<E>
    var currentIndex: int
    var lastReturned: int
    var removed: bool

    /** The cursor is within the set and `lastReturned` names a slot of its array. */
    ghost predicate Valid()
      reads this, owner, owner.elements
    {
      && owner.Valid()
      && 0 <= currentIndex <= owner.Size()
      && -1 <= lastReturned < owner.elements.Length
      && (lastReturned >= 0 && !removed ==> lastReturned < owner.Size())
    }

    constructor (owner: OrderedHashSet<E>, index: int)
      ensures this.owner == owner && currentIndex == index && lastReturned == -1 && !removed
    {
      this.owner := owner;
      currentIndex := index;
      lastReturned := -1;
      removed := false;
    }

    /** hasNext() */
    function HasNext(): (b: bool)
      reads this, owner, owner.elements
      requires Valid()
      ensures b <==> currentIndex < |owner.Contents()|
    {
      currentIndex < |owner.internalSet|
    }

    /** hasPrevious() */
    function HasPrevious(): (b: bool)
      reads this
      ensures b <==> currentIndex > 0
    {
      currentIndex > 0
    }

    /** nextIndex() */
    function NextIndex(): (i: int)
      reads this
      ensures i == currentIndex
    {
      currentIndex
    }

    /** previousIndex() */
    function PreviousIndex(): (i: int)
      reads this
      ensures i == currentIndex - 1
    {
      currentIndex - 1
    }

    /** next(): the element after the cursor, which moves past it; NoSuchElementException at the end. */
    method Next() returns (r: Result<E>)
      requires Valid()
      modifies this
      ensures Valid()
      ensures old(currentIndex) >= owner.Size() ==> r == Err(NoSuchElement) && unchanged(this)
      ensures old(currentIndex) < owner.Size() ==>
                r == Ok(owner.Contents()[old(currentIndex)]) && currentIndex == old(currentIndex) + 1
                && lastReturned == old(currentIndex) && !removed
    {
      if !HasNext() {
        return Err(NoSuchElement);
      }
      removed := false;
      lastReturned := currentIndex;
      r := Ok(owner.elements[currentIndex]);
      currentIndex := currentIndex + 1;
    }

    /** previous(): the element before the cursor, which moves before it; NoSuchElementException at the start. */
    method Previous() returns (r: Result<E>)
      requires Valid()
      modifies this
      ensures Valid()
      ensures old(currentIndex) <= 0 ==> r == Err(NoSuchElement) && unchanged(this)
      ensures old(currentIndex) > 0 ==>
                r == Ok(owner.Contents()[old(currentIndex) - 1]) && currentIndex == old(currentIndex) - 1
                && lastReturned == currentIndex && !removed
    {
      if !HasPrevious() {
        return Err(NoSuchElement);
      }
      removed := false;
      currentIndex := currentIndex - 1;
      lastReturned := currentIndex;
      r := Ok(owner.elements[currentIndex]);
    }

    /**
     * remove(): IllegalStateException before any next/previous, or when
     * the last returned element was already removed; otherwise that element
     * is removed from the set (without compaction), and the cursor steps
     * back when it was after it.
     */
    method Remove() returns (r: Outcome)
      requires Valid()
      modifies this, owner, owner.elements
      ensures Valid() && owner.elements == old(owner.elements) && lastReturned == old(lastReturned)
      ensures r.Thrown? <==> old(lastReturned) < 0 || old(removed)
      ensures r.Thrown? ==> r.failure == IllegalState && unchanged(this) && unchanged(owner) && unchanged(owner.elements)
      ensures r.Normal? ==> removed && owner.Contents() == DeleteAt(old(owner.Contents()), lastReturned)
      ensures r.Normal? ==>
                currentIndex == if lastReturned < old(currentIndex) then old(currentIndex) - 1 else old(currentIndex)
    {
      if lastReturned < 0 {
        return Thrown(IllegalState);
      } else if removed {
        return Thrown(IllegalState);
      }
      var wasRemoved := owner.InternalRemove(lastReturned, owner.elements[lastReturned]);
      if wasRemoved {
        removed := true;
        if lastReturned < currentIndex {
          currentIndex := currentIndex - 1;
        }
      }
      return Normal;
    }

    /**
     * set(e): overwrites the slot of the last returned element and swaps
     * the hash-set membership, with no check of `lastReturned`, of the
     * `removed` flag or of whether `e` is already a member elsewhere. Only
     * a position below -1 is unreachable here; -1 makes the array access
     * throw.
     */
    method Set(e: E) returns (r: Outcome)
      requires Valid()
      modifies owner, owner.elements
      ensures owner.elements == old(owner.elements)
      ensures r.Thrown? <==> lastReturned < 0
      ensures r.Thrown? ==> r.failure == ArrayIndexOutOfBounds && unchanged(owner) && unchanged(owner.elements)
      ensures r.Normal? ==> owner.elements[..] == old(owner.elements[..])[lastReturned := e]
      ensures r.Normal? ==> owner.internalSet == old(owner.internalSet) - {old(owner.elements[lastReturned])} + {e}
      ensures r.Normal? && lastReturned < old(owner.Size())
              && (e == old(owner.Contents())[lastReturned] || e !in old(owner.Contents())) ==>
                Valid() && owner.Contents() == old(owner.Contents())[lastReturned := e]
    {
      if lastReturned < 0 {
        return Thrown(ArrayIndexOutOfBounds);
      }
      ghost var pre := owner.Contents();
      ghost var slots := owner.elements[..];
      owner.ContentsDistinct();
      var toRemove := owner.elements[lastReturned];
      owner.elements[lastReturned] := e;
      owner.internalSet := owner.internalSet - {toRemove};
      owner.internalSet := owner.internalSet + {e};
      assert owner.elements[..] == slots[lastReturned := e];
      if lastReturned < |pre| {
        if e == pre[lastReturned] {
          OverwriteInPrefix(slots, |pre|, lastReturned, e, pre);
          assert pre[lastReturned := e] == pre;
          assert owner.internalSet == SetOf(pre);
          assert owner.Contents() == owner.elements[..][..|pre|];
        } else if e !in pre {
          OverwriteNewcomer(pre, lastReturned, e, slots);
          assert owner.internalSet == SetOf(pre[lastReturned := e]);
          assert owner.Contents() == owner.elements[..][..|pre|];
        }
      }
      return Normal;
    }

    /**
     * add(e): add(cursor, e) on the set, with the cursor advanced before
     * the call, so it moves even when `e` was already a member or the
     * insertion throws.
     */
    method Add(e: E) returns (r: Outcome)
      requires Valid()
      modifies this, owner, owner.elements
      ensures currentIndex == old(currentIndex) + 1 && lastReturned == old(lastReturned) && removed == old(removed)
      ensures r.Thrown? <==> e !in old(owner.Contents()) && old(currentIndex) < old(owner.Size())
                             && old(owner.elements.Length) == old(owner.Size()) + 1
      ensures r.Thrown? ==> r.failure == ArrayIndexOutOfBounds
      ensures r.Normal? ==> owner.Valid()
      ensures r.Normal? ==>
                owner.Contents() == (if e in old(owner.Contents()) then old(owner.Contents())
                                     else InsertAt(old(owner.Contents()), old(currentIndex), e))
      ensures r.Normal? && e !in old(owner.Contents()) ==> Valid()
    {
      var index := currentIndex;
      currentIndex := currentIndex + 1;
      r := owner.AddAt(index, e);
    }
  }
}
