/** Sequence vocabulary shared by the models. */
module Seqs {

  /** No value occurs twice. */
  ghost predicate Distinct<T>(s: seq<T>) {
    forall i, j :: 0 <= i < j < |s| ==> s[i] != s[j]
  }

  /** The values occurring in `s`. */
  function SetOf<T>(s: seq<T>): set<T> {
    set x | x in s
  }

  /**
   * A sequence has at most as many distinct values as positions, and
   * exactly as many when no value is repeated.
   */
  lemma {:induction false} CardinalityDistinct<T>(s: seq<T>)
    ensures |SetOf(s)| <= |s|
    ensures |SetOf(s)| == |s| <==> Distinct(s)
    decreases |s|
  {
    if s != [] {
      var s', last := s[..|s| - 1], s[|s| - 1];
      CardinalityDistinct(s');
      assert s == s' + [last];
      assert SetOf(s) == SetOf(s') + {last};
      if |SetOf(s)| == |s| {
        assert last !in SetOf(s');
        forall i, j | 0 <= i < j < |s| ensures s[i] != s[j] {
          if j == |s| - 1 {
            assert s[i] == s'[i];
          } else {
            assert s[i] == s'[i] && s[j] == s'[j];
          }
        }
      }
      if Distinct(s) {
        assert Distinct(s') by {
          forall i, j | 0 <= i < j < |s'| ensures s'[i] != s'[j] {
            assert s'[i] == s[i] && s'[j] == s[j];
          }
        }
        forall k | 0 <= k < |s'| ensures s'[k] != last {
          assert s'[k] == s[k];
        }
      }
    }
  }

  /** The values of a prefix grow by one element at a time. */
  lemma SetOfSnoc<T>(s: seq<T>, k: nat)
    requires k < |s|
    ensures SetOf(s[..k + 1]) == SetOf(s[..k]) + {s[k]}
  {
    assert s[..k + 1] == s[..k] + [s[k]];
  }

  /** The values of a concatenation are the values of its parts. */
  lemma SetOfConcat<T>(a: seq<T>, b: seq<T>)
    ensures SetOf(a + b) == SetOf(a) + SetOf(b)
  {
    forall x | x in a + b ensures x in a || x in b { }
  }

  /** `s` with `x` placed at position `i`. */
  function InsertAt<T>(s: seq<T>, i: nat, x: T): seq<T>
    requires i <= |s|
  {
    s[..i] + [x] + s[i..]
  }

  /** `s` without its element at position `i`. */
  function DeleteAt<T>(s: seq<T>, i: nat): seq<T>
    requires i < |s|
  {
    s[..i] + s[i + 1..]
  }

  /**
   * The elements of `s`, in order and with repetitions, whose membership
   * in `inside` equals `keep`.
   */
  function Select<T>(s: seq<T>, inside: set<T>, keep: bool): (r: seq<T>)
    ensures |r| <= |s|
  {
    if s == [] then []
    else
      var last := s[|s| - 1];
      assert s == s[..|s| - 1] + [last];
      Select(s[..|s| - 1], inside, keep) + (if (last in inside) == keep then [last] else [])
  }

  /** Selecting distributes over concatenation, so `Select` keeps order. */
  lemma {:induction false} SelectAppend<T>(a: seq<T>, b: seq<T>, inside: set<T>, keep: bool)
    ensures Select(a + b, inside, keep) == Select(a, inside, keep) + Select(b, inside, keep)
    decreases |b|
  {
    if b == [] {
      assert a + b == a;
    } else {
      var b' := b[..|b| - 1];
      var ab := a + b;
      assert ab[..|ab| - 1] == a + b';
      assert ab[|ab| - 1] == b[|b| - 1];
      SelectAppend(a, b', inside, keep);
    }
  }

  /** A value is selected exactly when it occurs in `s` and its membership in `inside` is `keep`. */
  lemma {:induction false} SelectMembers<T>(s: seq<T>, inside: set<T>, keep: bool)
    ensures forall x :: x in Select(s, inside, keep) <==> x in s && (x in inside) == keep
    decreases |s|
  {
    if s != [] {
      var s', last := s[..|s| - 1], s[|s| - 1];
      assert s == s' + [last];
      SelectMembers(s', inside, keep);
    }
  }

  /** `Select` keeps every occurrence of a selected value and none of the others. */
  lemma {:induction false} SelectCount<T>(s: seq<T>, inside: set<T>, keep: bool, x: T)
    ensures multiset(Select(s, inside, keep))[x] == if (x in inside) == keep then multiset(s)[x] else 0
    decreases |s|
  {
    if s != [] {
      var s', last := s[..|s| - 1], s[|s| - 1];
      assert s == s' + [last];
      SelectCount(s', inside, keep, x);
    }
  }

  /** Selecting away values that do not occur changes nothing. */
  lemma {:induction false} SelectNone<E>(s: seq<E>, inside: set<E>)
    requires forall x :: x in s ==> x !in inside
    ensures Select(s, inside, false) == s
    decreases |s|
  {
    if s != [] {
      assert s == s[..|s| - 1] + [s[|s| - 1]];
      SelectNone(s[..|s| - 1], inside);
    }
  }

  /** Keeping the values that all occur in `inside` keeps everything. */
  lemma {:induction false} SelectAllInside<E>(s: seq<E>, inside: set<E>)
    requires forall x :: x in s ==> x in inside
    ensures Select(s, inside, true) == s
    decreases |s|
  {
    if s != [] {
      assert s == s[..|s| - 1] + [s[|s| - 1]];
      SelectAllInside(s[..|s| - 1], inside);
    }
  }

  /** A selection that keeps every element is the sequence itself; otherwise it is shorter. */
  lemma {:induction false} SelectFull<E>(s: seq<E>, inside: set<E>, keep: bool)
    ensures Select(s, inside, keep) == s <==> |Select(s, inside, keep)| == |s|
    decreases |s|
  {
    if s != [] && |Select(s, inside, keep)| == |s| {
      var s', last := s[..|s| - 1], s[|s| - 1];
      SelectFull(s', inside, keep);
      assert s == s' + [last];
    }
  }

  /** The position of the first occurrence of `x` in `s`. */
  function FirstIndex<T(==)>(s: seq<T>, x: T): (i: nat)
    requires x in s
    ensures i < |s| && s[i] == x && x !in s[..i]
  {
    if s[0] == x then 0
    else
      var i := FirstIndex(s[1..], x);
      assert s[..i + 1] == [s[0]] + s[1..][..i];
      i + 1
  }

  /** The first occurrence of `x` in `s` is gone (`List.remove(Object)`). */
  function RemoveFirst<T(==)>(s: seq<T>, x: T): (r: seq<T>)
    ensures x in s ==> |r| == |s| - 1
    ensures x !in s ==> r == s
    ensures forall y :: y in r ==> y in s
    ensures x in s ==> r == s[..FirstIndex(s, x)] + s[FirstIndex(s, x) + 1..]
  {
    if s == [] then []
    else if s[0] == x then s[1..]
    else
      var rest := RemoveFirst(s[1..], x);
      FirstIndexCons(s, x);
      [s[0]] + rest
  }

  /** Past a head other than `x`, the first occurrence moves one position on, and removing it commutes with the head. */
  lemma FirstIndexCons<T>(s: seq<T>, x: T)
    requires s != [] && s[0] != x
    ensures x in s[1..] ==> FirstIndex(s, x) == FirstIndex(s[1..], x) + 1
    ensures x in s[1..] ==> var i := FirstIndex(s[1..], x);
              [s[0]] + (s[1..][..i] + s[1..][i + 1..]) == s[..i + 1] + s[i + 2..]
  {
  }

  /** Removing the first occurrence of a present value takes one copy of it out of the multiset. */
  lemma {:induction false} RemoveFirstCount<T>(s: seq<T>, x: T)
    requires x in s
    ensures multiset(RemoveFirst(s, x)) == multiset(s) - multiset{x}
    decreases |s|
  {
    assert s == [s[0]] + s[1..];
    if s[0] != x {
      RemoveFirstCount(s[1..], x);
    }
  }

  lemma DistinctDeleteAt<T>(s: seq<T>, i: nat)
    requires Distinct(s) && i < |s|
    ensures Distinct(DeleteAt(s, i))
    ensures SetOf(DeleteAt(s, i)) == SetOf(s) - {s[i]}
    ensures s[i] !in DeleteAt(s, i)
  {
    var d := DeleteAt(s, i);
    forall x | x in SetOf(s) - {s[i]} ensures x in d {
      var k :| 0 <= k < |s| && s[k] == x;
      if k < i { assert d[k] == x; } else { assert d[k - 1] == x; }
    }
  }

  lemma DistinctInsertAt<T>(s: seq<T>, i: nat, x: T)
    requires Distinct(s) && i <= |s| && x !in s
    ensures Distinct(InsertAt(s, i, x))
    ensures SetOf(InsertAt(s, i, x)) == SetOf(s) + {x}
  {
    var d := InsertAt(s, i, x);
    forall y | y in SetOf(s) ensures y in d {
      var k :| 0 <= k < |s| && s[k] == y;
      if k < i { assert d[k] == y; } else { assert d[k + 1] == y; }
    }
  }
}
