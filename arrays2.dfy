/**
 * Arrays2: copy-on-write removal and insertion of ranges in arrays. Arrays
 * are values here (`seq<T>`): every operation returns a new array, or the
 * argument itself when the range is empty. The primitive overloads run the
 * same algorithm on their element type, so one generic model covers all.
 */
module Arrays2 {
  import opened Lang

  /**
   * checkIndexes: the first negative index, if any. The source throws
   * ArrayIndexOutOfBoundsException carrying that index.
   */
  function FirstNegative(indexes: seq<int>): (r: Option<int>)
    ensures r.None? <==> forall i :: 0 <= i < |indexes| ==> indexes[i] >= 0
    ensures r.Some? ==> r.value < 0
    ensures r.Some? ==> exists k :: 0 <= k < |indexes| && indexes[k] == r.value && (forall i :: 0 <= i < k ==> indexes[i] >= 0)
  {
    if |indexes| == 0 then None
    else if indexes[0] < 0 then Some(indexes[0])
    else
      var r := FirstNegative(indexes[1..]);
      assert r.Some? ==> exists k :: 1 <= k < |indexes| && indexes[k] == r.value
                          && forall i :: 1 <= i < k ==> indexes[i] >= 0;
      r
  }

  /**
   * remove(array, begin, end): the array without its elements in
   * [begin, end). `begin` must name an existing element and `end` may be
   * at most the length; a reversed range is an IllegalArgumentException.
   */
  function Remove<T>(arr: seq<T>, begin: int, end: int): (r: Result<seq<T>>)
    ensures r.Ok? <==> 0 <= begin < |arr| && begin <= end <= |arr|
    ensures r.Err? ==> r.failure in {ArrayIndexOutOfBounds, IllegalArgument}
    ensures r == Err(IllegalArgument) <==> 0 <= end < begin < |arr|
    ensures r.Ok? ==> |r.value| == |arr| - (end - begin)
    ensures r.Ok? ==> forall i :: 0 <= i < begin ==> r.value[i] == arr[i]
    ensures r.Ok? ==> forall i :: begin <= i < |r.value| ==> r.value[i] == arr[i + (end - begin)]
  {
    var indexes := [begin, end];
    assert indexes[0] == begin && indexes[1] == end;
    if FirstNegative(indexes).Some? then Err(ArrayIndexOutOfBounds)
    else if begin > |arr| - 1 || end > |arr| then Err(ArrayIndexOutOfBounds)
    else if end < begin then Err(IllegalArgument)
    else if begin != end then Ok(arr[..begin] + arr[end..])
    else Ok(arr)
  }

  /** remove(array, index): delegates to the range form with [index, index + 1). */
  function RemoveAt<T>(arr: seq<T>, index: int): (r: Result<seq<T>>)
    ensures r.Ok? <==> 0 <= index < |arr|
    ensures r.Err? ==> r.failure == ArrayIndexOutOfBounds
    ensures r.Ok? ==> r.value == arr[..index] + arr[index + 1..]
  {
    Remove(arr, index, index + 1)
  }

  /**
   * insert(array, at, values, begin, end): the array with values[begin..end)
   * inserted before position `at`. `begin` must name an existing element of
   * `values` and `end` may be at most its length.
   */
  function Insert<T>(arr: seq<T>, at: int, values: seq<T>, begin: int, end: int): (r: Result<seq<T>>)
    ensures r.Ok? <==> 0 <= at <= |arr| && 0 <= begin < |values| && begin <= end <= |values|
    ensures r.Err? ==> r.failure in {ArrayIndexOutOfBounds, IllegalArgument}
    ensures r == Err(IllegalArgument) <==>
              0 <= at <= |arr| && 0 <= end < begin < |values|
    ensures r.Ok? ==> |r.value| == |arr| + (end - begin)
    ensures r.Ok? ==> forall i :: 0 <= i < at ==> r.value[i] == arr[i]
    ensures r.Ok? ==> forall i :: begin <= i < end ==> r.value[at + (i - begin)] == values[i]
    ensures r.Ok? ==> forall i :: at <= i < |arr| ==> r.value[i + (end - begin)] == arr[i]
  {
    var indexes := [at, begin, end];
    assert indexes[0] == at && indexes[1] == begin && indexes[2] == end;
    if FirstNegative(indexes).Some? then Err(ArrayIndexOutOfBounds)
    else if at > |arr| || begin > |values| - 1 || end > |values| then Err(ArrayIndexOutOfBounds)
    else if end < begin then Err(IllegalArgument)
    else if begin != end then Ok(arr[..at] + values[begin..end] + arr[at..])
    else Ok(arr)
  }

  /** insert(array, at, value): delegates to the range form with [value] and [0, 1). */
  function InsertOne<T>(arr: seq<T>, at: int, value: T): (r: Result<seq<T>>)
    ensures r.Ok? <==> 0 <= at <= |arr|
    ensures r.Err? ==> r.failure == ArrayIndexOutOfBounds
    ensures r.Ok? ==> r.value == arr[..at] + [value] + arr[at..]
  {
    Insert(arr, at, [value], 0, 1)
  }

  /** An empty range leaves the array as it was, for both operations. */
  lemma EmptyRangeIsIdentity<T>(arr: seq<T>, at: int, values: seq<T>, begin: int)
    ensures Remove(arr, begin, begin).Ok? ==> Remove(arr, begin, begin).value == arr
    ensures Insert(arr, at, values, begin, begin).Ok? ==> Insert(arr, at, values, begin, begin).value == arr
  {
  }

  /**
   * Removing what was just inserted gives the original arr back. The
   * range must be non-empty: an empty insertion at the end of the array is
   * followed by a removal whose `begin` names no element.
   */
  lemma InsertThenRemove<T>(arr: seq<T>, at: int, values: seq<T>, begin: int, end: int)
    requires Insert(arr, at, values, begin, end).Ok?
    requires begin < end
    ensures Remove(Insert(arr, at, values, begin, end).value, at, at + (end - begin)) == Ok(arr)
  {
    var grown := Insert(arr, at, values, begin, end).value;
    var back := Remove(grown, at, at + (end - begin));
    assert back.Ok?;
    assert back.value == arr;
  }

  /** Removing an element and inserting it back at its place gives the array back. */
  lemma RemoveThenInsert<T>(arr: seq<T>, index: int)
    requires 0 <= index < |arr|
    ensures InsertOne(RemoveAt(arr, index).value, index, arr[index]) == Ok(arr)
  {
    var shrunk := RemoveAt(arr, index).value;
    assert shrunk[..index] + [arr[index]] + shrunk[index..] == arr;
  }

  /** Nothing can be removed from an empty arr, nor inserted from an empty one. */
  lemma EmptyArraysAlwaysFail<T>(arr: seq<T>, empty: seq<T>, at: int, begin: int, end: int)
    requires empty == []
    ensures Remove(empty, begin, end).Err?
    ensures Insert(arr, at, empty, begin, end).Err?
  {
  }
}
