/**
 * The enumerator of the paged sparse array: a cursor that starts at the
 * `Int32.MinValue` sentinel, is placed just below `Lowest` by the first
 * move, and then steps upwards through the written indices.
 */
module MatrixArrayEnumerators {
  import opened SparseCommon
  import MatrixArrays

  /**
   * One move as written, from the cursor `c` of an initialized collection
   * whose written indices are `keys`: the cursor steps to `c + 1`; past
   * `Highest` it stops; otherwise only the cell of `c + 1` is looked at, and
   * when that one is unwritten the loop runs the cursor to `Highest + 1`.
   * A cell outside the tables throws, and the exception is swallowed into
   * a successful move.
   */
  function SourceNext(keys: set<int>, highest: int, depth: int, c: int): (r: (int, bool))
    ensures r.1 <==> c + 1 <= highest && (c + 1 in keys || MatrixArrays.Locate(c + 1, depth).Err?)
    ensures r.1 ==> r.0 == c + 1
    ensures !r.1 ==> r.0 == if highest < c + 1 then c + 1 else highest + 1
  {
    var n := c + 1;
    if n > highest then (n, false)
    else if MatrixArrays.Locate(n, depth).Err? then (n, true)
    else if n in keys then (n, true)
    else (highest + 1, false)
  }

  /**
   * One move as intended: the cursor goes to the next written index above
   * `c` up to `Highest`, or to `Highest + 1` (or `c + 1` when already past)
   * when there is none.
   */
  function Next(keys: set<int>, highest: int, c: int): (r: (int, bool))
    ensures c < r.0
    ensures r.1 <==> r.0 <= highest
    ensures r.1 ==> r.0 in keys
    ensures !r.1 ==> r.0 == if highest < c + 1 then c + 1 else highest + 1
    ensures forall i :: c < i < r.0 ==> i !in keys
    decreases highest - c
  {
    var n := c + 1;
    if n > highest then (n, false)
    else if n in keys then (n, true)
    else Next(keys, highest, n)
  }

  /** The indices a fresh cursor at `c` visits by moving until the end, as intended. */
  function Visits(keys: set<int>, highest: int, c: int): (r: seq<int>)
    ensures forall k :: 0 <= k < |r| ==> r[k] in keys && c < r[k] <= highest
    ensures forall k, m :: 0 <= k < m < |r| ==> r[k] < r[m]
    ensures forall i :: i in keys && c < i <= highest ==> i in r
    decreases highest - c
  {
    var n := Next(keys, highest, c);
    if n.1 then [n.0] + Visits(keys, highest, n.0) else []
  }

  /** The indices a cursor at `c` visits by moving until the end, as written. */
  function SourceVisits(keys: set<int>, highest: int, depth: int, c: int): (r: seq<int>)
    ensures forall k :: 0 <= k < |r| ==> r[k] == c + 1 + k && r[k] <= highest
    ensures forall k :: 0 <= k < |r| && MatrixArrays.Locate(r[k], depth).Ok? ==> r[k] in keys
    decreases highest - c
  {
    var n := SourceNext(keys, highest, depth, c);
    if n.1 then [n.0] + SourceVisits(keys, highest, depth, n.0) else []
  }

  /**
   * The two moves agree unless the next index is unwritten; then the
   * written move gives up. With indices 0 and 2 written, a cursor at 0
   * ends the enumeration instead of reaching 2, and a walk from below
   * visits [0] instead of [0, 2].
   */
  lemma SourceNextStopsAtGap()
    ensures SourceNext({0, 2}, 2, MatrixArrays.DefaultDepth, 0) == (3, false)
    ensures Next({0, 2}, 2, 0) == (2, true)
    ensures SourceVisits({0, 2}, 2, MatrixArrays.DefaultDepth, -1) == [0]
    ensures Visits({0, 2}, 2, -1) == [0, 2]
  {
    MatrixArrays.LocateSucceeds(0, MatrixArrays.DefaultDepth);
    MatrixArrays.LocateSucceeds(1, MatrixArrays.DefaultDepth);
    assert Next({0, 2}, 2, 1) == (2, true);
    assert Visits({0, 2}, 2, 2) == [];
    assert SourceVisits({0, 2}, 2, MatrixArrays.DefaultDepth, 0) == [];
  }

  /** Without a gap the move as written is the intended one. */
  lemma {:induction false} SourceNextWithoutGap(keys: set<int>, highest: int, depth: int, c: int)
    requires c + 1 in keys || highest < c + 1
    ensures SourceNext(keys, highest, depth, c) == Next(keys, highest, c)
  {
  }

  /**
   * Over a gap-free run from `c + 1` to `highest`, the walk as written
   * visits the same indices as the intended one.
   */
  lemma {:induction false} SourceVisitsWithoutGaps(keys: set<int>, highest: int, depth: int, c: int)
    requires forall i :: c < i <= highest ==> i in keys
    ensures SourceVisits(keys, highest, depth, c) == Visits(keys, highest, c)
    decreases highest - c
  {
    if c + 1 <= highest {
      SourceVisitsWithoutGaps(keys, highest, depth, c + 1);
    }
  }

  class MatrixArrayEnumerator<T(==)> {
    /** The cursor, `_index`; `Int32.MinValue` before the first move. */
    var index: int
    /** The collection walked, `_array`. */
    const values: MatrixArrays.MatrixArray<T>

    constructor (values: MatrixArrays.MatrixArray<T>)
      ensures this.values == values && index == Int32Min
    {
      this.values := values;
      index := Int32Min;
    }

    /** The value at the cursor, through the collection's indexer. */
    function Current(): (r: Result<T>)
      reads this, values, values.posData, values.negData
      requires values.Valid()
      ensures r.Ok? <==> index in values.Contents
      ensures r.Ok? ==> r.value == values.Contents[index]
    {
      values.Get(index)
    }

    /**
     * `MoveNext` as written: nothing on an empty collection; otherwise the
     * sentinel becomes `Lowest - 1`, the cursor steps once, and an unwritten
     * cell there sends it to `Highest + 1`.
     */
    method MoveNext() returns (r: bool)
      requires values.Valid()
      modifies this
      ensures !values.isInitialized ==> !r && index == old(index)
      ensures values.isInitialized ==>
                var c := if old(index) == Int32Min then values.lowest - 1 else old(index);
                (index, r) == SourceNext(values.Contents.Keys, values.highest, values.depth, c)
      ensures values.isInitialized && old(index) == Int32Min ==> index == values.lowest && r
      ensures values.isInitialized && old(index) != Int32Min && old(index) >= values.highest ==>
                !r && index > values.highest
    {
      if !values.isInitialized {
        return false;
      }
      if index == Int32Min {
        index := values.lowest - 1;
      }
      ghost var c := index;
      index := index + 1;
      if index > values.highest {
        return false;
      }
      var cell := values.CellWritten(index);
      if cell.Err? {
        return true;
      }
      var written := cell.value;
      while index <= values.highest && !written
        invariant written ==> index == c + 1
        invariant !written ==> c < index <= values.highest + 1
        decreases values.highest - index
      {
        index := index + 1;
      }
      r := index <= values.highest;
    }

    /**
     * `MoveNext` re-reading the cell at every step, so that it skips the
     * unwritten indices up to the next written one.
     */
    method MoveNextSkippingGaps() returns (r: bool)
      requires values.Valid()
      modifies this
      ensures !values.isInitialized ==> !r && index == old(index)
      ensures values.isInitialized ==>
                var c := if old(index) == Int32Min then values.lowest - 1 else old(index);
                (index, r) == Next(values.Contents.Keys, values.highest, c)
    {
      if !values.isInitialized {
        return false;
      }
      if index == Int32Min {
        index := values.lowest - 1;
      }
      ghost var c := index;
      index := index + 1;
      while index <= values.highest && !(values.CellWritten(index) == Ok(true))
        invariant c < index <= values.highest + 1 || (values.highest < c + 1 && index == c + 1)
        invariant Next(values.Contents.Keys, values.highest, c) == Next(values.Contents.Keys, values.highest, index - 1)
        decreases values.highest - index
      {
        index := index + 1;
      }
      r := index <= values.highest;
    }

    /** Puts the cursor back on the sentinel. */
    method Reset()
      modifies this
      ensures index == Int32Min
    {
      index := Int32Min;
    }
  }
}
