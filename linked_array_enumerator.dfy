/**
 * The enumerator of the linked sparse array: a cursor that starts just
 * below `Lowest` and moves to the next index holding a written value, up
 * to `Highest`.
 */
module LinkedArrayEnumerators {
  import opened SparseCommon
  import LinkedArrays
  import ArrayLinks

  class LinkedArrayEnumerator<T(==)> {
    /** The cursor, `_index`. */
    var index: int
    /** The collection walked, `_values`. */
    const values: LinkedArrays.LinkedArray<T>

    /** Places the cursor just below `Lowest`. */
    constructor (values: LinkedArrays.LinkedArray<T>)
      requires values.Valid()
      ensures this.values == values && index == values.Lowest() - 1
    {
      this.values := values;
      index := values.Lowest() - 1;
    }

    /**
     * The value at the cursor, read through the collection's indexer; the
     * `Int32.MinValue` sentinel reads as `default(T)`.
     */
    function Current(): (r: Result<T>)
      reads this, values
      requires values.Valid()
      ensures index == Int32Min ==> r == Ok(values.empty)
      ensures index != Int32Min && values.IsSet(index) ==> r == Ok(values.Contents[index])
      ensures index != Int32Min && !values.Initialized() ==> r == Err(IndexOutOfRange)
      ensures r.Ok? && index != Int32Min ==> r.value == values.At(index)
      // any other cursor fails exactly where the list's getter does
      ensures index != Int32Min ==> r == values.Get(index)
      ensures index != Int32Min ==>
                (r.Err? <==> !values.Initialized() || index < ArrayLinks.Lo(values.root) || ArrayLinks.Hi(values.root) <= index)
    {
      if index != Int32Min then values.Get(index) else Ok(values.empty)
    }

    /**
     * Moves the cursor to the next index up to `Highest + 1` that holds a
     * written value (or to `Highest + 1`) and reports whether it stopped
     * at or below `Highest`. A cursor already above `Highest` stays put and
     * the answer is whether it is not exactly `Highest + 1`.
     */
    method MoveNext() returns (r: bool)
      requires values.Valid()
      modifies this
      ensures var h := values.Highest();
              if old(index) <= h then
                && old(index) < index <= h + 1
                && (forall j :: old(index) < j < index ==> !values.IsSet(j))
                && (index <= h ==> values.IsSet(index))
                && r == (index <= h)
              else
                index == old(index) && r == (index != h + 1)
      ensures !r && old(index) <= values.Highest() + 1 ==> index == values.Highest() + 1
      ensures values.Initialized() && old(index) == values.Lowest() - 1 ==> index == values.Lowest() && r
    {
      assert values.Initialized() ==> values.IsSet(values.Lowest());
      while index <= values.Highest()
        invariant old(index) <= values.Highest() ==>
                    old(index) <= index <= values.Highest() + 1
        invariant old(index) > values.Highest() ==> index == old(index)
        invariant forall j :: old(index) < j <= index ==> !values.IsSet(j)
        decreases values.Highest() - index
      {
        index := index + 1;
        if values.IsSet(index) {
          break;
        }
      }
      assert values.Initialized() ==> values.IsSet(values.Lowest());
      r := index != values.Highest() + 1;
    }

    /** Puts the cursor back just below the collection's current `Lowest`. */
    method Reset()
      requires values.Valid()
      modifies this
      ensures index == values.Lowest() - 1
    {
      index := values.Lowest() - 1;
    }
  }
}
