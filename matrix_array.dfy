/**
 * The paged sparse array: two fixed tables of 32768 pages each, one for
 * the indices >= 0 and one for the negative ones, with every page of
 * `depth` cells allocated on the first write into it. Index i lives in the
 * table of its sign, on page |i| / depth at position |i| % depth.
 */
module MatrixArrays {
  import opened SparseCommon

  /** Pages per table, `_width`. */
  const Width: int := 32768

  /** The depth a new collection starts with, `_depth`. */
  const DefaultDepth: int := 1024

  /**
   * The largest depth the model admits: with it `depth * Width` still fits
   * an Int32, so `MaxIndex` and `MinIndex` never wrap around.
   */
  const MaxDepth: int := 65535

  /** A cell of a page, the C# tuple `(bool set, TValue data)`. */
  datatype Cell<T> = Cell(written: bool, data: T)

  /** Where an index lives: the table (by sign), the page and the position. */
  datatype Place = Place(positive: bool, page: int, position: int)

  /**
   * The checks and arithmetic the getter, the setter and `IsSet` share:
   * the range check against `±MaxIndex`, the division by the depth, and
   * the page-table access that fails one page past the table.
   */
  function Locate(index: int, depth: int): (r: Result<Place>)
    ensures r.Err? ==> r.error == (if depth == 0 && index == 0 then DivideByZero else IndexOutOfRange)
    ensures r.Ok? ==>
              && 0 < depth && 0 <= r.value.page < Width && 0 <= r.value.position < depth
              && r.value.positive == (0 <= index)
              && Abs(index) == r.value.page * depth + r.value.position
  {
    var maxIndex := depth * Width;
    if index > maxIndex || index < -maxIndex then Err(IndexOutOfRange)
    else if depth == 0 then Err(DivideByZero)
    else
      var page := Abs(index) / depth;
      if page >= Width then Err(IndexOutOfRange)
      else Ok(Place(0 <= index, page, Abs(index) % depth))
  }

  /** Multiplying by a positive `d` keeps the order of its factors. */
  lemma MulCancel(d: int, x: int, y: int)
    requires 0 < d
    ensures d * x < d * y ==> x < y
    ensures d * x <= d * y ==> x <= y
  {
  }

  /** Below `d * w`, a quotient by `d` stays below `w`. */
  lemma DivBelow(a: int, d: int, w: int)
    requires 0 < d && 0 <= a < d * w
    ensures a / d < w
  {
    var q := a / d;
    assert d * q <= a;
    MulCancel(d, q, w);
  }

  /** `d * w` divided by `d` is `w`. */
  lemma DivExact(d: int, w: int)
    requires 0 < d
    ensures (d * w) / d == w
  {
    var q := (d * w) / d;
    assert d * q <= d * w < d * (q + 1);
    MulCancel(d, q, w);
    MulCancel(d, w, q + 1);
  }

  /** An index can be stored exactly when it lies strictly inside ±depth·Width. */
  lemma {:induction false} LocateSucceeds(index: int, depth: int)
    ensures Locate(index, depth).Ok? <==> 0 < depth && Abs(index) < depth * Width
  {
    if 0 < depth {
      if Abs(index) < depth * Width {
        DivBelow(Abs(index), depth, Width);
      } else if Abs(index) == depth * Width {
        DivExact(depth, Width);
      }
    }
  }

  /** Two indices never share a cell. */
  lemma LocateInjective(i: int, j: int, depth: int)
    requires Locate(i, depth).Ok? && Locate(i, depth) == Locate(j, depth)
    ensures i == j
  {
  }

  /** `±MaxIndex` passes the range check but lands one page past the table. */
  lemma MaxIndexFails(depth: int)
    requires 0 < depth
    ensures Locate(depth * Width, depth) == Err(IndexOutOfRange)
    ensures Locate(-depth * Width, depth) == Err(IndexOutOfRange)
  {
    LocateSucceeds(depth * Width, depth);
    LocateSucceeds(-depth * Width, depth);
  }

  /** A run of `n` indices from `from` can all be stored exactly when both ends can. */
  lemma RunLocatable(from: int, n: nat, depth: int)
    ensures (forall k :: from <= k < from + n ==> Locate(k, depth).Ok?) <==>
              n == 0 || (Locate(from, depth).Ok? && Locate(from + n - 1, depth).Ok?)
  {
    if n > 0 && Locate(from, depth).Ok? && Locate(from + n - 1, depth).Ok? {
      LocateSucceeds(from, depth);
      LocateSucceeds(from + n - 1, depth);
      forall k | from <= k < from + n
        ensures Locate(k, depth).Ok?
      {
        LocateSucceeds(k, depth);
      }
    }
  }

  /**
   * How many indices of the run from, ..., from + n - 1 can be stored
   * before the first that cannot: all n, or the offset of that first one.
   */
  function StorablePrefix(from: int, n: nat, depth: int): (r: nat)
    ensures r <= n
    ensures forall k :: from <= k < from + r ==> Locate(k, depth).Ok?
    ensures r < n ==> Locate(from + r, depth).Err?
    decreases n
  {
    if n == 0 || Locate(from, depth).Err? then 0
    else 1 + StorablePrefix(from + 1, n - 1, depth)
  }

  /** The whole run is storable exactly when its storable prefix is all of it. */
  lemma StorablePrefixAll(from: int, n: nat, depth: int)
    ensures StorablePrefix(from, n, depth) == n <==> forall k :: from <= k < from + n ==> Locate(k, depth).Ok?
  {
    var m := StorablePrefix(from, n, depth);
    if m < n {
      assert from <= from + m < from + n && Locate(from + m, depth).Err?;
    }
  }

  /** Within the storable prefix, the next index is storable exactly when the prefix goes past it. */
  lemma StorablePrefixNext(from: int, n: nat, depth: int, j: nat)
    requires j < n && j <= StorablePrefix(from, n, depth)
    ensures Locate(from + j, depth).Ok? <==> j < StorablePrefix(from, n, depth)
  {
  }

  /**
   * The bounds after a run of writes at index, ..., index + n - 1: each
   * write takes the minimum and the maximum.
   */
  function ExtendRun(b: Bounds, index: int, n: nat): (r: Bounds)
    decreases n
  {
    if n == 0 then b else Extend(ExtendRun(b, index, n - 1), index + n - 1)
  }

  lemma {:induction false} ExtendRunSpan(b: Bounds, index: int, n: nat)
    requires 0 < n
    requires b.initialized ==> b.lowest <= b.highest
    ensures var b0 := if b.initialized then b else Bounds(true, index, index);
            ExtendRun(b, index, n) == Bounds(true, Min(b0.lowest, index), Max(b0.highest, index + n - 1))
    decreases n
  {
    if n > 1 {
      ExtendRunSpan(b, index, n - 1);
    }
  }

  /**
   * `CopyTo` as written: its loop runs `index` from `arrayIndex` to
   * `Highest + arrayIndex` and reads `this[Lowest + index - arrayIndex]`,
   * that is the indices Lowest, ..., Lowest + Highest.
   */
  function SourceCopyReads(lowest: int, highest: int): (r: seq<int>)
    ensures |r| == if highest < 0 then 0 else highest + 1
    ensures forall k :: 0 <= k < |r| ==> r[k] == lowest + k
  {
    seq(if highest < 0 then 0 else highest + 1, k => lowest + k)
  }

  /** The indices a copy of the collection reads: Lowest, ..., Highest. */
  function CopyReads(lowest: int, highest: int): (r: seq<int>)
    ensures |r| == if highest < lowest then 0 else highest - lowest + 1
    ensures forall k :: 0 <= k < |r| ==> r[k] == lowest + k
  {
    seq(if highest < lowest then 0 else highest - lowest + 1, k => lowest + k)
  }

  /**
   * The two agree only when `Lowest` is 0. With bounds [-3, 2] the loop
   * copies 3 of the 6 counted indices; with bounds [5, 7] its fourth read
   * is index 8, the first past `Highest`, where the getter throws.
   */
  lemma SourceCopyReadsWrongRange()
    ensures SourceCopyReads(0, 7) == CopyReads(0, 7)
    ensures |SourceCopyReads(-3, 2)| == 3 && |CopyReads(-3, 2)| == Span(Bounds(true, -3, 2)) == 6
    ensures SourceCopyReads(5, 7)[..3] == CopyReads(5, 7) && SourceCopyReads(5, 7)[3] == 8 > 7
  {
  }

  /** The corrected copy reads exactly the `Count` indices from `Lowest` to `Highest`. */
  lemma CopyReadsCount(b: Bounds)
    requires b.initialized && b.lowest <= b.highest
    ensures |CopyReads(b.lowest, b.highest)| == Span(b)
    ensures forall k :: 0 <= k < Span(b) ==> b.lowest <= CopyReads(b.lowest, b.highest)[k] <= b.highest
  {
  }

  /** A page: `depth` cells, allocated on the first write into it. */
  type Page<T> = seq<Cell<T>>

  /** The contents of both page tables; `None` is a page never allocated. */
  datatype Tables<T> = Tables(pos: seq<Option<Page<T>>>, neg: seq<Option<Page<T>>>)

  /** Both tables hold `Width` entries and every allocated page `depth` cells. */
  ghost predicate Shaped<T>(tb: Tables<T>, depth: int)
  {
    && |tb.pos| == Width && |tb.neg| == Width
    && (forall p :: 0 <= p < Width && tb.pos[p].Some? ==> |tb.pos[p].value| == depth)
    && (forall p :: 0 <= p < Width && tb.neg[p].Some? ==> |tb.neg[p].value| == depth)
  }

  /** The page table an index of this sign lives in. */
  function Side<T>(tb: Tables<T>, positive: bool): seq<Option<Page<T>>>
  {
    if positive then tb.pos else tb.neg
  }

  /** The value written at `index`, if its cell is allocated and set. */
  function Read<T>(tb: Tables<T>, depth: int, index: int): Option<T>
  {
    match Locate(index, depth)
    case Err(_) => None
    case Ok(p) =>
      var t := Side(tb, p.positive);
      if p.page < |t| && t[p.page].Some? && p.position < |t[p.page].value| && t[p.page].value[p.position].written
      then Some(t[p.page].value[p.position].data)
      else None
  }

  /** The page after a write at `position`, allocating it first when absent. */
  function PutCell<T>(page: Option<Page<T>>, depth: nat, position: int, v: T, empty: T): (r: Page<T>)
    requires 0 <= position < depth && (page.Some? ==> |page.value| == depth)
    ensures |r| == depth && r[position] == Cell(true, v)
    ensures forall k :: 0 <= k < depth && k != position ==>
              r[k] == if page.Some? then page.value[k] else Cell(false, empty)
  {
    var old_ := if page.Some? then page.value else seq(depth, _ => Cell(false, empty));
    old_[position := Cell(true, v)]
  }

  /** The tables after the setter stores `v` in the cell at `p`. */
  function Put<T>(tb: Tables<T>, depth: int, p: Place, v: T, empty: T): (r: Tables<T>)
    requires Shaped(tb, depth) && 0 < depth && 0 <= p.page < Width && 0 <= p.position < depth
  {
    var t := Side(tb, p.positive);
    var t' := t[p.page := Some(PutCell(t[p.page], depth, p.position, v, empty))];
    if p.positive then tb.(pos := t') else tb.(neg := t')
  }

  /** A write changes the value read at its own index only, and keeps the tables shaped. */
  lemma ReadAfterPut<T>(tb: Tables<T>, depth: int, index: int, v: T, empty: T, i: int)
    requires Shaped(tb, depth) && Locate(index, depth).Ok?
    ensures Shaped(Put(tb, depth, Locate(index, depth).value, v, empty), depth)
    ensures Read(Put(tb, depth, Locate(index, depth).value, v, empty), depth, i)
            == if i == index then Some(v) else Read(tb, depth, i)
  {
    var p := Locate(index, depth).value;
    var r := Put(tb, depth, p, v, empty);
    if Locate(i, depth) == Locate(index, depth) {
      LocateInjective(i, index, depth);
    }
  }

  /** Fresh tables hold no value. */
  lemma ReadEmpty<T>(tb: Tables<T>, depth: int, i: int)
    requires forall p :: 0 <= p < |tb.pos| ==> tb.pos[p].None?
    requires forall p :: 0 <= p < |tb.neg| ==> tb.neg[p].None?
    ensures Read(tb, depth, i) == None
  {
  }

  class MatrixArray<T(==)> {
    /** Cells per page, `_depth`. */
    var depth: int
    var isInitialized: bool
    var lowest: int
    var highest: int
    /** The page tables `_posData` and `_negData`; `None` is an unallocated page. */
    var posData: array<Option<Page<T>>>
    var negData: array<Option<Page<T>>>
    /** C#'s `default(T)`, the data of a cell never written. */
    const empty: T

    /** Every index written since the last reset, with its value. */
    ghost var Contents: map<int, T>

    function Table(positive: bool): array<Option<Page<T>>>
      reads this
    {
      if positive then posData else negData
    }

    function GetBounds(): Bounds
      reads this
    {
      Bounds(isInitialized, lowest, highest)
    }

    ghost function Snapshot(): Tables<T>
      reads this, posData, negData
    {
      Tables(posData[..], negData[..])
    }

    ghost predicate Valid()
      reads this, posData, negData
    {
      && posData != negData
      && -MaxDepth <= depth <= MaxDepth
      && Shaped(Snapshot(), depth)
      && (isInitialized ==> lowest <= highest && lowest in Contents && highest in Contents)
      && (!isInitialized ==> lowest == 0 && highest == 0 && Contents == map[])
      && (forall i :: i in Contents ==> lowest <= i <= highest)
      && (forall i :: Read(Snapshot(), depth, i) == Lookup(Contents, i))
    }

    /** `MaxIndex`: `depth * Width` (1024 · 32768 by default), the first index the positive table cannot hold. */
    function MaxIndex(): (r: int)
      reads this
      ensures 0 < depth ==> Locate(r, depth).Err? && Locate(r - 1, depth).Ok?
    {
      LocateSucceeds(depth * Width, depth);
      LocateSucceeds(depth * Width - 1, depth);
      depth * Width
    }

    /** `MinIndex`: `-MaxIndex`, the first index the negative table cannot hold. */
    function MinIndex(): (r: int)
      reads this
      ensures 0 < depth ==> Locate(r, depth).Err? && Locate(r + 1, depth).Ok?
    {
      LocateSucceeds(-depth * Width, depth);
      LocateSucceeds(-depth * Width + 1, depth);
      -MaxIndex()
    }

    /** `new MatrixArray<T>()`: depth 1024 and two empty page tables. */
    constructor (empty: T)
      ensures Valid() && fresh(posData) && fresh(negData) && this.empty == empty
      ensures depth == DefaultDepth && Contents == map[] && GetBounds() == Unwritten
    {
      this.empty := empty;
      depth := DefaultDepth;
      new;
      Reset();
    }

    /**
     * `new MatrixArray<T>(initialDepth)`: the depth setter runs while the
     * depth is still 1024, so it accepts any new depth, then resets.
     */
    constructor WithDepth(empty: T, initialDepth: int)
      requires -MaxDepth <= initialDepth <= MaxDepth
      ensures Valid() && fresh(posData) && fresh(negData) && this.empty == empty
      ensures depth == initialDepth && Contents == map[] && GetBounds() == Unwritten
    {
      this.empty := empty;
      depth := DefaultDepth;
      new;
      Reset();
      var r := SetArrayDepth(initialDepth);
    }

    /** `new MatrixArray<T>(index, value)`: an empty collection, then one write. */
    static method WithValue(empty: T, index: int, value: T) returns (m: MatrixArray<T>, r: Outcome)
      ensures fresh(m) && fresh(m.posData) && fresh(m.negData) && m.Valid() && m.depth == DefaultDepth
      ensures r == Pass <==> Abs(index) < DefaultDepth * Width
      ensures r == Pass ==> m.Contents == map[index := value] && m.GetBounds() == Bounds(true, index, index)
      ensures r.Fail? ==> r.error == IndexOutOfRange
    {
      m := new MatrixArray(empty);
      r := m.SetItem(index, value);
      LocateSucceeds(index, DefaultDepth);
    }

    /** `new MatrixArray<T>(collection)`: an empty collection, then `AddRange`. */
    static method FromCollection(empty: T, c: seq<T>) returns (m: MatrixArray<T>, r: Outcome)
      ensures fresh(m) && fresh(m.posData) && fresh(m.negData) && m.Valid() && m.depth == DefaultDepth
      ensures r == Pass <==> |c| <= DefaultDepth * Width
      ensures r == Pass ==> m.Contents == Overwrite(map[], 0, c)
      ensures r == Pass && 0 < |c| ==> m.GetBounds() == Bounds(true, 0, |c| - 1)
    {
      m := new MatrixArray(empty);
      r := m.AddRange(c);
      RunLocatable(0, |c|, DefaultDepth);
      LocateSucceeds(|c| - 1, DefaultDepth);
      LocateSucceeds(0, DefaultDepth);
    }

    /**
     * The `ArrayDepth` setter. It checks the depth the collection has, not
     * the one requested, so it fails exactly when the current depth is
     * outside [2, 1024]; otherwise it installs the new depth and resets.
     */
    method SetArrayDepth(value: int) returns (r: Outcome)
      requires Valid() && -MaxDepth <= value <= MaxDepth
      modifies this
      ensures Valid()
      ensures r == if 2 <= old(depth) <= 1024 then Pass else Fail(IndexOutOfRange)
      ensures r == Pass ==> depth == value && Contents == map[] && GetBounds() == Unwritten && fresh(posData) && fresh(negData)
      ensures r.Fail? ==> depth == old(depth) && Contents == old(Contents) && GetBounds() == old(GetBounds())
      ensures r.Fail? ==> posData == old(posData) && negData == old(negData)
    {
      if depth > 1024 {
        return Fail(IndexOutOfRange);
      }
      if depth < 2 {
        return Fail(IndexOutOfRange);
      }
      depth := value;
      Reset();
      r := Pass;
    }

    /** Forgets every value: empty page tables and unwritten bounds. */
    method Reset()
      requires -MaxDepth <= depth <= MaxDepth
      modifies this
      ensures Valid() && fresh(posData) && fresh(negData) && depth == old(depth)
      ensures Contents == map[] && GetBounds() == Unwritten
    {
      isInitialized := false;
      lowest, highest := 0, 0;
      posData := new Option<Page<T>>[Width](_ => None);
      negData := new Option<Page<T>>[Width](_ => None);
      Contents := map[];
      forall i ensures Read(Snapshot(), depth, i) == None {
        ReadEmpty(Snapshot(), depth, i);
      }
    }

    /** `Clear`: a reset. */
    method Clear()
      requires Valid()
      modifies this
      ensures Valid() && fresh(posData) && fresh(negData) && depth == old(depth)
      ensures Contents == map[] && GetBounds() == Unwritten && Count() == 0
      ensures forall i :: Get(i).Err?
    {
      Reset();
    }

    /**
     * The indexer's getter: the value written at `index`, or an exception
     * when the index is out of range or its cell was never written.
     */
    function Get(index: int): (r: Result<T>)
      reads this, posData, negData
      requires Valid()
      ensures r.Ok? <==> index in Contents
      ensures r.Ok? ==> r.value == Contents[index]
      ensures r.Err? ==> r.error == (if depth == 0 && index == 0 then DivideByZero else IndexOutOfRange)
    {
      assert Read(Snapshot(), depth, index) == Lookup(Contents, index);
      match Locate(index, depth)
      case Err(e) => Err(e)
      case Ok(p) =>
        var page := Table(p.positive)[p.page];
        assert page == Side(Snapshot(), p.positive)[p.page];
        if page.None? || !page.value[p.position].written then Err(IndexOutOfRange)
        else Ok(page.value[p.position].data)
    }

    /** `IsSet`: true for a written index; every other index throws. */
    function IsSet(index: int): (r: Result<bool>)
      reads this, posData, negData
      requires Valid()
      ensures r.Ok? <==> index in Contents
      ensures r.Ok? ==> r.value
      ensures r.Err? ==> r.error == (if depth == 0 && index == 0 then DivideByZero else IndexOutOfRange)
    {
      assert Read(Snapshot(), depth, index) == Lookup(Contents, index);
      match Locate(index, depth)
      case Err(e) => Err(e)
      case Ok(p) =>
        var page := Table(p.positive)[p.page];
        assert page == Side(Snapshot(), p.positive)[p.page];
        if page.None? || !page.value[p.position].written then Err(IndexOutOfRange) else Ok(true)
    }

    /**
     * The enumerator's direct read of the cell of `index`: whether its page
     * is allocated and the cell set. For a positive depth its page lies in
     * the table exactly when the indexer's range and page checks pass, so
     * the read fails (and the enumerator swallows the exception) exactly
     * when `Locate` does.
     */
    function CellWritten(index: int): (r: Result<bool>)
      reads this, posData, negData
      requires Valid()
      ensures r.Ok? <==> Locate(index, depth).Ok?
      ensures r == Ok(true) <==> index in Contents
    {
      assert Read(Snapshot(), depth, index) == Lookup(Contents, index);
      match Locate(index, depth)
      case Err(e) => Err(e)
      case Ok(p) =>
        var page := Table(p.positive)[p.page];
        assert page == Side(Snapshot(), p.positive)[p.page];
        Ok(page.Some? && page.value[p.position].written)
    }

    /** `Count`: the number of indices from `Lowest` to `Highest`, 0 before any write. */
    function Count(): (r: int)
      reads this, posData, negData
      requires Valid()
      ensures r == if isInitialized then highest - lowest + 1 else 0
    {
      Span(GetBounds())
    }

    /**
     * The indexer's setter: allocates the index's page if needed, extends
     * the bounds to the index, and marks its cell set with `value`.
     */
    method SetItem(index: int, value: T) returns (r: Outcome)
      requires Valid()
      modifies this, posData, negData
      ensures Valid() && posData == old(posData) && negData == old(negData) && depth == old(depth)
      ensures r == Pass <==> Locate(index, depth).Ok?
      ensures r.Fail? ==> r.error == (if depth == 0 && index == 0 then DivideByZero else IndexOutOfRange)
      ensures r.Fail? ==> Locate(index, depth) == Err(r.error)
      ensures r == Pass ==> Contents == old(Contents)[index := value] && GetBounds() == Extend(old(GetBounds()), index)
      ensures r.Fail? ==> Contents == old(Contents) && GetBounds() == old(GetBounds())
    {
      var loc := Locate(index, depth);
      if loc.Err? {
        return Fail(loc.error);
      }
      var p := loc.value;
      ghost var before := Snapshot();
      ReadAfterPut(before, depth, index, value, empty, index);
      forall i ensures Read(Put(before, depth, p, value, empty), depth, i) == Lookup(Contents[index := value], i) {
        ReadAfterPut(before, depth, index, value, empty, i);
      }
      var table := Table(p.positive);
      table[p.page] := Some(PutCell(table[p.page], depth, p.position, value, empty));
      assert Snapshot() == Put(before, depth, p, value, empty);
      if isInitialized {
        lowest := Min(index, lowest);
        highest := Max(index, highest);
      } else {
        lowest, highest := index, index;
        isInitialized := true;
      }
      Contents := Contents[index := value];
      r := Pass;
    }

    /** `Add`: writes at `Highest + 1`, or at 0 into an empty collection. */
    method Add(item: T) returns (r: Outcome)
      requires Valid()
      modifies this, posData, negData
      ensures Valid() && posData == old(posData) && negData == old(negData) && depth == old(depth)
      ensures var at := if old(isInitialized) then old(highest) + 1 else 0;
              && (r == Pass <==> Locate(at, depth).Ok?)
              && (r == Pass ==> Contents == old(Contents)[at := item] && GetBounds() == Extend(old(GetBounds()), at))
              && (r.Fail? ==> Contents == old(Contents) && GetBounds() == old(GetBounds()))
    {
      r := SetItem(highest + (if isInitialized then 1 else 0), item);
    }

    /**
     * `AddRangeAt` on a list: writes `c[k]` at `index + k` in order and
     * stops at the first index the setter refuses, with that index's error;
     * what was written before it stays written.
     */
    method AddRangeAt(index: int, c: seq<T>) returns (r: Outcome)
      requires Valid()
      modifies this, posData, negData
      ensures Valid() && posData == old(posData) && negData == old(negData) && depth == old(depth)
      ensures r == Pass <==> forall k :: index <= k < index + |c| ==> Locate(k, depth).Ok?
      ensures var n := StorablePrefix(index, |c|, depth);
              && (r == Pass <==> n == |c|)
              && Contents == Overwrite(old(Contents), index, c[..n])
              && GetBounds() == ExtendRun(old(GetBounds()), index, n)
              && (r.Fail? ==> Locate(index + n, depth) == Err(r.error))
    {
      ghost var n := StorablePrefix(index, |c|, depth);
      ghost var C0, b0 := Contents, GetBounds();
      var j := 0;
      while j < |c|
        invariant Valid() && posData == old(posData) && negData == old(negData) && depth == old(depth)
        invariant 0 <= j <= n
        invariant Contents == Overwrite(C0, index, c[..j])
        invariant GetBounds() == ExtendRun(b0, index, j)
      {
        var w := WriteNext(index, c, j, C0, b0);
        if w.Fail? {
          return w;
        }
        j := j + 1;
      }
      assert j == |c| == n && c[..|c|] == c;
      StorablePrefixAll(index, |c|, depth);
      r := Pass;
    }

    /**
     * One turn of `AddRangeAt`'s loop: writes `c[j]` at `index + j`; the
     * run written so far grows by one, or the run stops here with the
     * setter's error and nothing more written.
     */
    method WriteNext(index: int, c: seq<T>, j: nat, ghost C0: map<int, T>, ghost b0: Bounds) returns (w: Outcome)
      requires Valid() && j < |c| && j <= StorablePrefix(index, |c|, depth)
      requires Contents == Overwrite(C0, index, c[..j]) && GetBounds() == ExtendRun(b0, index, j)
      modifies this, posData, negData
      ensures Valid() && posData == old(posData) && negData == old(negData) && depth == old(depth)
      ensures w == Pass ==>
                && j + 1 <= StorablePrefix(index, |c|, depth)
                && Contents == Overwrite(C0, index, c[..j + 1]) && GetBounds() == ExtendRun(b0, index, j + 1)
      ensures w.Fail? ==>
                && j == StorablePrefix(index, |c|, depth)
                && Contents == Overwrite(C0, index, c[..j]) && GetBounds() == ExtendRun(b0, index, j)
                && Locate(index + j, depth) == Err(w.error)
    {
      ghost var C, b := Contents, GetBounds();
      StorablePrefixNext(index, |c|, depth, j);
      w := SetItem(index + j, c[j]);
      if w == Pass {
        OverwriteSnoc(C0, index, c, j);
        assert Contents == C[index + j := c[j]];
        assert ExtendRun(b0, index, j + 1) == Extend(b, index + j);
      }
    }

    /** `AddRange`: `AddRangeAt` from `Highest + 1`, or from 0 into an empty collection. */
    method AddRange(c: seq<T>) returns (r: Outcome)
      requires Valid()
      modifies this, posData, negData
      ensures Valid() && posData == old(posData) && negData == old(negData) && depth == old(depth)
      ensures var from := if old(isInitialized) then old(highest) + 1 else 0;
              && (r == Pass <==> forall k :: from <= k < from + |c| ==> Locate(k, depth).Ok?)
              && (r == Pass ==> Contents == Overwrite(old(Contents), from, c))
              && (r == Pass && 0 < |c| ==>
                    GetBounds() == Bounds(true, if old(isInitialized) then old(lowest) else 0, from + |c| - 1))
      ensures var from := if old(isInitialized) then old(highest) + 1 else 0;
              var n := StorablePrefix(from, |c|, depth);
              && Contents == Overwrite(old(Contents), from, c[..n])
              && GetBounds() == ExtendRun(old(GetBounds()), from, n)
              && (r.Fail? ==> Locate(from + n, depth) == Err(r.error))
    {
      var from := if isInitialized then highest + 1 else 0;
      ghost var b := GetBounds();
      ghost var C := Contents;
      r := AddRangeAt(from, c);
      ghost var n := StorablePrefix(from, |c|, depth);
      assert Contents == Overwrite(C, from, c[..n]) && GetBounds() == ExtendRun(b, from, n);
      if r == Pass && 0 < |c| {
        assert c[..n] == c;
        ExtendRunSpan(b, from, |c|);
      }
    }

    /**
     * `IndexOf`: the first index from `Lowest` to `Highest` whose cell holds
     * `item`, skipping the unwritten ones, or `Int32.MinValue`.
     */
    method IndexOf(item: T) returns (r: int)
      requires Valid()
      ensures r == Int32Min <==> forall i :: i in Contents ==> Contents[i] != item
      ensures r != Int32Min ==> r in Contents && Contents[r] == item
                                && forall i :: i in Contents && i < r ==> Contents[i] != item
    {
      var index := lowest;
      while index <= highest
        invariant lowest <= index <= highest + 1 || (!isInitialized && index == lowest)
        invariant forall i :: i in Contents && i < index ==> Contents[i] != item
        decreases highest - index
      {
        var g := Get(index);
        if g.Ok? && g.value == item {
          assert Abs(index) < depth * Width by { LocateSucceeds(index, depth); }
          return index;
        }
        index := index + 1;
      }
      r := Int32Min;
    }

    /** `Contains`: whether `IndexOf` lands at or above `MinIndex`. */
    method Contains(item: T) returns (r: bool)
      requires Valid()
      ensures r <==> exists i :: i in Contents && Contents[i] == item
    {
      var at := IndexOf(item);
      if at != Int32Min {
        assert Read(Snapshot(), depth, at) == Lookup(Contents, at);
        LocateSucceeds(at, depth);
      }
      assert Int32Min < MinIndex() by {
        assert depth * Width <= MaxDepth * Width;
      }
      r := at >= MinIndex();
    }

    /**
     * `CopyTo` with the loop bound corrected: fails with an argument error
     * when the target has fewer than `Count` places from `arrayIndex`, then
     * copies `Lowest`, ..., `Highest` to `arrayIndex`, ..., in order,
     * stopping at the first unwritten index or a place before the array.
     */
    method CopyTo(target: array<T>, arrayIndex: int) returns (r: Outcome)
      requires Valid() && target != posData && target != negData
      modifies target
      ensures target.Length - arrayIndex < Count() ==> r == Fail(Argument) && target[..] == old(target[..])
      ensures r == Pass <==>
                && Count() <= target.Length - arrayIndex
                && (isInitialized ==> 0 <= arrayIndex && forall i :: lowest <= i <= highest ==> i in Contents)
      ensures r == Pass ==> forall j :: arrayIndex <= j < arrayIndex + Count() ==>
                              lowest + j - arrayIndex in Contents && target[j] == Contents[lowest + j - arrayIndex]
      ensures r == Pass ==> forall k :: 0 <= k < target.Length && !(arrayIndex <= k < arrayIndex + Count()) ==>
                              target[k] == old(target[k])
      // a later failure, at the first unwritten index or place before the
      // array, leaves the values before it copied
      ensures r.Fail? && r != Fail(Argument) ==>
                && r == Fail(IndexOutOfRange)
                && exists n :: 0 <= n < Count() && CopyStopsAt(target, arrayIndex, n, old(target[..]))
    {
      var n := Count();
      if target.Length - arrayIndex < n {
        return Fail(Argument);
      }
      var k := 0;
      while k < n
        invariant 0 <= k <= n
        invariant forall i :: lowest <= i < lowest + k ==> i in Contents
        invariant 0 < k ==> 0 <= arrayIndex
        invariant forall j :: arrayIndex <= j < arrayIndex + k ==>
                    lowest + j - arrayIndex in Contents && target[j] == Contents[lowest + j - arrayIndex]
        invariant forall j :: 0 <= j < target.Length && !(arrayIndex <= j < arrayIndex + k) ==> target[j] == old(target[j])
      {
        var g := Get(lowest + k);
        if g.Err? {
          assert Read(Snapshot(), depth, lowest) == Lookup(Contents, lowest);
          assert CopyStopsAt(target, arrayIndex, k, old(target[..]));
          return Fail(g.error);
        }
        if arrayIndex + k < 0 {
          assert CopyStopsAt(target, arrayIndex, k, old(target[..]));
          return Fail(IndexOutOfRange);
        }
        target[arrayIndex + k] := g.value;
        k := k + 1;
      }
      r := Pass;
    }

    /**
     * The state a copy leaves when it stops at the `n`-th index: the
     * indices before it were written and copied, with nothing else
     * changed, and it is unwritten or its place lies before the array.
     */
    ghost predicate CopyStopsAt(target: array<T>, arrayIndex: int, n: nat, before: seq<T>)
      reads this, target
      requires |before| == target.Length
    {
      && (lowest + n !in Contents || arrayIndex + n < 0)
      && (forall i :: lowest <= i < lowest + n ==> i in Contents)
      && (forall j :: arrayIndex <= j < arrayIndex + n ==>
            0 <= j < target.Length && target[j] == Contents[lowest + j - arrayIndex])
      && (forall j :: 0 <= j < target.Length && !(arrayIndex <= j < arrayIndex + n) ==> target[j] == before[j])
    }

    /** `Insert` is not implemented by the collection. */
    method Insert(index: int, item: T) returns (r: Outcome)
      ensures r == Fail(NotImplemented)
    {
      r := Fail(NotImplemented);
    }

    /** `Remove` is not implemented by the collection. */
    method Remove(item: T) returns (r: Result<bool>)
      ensures r == Err(NotImplemented)
    {
      r := Err(NotImplemented);
    }

    /** `RemoveAt` is not implemented by the collection. */
    method RemoveAt(index: int) returns (r: Outcome)
      ensures r == Fail(NotImplemented)
    {
      r := Fail(NotImplemented);
    }
  }
}
