/**
 * One segment of the linked sparse array: a window
 * [Start, Start + ArraySize) of the integer index space with lazily
 * allocated storage, and Lower/Higher neighbours that are created on the
 * first write that needs them and then kept for good.
 *
 * The chain of segments is modelled as a value: the setter returns the
 * chain as it stands after the write, which the owning list stores back.
 */
module ArrayLinks {
  import opened SparseCommon

  /** Default and minimum size of a segment. */
  const InitialSize: int := 1024

  /** Growth rate of the next segment in the chain (a C# decimal). */
  const GrowthRate: real := 1.25

  /** The size a segment asks for: |size|, raised to at least InitialSize. */
  function Capacity(size: int): (r: int)
    ensures r >= InitialSize && r >= Abs(size)
    ensures r == InitialSize || r == Abs(size)
  {
    if Abs(size) < InitialSize then InitialSize else Abs(size)
  }

  /**
   * Size of a new neighbour: `ArraySize * GrowthRate`, rounded up when it
   * is not whole. The decimal product is exact, so this is ceil(5n/4).
   */
  function NextSize(arraySize: nat): (r: nat)
    ensures 4 * r - 4 < 5 * arraySize <= 4 * r
  {
    var temp := arraySize as real * GrowthRate;
    if temp == temp.Floor as real then temp.Floor else temp.Floor + 1
  }

  lemma {:induction false} NextSizeIsIntegerCeiling(n: nat)
    ensures NextSize(n) == (5 * n + 3) / 4
  {
    var r := NextSize(n);
    assert 4 * r - 4 < 5 * n <= 4 * r;
    assert 5 * n + 3 < 4 * r + 3 + 1;
  }

  /** 1024 grows to 1280, and a segment and its new neighbour span 2304. */
  lemma FirstNeighbourSize()
    ensures NextSize(InitialSize) == 1280
    ensures InitialSize + NextSize(InitialSize) == 2304
  {
    NextSizeIsIntegerCeiling(InitialSize);
  }

  /**
   * The in-window offset as the source computes it:
   * `key < 0 ? |Start| - |key| : |key| - |Start|`.
   */
  function SourceOffset(key: int, start: int): (r: int)
    ensures (0 <= start && 0 <= key) || (start <= 0 && key < 0) ==> r == key - start
    ensures start < 0 <= key ==> r == key + start
    ensures key < 0 < start ==> r == start + key
  {
    if key < 0 then Abs(start) - Abs(key) else Abs(key) - Abs(start)
  }

  /** The offset of `key` in a window starting at `start`, as intended. */
  function Offset(key: int, start: int, size: int): (r: nat)
    requires start <= key < start + size
    ensures r < size && start + r == key
  {
    key - start
  }

  /** For a window that does not straddle 0 the source's formula is the offset. */
  lemma SourceOffsetAgrees(key: int, start: int, size: int)
    requires start <= key < start + size
    requires 0 <= start || start + size <= 0
    ensures SourceOffset(key, start) == Offset(key, start, size)
  {
  }

  /**
   * For a window that straddles 0 it is not: in the window [-10, 1014)
   * the keys -5 and 15 share slot 5, and key 5 gets the offset -5.
   */
  lemma SourceOffsetAliasesAcrossZero()
    ensures SourceOffset(-5, -10) == SourceOffset(15, -10) == 5
    ensures Offset(-5, -10, 1024) != Offset(15, -10, 1024)
    ensures SourceOffset(5, -10) < 0
  {
  }

  /**
   * Bounds after a write at `key` arriving at the segment
   * [start, start + size), as the setter updates them: the first write sets
   * both; a write routed Lower only lowers `Lowest`, one routed Higher only
   * raises `Highest`, and one inside the window does both.
   */
  function WriteBounds(b: Bounds, start: int, size: int, key: int): (r: Bounds)
    requires 0 < size
    ensures r.initialized
    ensures !b.initialized ==> r.lowest == key == r.highest
    ensures b.initialized && key < start + size ==> r.lowest == Min(b.lowest, key)
    ensures b.initialized && start + size <= key ==> r.lowest == b.lowest
    ensures b.initialized && start <= key ==> r.highest == Max(b.highest, key)
    ensures b.initialized && key < start ==> r.highest == b.highest
  {
    var b1 := if b.initialized then b else Bounds(true, key, key);
    if key < start then b1.(lowest := Min(key, b1.lowest))
    else if key >= start + size then b1.(highest := Max(key, b1.highest))
    else Bounds(true, Min(key, b1.lowest), Max(key, b1.highest))
  }

  /** A write inside the window takes the minimum and the maximum. */
  lemma WriteInWindowExtends(b: Bounds, start: int, size: int, key: int)
    requires start <= key < start + size
    ensures WriteBounds(b, start, size, key) == Extend(b, key)
  {
  }

  /**
   * `Lowest` and `Highest` are not the minimum and maximum of the keys
   * written: on a segment at 0, writing -5 and then -3 leaves Highest at
   * -5, below the key -3 just written.
   */
  lemma HighestMissesLaterLowerWrite()
    ensures var b := WriteBounds(WriteBounds(Unwritten, 0, InitialSize, -5), 0, InitialSize, -3);
            b.highest == -5 < -3 && b.lowest == -5 && !Encloses(b, {-5, -3})
  {
  }

  /** Writes at keys that exist: both bounds stay written keys, in order. */
  lemma WriteBoundsStayWritten(b: Bounds, start: int, size: int, key: int, keys: set<int>)
    requires 0 < size
    requires b.initialized ==> b.lowest in keys && b.highest in keys && b.lowest <= b.highest
    ensures var r := WriteBounds(b, start, size, key);
            r.lowest in keys + {key} && r.highest in keys + {key} && r.lowest <= r.highest
  {
  }

  /**
   * A segment of the chain, or the null reference of a neighbour that has
   * not been created. `values` is the lazily allocated storage (`None`
   * while the C# array is null); a slot holds `Some` once it has been
   * written, which is what `IsSet` reads.
   */
  datatype ArrayLink<T> =
    | Null
    | Link(start: int, arraySize: nat, bounds: Bounds,
           values: Option<seq<Option<T>>>,
           lower: ArrayLink<T>, higher: ArrayLink<T>)

  /**
   * The shape every segment reachable from a constructor keeps: storage of
   * the window's size, ordered bounds, nothing below or above an unwritten
   * segment, and neighbours that were written, sit flush against this
   * window and extend the chain in their own direction only.
   */
  ghost predicate Valid<T>(l: ArrayLink<T>)
    decreases l
  {
    l.Link? ==>
      && InitialSize <= l.arraySize
      && (l.values.Some? ==> |l.values.value| == l.arraySize)
      && (l.bounds.initialized ==> l.bounds.lowest <= l.bounds.highest)
      && (!l.bounds.initialized ==>
            l.bounds == Unwritten && l.values.None? && l.lower.Null? && l.higher.Null?)
      && (l.lower.Link? ==>
            && l.lower.start + l.lower.arraySize == l.start
            && l.lower.higher.Null? && l.lower.bounds.initialized && Valid(l.lower))
      && (l.higher.Link? ==>
            && l.higher.start == l.start + l.arraySize
            && l.higher.lower.Null? && l.higher.bounds.initialized && Valid(l.higher))
  }

  /** The first key the chain has a window for. */
  function Lo<T>(l: ArrayLink<T>): (r: int)
    requires l.Link?
    ensures Valid(l) ==> r <= l.start
    decreases l
  {
    if l.lower.Link? then Lo(l.lower) else l.start
  }

  /** One past the last key the chain has a window for. */
  function Hi<T>(l: ArrayLink<T>): (r: int)
    requires l.Link?
    ensures Valid(l) ==> l.start + l.arraySize <= r
    decreases l
  {
    if l.higher.Link? then Hi(l.higher) else l.start + l.arraySize
  }

  /** The slot of `key`, found by the routing both indexer halves use. */
  function Slot<T>(l: ArrayLink<T>, key: int): Option<T>
    decreases l
  {
    match l
    case Null => None
    case Link(start, size, _, values, lower, higher) =>
      if key < start then Slot(lower, key)
      else if start + size <= key then Slot(higher, key)
      else if values.Some? && key - start < |values.value| then values.value[key - start]
      else None
  }

  /** Whether a value has been written at `key` anywhere in the chain. */
  predicate IsSet<T>(l: ArrayLink<T>, key: int)
  {
    Slot(l, key).Some?
  }

  /** Only keys inside the chain's windows can hold a value. */
  lemma {:induction false} SlotInExtent<T>(l: ArrayLink<T>, key: int)
    requires Valid(l) && l.Link?
    ensures IsSet(l, key) ==> Lo(l) <= key < Hi(l)
    decreases l
  {
    if key < l.start {
      assert Slot(l, key) == Slot(l.lower, key);
      if l.lower.Link? {
        SlotInExtent(l.lower, key);
      }
    } else if l.start + l.arraySize <= key {
      assert Slot(l, key) == Slot(l.higher, key);
      if l.higher.Link? {
        SlotInExtent(l.higher, key);
      }
    }
  }

  /**
   * `new ArrayLink<T>(start, size)`: the window [start, start + max(|size|,
   * 1024)), nothing written, no storage and no neighbours.
   */
  function New<T>(start: int, size: int): (r: ArrayLink<T>)
    ensures Valid(r) && r.Link? && r.lower.Null? && r.higher.Null?
    ensures r.start == start && r.arraySize == Capacity(size) && r.bounds == Unwritten
  {
    Link(start, Capacity(size), Unwritten, None, Null, Null)
  }

  /**
   * The indexer's getter. It fails on a root that was never written, and
   * on a key beyond a missing neighbour; a key in a window whose storage
   * is not allocated, or whose slot was never written, reads as `dflt`
   * (C#'s `default(T)`).
   */
  function Get<T>(l: ArrayLink<T>, key: int, dflt: T): (r: Result<T>)
    requires l.Link?
    ensures r.Ok? ==> r.value == ValueOr(Slot(l, key), dflt)
    ensures r.Err? ==> r.error == IndexOutOfRange
    ensures Valid(l) ==>
              (r.Err? <==> (!l.bounds.initialized && l.start == 0) || key < Lo(l) || Hi(l) <= key)
    decreases l
  {
    if !l.bounds.initialized && l.start == 0 then Err(IndexOutOfRange)
    else if l.start + l.arraySize <= key then
      if l.higher.Link? then Get(l.higher, key, dflt) else Err(IndexOutOfRange)
    else if key < l.start then
      if l.lower.Link? then Get(l.lower, key, dflt) else Err(IndexOutOfRange)
    else if l.values.None? then Ok(dflt)
    else if key - l.start < |l.values.value| then Ok(ValueOr(l.values.value[key - l.start], dflt))
    else Err(IndexOutOfRange)
  }

  /**
   * The getter exactly as the source writes it: the in-window slot is
   * found with `SourceOffset`, and an index outside the storage throws.
   */
  function SourceGet<T>(l: ArrayLink<T>, key: int, dflt: T): (r: Result<T>)
    requires l.Link?
    ensures r.Err? ==> r.error == IndexOutOfRange
    decreases l
  {
    if !l.bounds.initialized && l.start == 0 then Err(IndexOutOfRange)
    else if l.start + l.arraySize <= key then
      if l.higher.Link? then SourceGet(l.higher, key, dflt) else Err(IndexOutOfRange)
    else if key < l.start then
      if l.lower.Link? then SourceGet(l.lower, key, dflt) else Err(IndexOutOfRange)
    else if l.values.None? then Ok(dflt)
    else
      var index := SourceOffset(key, l.start);
      if 0 <= index < |l.values.value| then Ok(ValueOr(l.values.value[index], dflt))
      else Err(IndexOutOfRange)
  }

  /** No window of the chain straddles 0. */
  ghost predicate Unstraddled<T>(l: ArrayLink<T>)
    decreases l
  {
    l.Link? ==>
      && (0 <= l.start || l.start + l.arraySize <= 0)
      && Unstraddled(l.lower) && Unstraddled(l.higher)
  }

  /** A chain growing upwards from a window at or above 0 stays above 0. */
  lemma {:induction false} UpwardUnstraddled<T>(l: ArrayLink<T>)
    requires Valid(l) && l.Link? && 0 <= l.start && l.lower.Null?
    ensures Unstraddled(l)
    decreases l
  {
    if l.higher.Link? {
      UpwardUnstraddled(l.higher);
    }
  }

  /** A chain growing downwards from a window ending at or below 0 stays below 0. */
  lemma {:induction false} DownwardUnstraddled<T>(l: ArrayLink<T>)
    requires Valid(l) && l.Link? && l.start + l.arraySize <= 0 && l.higher.Null?
    ensures Unstraddled(l)
    decreases l
  {
    if l.lower.Link? {
      DownwardUnstraddled(l.lower);
    }
  }

  /**
   * In a chain rooted at 0 no window straddles 0: its Lower neighbours
   * all end at or below 0 and its Higher neighbours all start at or above.
   */
  lemma ZeroRootedUnstraddled<T>(l: ArrayLink<T>)
    requires Valid(l) && l.Link? && l.start == 0
    ensures Unstraddled(l)
  {
    if l.lower.Link? {
      DownwardUnstraddled(l.lower);
    }
    if l.higher.Link? {
      UpwardUnstraddled(l.higher);
    }
  }

  /** On a chain without a straddling window the source's getter is `Get`. */
  lemma {:induction false} SourceGetAgrees<T>(l: ArrayLink<T>, key: int, dflt: T)
    requires Valid(l) && l.Link? && Unstraddled(l)
    ensures SourceGet(l, key, dflt) == Get(l, key, dflt)
    decreases l
  {
    if !l.bounds.initialized && l.start == 0 {
    } else if l.start + l.arraySize <= key {
      if l.higher.Link? {
        SourceGetAgrees(l.higher, key, dflt);
      }
    } else if key < l.start {
      if l.lower.Link? {
        SourceGetAgrees(l.lower, key, dflt);
      }
    } else {
      SourceOffsetAgrees(key, l.start, l.arraySize);
    }
  }

  /**
   * On a standalone window [-10, 1014) it is not: after a write at -5 the
   * source reads that value back at 15 as well.
   */
  lemma SourceGetAliasesAcrossZero<T>(v: T, dflt: T)
    requires v != dflt
    ensures var l := Set(New<T>(-10, InitialSize), -5, v);
            SourceGet(l, 15, dflt) == Ok(v) && Get(l, 15, dflt) == Ok(dflt)
  {
    var l := Set(New<T>(-10, InitialSize), -5, v);
    assert l.values.value[5] == Some(v);
    assert l.values.value[25] == None;
  }

  /** How far `key` lies outside the window [start, start + size). */
  function Distance(start: int, size: int, key: int): nat
  {
    if key < start then start - key
    else if start + size <= key then key - start - size + 1
    else 0
  }

  /**
   * The storage after writing `v` at `offset`: allocated first (every
   * slot empty) if it was not yet, then that one slot filled.
   */
  function Store<T>(values: Option<seq<Option<T>>>, size: nat, offset: nat, v: T): (r: seq<Option<T>>)
    requires offset < size
    requires values.Some? ==> |values.value| == size
    ensures |r| == size
    ensures forall i :: 0 <= i < size ==>
              r[i] == if i == offset then Some(v) else if values.Some? then values.value[i] else None
  {
    var slots := if values.Some? then values.value else seq(size, _ => None);
    slots[offset := Some(v)]
  }

  /**
   * The indexer's setter. The first write initialises both bounds; a key
   * below the window creates the Lower neighbour if it is missing (flush
   * against this window, `NextSize` slots), lowers `Lowest` and is written
   * there; a key above does the same with Higher and `Highest`; a key in
   * the window allocates the storage if needed and fills its slot.
   */
  function Set<T>(l: ArrayLink<T>, key: int, v: T): (r: ArrayLink<T>)
    requires Valid(l) && l.Link?
    ensures Valid(r) && r.Link?
    ensures r.start == l.start && r.arraySize == l.arraySize
    ensures r.bounds == WriteBounds(l.bounds, l.start, l.arraySize, key)
    // neighbours are created only on the side the key is on, and never replaced
    ensures l.start <= key ==> r.lower == l.lower
    ensures key < l.start + l.arraySize ==> r.higher == l.higher
    ensures l.lower.Link? ==>
              r.lower.Link? && r.lower.start == l.lower.start && r.lower.arraySize == l.lower.arraySize
    ensures l.higher.Link? ==>
              r.higher.Link? && r.higher.start == l.higher.start && r.higher.arraySize == l.higher.arraySize
    // a missing neighbour is created flush against the window, with NextSize slots
    ensures key < l.start && l.lower.Null? ==>
              && r.lower.Link?
              && r.lower.start == l.start - NextSize(l.arraySize)
              && r.lower.arraySize == NextSize(l.arraySize)
    ensures l.start + l.arraySize <= key && l.higher.Null? ==>
              && r.higher.Link?
              && r.higher.start == l.start + l.arraySize
              && r.higher.arraySize == NextSize(l.arraySize)
    decreases Distance(l.start, l.arraySize, key)
  {
    var b := WriteBounds(l.bounds, l.start, l.arraySize, key);
    if key < l.start then
      var lower :=
        if l.lower.Link? then l.lower
        else New(l.start - NextSize(l.arraySize), NextSize(l.arraySize));
      l.(bounds := b, lower := Set(lower, key, v))
    else if l.start + l.arraySize <= key then
      var higher :=
        if l.higher.Link? then l.higher
        else New(l.start + l.arraySize, NextSize(l.arraySize));
      l.(bounds := b, higher := Set(higher, key, v))
    else
      l.(bounds := b, values := Some(Store(l.values, l.arraySize, Offset(key, l.start, l.arraySize), v)))
  }

  /** A new segment holds nothing. */
  lemma NewIsEmpty<T>(start: int, size: int, key: int)
    ensures !IsSet(New<T>(start, size), key)
  {
    var l := New<T>(start, size);
    assert key < l.start ==> Slot(l, key) == Slot(l.lower, key);
    assert l.start + l.arraySize <= key ==> Slot(l, key) == Slot(l.higher, key);
  }

  /**
   * Writing `v` at `key` makes `key` hold `v`, whichever segment owns it,
   * and leaves the slot of every other key as it was.
   */
  lemma {:induction false} SetSlot<T>(l: ArrayLink<T>, key: int, v: T, j: int)
    requires Valid(l) && l.Link?
    ensures Slot(Set(l, key, v), j) == if j == key then Some(v) else Slot(l, j)
    decreases Distance(l.start, l.arraySize, key), 1
  {
    if key < l.start {
      SetSlotBelow(l, key, v, j);
    } else if l.start + l.arraySize <= key {
      SetSlotAbove(l, key, v, j);
    } else if l.start <= j < l.start + l.arraySize {
      var r := Set(l, key, v);
      assert r.values.value[j - l.start] == if j == key then Some(v) else Slot(l, j);
    }
  }

  /** `SetSlot` for a key routed to the Lower neighbour. */
  lemma {:induction false} SetSlotBelow<T>(l: ArrayLink<T>, key: int, v: T, j: int)
    requires Valid(l) && l.Link? && key < l.start
    ensures Slot(Set(l, key, v), j) == if j == key then Some(v) else Slot(l, j)
    decreases Distance(l.start, l.arraySize, key), 0
  {
    var lower :=
      if l.lower.Link? then l.lower
      else New(l.start - NextSize(l.arraySize), NextSize(l.arraySize));
    assert Set(l, key, v) == l.(bounds := Set(l, key, v).bounds, lower := Set(lower, key, v));
    if j < l.start {
      SetSlot(lower, key, v, j);
      if l.lower.Null? {
        NewIsEmpty<T>(lower.start, NextSize(l.arraySize), j);
      }
    }
  }

  /** `SetSlot` for a key routed to the Higher neighbour. */
  lemma {:induction false} SetSlotAbove<T>(l: ArrayLink<T>, key: int, v: T, j: int)
    requires Valid(l) && l.Link? && l.start + l.arraySize <= key
    ensures Slot(Set(l, key, v), j) == if j == key then Some(v) else Slot(l, j)
    decreases Distance(l.start, l.arraySize, key), 0
  {
    var higher :=
      if l.higher.Link? then l.higher
      else New(l.start + l.arraySize, NextSize(l.arraySize));
    assert Set(l, key, v) == l.(bounds := Set(l, key, v).bounds, higher := Set(higher, key, v));
    if l.start + l.arraySize <= j {
      SetSlot(higher, key, v, j);
      if l.higher.Null? {
        NewIsEmpty<T>(higher.start, NextSize(l.arraySize), j);
      }
    }
  }

  /**
   * After a write the chain has a window for the key; it grows downwards
   * only when the key lay below it ...
   */
  lemma {:induction false} SetLo<T>(l: ArrayLink<T>, key: int, v: T)
    requires Valid(l) && l.Link?
    ensures var r := Set(l, key, v);
            Lo(r) <= key && Lo(r) <= Lo(l) && (Lo(l) <= key ==> Lo(r) == Lo(l))
    decreases Distance(l.start, l.arraySize, key)
  {
    if key < l.start {
      var lower :=
        if l.lower.Link? then l.lower
        else New(l.start - NextSize(l.arraySize), NextSize(l.arraySize));
      assert Set(l, key, v).lower == Set(lower, key, v);
      SetLo(lower, key, v);
    }
  }

  /** ... and upwards only when it lay above it. */
  lemma {:induction false} SetHi<T>(l: ArrayLink<T>, key: int, v: T)
    requires Valid(l) && l.Link?
    ensures var r := Set(l, key, v);
            key < Hi(r) && Hi(l) <= Hi(r) && (key < Hi(l) ==> Hi(r) == Hi(l))
    decreases Distance(l.start, l.arraySize, key)
  {
    if l.start + l.arraySize <= key {
      var higher :=
        if l.higher.Link? then l.higher
        else New(l.start + l.arraySize, NextSize(l.arraySize));
      assert Set(l, key, v).higher == Set(higher, key, v);
      SetHi(higher, key, v);
    }
  }

  /**
   * Write-then-read: the key just written reads back as `v`, and every
   * key that could be read before reads the same afterwards.
   */
  lemma WriteThenRead<T>(l: ArrayLink<T>, key: int, v: T, j: int, dflt: T)
    requires Valid(l) && l.Link?
    ensures Get(Set(l, key, v), key, dflt) == Ok(v)
    ensures j != key && Get(l, j, dflt).Ok? ==> Get(Set(l, key, v), j, dflt) == Get(l, j, dflt)
  {
    SetSlot(l, key, v, key);
    SetSlot(l, key, v, j);
    SetLo(l, key, v);
    SetHi(l, key, v);
  }

  /** `Lowest` and `Highest` of a written chain are keys that hold a value. */
  ghost predicate BoundsWritten<T>(l: ArrayLink<T>)
  {
    l.Link? && l.bounds.initialized ==> IsSet(l, l.bounds.lowest) && IsSet(l, l.bounds.highest)
  }

  lemma SetKeepsBoundsWritten<T>(l: ArrayLink<T>, key: int, v: T)
    requires Valid(l) && l.Link? && BoundsWritten(l)
    ensures BoundsWritten(Set(l, key, v))
  {
    var r := Set(l, key, v);
    SetSlot(l, key, v, r.bounds.lowest);
    SetSlot(l, key, v, r.bounds.highest);
  }

  /**
   * On a fresh 1024-slot segment at 0, a write at 1024 creates a Higher
   * neighbour [1024, 2304) of 1280 slots, and a write at -1 a Lower
   * neighbour [-1280, 0).
   */
  lemma FirstNeighbours<T>(v: T)
    ensures var r := Set(New<T>(0, 1), 1024, v);
            r.higher.Link? && r.higher.start == 1024 && r.higher.arraySize == 1280 && Hi(r) == 2304
    ensures var r := Set(New<T>(0, 1), -1, v);
            r.lower.Link? && r.lower.start == -1280 && r.lower.arraySize == 1280 && Lo(r) == -1280
  {
    FirstNeighbourSize();
  }
}
