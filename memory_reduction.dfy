/**
 * The dtype pass of `reduce_mem_usage` (utils.py): every integer column is
 * cast to the first of int8, int16, int32, int64 whose bounds strictly
 * enclose the column's minimum and maximum; every object column becomes a
 * categorical. The pass rewrites the caller's dataframe column by column.
 */
module MemoryReduction {
  import opened Wrappers
  import opened Frames

  datatype IntWidth = Int8 | Int16 | Int32 | Int64

  function Bits(w: IntWidth): nat
  {
    match w
    case Int8 => 8
    case Int16 => 16
    case Int32 => 32
    case Int64 => 64
  }

  /** `np.iinfo(w).min`: the two's-complement minimum. */
  function MinOf(w: IntWidth): int
  {
    match w
    case Int8 => -0x80
    case Int16 => -0x8000
    case Int32 => -0x8000_0000
    case Int64 => -0x8000_0000_0000_0000
  }

  /** `np.iinfo(w).max`: the two's-complement maximum. */
  function MaxOf(w: IntWidth): int
  {
    match w
    case Int8 => 0x7F
    case Int16 => 0x7FFF
    case Int32 => 0x7FFF_FFFF
    case Int64 => 0x7FFF_FFFF_FFFF_FFFF
  }

  /** The order in which the pass tries the widths. */
  function Rank(w: IntWidth): nat
  {
    match w
    case Int8 => 0
    case Int16 => 1
    case Int32 => 2
    case Int64 => 3
  }

  /** The test the pass applies to a width: both bounds strictly inside its range. */
  predicate Fits(w: IntWidth, cMin: int, cMax: int)
  {
    cMin > MinOf(w) && cMax < MaxOf(w)
  }

  /** The width the pass casts to, or None when no width passes and the dtype is left alone. */
  function ChooseWidth(cMin: int, cMax: int): (r: Option<IntWidth>)
    ensures r.Some? <==> exists w :: Fits(w, cMin, cMax)
    ensures r.Some? ==> Fits(r.value, cMin, cMax)
    ensures r.Some? ==> forall w :: Rank(w) < Rank(r.value) ==> !Fits(w, cMin, cMax)
  {
    if Fits(Int8, cMin, cMax) then Some(Int8)
    else if Fits(Int16, cMin, cMax) then Some(Int16)
    else if Fits(Int32, cMin, cMax) then Some(Int32)
    else if Fits(Int64, cMin, cMax) then Some(Int64)
    else None
  }

  /** `Series.min()` of a non-empty integer column. */
  function SeqMin(xs: seq<int>): (m: int)
    requires |xs| > 0
    ensures m in xs && forall k :: 0 <= k < |xs| ==> m <= xs[k]
  {
    if |xs| == 1 then xs[0]
    else var rest := SeqMin(xs[1..]); if xs[0] <= rest then xs[0] else rest
  }

  /** `Series.max()` of a non-empty integer column. */
  function SeqMax(xs: seq<int>): (m: int)
    requires |xs| > 0
    ensures m in xs && forall k :: 0 <= k < |xs| ==> xs[k] <= m
  {
    if |xs| == 1 then xs[0]
    else var rest := SeqMax(xs[1..]); if xs[0] >= rest then xs[0] else rest
  }

  /**
   * The width an integer column is cast to. An empty column has NaN as its
   * minimum and maximum, every comparison with NaN is false, and so no cast happens.
   */
  function ColumnWidth(ints: seq<int>): (r: Option<IntWidth>)
    ensures ints == [] ==> r.None?
    ensures r.Some? ==> forall k :: 0 <= k < |ints| ==> MinOf(r.value) < ints[k] < MaxOf(r.value)
  {
    if ints == [] then None else ChooseWidth(SeqMin(ints), SeqMax(ints))
  }

  /** The exceptions the pass can raise, with the column it was looking at. */
  datatype ReduceError =
    | AttributeError(column: string)  // `data_df[col]` is a dataframe (duplicated name) and has no `.dtype`
    | TypeError(column: string)       // `.min()` of an unordered categorical

  /**
   * What the pass does to one column on its own: integer columns are cast to
   * `ColumnWidth`'s width or left alone, object columns become categoricals,
   * and `.min()` raises on a categorical column.
   */
  function ReduceColumn(col: Column): (r: Result<Column, ReduceError>)
    ensures r.Failure? <==> col.data.CategoryColumn?
    ensures r.Failure? ==> r.error == TypeError(col.name)
    ensures r.Success? ==> r.value.name == col.name && r.value.data.Length() == col.data.Length()
    ensures col.data.IntColumn? ==> r == Success(
      match ColumnWidth(col.data.ints)
      case None => col
      case Some(w) => Column(col.name, IntColumn(true, Bits(w), col.data.ints)))
    ensures col.data.ObjectColumn? ==> r == Success(Column(col.name, CategoryColumn(col.data.cells)))
    ensures col.data.FloatColumn? || col.data.IndicatorColumn? ==> r == Success(col)
  {
    match col.data
    case IntColumn(_, _, ints) =>
      (match ColumnWidth(ints)
       case Some(w) => Success(Column(col.name, IntColumn(true, Bits(w), ints)))
       case None => Success(col))
    case FloatColumn(_, _) => Success(col)
    case ObjectColumn(cells) => Success(Column(col.name, CategoryColumn(cells)))
    case CategoryColumn(_) => Failure(TypeError(col.name))
    case IndicatorColumn(_) => Success(col)
  }

  /** The pass at column `j` of the frame: the name lookup raises first, then the column's own conversion. */
  function Convert(cols: seq<Column>, j: nat): (r: Result<Column, ReduceError>)
    requires j < |cols|
    ensures r.Failure? <==> Duplicated(cols, j) || cols[j].data.CategoryColumn?
    ensures r.Failure? ==> r.error.column == cols[j].name && (r.error.AttributeError? <==> Duplicated(cols, j))
    ensures r.Success? ==> r.value.name == cols[j].name && r.value.data.Length() == cols[j].data.Length()
  {
    if Duplicated(cols, j) then Failure(AttributeError(cols[j].name)) else ReduceColumn(cols[j])
  }

  function FirstFailureFrom(cols: seq<Column>, i: nat): (k: nat)
    requires i <= |cols|
    ensures i <= k <= |cols|
    ensures k < |cols| ==> Convert(cols, k).Failure?
    ensures forall j :: i <= j < k ==> Convert(cols, j).Success?
    decreases |cols| - i
  {
    if i == |cols| || Convert(cols, i).Failure? then i else FirstFailureFrom(cols, i + 1)
  }

  /** The position where the pass raises, or the column count when it runs through. */
  function FirstFailure(cols: seq<Column>): (k: nat)
    ensures k <= |cols|
    ensures k < |cols| ==> Convert(cols, k).Failure?
    ensures forall j :: 0 <= j < k ==> Convert(cols, j).Success?
  {
    FirstFailureFrom(cols, 0)
  }

  /** A dataframe object: `reduce_mem_usage` assigns to its columns in place. */
  class DataFrame {
    var table: Frame

    constructor (t: Frame)
      ensures table == t
    {
      table := t;
    }
  }

  /**
   * The loop of `reduce_mem_usage`. When a lookup or `.min()` raises, the
   * caller's dataframe keeps the casts already made; `err` is the exception.
   */
  method ReduceMemUsage(df: DataFrame) returns (err: Option<ReduceError>)
    modifies df
    ensures df.table.rows == old(df.table.rows)
    ensures |df.table.columns| == |old(df.table.columns)|
    ensures var k := FirstFailure(old(df.table.columns));
      && (err.None? <==> k == |old(df.table.columns)|)
      && (err.Some? ==> Convert(old(df.table.columns), k) == Failure(err.value))
      && (forall j :: 0 <= j < k ==> Success(df.table.columns[j]) == ReduceColumn(old(df.table.columns)[j]))
      && (forall j :: k <= j < |df.table.columns| ==> df.table.columns[j] == old(df.table.columns)[j])
  {
    ghost var before := df.table.columns;
    var i := 0;
    while i < |df.table.columns|
      invariant i <= |df.table.columns| == |before|
      invariant df.table.rows == old(df.table.rows)
      invariant Names(df.table.columns) == Names(before)
      invariant forall j :: 0 <= j < i ==> Convert(before, j).Success?
      invariant forall j :: 0 <= j < i ==> Success(df.table.columns[j]) == ReduceColumn(before[j])
      invariant forall j :: i <= j < |before| ==> df.table.columns[j] == before[j]
    {
      var col := df.table.columns[i];
      assert col == before[i] && Names(before)[i] == col.name;
      if Count(Names(df.table.columns), col.name) > 1 {
        err := Some(AttributeError(col.name));
        FirstFailureAt(before, i);
        return;
      }
      assert Convert(before, i) == ReduceColumn(col);
      match ReduceColumn(col)
      case Failure(e) =>
        err := Some(e);
        FirstFailureAt(before, i);
        return;
      case Success(c) =>
        NamesUpdate(df.table.columns, i, c);
        df.table := df.table.(columns := df.table.columns[i := c]);
      i := i + 1;
    }
    err := None;
    FirstFailureAt(before, |before|);
  }

  /** The pass stops at `i` when every earlier column converts and column `i` does not. */
  lemma FirstFailureAt(cols: seq<Column>, i: nat)
    requires i <= |cols|
    requires forall j :: 0 <= j < i ==> Convert(cols, j).Success?
    requires i < |cols| ==> Convert(cols, i).Failure?
    ensures FirstFailure(cols) == i
  {
  }

  /** With distinct names the pass can only stop at a categorical column. */
  lemma DistinctStopsOnlyAtCategory(cols: seq<Column>)
    requires DistinctNames(cols)
    ensures forall j :: 0 <= j < |cols| ==> Convert(cols, j) == ReduceColumn(cols[j])
  {
    DistinctIffNoDuplicate(cols);
    forall j | 0 <= j < |cols| ensures !Duplicated(cols, j) {
      CountOthers(Names(cols), j);
    }
  }

  /** A duplicated name makes the pass raise, at that column or earlier. */
  lemma DuplicateStops(cols: seq<Column>, j: nat)
    requires j < |cols| && Duplicated(cols, j)
    ensures FirstFailure(cols) <= j
  {
    assert Convert(cols, j).Failure?;
  }

  /** The pass keeps the frame well formed: no cast changes a column's length. */
  lemma ReducePreservesShape(t: Frame)
    requires WellFormed(t)
    requires FirstFailure(t.columns) == |t.columns|
    ensures forall j :: 0 <= j < |t.columns| ==>
      ReduceColumn(t.columns[j]).Success? && ReduceColumn(t.columns[j]).value.data.Length() == t.rows
  {
    forall j | 0 <= j < |t.columns| ensures ReduceColumn(t.columns[j]).Success? {
      assert Convert(t.columns, j).Success?;
    }
  }

  /** Every value is representable in width `w`, which has `bits` bits. */
  predicate InRange(w: IntWidth, bits: nat, ints: seq<int>)
  {
    Bits(w) == bits && forall k :: 0 <= k < |ints| ==> MinOf(w) <= ints[k] <= MaxOf(w)
  }

  /** Narrowing is lossless: a cast column keeps its values, and every value lies in the new width. */
  lemma NarrowingIsLossless(col: Column)
    requires col.data.IntColumn?
    ensures var r := ReduceColumn(col).value;
      && r.data.IntColumn? && r.data.ints == col.data.ints
      && (r != col ==> (exists w :: InRange(w, r.data.bits, r.data.ints)))
  {
    var w := ColumnWidth(col.data.ints);
    if w.Some? {
      assert InRange(w.value, ReduceColumn(col).value.data.bits, col.data.ints);
    }
  }

  /** The chosen width is the narrowest: every narrower width has a value of the column on or outside its bounds. */
  lemma CastIsNarrowest(ints: seq<int>, w: IntWidth)
    requires ColumnWidth(ints) == Some(w)
    ensures forall v :: Rank(v) < Rank(w) ==>
      exists k :: 0 <= k < |ints| && !(MinOf(v) < ints[k] < MaxOf(v))
  {
    var lo, hi := SeqMin(ints), SeqMax(ints);
    forall v | Rank(v) < Rank(w) ensures exists k :: 0 <= k < |ints| && !(MinOf(v) < ints[k] < MaxOf(v)) {
      assert !Fits(v, lo, hi);
      if lo <= MinOf(v) {
        var k :| 0 <= k < |ints| && ints[k] == lo;
      } else {
        var k :| 0 <= k < |ints| && ints[k] == hi;
      }
    }
  }

  /** The bounds are strict: a column reaching -128 or 127 is not narrowed to int8. */
  lemma Int8BoundsAreStrict(ints: seq<int>)
    requires -0x80 in ints || 0x7F in ints
    requires forall k :: 0 <= k < |ints| ==> -0x80 <= ints[k] <= 0x7F
    ensures ColumnWidth(ints) == Some(Int16)
  {
    var lo, hi := SeqMin(ints), SeqMax(ints);
    assert !Fits(Int8, lo, hi);
  }

  /** No width is chosen exactly when the column is empty or touches the int64 limits. */
  lemma {:induction false} NoWidthAtInt64Limits(ints: seq<int>)
    ensures ColumnWidth(ints).None? <==>
      ints == [] || SeqMin(ints) <= MinOf(Int64) || SeqMax(ints) >= MaxOf(Int64)
  {
    if ints != [] {
      var lo, hi := SeqMin(ints), SeqMax(ints);
      if !Fits(Int64, lo, hi) {
        assert ChooseWidth(lo, hi).None?;
      }
    }
  }
}
