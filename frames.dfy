/**
 * The dataframe as the pipeline sees it: an ordered list of named, typed
 * columns of one common length. Column values are kept only as far as the
 * pipeline looks at them: integers (for the dtype narrowing), strings with
 * missing entries (for the categorical explosion) and indicator flags.
 */
module Frames {
  import opened Wrappers

  /** A column's dtype together with its values. */
  datatype ColumnData =
    | IntColumn(signed: bool, bits: nat, ints: seq<int>)     // int8 .. int64, uint8 .. uint64
    | FloatColumn(bits: nat, reals: seq<real>)               // float16 .. float64
    | ObjectColumn(cells: seq<Option<string>>)               // dtype "O"; None is NaN
    | CategoryColumn(cells: seq<Option<string>>)             // an unordered categorical
    | IndicatorColumn(flags: seq<bool>)                      // a dummy column of get_dummies
  {
    function Length(): nat
    {
      match this
      case IntColumn(_, _, ints) => |ints|
      case FloatColumn(_, reals) => |reals|
      case ObjectColumn(cells) => |cells|
      case CategoryColumn(cells) => |cells|
      case IndicatorColumn(flags) => |flags|
    }
  }

  datatype Column = Column(name: string, data: ColumnData)

  /** A dataframe: its row count (kept even when no column is left) and its columns in order. */
  datatype Frame = Frame(rows: nat, columns: seq<Column>)

  /** Every column has exactly one value per row. */
  predicate WellFormed(f: Frame)
  {
    forall i :: 0 <= i < |f.columns| ==> f.columns[i].data.Length() == f.rows
  }

  function Names(cols: seq<Column>): (names: seq<string>)
    ensures |names| == |cols|
    ensures forall i :: 0 <= i < |cols| ==> names[i] == cols[i].name
  {
    if cols == [] then [] else [cols[0].name] + Names(cols[1..])
  }

  /** No column name occurs twice (what pandas' read_csv guarantees by renaming duplicates). */
  predicate DistinctNames(cols: seq<Column>)
  {
    forall i, j :: 0 <= i < j < |cols| ==> cols[i].name != cols[j].name
  }

  /** How often `n` occurs among `names`. */
  function Count(names: seq<string>, n: string): (c: nat)
    ensures c == 0 <==> n !in names
  {
    if names == [] then 0
    else
      assert n in names <==> names[0] == n || n in names[1..];
      (if names[0] == n then 1 else 0) + Count(names[1..], n)
  }

  /** A name occurs more than once exactly when another position carries it too. */
  lemma {:induction false} CountOthers(names: seq<string>, i: nat)
    requires i < |names|
    ensures Count(names, names[i]) > 1 <==> exists j :: 0 <= j < |names| && j != i && names[j] == names[i]
  {
    var n, tail := names[i], names[1..];
    if i == 0 {
      if n in tail {
        var j :| 0 <= j < |tail| && tail[j] == n;
        assert names[j + 1] == n;
      } else {
        forall j | 0 < j < |names| ensures names[j] != n {
          assert names[j] == tail[j - 1];
        }
      }
    } else {
      CountOthers(tail, i - 1);
      assert tail[i - 1] == n;
      if names[0] != n {
        if exists j :: 0 <= j < |names| && j != i && names[j] == n {
          var j :| 0 <= j < |names| && j != i && names[j] == n;
          assert tail[j - 1] == n;
        }
        if exists j :: 0 <= j < |tail| && j != i - 1 && tail[j] == n {
          var j :| 0 <= j < |tail| && j != i - 1 && tail[j] == n;
          assert names[j + 1] == n;
        }
      }
    }
  }

  /**
   * The name of column `j` occurs more than once, so `df[name]` is a
   * dataframe and asking it for `.dtype` raises AttributeError.
   */
  predicate Duplicated(cols: seq<Column>, j: nat)
    requires j < |cols|
  {
    Count(Names(cols), cols[j].name) > 1
  }

  function FirstDuplicateFrom(cols: seq<Column>, i: nat): (k: nat)
    requires i <= |cols|
    ensures i <= k <= |cols|
    ensures k < |cols| ==> Duplicated(cols, k)
    ensures forall j :: i <= j < k ==> !Duplicated(cols, j)
    decreases |cols| - i
  {
    if i == |cols| || Duplicated(cols, i) then i else FirstDuplicateFrom(cols, i + 1)
  }

  /** The position of the first column whose name is duplicated, or the column count when there is none. */
  function FirstDuplicate(cols: seq<Column>): (k: nat)
    ensures k <= |cols|
    ensures k < |cols| ==> Duplicated(cols, k)
    ensures forall j :: 0 <= j < k ==> !Duplicated(cols, j)
  {
    FirstDuplicateFrom(cols, 0)
  }

  /** The first duplicated name is at `i` when no earlier name is duplicated and the one at `i` is. */
  lemma FirstDuplicateAt(cols: seq<Column>, i: nat)
    requires i <= |cols|
    requires forall j :: 0 <= j < i ==> !Duplicated(cols, j)
    requires i < |cols| ==> Duplicated(cols, i)
    ensures FirstDuplicate(cols) == i
  {
  }

  /** The names are distinct exactly when no column's name is duplicated. */
  lemma DistinctIffNoDuplicate(cols: seq<Column>)
    ensures DistinctNames(cols) <==> FirstDuplicate(cols) == |cols|
  {
    var names := Names(cols);
    if DistinctNames(cols) {
      forall j | 0 <= j < |cols| ensures !Duplicated(cols, j) {
        CountOthers(names, j);
      }
    } else {
      var i, j :| 0 <= i < j < |cols| && cols[i].name == cols[j].name;
      CountOthers(names, i);
      assert names[j] == names[i];
      assert Duplicated(cols, i);
    }
  }

  /** Replacing a column by one of the same name keeps the names. */
  lemma NamesUpdate(cols: seq<Column>, i: nat, c: Column)
    requires i < |cols| && c.name == cols[i].name
    ensures Names(cols[i := c]) == Names(cols)
  {
    var a, b := Names(cols[i := c]), Names(cols);
    forall k | 0 <= k < |a| ensures a[k] == b[k] {
      if k != i {
        assert cols[i := c][k] == cols[k];
      }
    }
  }

  /** `df.drop(name, axis=1)` when `name` is present: every column with that name goes. */
  function Without(cols: seq<Column>, name: string): (r: seq<Column>)
    ensures |r| <= |cols|
    ensures forall col :: col in r <==> col in cols && col.name != name
  {
    if cols == [] then []
    else (if cols[0].name == name then [] else [cols[0]]) + Without(cols[1..], name)
  }

  /** `df[[name]]`: every column with that name, in order. */
  function Named(cols: seq<Column>, name: string): (r: seq<Column>)
    ensures forall col :: col in r <==> col in cols && col.name == name
  {
    if cols == [] then []
    else (if cols[0].name == name then [cols[0]] else []) + Named(cols[1..], name)
  }

  /** The first column called `name`, as `df[name]` finds it when names are distinct. */
  function FirstNamed(cols: seq<Column>, name: string): (r: Option<Column>)
    ensures r.None? <==> name !in Names(cols)
    ensures r.Some? ==> r.value in cols && r.value.name == name
  {
    if cols == [] then None
    else
      assert Names(cols) == [cols[0].name] + Names(cols[1..]);
      if cols[0].name == name then Some(cols[0])
      else FirstNamed(cols[1..], name)
  }

  lemma {:induction false} WithoutAppend(a: seq<Column>, b: seq<Column>, name: string)
    ensures Without(a + b, name) == Without(a, name) + Without(b, name)
  {
    if a == [] {
      assert a + b == b;
    } else {
      assert (a + b)[1..] == a[1..] + b;
      WithoutAppend(a[1..], b, name);
    }
  }

  lemma {:induction false} FirstNamedAppend(a: seq<Column>, b: seq<Column>, name: string)
    requires name in Names(a)
    ensures FirstNamed(a + b, name) == FirstNamed(a, name)
  {
    assert a != [];
    if a[0].name != name {
      assert Names(a) == [a[0].name] + Names(a[1..]);
      assert (a + b)[1..] == a[1..] + b;
      FirstNamedAppend(a[1..], b, name);
    }
  }

  /** With distinct names, the column `df[name]` finds is the only one of that name. */
  lemma FirstNamedDistinct(cols: seq<Column>, i: nat)
    requires DistinctNames(cols) && i < |cols|
    ensures FirstNamed(cols, cols[i].name) == Some(cols[i])
  {
    assert Names(cols)[i] == cols[i].name;
    var r := FirstNamed(cols, cols[i].name);
    var j :| 0 <= j < |cols| && cols[j] == r.value;
  }
}
