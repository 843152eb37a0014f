/**
 * `explode_categoricals` (utils.py): every object (string) column is
 * replaced by the indicator columns `pd.get_dummies` makes for it, appended
 * after the columns already present; with `keep_na` a NaN indicator comes last.
 */
module Categoricals {
  import opened Wrappers
  import opened Frames

  /** Python's `<` on strings: code point by code point, a proper prefix first. */
  predicate LexLess(a: string, b: string)
    decreases |a|
  {
    if |b| == 0 then false
    else if |a| == 0 then true
    else if a[0] != b[0] then a[0] < b[0]
    else LexLess(a[1..], b[1..])
  }

  lemma {:induction false} LexIrreflexive(a: string)
    ensures !LexLess(a, a)
  {
    if |a| > 0 {
      LexIrreflexive(a[1..]);
    }
  }

  lemma {:induction false} LexTotal(a: string, b: string)
    ensures a == b || LexLess(a, b) || LexLess(b, a)
    decreases |a|
  {
    if |a| > 0 && |b| > 0 && a[0] == b[0] {
      LexTotal(a[1..], b[1..]);
      if a[1..] == b[1..] {
        assert a == [a[0]] + a[1..] && b == [b[0]] + b[1..];
      }
    }
  }

  lemma {:induction false} LexTransitive(a: string, b: string, c: string)
    requires LexLess(a, b) && LexLess(b, c)
    ensures LexLess(a, c)
    decreases |a|
  {
    if |a| > 0 && a[0] == b[0] && b[0] == c[0] {
      LexTransitive(a[1..], b[1..], c[1..]);
    }
  }

  /** Strictly increasing, hence without repeats. */
  predicate Sorted(xs: seq<string>)
  {
    forall i, j :: 0 <= i < j < |xs| ==> LexLess(xs[i], xs[j])
  }

  /** Adds `x` to an ordered list of levels unless it is already there. */
  function Insert(x: string, xs: seq<string>): (r: seq<string>)
    ensures forall y :: y in r <==> y == x || y in xs
  {
    if xs == [] then [x]
    else if x == xs[0] then xs
    else if LexLess(x, xs[0]) then [x] + xs
    else [xs[0]] + Insert(x, xs[1..])
  }

  lemma {:induction false} InsertSorted(x: string, xs: seq<string>)
    requires Sorted(xs)
    ensures Sorted(Insert(x, xs))
  {
    if xs != [] && x != xs[0] {
      if LexLess(x, xs[0]) {
        forall j | 0 <= j < |xs| ensures LexLess(x, xs[j]) {
          if j > 0 { LexTransitive(x, xs[0], xs[j]); }
        }
      } else {
        LexTotal(x, xs[0]);
        InsertSorted(x, xs[1..]);
        var r := Insert(x, xs[1..]);
        forall j | 0 <= j < |r| ensures LexLess(xs[0], r[j]) {
          assert r[j] in r;
          if r[j] != x {
            var k :| 0 <= k < |xs[1..]| && xs[1..][k] == r[j];
            assert xs[k + 1] == r[j];
          }
        }
      }
    }
  }

  /** The categories `get_dummies` finds in a column: its distinct non-missing values. */
  function Levels(cells: seq<Option<string>>): (levels: seq<string>)
    ensures forall l :: l in levels <==> Some(l) in cells
  {
    if cells == [] then []
    else
      var rest := Levels(cells[1..]);
      assert forall l :: Some(l) in cells <==> cells[0] == Some(l) || Some(l) in cells[1..];
      match cells[0]
      case None => rest
      case Some(v) => Insert(v, rest)
  }

  /** The categories are listed in sorted order, each once. */
  lemma {:induction false} LevelsSorted(cells: seq<Option<string>>)
    ensures Sorted(Levels(cells))
  {
    if cells != [] {
      LevelsSorted(cells[1..]);
      if cells[0].Some? {
        InsertSorted(cells[0].value, Levels(cells[1..]));
      }
    }
  }

  /** The indicator of one category: true in the rows holding that value. */
  function Indicator(cells: seq<Option<string>>, level: string): (flags: seq<bool>)
    ensures |flags| == |cells|
  {
    seq(|cells|, i requires 0 <= i < |cells| => cells[i] == Some(level))
  }

  /** The NaN indicator `dummy_na` adds: true in the rows holding a missing value. */
  function NaIndicator(cells: seq<Option<string>>): (flags: seq<bool>)
    ensures |flags| == |cells|
  {
    seq(|cells|, i requires 0 <= i < |cells| => cells[i].None?)
  }

  function LevelColumns(prefix: string, cells: seq<Option<string>>, levels: seq<string>): (r: seq<Column>)
    ensures |r| == |levels|
  {
    seq(|levels|, k requires 0 <= k < |levels| =>
      Column(prefix + "_" + levels[k], IndicatorColumn(Indicator(cells, levels[k]))))
  }

  /**
   * `pd.get_dummies(column, prefix=prefix, dummy_na=keepNa)`: one indicator
   * named `prefix_level` per category in sorted order, then `prefix_nan`.
   */
  function Dummies(prefix: string, cells: seq<Option<string>>, keepNa: bool): (r: seq<Column>)
    ensures forall col :: col in r ==>
      col.data.IndicatorColumn? && col.data.Length() == |cells| && prefix + "_" <= col.name
  {
    LevelColumns(prefix, cells, Levels(cells))
    + (if keepNa then [Column(prefix + "_nan", IndicatorColumn(NaIndicator(cells)))] else [])
  }

  /**
   * The dummies are exactly one indicator per distinct value, in sorted
   * order, plus the NaN indicator last when `keepNa` is set.
   */
  lemma DummiesFaithful(prefix: string, cells: seq<Option<string>>, keepNa: bool)
    ensures var d, levels := Dummies(prefix, cells, keepNa), Levels(cells);
      && Sorted(levels)
      && |d| == |levels| + (if keepNa then 1 else 0)
      && (forall k :: 0 <= k < |levels| ==>
            d[k] == Column(prefix + "_" + levels[k], IndicatorColumn(Indicator(cells, levels[k]))))
      && (forall v :: Some(v) in cells ==>
            exists k :: 0 <= k < |levels| && d[k] == Column(prefix + "_" + v, IndicatorColumn(Indicator(cells, v))))
      && (keepNa ==> d[|d| - 1] == Column(prefix + "_nan", IndicatorColumn(NaIndicator(cells))))
  {
    LevelsSorted(cells);
    var d, levels := Dummies(prefix, cells, keepNa), Levels(cells);
    forall v | Some(v) in cells
      ensures exists k :: 0 <= k < |levels| && d[k] == Column(prefix + "_" + v, IndicatorColumn(Indicator(cells, v)))
    {
      var k :| 0 <= k < |levels| && levels[k] == v;
      assert d[k] == LevelColumns(prefix, cells, levels)[k];
    }
  }

  /** With `keepNa` the NaN indicator is the last dummy. */
  lemma NanIndicatorLast(prefix: string, cells: seq<Option<string>>)
    ensures var d := Dummies(prefix, cells, true);
      |d| > 0 && d[|d| - 1] == Column(prefix + "_nan", IndicatorColumn(NaIndicator(cells)))
  {
  }

  /** A column without missing values gets a NaN indicator that is never set. */
  lemma NaIndicatorUnset(cells: seq<Option<string>>)
    requires forall i :: 0 <= i < |cells| ==> cells[i].Some?
    ensures NaIndicator(cells) == seq(|cells|, i => false)
  {
  }

  /**
   * A column that holds the text "nan" gets two columns named `prefix_nan`
   * when `keepNa` is set: the indicator of the text, then the NaN indicator.
   */
  lemma NanTextCollides(prefix: string, cells: seq<Option<string>>)
    requires Some("nan") in cells
    ensures var d := Dummies(prefix, cells, true);
      exists k :: 0 <= k < |d| - 1 && d[k].name == d[|d| - 1].name == prefix + "_nan"
        && d[k].data == IndicatorColumn(Indicator(cells, "nan"))
  {
    var levels, d := Levels(cells), Dummies(prefix, cells, true);
    assert "nan" in levels;
    var k :| 0 <= k < |levels| && levels[k] == "nan";
    assert d[k] == LevelColumns(prefix, cells, levels)[k];
  }

  /** The first loop of `explode_categoricals`: the names of the object columns, in column order. */
  function ObjectNames(cols: seq<Column>): (names: seq<string>)
    ensures |names| <= |cols|
  {
    if cols == [] then []
    else
      var last := cols[|cols| - 1];
      ObjectNames(cols[..|cols| - 1]) + (if last.data.ObjectColumn? then [last.name] else [])
  }

  /** The first loop collects exactly the names of the object columns. */
  lemma {:induction false} ObjectNamesMembers(cols: seq<Column>)
    ensures forall x :: x in ObjectNames(cols) <==>
      exists i :: 0 <= i < |cols| && cols[i].name == x && cols[i].data.ObjectColumn?
  {
    if cols != [] {
      var init := cols[..|cols| - 1];
      ObjectNamesMembers(init);
      assert forall i :: 0 <= i < |init| ==> init[i] == cols[i];
    }
  }

  /** No string occurs twice. */
  predicate Unique(names: seq<string>)
  {
    forall i, j :: 0 <= i < j < |names| ==> names[i] != names[j]
  }

  lemma {:induction false} ObjectNamesDistinct(cols: seq<Column>)
    requires DistinctNames(cols)
    ensures Unique(ObjectNames(cols))
  {
    if cols != [] {
      var init := cols[..|cols| - 1];
      var last := cols[|cols| - 1];
      assert DistinctNames(init);
      ObjectNamesDistinct(init);
      if last.data.ObjectColumn? {
        ObjectNamesMembers(init);
        forall i | 0 <= i < |init| ensures init[i].name != last.name {
          assert init[i] == cols[i];
        }
        var prev := ObjectNames(init);
        var names := prev + [last.name];
        assert ObjectNames(cols) == names;
        assert last.name !in prev;
        assert Unique(prev);
        forall i, j | 0 <= i < j < |names| ensures names[i] != names[j] {
          if j < |prev| {
            assert names[i] == prev[i] && names[j] == prev[j];
            assert prev[i] != prev[j];
          } else {
            assert names[i] == prev[i] && prev[i] in prev;
          }
        }
      } else {
        assert ObjectNames(cols) == ObjectNames(init);
      }
    }
  }

  /** With distinct names, a column's name is collected exactly when the column is an object column. */
  lemma ObjectNameIffObject(cols: seq<Column>)
    requires DistinctNames(cols)
    ensures forall j :: 0 <= j < |cols| ==> (cols[j].name in ObjectNames(cols) <==> cols[j].data.ObjectColumn?)
  {
    ObjectNamesMembers(cols);
    forall j | 0 <= j < |cols| && cols[j].name in ObjectNames(cols)
      ensures cols[j].data.ObjectColumn?
    {
      var i :| 0 <= i < |cols| && cols[i].name == cols[j].name && cols[i].data.ObjectColumn?;
      assert i == j;
    }
  }

  /** `get_dummies(data_df[c], prefix=c, dummy_na=keepNa)` on the current frame. */
  function GetDummies(cols: seq<Column>, c: string, keepNa: bool): (r: seq<Column>)
    ensures forall col :: col in r ==> col.data.IndicatorColumn? && c + "_" <= col.name
    ensures FirstNamed(cols, c).Some? ==>
      forall col :: col in r ==> col.data.Length() == FirstNamed(cols, c).value.data.Length()
  {
    match FirstNamed(cols, c)
    case Some(Column(_, ObjectColumn(cells))) => Dummies(c, cells, keepNa)
    case _ => []  // the loop only names object columns, so this case does not arise
  }

  /** One pass of the second loop: append the dummies of `c`, then drop every column named `c`. */
  function Step(f: Frame, c: string, keepNa: bool): (r: Frame)
    ensures r.rows == f.rows
    ensures forall col :: col in r.columns <==>
      (col in f.columns || col in GetDummies(f.columns, c, keepNa)) && col.name != c
  {
    Frame(f.rows, Without(f.columns + GetDummies(f.columns, c, keepNa), c))
  }

  /** The frame after the second loop has handled the names `done`, in order. */
  function ExplodeEach(f: Frame, done: seq<string>, keepNa: bool): Frame
    decreases |done|
  {
    if done == [] then f
    else Step(ExplodeEach(f, done[..|done| - 1], keepNa), done[|done| - 1], keepNa)
  }

  /** What `explode_categoricals(data_df, keep_na)` returns. */
  function Exploded(t: Frame, keepNa: bool): Frame
  {
    ExplodeEach(t, ObjectNames(t.columns), keepNa)
  }

  /** The first loop over one more column. */
  lemma ObjectNamesSnoc(cols: seq<Column>, i: nat)
    requires i < |cols|
    ensures ObjectNames(cols[..i + 1])
      == ObjectNames(cols[..i]) + (if cols[i].data.ObjectColumn? then [cols[i].name] else [])
  {
    assert cols[..i + 1][..i] == cols[..i];
  }

  /** The second loop over one more name. */
  lemma ExplodeEachSnoc(t: Frame, names: seq<string>, k: nat, keepNa: bool)
    requires k < |names|
    ensures ExplodeEach(t, names[..k + 1], keepNa) == Step(ExplodeEach(t, names[..k], keepNa), names[k], keepNa)
  {
    assert names[..k + 1][..k] == names[..k];
  }

  /**
   * What `explode_categoricals(data_df, keep_na)` returns, or the name of the
   * column at which the first loop raises AttributeError: `data_df[column]`
   * of a duplicated name is a dataframe, which has no `.dtype`.
   */
  function Explode(t: Frame, keepNa: bool): Result<Frame, string>
  {
    var k := FirstDuplicate(t.columns);
    if k < |t.columns| then Failure(t.columns[k].name) else Success(Exploded(t, keepNa))
  }

  /** The function raises exactly when a name is duplicated, and names such a column. */
  lemma ExplodeOutcome(t: Frame, keepNa: bool)
    ensures var r := Explode(t, keepNa);
      && (r.Success? <==> DistinctNames(t.columns))
      && (r.Success? ==> r.value == Exploded(t, keepNa))
      && (r.Failure? ==> exists i, j :: 0 <= i < j < |t.columns| && t.columns[i].name == t.columns[j].name == r.error)
  {
    DistinctIffNoDuplicate(t.columns);
    var k := FirstDuplicate(t.columns);
    if k < |t.columns| {
      var names := Names(t.columns);
      CountOthers(names, k);
      var j :| 0 <= j < |names| && j != k && names[j] == names[k];
      assert t.columns[j].name == t.columns[k].name;
    }
  }

  /** The first loop: the names of the object columns, or AttributeError at the first duplicated name. */
  method CollectStringColumns(t: Frame) returns (r: Result<seq<string>, string>)
    ensures var k := FirstDuplicate(t.columns);
      r == if k < |t.columns| then Failure(t.columns[k].name) else Success(ObjectNames(t.columns))
  {
    var names := Names(t.columns);
    var stringColumns: seq<string> := [];
    for i := 0 to |t.columns|
      invariant stringColumns == ObjectNames(t.columns[..i])
      invariant forall j :: 0 <= j < i ==> !Duplicated(t.columns, j)
    {
      if Count(names, t.columns[i].name) > 1 {
        FirstDuplicateAt(t.columns, i);
        return Failure(t.columns[i].name);
      }
      ObjectNamesSnoc(t.columns, i);
      if t.columns[i].data.ObjectColumn? {
        stringColumns := stringColumns + [t.columns[i].name];
      }
    }
    FirstDuplicateAt(t.columns, |t.columns|);
    assert t.columns[..|t.columns|] == t.columns;
    r := Success(stringColumns);
  }

  /** The second loop: per collected name, append its dummies and drop the name. */
  method AddDummies(t: Frame, stringColumns: seq<string>, keepNa: bool) returns (f: Frame)
    ensures f == ExplodeEach(t, stringColumns, keepNa)
  {
    f := t;
    for k := 0 to |stringColumns|
      invariant f == ExplodeEach(t, stringColumns[..k], keepNa)
    {
      ExplodeEachSnoc(t, stringColumns, k, keepNa);
      var c := stringColumns[k];
      var dummies := GetDummies(f.columns, c, keepNa);
      f := Frame(f.rows, Without(f.columns + dummies, c));
    }
    assert stringColumns[..|stringColumns|] == stringColumns;
  }

  method ExplodeCategoricals(t: Frame, keepNa: bool) returns (r: Result<Frame, string>)
    ensures r == Explode(t, keepNa)
  {
    var collected := CollectStringColumns(t);
    match collected
    case Failure(name) =>
      r := Failure(name);
    case Success(stringColumns) =>
      var f := AddDummies(t, stringColumns, keepNa);
      r := Success(f);
  }

  /** The columns whose name is not among `done`, in order. */
  function Unprocessed(cols: seq<Column>, done: seq<string>): (r: seq<Column>)
    ensures forall col :: col in r <==> col in cols && col.name !in done
  {
    if cols == [] then []
    else (if cols[0].name in done then [] else [cols[0]]) + Unprocessed(cols[1..], done)
  }

  /** The columns that are not object columns, in order. */
  function NonObject(cols: seq<Column>): (r: seq<Column>)
    ensures forall col :: col in r <==> col in cols && !col.data.ObjectColumn?
  {
    if cols == [] then []
    else (if cols[0].data.ObjectColumn? then [] else [cols[0]]) + NonObject(cols[1..])
  }

  /** An indicator column of the frame's height, named after one of the exploded columns. */
  predicate IsDummy(col: Column, origins: seq<string>, rows: nat)
  {
    && col.data.IndicatorColumn?
    && col.data.Length() == rows
    && exists k :: 0 <= k < |origins| && origins[k] + "_" <= col.name
  }

  predicate AllDummies(cols: seq<Column>, origins: seq<string>, rows: nat)
  {
    forall col :: col in cols ==> IsDummy(col, origins, rows)
  }

  lemma {:induction false} UnprocessedNothing(cols: seq<Column>)
    ensures Unprocessed(cols, []) == cols
  {
    if cols != [] {
      UnprocessedNothing(cols[1..]);
      assert cols == [cols[0]] + cols[1..];
    }
  }

  lemma {:induction false} UnprocessedStep(cols: seq<Column>, done: seq<string>, c: string)
    ensures Without(Unprocessed(cols, done), c) == Unprocessed(cols, done + [c])
  {
    if cols != [] {
      UnprocessedStep(cols[1..], done, c);
      var head := if cols[0].name in done then [] else [cols[0]];
      WithoutAppend(head, Unprocessed(cols[1..], done), c);
    }
  }

  lemma {:induction false} UnprocessedIsNonObject(cols: seq<Column>, done: seq<string>)
    requires forall j :: 0 <= j < |cols| ==> (cols[j].name in done <==> cols[j].data.ObjectColumn?)
    ensures Unprocessed(cols, done) == NonObject(cols)
  {
    if cols != [] {
      assert forall j :: 0 <= j < |cols[1..]| ==> cols[1..][j] == cols[j + 1];
      UnprocessedIsNonObject(cols[1..], done);
    }
  }

  /** While an object column is still among the unhandled ones, `data_df[c]` finds it. */
  lemma FindsOriginal(cols: seq<Column>, i: nat, u: seq<Column>, extras: seq<Column>)
    requires DistinctNames(cols) && i < |cols|
    requires cols[i] in u && forall col :: col in u ==> col in cols
    ensures FirstNamed(u + extras, cols[i].name) == Some(cols[i])
  {
    IndexOfIn(u, cols[i]);
    assert Names(u)[IndexOf(u, cols[i])] == cols[i].name;
    FirstNamedAppend(u, extras, cols[i].name);
    var found := FirstNamed(u, cols[i].name).value;
    var j :| 0 <= j < |cols| && cols[j] == found;
  }

  /** The `k`-th collected name belongs to an object column and is not collected before. */
  lemma ObjectColumnOf(cols: seq<Column>, k: nat) returns (i: nat)
    requires DistinctNames(cols) && k < |ObjectNames(cols)|
    ensures i < |cols| && cols[i].name == ObjectNames(cols)[k] && cols[i].data.ObjectColumn?
    ensures ObjectNames(cols)[k] !in ObjectNames(cols)[..k]
  {
    var names := ObjectNames(cols);
    ObjectNamesMembers(cols);
    assert names[k] in names;
    i :| 0 <= i < |cols| && cols[i].name == names[k] && cols[i].data.ObjectColumn?;
    ObjectNamesDistinct(cols);
  }

  lemma DropAfterAppend(cols: seq<Column>, u: seq<Column>, extras: seq<Column>, d: seq<Column>, c: string)
    requires cols == u + extras
    ensures Without(cols + d, c) == Without(u, c) + Without(extras + d, c)
  {
    assert cols + d == u + (extras + d);
    WithoutAppend(u, extras + d, c);
  }

  /** Dropping a name keeps only dummies when there were only dummies. */
  lemma WithoutKeepsDummies(extras: seq<Column>, d: seq<Column>, c: string, origins: seq<string>, rows: nat)
    requires AllDummies(extras, origins, rows) && AllDummies(d, origins, rows)
    ensures AllDummies(Without(extras + d, c), origins, rows)
  {
    forall x | x in Without(extras + d, c) ensures IsDummy(x, origins, rows) {
      assert x in extras + d;
    }
  }

  lemma DummiesOfOrigin(origins: seq<string>, k: nat, cells: seq<Option<string>>, keepNa: bool)
    requires k < |origins|
    ensures AllDummies(Dummies(origins[k], cells, keepNa), origins, |cells|)
  {
    forall x | x in Dummies(origins[k], cells, keepNa) ensures IsDummy(x, origins, |cells|) {
      assert origins[k] + "_" <= x.name;
    }
  }

  /** One pass of the second loop keeps the shape: the column it explodes leaves the front part. */
  lemma StepKeepsShape(t: Frame, f: Frame, done: seq<string>, extras: seq<Column>, i: nat, origins: seq<string>, k: nat, keepNa: bool)
    returns (rest: seq<Column>)
    requires WellFormed(t) && DistinctNames(t.columns)
    requires i < |t.columns| && t.columns[i].data.ObjectColumn? && t.columns[i].name !in done
    requires k < |origins| && origins[k] == t.columns[i].name
    requires f == Frame(t.rows, Unprocessed(t.columns, done) + extras)
    requires AllDummies(extras, origins, t.rows)
    ensures Step(f, t.columns[i].name, keepNa) == Frame(t.rows, Unprocessed(t.columns, done + [t.columns[i].name]) + rest)
    ensures AllDummies(rest, origins, t.rows)
  {
    var col := t.columns[i];
    var c := col.name;
    var u := Unprocessed(t.columns, done);
    FindsOriginal(t.columns, i, u, extras);
    var d := Dummies(c, col.data.cells, keepNa);
    assert GetDummies(f.columns, c, keepNa) == d;
    DummiesOfOrigin(origins, k, col.data.cells, keepNa);
    WithoutKeepsDummies(extras, d, c, origins, t.rows);
    DropAfterAppend(f.columns, u, extras, d, c);
    UnprocessedStep(t.columns, done, c);
    rest := Without(extras + d, c);
  }

  lemma PrefixSnoc(s: seq<string>, m: nat)
    requires 0 < m <= |s|
    ensures s[..m] == s[..m - 1] + [s[m - 1]] && s[..m][..m - 1] == s[..m - 1]
  {
  }

  /**
   * After the second loop has handled the first `m` object columns, the
   * unhandled original columns come first, in order, and everything after
   * them is an indicator column named after a handled column.
   */
  lemma {:induction false} ExplodeEachShape(t: Frame, m: nat, keepNa: bool) returns (extras: seq<Column>)
    requires WellFormed(t) && DistinctNames(t.columns)
    requires m <= |ObjectNames(t.columns)|
    ensures var names := ObjectNames(t.columns);
      ExplodeEach(t, names[..m], keepNa) == Frame(t.rows, Unprocessed(t.columns, names[..m]) + extras)
    ensures AllDummies(extras, ObjectNames(t.columns), t.rows)
  {
    var names := ObjectNames(t.columns);
    if m == 0 {
      UnprocessedNothing(t.columns);
      assert names[..0] == [];
      extras := [];
    } else {
      PrefixSnoc(names, m);
      var before := ExplodeEachShape(t, m - 1, keepNa);
      var i := ObjectColumnOf(t.columns, m - 1);
      var f := ExplodeEach(t, names[..m - 1], keepNa);
      extras := StepKeepsShape(t, f, names[..m - 1], before, i, names, m - 1, keepNa);
    }
  }

  function IndexOf(cols: seq<Column>, col: Column): nat
    requires col in cols
  {
    if cols[0] == col then 0 else 1 + IndexOf(cols[1..], col)
  }

  lemma {:induction false} IndexOfIn(cols: seq<Column>, col: Column)
    requires col in cols
    ensures IndexOf(cols, col) < |cols| && cols[IndexOf(cols, col)] == col
  {
    if cols[0] != col {
      IndexOfIn(cols[1..], col);
    }
  }

  /** A frame made of kept original columns followed by dummies is well formed and holds no object column. */
  lemma KeptThenDummies(t: Frame, r: Frame, kept: seq<Column>, origins: seq<string>)
    requires WellFormed(t) && r.rows == t.rows
    requires forall col :: col in kept ==> col in t.columns && !col.data.ObjectColumn?
    requires |kept| <= |r.columns| && r.columns[..|kept|] == kept
    requires AllDummies(r.columns[|kept|..], origins, t.rows)
    ensures WellFormed(r) && forall col :: col in r.columns ==> !col.data.ObjectColumn?
  {
    assert r.columns == kept + r.columns[|kept|..];
    forall col | col in r.columns
      ensures col.data.Length() == t.rows && !col.data.ObjectColumn?
    {
      if col in kept {
        var i :| 0 <= i < |t.columns| && t.columns[i] == col;
      } else {
        assert col in r.columns[|kept|..];
      }
    }
  }

  /**
   * `explode_categoricals` keeps the row count, keeps every non-object column
   * with its values and in its relative order at the front, appends only
   * indicator columns named `c_...` after an exploded column `c`, and leaves
   * no object column.
   */
  lemma ExplodeShape(t: Frame, keepNa: bool)
    requires WellFormed(t) && DistinctNames(t.columns)
    ensures var r, kept := Exploded(t, keepNa), NonObject(t.columns);
      && r.rows == t.rows
      && WellFormed(r)
      && |kept| <= |r.columns| && r.columns[..|kept|] == kept
      && AllDummies(r.columns[|kept|..], ObjectNames(t.columns), t.rows)
      && forall col :: col in r.columns ==> !col.data.ObjectColumn?
  {
    var names := ObjectNames(t.columns);
    assert names[..|names|] == names;
    var extras := ExplodeEachShape(t, |names|, keepNa);
    var kept := NonObject(t.columns);
    assert (kept + extras)[..|kept|] == kept && (kept + extras)[|kept|..] == extras;
    ObjectNameIffObject(t.columns);
    UnprocessedIsNonObject(t.columns, names);
    KeptThenDummies(t, Exploded(t, keepNa), NonObject(t.columns), names);
  }
}
