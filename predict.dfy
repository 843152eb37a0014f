/**
 * The inference script (predict.py): derive the email columns, split off the
 * transaction ids, align the feature matrix with the trained model's feature
 * list (drop duplicate names, drop unknown names, report missing names,
 * select in feature-list order) and build the two-column submission.
 */
module Predict {
  import opened Wrappers
  import opened Frames
  import opened EmailDomains
  import opened Categoricals

  const IdColumn := "TransactionID"
  const TargetColumn := "isFraud"

  datatype PredictError =
    | KeyError(labels: seq<string>)               // a label asked for is not a column
    | LengthMismatch(expected: nat, actual: nat)  // a new column of the wrong length

  /** `column.apply(get_email_region)`: a column with no missing entry. */
  function RegionColumn(domains: seq<Option<string>>): (cells: seq<Option<string>>)
    ensures |cells| == |domains|
  {
    seq(|domains|, i requires 0 <= i < |domains| => Some(EmailRegion(domains[i])))
  }

  /** `column.apply(get_email_site)`. */
  function SiteColumn(domains: seq<Option<string>>): (cells: seq<Option<string>>)
    ensures |cells| == |domains|
  {
    seq(|domains|, i requires 0 <= i < |domains| => Some(EmailSite(domains[i])))
  }

  /**
   * A missing email domain becomes the text "nan", so exploding the derived
   * column with `keep_na` yields two columns named `prefix_nan`: first the
   * indicator of the text "nan", then a NaN indicator that is never set.
   * This is the duplicate name the script removes before aligning features.
   */
  lemma MissingDomainDuplicatesNan(prefix: string, domains: seq<Option<string>>)
    requires None in domains
    ensures var d := Dummies(prefix, RegionColumn(domains), true);
      && (exists k :: 0 <= k < |d| - 1 && d[k].name == d[|d| - 1].name == prefix + "_nan")
      && d[|d| - 1].data == IndicatorColumn(seq(|domains|, i => false))
  {
    var cells := RegionColumn(domains);
    var i :| 0 <= i < |domains| && domains[i] == None;
    assert cells[i] == Some("nan");
    NanTextCollides(prefix, cells);
    NanIndicatorLast(prefix, cells);
    NaIndicatorUnset(cells);
  }

  /** The same lemma for the site column. */
  lemma MissingDomainDuplicatesNanSite(prefix: string, domains: seq<Option<string>>)
    requires None in domains
    ensures var d := Dummies(prefix, SiteColumn(domains), true);
      && (exists k :: 0 <= k < |d| - 1 && d[k].name == d[|d| - 1].name == prefix + "_nan")
      && d[|d| - 1].data == IndicatorColumn(seq(|domains|, i => false))
  {
    var cells := SiteColumn(domains);
    var i :| 0 <= i < |domains| && domains[i] == None;
    assert cells[i] == Some("nan");
    NanTextCollides(prefix, cells);
    NanIndicatorLast(prefix, cells);
    NaIndicatorUnset(cells);
  }

  /**
   * Training explodes with `keep_na=False`, inference with the default
   * `True`: inference adds exactly one column, `prefix_nan`, at the end.
   */
  lemma KeepNaAddsOneColumn(prefix: string, cells: seq<Option<string>>)
    ensures Names(Dummies(prefix, cells, true)) == Names(Dummies(prefix, cells, false)) + [prefix + "_nan"]
  {
  }

  // ---------------------------------------------------------------------
  // Splitting off the ids (predict.py:42-43)

  /** `test_df[["TransactionID"]]` and `test_df.drop("TransactionID", axis=1)`. */
  function SplitIds(t: Frame): (r: Result<(Frame, Frame), PredictError>)
    ensures r.Failure? <==> IdColumn !in Names(t.columns)
    ensures r.Failure? ==> r.error == KeyError([IdColumn])
    ensures r.Success? ==> r.value.0.rows == t.rows == r.value.1.rows
    ensures r.Success? ==> IdColumn !in Names(r.value.1.columns)
    ensures r.Success? ==> forall col :: col in r.value.0.columns <==> col in t.columns && col.name == IdColumn
    ensures r.Success? ==> r.value.1.columns == Without(t.columns, IdColumn)
  {
    if IdColumn !in Names(t.columns) then Failure(KeyError([IdColumn]))
    else
      var features := Without(t.columns, IdColumn);
      assert forall k :: 0 <= k < |features| ==> features[k] in features;
      Success((Frame(t.rows, Named(t.columns, IdColumn)), Frame(t.rows, features)))
  }

  // ---------------------------------------------------------------------
  // Duplicate names (predict.py:44)

  /** `cols.loc[:, ~cols.columns.duplicated()]`: the first column of each name, in order. */
  function KeepFirst(cols: seq<Column>): (r: seq<Column>)
    ensures |r| <= |cols|
  {
    if cols == [] then []
    else
      var kept := KeepFirst(cols[..|cols| - 1]);
      var last := cols[|cols| - 1];
      if last.name in Names(kept) then kept else kept + [last]
  }

  /** The position of the first occurrence of `n`. */
  function FirstIndex(names: seq<string>, n: string): (i: nat)
    requires n in names
    ensures i < |names| && names[i] == n && n !in names[..i]
  {
    if names[0] == n then 0
    else
      assert n in names[1..];
      var j := FirstIndex(names[1..], n);
      assert names[..j + 1] == [names[0]] + names[1..][..j];
      j + 1
  }

  lemma FirstIndexAppend(names: seq<string>, more: seq<string>, n: string)
    requires n in names
    ensures n in names + more && FirstIndex(names + more, n) == FirstIndex(names, n)
  {
    var i := FirstIndex(names, n);
    assert (names + more)[i] == n && (names + more)[..i] == names[..i];
  }

  /** The names of a sequence extended by one column. */
  lemma NamesPush(cols: seq<Column>, c: Column)
    ensures Names(cols + [c]) == Names(cols) + [c.name]
  {
    assert forall i :: 0 <= i < |cols| ==> (cols + [c])[i] == cols[i];
  }

  /** The dedupe keeps exactly the names there were. */
  lemma {:induction false} KeepFirstNames(cols: seq<Column>)
    ensures forall n :: n in Names(KeepFirst(cols)) <==> n in Names(cols)
  {
    if cols != [] {
      var init, last := cols[..|cols| - 1], cols[|cols| - 1];
      KeepFirstNames(init);
      assert cols == init + [last];
      NamesPush(init, last);
      NamesPush(KeepFirst(init), last);
    }
  }

  /** The dedupe leaves no name twice. */
  lemma {:induction false} KeepFirstDistinct(cols: seq<Column>)
    ensures DistinctNames(KeepFirst(cols))
  {
    if cols != [] {
      var init, last := cols[..|cols| - 1], cols[|cols| - 1];
      KeepFirstDistinct(init);
      var kept := KeepFirst(init);
      if last.name !in Names(kept) {
        forall j | 0 <= j < |kept| ensures kept[j].name != last.name {
          assert Names(kept)[j] == kept[j].name;
        }
      }
    }
  }

  /** `c` is the first column of `cols` carrying its name. */
  predicate FirstOf(cols: seq<Column>, c: Column)
  {
    c.name in Names(cols) && c == cols[FirstIndex(Names(cols), c.name)]
  }

  /** The name of `a` first occurs in `cols` before the name of `b`. */
  predicate Precedes(cols: seq<Column>, a: Column, b: Column)
  {
    a.name in Names(cols) && b.name in Names(cols) &&
    FirstIndex(Names(cols), a.name) < FirstIndex(Names(cols), b.name)
  }

  lemma FirstIndexPush(init: seq<Column>, last: Column, n: string)
    requires n in Names(init)
    ensures n in Names(init + [last])
    ensures FirstIndex(Names(init + [last]), n) == FirstIndex(Names(init), n) < |init|
  {
    NamesPush(init, last);
    FirstIndexAppend(Names(init), [last.name], n);
  }

  lemma FirstIndexNew(init: seq<Column>, last: Column)
    requires last.name !in Names(init)
    ensures last.name in Names(init + [last])
    ensures FirstIndex(Names(init + [last]), last.name) == |init|
  {
    NamesPush(init, last);
  }

  /** Every kept column is the first column of its name. */
  lemma {:induction false} KeepFirstFirsts(cols: seq<Column>)
    ensures forall j :: 0 <= j < |KeepFirst(cols)| ==> FirstOf(cols, KeepFirst(cols)[j])
  {
    if cols != [] {
      var init, last := cols[..|cols| - 1], cols[|cols| - 1];
      KeepFirstFirsts(init);
      var kept := KeepFirst(init);
      assert cols == init + [last];
      forall j | 0 <= j < |kept| ensures FirstOf(cols, kept[j]) {
        assert FirstOf(init, kept[j]);
        var k := FirstIndex(Names(init), kept[j].name);
        FirstIndexPush(init, last, kept[j].name);
        assert cols[k] == init[k];
      }
      if last.name !in Names(kept) {
        KeepFirstNames(init);
        FirstIndexNew(init, last);
        var r := kept + [last];
        forall j | 0 <= j < |r| ensures FirstOf(cols, r[j]) {
          if j < |kept| {
            assert r[j] == kept[j];
          }
        }
      }
    }
  }

  /** Appending a column keeps the order of names that were already there. */
  lemma OrderPush(init: seq<Column>, last: Column, kept: seq<Column>)
    requires forall j :: 0 <= j < |kept| ==> kept[j].name in Names(init)
    requires forall j1, j2 :: 0 <= j1 < j2 < |kept| ==> Precedes(init, kept[j1], kept[j2])
    ensures forall j1, j2 :: 0 <= j1 < j2 < |kept| ==> Precedes(init + [last], kept[j1], kept[j2])
  {
    forall j1, j2 | 0 <= j1 < j2 < |kept| ensures Precedes(init + [last], kept[j1], kept[j2]) {
      assert Precedes(init, kept[j1], kept[j2]);
      FirstIndexPush(init, last, kept[j1].name);
      FirstIndexPush(init, last, kept[j2].name);
    }
  }

  /** A new name appended after the kept ones comes after all of them. */
  lemma OrderNew(init: seq<Column>, last: Column, kept: seq<Column>)
    requires forall j :: 0 <= j < |kept| ==> kept[j].name in Names(init)
    requires forall j1, j2 :: 0 <= j1 < j2 < |kept| ==> Precedes(init + [last], kept[j1], kept[j2])
    requires last.name !in Names(init)
    ensures var r := kept + [last];
      forall j1, j2 :: 0 <= j1 < j2 < |r| ==> Precedes(init + [last], r[j1], r[j2])
  {
    FirstIndexNew(init, last);
    var r := kept + [last];
    forall j1, j2 | 0 <= j1 < j2 < |r| ensures Precedes(init + [last], r[j1], r[j2]) {
      assert r[j1] == kept[j1];
      FirstIndexPush(init, last, kept[j1].name);
      if j2 < |kept| {
        assert r[j2] == kept[j2];
      } else {
        assert r[j2] == last;
      }
    }
  }

  /** The kept columns come in the order of their names' first occurrence. */
  lemma {:induction false} KeepFirstOrder(cols: seq<Column>)
    ensures forall j1, j2 :: 0 <= j1 < j2 < |KeepFirst(cols)| ==>
      Precedes(cols, KeepFirst(cols)[j1], KeepFirst(cols)[j2])
  {
    if cols != [] {
      var init, last := cols[..|cols| - 1], cols[|cols| - 1];
      KeepFirstOrder(init);
      KeepFirstNames(init);
      var kept := KeepFirst(init);
      assert cols == init + [last];
      forall j | 0 <= j < |kept| ensures kept[j].name in Names(init) {
        assert Names(kept)[j] == kept[j].name;
      }
      OrderPush(init, last, kept);
      if last.name !in Names(kept) {
        OrderNew(init, last, kept);
      }
    }
  }

  /**
   * Dropping duplicated names keeps every name once, keeps exactly the first
   * column of each name, and keeps them in the order of first occurrence.
   */
  lemma KeepFirstCorrect(cols: seq<Column>)
    ensures var r := KeepFirst(cols);
      && DistinctNames(r)
      && (forall n :: n in Names(r) <==> n in Names(cols))
      && (forall j :: 0 <= j < |r| ==> r[j].name in Names(cols) && r[j] == cols[FirstIndex(Names(cols), r[j].name)])
      && (forall j1, j2 :: 0 <= j1 < j2 < |r| ==>
            FirstIndex(Names(cols), r[j1].name) < FirstIndex(Names(cols), r[j2].name))
  {
    var r := KeepFirst(cols);
    KeepFirstDistinct(cols);
    KeepFirstNames(cols);
    KeepFirstFirsts(cols);
    KeepFirstOrder(cols);
    assert forall j :: 0 <= j < |r| ==> FirstOf(cols, r[j]);
    assert forall j1, j2 :: 0 <= j1 < j2 < |r| ==> Precedes(cols, r[j1], r[j2]);
  }

  /** The dedupe over one more column of a prefix. */
  lemma KeepFirstSnoc(cols: seq<Column>, i: nat)
    requires i < |cols|
    ensures var kept := KeepFirst(cols[..i]);
      KeepFirst(cols[..i + 1]) == if cols[i].name in Names(kept) then kept else kept + [cols[i]]
  {
    assert cols[..i + 1][..i] == cols[..i];
  }

  /** The dedupe of predict.py:44 as a loop over the columns. */
  method DedupeColumns(x: Frame) returns (r: Frame)
    ensures r == Frame(x.rows, KeepFirst(x.columns))
  {
    var kept: seq<Column> := [];
    var seen: set<string> := {};
    for i := 0 to |x.columns|
      invariant kept == KeepFirst(x.columns[..i])
      invariant forall n :: n in seen <==> n in Names(kept)
    {
      KeepFirstSnoc(x.columns, i);
      var col := x.columns[i];
      if col.name !in seen {
        NamesPush(kept, col);
        kept := kept + [col];
        seen := seen + {col.name};
      }
    }
    assert x.columns[..|x.columns|] == x.columns;
    r := Frame(x.rows, kept);
  }

  lemma KeepFirstWellFormed(x: Frame)
    requires WellFormed(x)
    ensures WellFormed(Frame(x.rows, KeepFirst(x.columns)))
  {
    KeepFirstCorrect(x.columns);
  }

  // ---------------------------------------------------------------------
  // Dropping unneeded features (predict.py:46-49)

  /** One pass of the drop loop; `drop` raises when the name is already gone. */
  function DropStep(acc: Result<Frame, PredictError>, name: string, features: seq<string>): (r: Result<Frame, PredictError>)
    ensures acc.Failure? ==> r == acc
    ensures acc.Success? ==> (r.Failure? <==> name !in features && NoneNamed(acc.value.columns, name))
    ensures r.Failure? && acc.Success? ==> r.error == KeyError([name])
    ensures r.Success? && acc.Success? ==> r.value.rows == acc.value.rows
    ensures r.Success? && acc.Success? ==>
      forall col :: col in r.value.columns <==> col in acc.value.columns && (col.name != name || name in features)
  {
    match acc
    case Failure(_) => acc
    case Success(x) =>
      if name in features then acc
      else if NoneNamed(x.columns, name) then Failure(KeyError([name]))
      else Success(Frame(x.rows, Without(x.columns, name)))
  }

  /** The drop loop after visiting the names `visited` of the original column index. */
  function DropEach(x: Frame, visited: seq<string>, features: seq<string>): Result<Frame, PredictError>
    decreases |visited|
  {
    if visited == [] then Success(x)
    else DropStep(DropEach(x, visited[..|visited| - 1], features), visited[|visited| - 1], features)
  }

  /** The drop loop visiting one more of `names`. */
  lemma DropEachSnoc(x: Frame, names: seq<string>, i: nat, features: seq<string>)
    requires i < |names|
    ensures DropEach(x, names[..i + 1], features) == DropStep(DropEach(x, names[..i], features), names[i], features)
  {
    assert names[..i + 1][..i] == names[..i];
  }

  method DropUnneeded(x: Frame, features: seq<string>) returns (r: Result<Frame, PredictError>)
    ensures r == DropEach(x, Names(x.columns), features)
  {
    var names := Names(x.columns);
    var current := x;
    for i := 0 to |names|
      invariant DropEach(x, names[..i], features) == Success(current)
    {
      DropEachSnoc(x, names, i, features);
      var name := names[i];
      if name !in features {
        if NoneNamed(current.columns, name) {
          r := Failure(KeyError([name]));
          DropFailureSticks(x, names, i + 1, features);
          return;
        }
        current := Frame(current.rows, Without(current.columns, name));
      }
    }
    assert names[..|names|] == names;
    r := Success(current);
  }

  lemma {:induction false} DropFailureSticks(x: Frame, names: seq<string>, i: nat, features: seq<string>)
    requires i <= |names| && DropEach(x, names[..i], features).Failure?
    ensures DropEach(x, names, features) == DropEach(x, names[..i], features)
    decreases |names| - i
  {
    if i < |names| {
      assert names[..i + 1][..i] == names[..i];
      DropFailureSticks(x, names, i + 1, features);
    } else {
      assert names[..i] == names;
    }
  }

  /** The columns whose name is in `features`, in order. */
  function Listed(cols: seq<Column>, features: seq<string>): (r: seq<Column>)
    ensures forall col :: col in r <==> col in cols && col.name in features
  {
    if cols == [] then []
    else
      var init, last := cols[..|cols| - 1], cols[|cols| - 1];
      assert forall col :: col in cols <==> col in init || col == last;
      Listed(init, features) + (if last.name in features then [last] else [])
  }

  /** No column is called `n`. */
  predicate NoneNamed(cols: seq<Column>, n: string)
  {
    forall c :: c in cols ==> c.name != n
  }

  lemma {:induction false} WithoutAbsent(cols: seq<Column>, name: string)
    requires NoneNamed(cols, name)
    ensures Without(cols, name) == cols
  {
    if cols != [] {
      WithoutAbsent(cols[1..], name);
      assert cols == [cols[0]] + cols[1..];
    }
  }

  /** Dropping a name that occurs once, between columns without it, removes just that column. */
  lemma {:induction false} DropOnly(before: seq<Column>, col: Column, after: seq<Column>)
    requires NoneNamed(before, col.name) && NoneNamed(after, col.name)
    ensures Without(before + [col] + after, col.name) == before + after
  {
    if before == [] {
      assert before + [col] + after == [col] + after;
      WithoutAbsent(after, col.name);
    } else {
      var whole := before + [col] + after;
      assert whole[0] == before[0] && before[0] in before;
      assert whole[1..] == before[1..] + [col] + after;
      assert NoneNamed(before[1..], col.name);
      DropOnly(before[1..], col, after);
      assert before + after == [before[0]] + (before[1..] + after);
    }
  }

  /** With distinct names, the `i`-th name occurs neither among the listed earlier columns nor later. */
  lemma NameOccursOnce(cols: seq<Column>, i: nat, features: seq<string>)
    requires DistinctNames(cols) && i < |cols|
    ensures NoneNamed(Listed(cols[..i], features), cols[i].name)
    ensures NoneNamed(cols[i + 1..], cols[i].name)
  {
    forall c | c in Listed(cols[..i], features) ensures c.name != cols[i].name {
      var j :| 0 <= j < i && cols[..i][j] == c;
    }
    forall c | c in cols[i + 1..] ensures c.name != cols[i].name {
      var j :| 0 <= j < |cols[i + 1..]| && cols[i + 1..][j] == c;
      assert cols[i + 1 + j] == c;
    }
  }

  /** One step of the drop loop on a name that occurs once: a feature stays, any other column goes. */
  lemma DropStepOnce(rows: nat, before: seq<Column>, col: Column, after: seq<Column>, features: seq<string>)
    requires NoneNamed(before, col.name) && NoneNamed(after, col.name)
    ensures DropStep(Success(Frame(rows, before + [col] + after)), col.name, features)
      == Success(Frame(rows, before + (if col.name in features then [col] else []) + after))
  {
    if col.name in features {
      assert before + [col] + after == before + [col] + after;
    } else {
      assert col in before + [col] + after;
      DropOnly(before, col, after);
      assert before + [] + after == before + after;
    }
  }

  /** `Listed` over one more column of a prefix. */
  lemma ListedSnoc(cols: seq<Column>, i: nat, features: seq<string>)
    requires i < |cols|
    ensures Listed(cols[..i + 1], features)
      == Listed(cols[..i], features) + (if cols[i].name in features then [cols[i]] else [])
  {
    assert cols[..i + 1][..i] == cols[..i] && cols[..i + 1][i] == cols[i];
  }

  /** The drop loop visiting one more name, which occurs once in its current columns. */
  lemma DropNext(x: Frame, visited: seq<string>, before: seq<Column>, col: Column, after: seq<Column>,
                 features: seq<string>)
    requires DropEach(x, visited, features) == Success(Frame(x.rows, before + [col] + after))
    requires NoneNamed(before, col.name) && NoneNamed(after, col.name)
    ensures DropEach(x, visited + [col.name], features)
      == Success(Frame(x.rows, before + (if col.name in features then [col] else []) + after))
  {
    assert (visited + [col.name])[..|visited|] == visited;
    DropStepOnce(x.rows, before, col, after, features);
  }

  /** Before visiting any name the drop loop holds the frame unchanged. */
  lemma DropNothing(x: Frame, features: seq<string>)
    ensures DropEach(x, Names(x.columns)[..0], features)
      == Success(Frame(x.rows, Listed(x.columns[..0], features) + x.columns[0..]))
  {
    assert Names(x.columns)[..0] == [] && x.columns[..0] == [] && x.columns[0..] == x.columns;
    assert [] + x.columns == x.columns;
  }

  /** A prefix of the names extended by one. */
  lemma NamesSnoc(cols: seq<Column>, i: nat)
    requires i < |cols|
    ensures Names(cols)[..i + 1] == Names(cols)[..i] + [cols[i].name]
  {
    var names := Names(cols);
    var grown, pushed := names[..i + 1], names[..i] + [cols[i].name];
    forall k | 0 <= k < |grown| ensures grown[k] == pushed[k] {
      if k < i {
        assert pushed[k] == names[k];
      }
    }
    assert grown == pushed;
  }

  /** Splitting off the first column of a suffix. */
  lemma SplitAt(before: seq<Column>, cols: seq<Column>, i: nat)
    requires i < |cols|
    ensures before + cols[i..] == before + [cols[i]] + cols[i + 1..]
  {
    assert cols[i..] == [cols[i]] + cols[i + 1..];
  }

  /** With distinct names the drop loop never raises and keeps exactly the listed columns, in order. */
  lemma {:induction false} DropKeepsListed(x: Frame, i: nat, features: seq<string>)
    requires DistinctNames(x.columns) && i <= |x.columns|
    ensures DropEach(x, Names(x.columns)[..i], features)
      == Success(Frame(x.rows, Listed(x.columns[..i], features) + x.columns[i..]))
  {
    var names := Names(x.columns);
    if i == 0 {
      DropNothing(x, features);
    } else {
      DropKeepsListed(x, i - 1, features);
      var col := x.columns[i - 1];
      var before := Listed(x.columns[..i - 1], features);
      var kept := if col.name in features then [col] else [];
      NameOccursOnce(x.columns, i - 1, features);
      ListedSnoc(x.columns, i - 1, features);
      SplitAt(before, x.columns, i - 1);
      NamesSnoc(x.columns, i - 1);
      DropNext(x, names[..i - 1], before, col, x.columns[i..], features);
    }
  }

  /** After the drop loop every name is a feature, no feature column was lost, and order is kept. */
  lemma DropLoopCorrect(x: Frame, features: seq<string>)
    requires DistinctNames(x.columns)
    ensures DropEach(x, Names(x.columns), features) == Success(Frame(x.rows, Listed(x.columns, features)))
  {
    DropKeepsListed(x, |x.columns|, features);
    assert Names(x.columns)[..|x.columns|] == Names(x.columns);
    assert x.columns[..|x.columns|] == x.columns;
    assert x.columns[|x.columns|..] == [];
    assert Listed(x.columns, features) + [] == Listed(x.columns, features);
  }

  // ---------------------------------------------------------------------
  // Reporting missing features (predict.py:51-53)

  /** The features that are not column names, in feature-list order. */
  function MissingFeatures(features: seq<string>, present: seq<string>): (missing: seq<string>)
    ensures forall f :: f in missing <==> f in features && f !in present
  {
    if features == [] then []
    else
      var init, last := features[..|features| - 1], features[|features| - 1];
      assert forall f :: f in features <==> f in init || f == last;
      MissingFeatures(init, present) + (if last in present then [] else [last])
  }

  method ReportMissing(x: Frame, features: seq<string>) returns (missing: seq<string>)
    ensures missing == MissingFeatures(features, Names(x.columns))
  {
    missing := [];
    for i := 0 to |features|
      invariant missing == MissingFeatures(features[..i], Names(x.columns))
    {
      assert features[..i + 1][..i] == features[..i];
      if features[i] !in Names(x.columns) {
        missing := missing + [features[i]];
      }
    }
    assert features[..|features|] == features;
  }

  // ---------------------------------------------------------------------
  // Selecting in feature order (predict.py:55)

  /** `x_test[features]`: raises KeyError naming the missing features, else the columns in list order. */
  function SelectFeatures(x: Frame, features: seq<string>): (r: Result<Frame, PredictError>)
    ensures r.Success? <==> forall k :: 0 <= k < |features| ==> features[k] in Names(x.columns)
    ensures r.Failure? ==> r.error == KeyError(MissingFeatures(features, Names(x.columns)))
    ensures r.Success? ==> r.value.rows == x.rows && Names(r.value.columns) == features
    ensures r.Success? ==> forall k :: 0 <= k < |features| ==> Some(r.value.columns[k]) == FirstNamed(x.columns, features[k])
  {
    var missing := MissingFeatures(features, Names(x.columns));
    if missing != [] then
      assert missing[0] in missing;
      Failure(KeyError(missing))
    else
      assert forall k :: 0 <= k < |features| ==> features[k] in features;
      Success(Frame(x.rows, seq(|features|, k requires 0 <= k < |features| => FirstNamed(x.columns, features[k]).value)))
  }

  lemma SelectWellFormed(x: Frame, features: seq<string>)
    requires WellFormed(x) && SelectFeatures(x, features).Success?
    ensures WellFormed(SelectFeatures(x, features).value)
  {
    var r := SelectFeatures(x, features).value;
    forall k | 0 <= k < |r.columns| ensures r.columns[k].data.Length() == r.rows {
      var j :| 0 <= j < |x.columns| && x.columns[j] == r.columns[k];
    }
  }

  // ---------------------------------------------------------------------
  // The submission (predict.py:57-59)

  /** `submission_df["isFraud"] = y_prob`: pandas refuses a column of the wrong length. */
  function AddTarget(ids: Frame, probs: seq<real>): (r: Result<Frame, PredictError>)
    ensures r.Failure? <==> |probs| != ids.rows
    ensures r.Success? ==> r.value.rows == ids.rows && Names(r.value.columns) == Names(ids.columns) + [TargetColumn]
    ensures r.Success? ==> r.value.columns[..|ids.columns|] == ids.columns
    ensures r.Success? ==> r.value.columns[|ids.columns|].data == FloatColumn(64, probs)
  {
    if |probs| != ids.rows then Failure(LengthMismatch(ids.rows, |probs|))
    // the ids frame holds only TransactionID columns, so the target is a new column at the end
    else Success(Frame(ids.rows, ids.columns + [Column(TargetColumn, FloatColumn(64, probs))]))
  }

  /** The feature matrix after dedupe and the drop loop (`match_features` is the identity here). */
  function Reconciled(x: Frame, features: seq<string>): Frame
  {
    Frame(x.rows, Listed(KeepFirst(x.columns), features))
  }

  /** Filtering by the feature list keeps a name exactly when it is a feature. */
  lemma ListedNames(cols: seq<Column>, features: seq<string>)
    ensures forall n :: n in Names(Listed(cols, features)) <==> n in features && n in Names(cols)
  {
    var r := Listed(cols, features);
    forall n ensures n in Names(r) <==> n in features && n in Names(cols) {
      if n in Names(r) {
        var k :| 0 <= k < |r| && r[k].name == n;
        assert r[k] in r;
      }
      if n in features && n in Names(cols) {
        var k :| 0 <= k < |cols| && cols[k].name == n;
        assert cols[k] in cols;
        assert cols[k] in r;
        var j :| 0 <= j < |r| && r[j] == cols[k];
        assert Names(r)[j] == n;
      }
    }
  }

  lemma ListedDistinct(cols: seq<Column>, features: seq<string>)
    requires DistinctNames(cols)
    ensures DistinctNames(Listed(cols, features))
  {
    var r := Listed(cols, features);
    forall i, j | 0 <= i < j < |r| ensures r[i].name != r[j].name {
      ListedSubsequence(cols, features, i, j);
    }
  }

  lemma ListedWellFormed(x: Frame, features: seq<string>)
    requires WellFormed(x)
    ensures WellFormed(Frame(x.rows, Listed(x.columns, features)))
  {
    var r := Listed(x.columns, features);
    forall k | 0 <= k < |r| ensures r[k].data.Length() == x.rows {
      assert r[k] in r;
      var j :| 0 <= j < |x.columns| && x.columns[j] == r[k];
    }
  }

  /**
   * The reconciled matrix has the input's row count, only feature names,
   * each once, and every feature that was a column is still there.
   */
  lemma ReconciledCorrect(x: Frame, features: seq<string>)
    ensures var r := Reconciled(x, features);
      && r.rows == x.rows
      && DistinctNames(r.columns)
      && (forall n :: n in Names(r.columns) <==> n in features && n in Names(x.columns))
      && (WellFormed(x) ==> WellFormed(r))
  {
    var kept := KeepFirst(x.columns);
    KeepFirstCorrect(x.columns);
    ListedNames(kept, features);
    ListedDistinct(kept, features);
    if WellFormed(x) {
      KeepFirstWellFormed(x);
      ListedWellFormed(Frame(x.rows, kept), features);
    }
  }

  /** Two positions of a filtered list come from two distinct positions of the original. */
  lemma {:induction false} ListedSubsequence(cols: seq<Column>, features: seq<string>, i: nat, j: nat)
    requires DistinctNames(cols)
    requires i < j < |Listed(cols, features)|
    ensures Listed(cols, features)[i].name != Listed(cols, features)[j].name
  {
    var init, last := cols[..|cols| - 1], cols[|cols| - 1];
    var before := Listed(init, features);
    assert DistinctNames(init);
    if j < |before| {
      ListedSubsequence(init, features, i, j);
    } else {
      assert Listed(cols, features)[j] == last;
      assert Listed(cols, features)[i] == before[i] && before[i] in before;
      var k :| 0 <= k < |init| && init[k] == before[i];
      assert cols[k] == init[k];
    }
  }

  /** What predict.py computes from the merged test frame: the missing report and the submission. */
  function PredictSpec(testDf: Frame, features: seq<string>, score: Frame -> seq<real>)
    : (seq<string>, Result<Frame, PredictError>)
  {
    match SplitIds(testDf)
    case Failure(e) => ([], Failure(e))
    case Success((ids, x)) =>
      var matrix := Reconciled(x, features);
      var missing := MissingFeatures(features, Names(matrix.columns));
      match SelectFeatures(matrix, features)
      case Failure(e) => (missing, Failure(e))
      case Success(selected) => (missing, AddTarget(ids, score(selected)))
  }

  /**
   * predict.py from line 42 on. `score` stands for the trained model's
   * `predict_proba(...)[:, 1]`.
   */
  method RunPrediction(testDf: Frame, features: seq<string>, score: Frame -> seq<real>)
    returns (missing: seq<string>, submission: Result<Frame, PredictError>)
    ensures (missing, submission) == PredictSpec(testDf, features, score)
  {
    missing := [];
    match SplitIds(testDf)
    case Failure(e) =>
      submission := Failure(e);
    case Success((ids, x0)) =>
      var x := DedupeColumns(x0);
      KeepFirstCorrect(x0.columns);
      var dropped := DropUnneeded(x, features);
      DropLoopCorrect(x, features);
      var matrix := dropped.value;
      missing := ReportMissing(matrix, features);
      match SelectFeatures(matrix, features)
      case Failure(e) =>
        submission := Failure(e);
      case Success(selected) =>
        submission := AddTarget(ids, score(selected));
  }

  /**
   * With one TransactionID column, the submission has one row per test row
   * and the columns TransactionID and isFraud; a reported missing feature
   * makes the selection raise KeyError naming exactly the reported features,
   * and with none missing the only failure left is a score of the wrong length.
   */
  lemma SubmissionShape(testDf: Frame, features: seq<string>, score: Frame -> seq<real>)
    requires |Named(testDf.columns, IdColumn)| == 1
    ensures var (missing, submission) := PredictSpec(testDf, features, score);
      && (submission.Success? ==>
            submission.value.rows == testDf.rows && Names(submission.value.columns) == [IdColumn, TargetColumn])
      && (submission.Failure? && missing != [] ==> submission.error == KeyError(missing))
      && (missing != [] ==> submission.Failure?)
      && (submission.Failure? && missing == [] ==> submission.error.LengthMismatch?)
  {
    var ids := Named(testDf.columns, IdColumn);
    assert ids[0] in ids;
    assert Names(ids) == [IdColumn];
  }
}
