/**
 * The race-record cleaning pipeline: the schema the cleaned table follows,
 * the schema gate, the field cleaning that turns raw rows into model-ready
 * rows, the per-race consistency gate, and the chronological ordering.
 * Raised `ValueError`s (and the `TypeError` a bad comparison raises) become
 * `Error` values.
 */
module Cleaning {
  import opened Common
  import opened PyValues
  import opened PySeries
  import opened Ordering
  import opened ApiTypes
  import opened Frame
  import opened Normalize

  // ---------------------------------------------------------------------
  // The schema
  // ---------------------------------------------------------------------

  /** `SchemaConfig`: the required columns, each with its declared dtype name, in declaration order. */
  datatype SchemaConfig = SchemaConfig(requiredColumns: seq<(string, string)>)

  /** `SCHEMA`, built from `REQUIRED_COLUMNS`. */
  const Schema := SchemaConfig([
    ("race_id", "int"),
    ("horse_id", "int"),
    ("date", "datetime64[ns]"),
    ("race_time", "datetime64[ns]"),
    ("racecourse", "object"),
    ("race_type_simple", "object"),
    ("distance", "float"),
    ("n_runners", "int"),
    ("draw", "float"),
    ("age", "float"),
    ("weight_lbs", "float"),
    ("finish_position", "Int64")
  ])

  /** `OBS_PREFIX`: the prefix of the post-race observation columns. */
  const ObsPrefix := "obs__"

  /** The observation column that carries the finish position. */
  const FinishSource := "obs__finish_position"

  /** `SchemaConfig.ordered_columns`: the names of the required columns, in declaration order. */
  function OrderedColumns(cfg: SchemaConfig): (cols: seq<string>)
    ensures |cols| == |cfg.requiredColumns|
    ensures forall i :: 0 <= i < |cols| ==> cols[i] == cfg.requiredColumns[i].0
  {
    seq(|cfg.requiredColumns|, i requires 0 <= i < |cfg.requiredColumns| => cfg.requiredColumns[i].0)
  }

  const Ordered := OrderedColumns(Schema)

  /** The twelve output column names. */
  const OutputNames := ["race_id", "horse_id", "date", "race_time", "racecourse", "race_type_simple",
                        "distance", "n_runners", "draw", "age", "weight_lbs", "finish_position"]

  /** The twelve output columns are distinct and none of them is an observation column. */
  lemma SchemaColumns()
    ensures Ordered == OutputNames
    ensures Distinct(Ordered)
    ensures forall c :: c in Ordered ==> !StartsWith(c, ObsPrefix)
  {
    OrderedNames();
    NamesDistinct();
    NamesUnobserved();
  }

  /** No output column is named twice. */
  lemma OrderedDistinct()
    ensures Distinct(Ordered)
  {
    SchemaColumns();
  }

  /** SchemaConfig.ordered_columns of the default schema lists the twelve output names. */
  lemma OrderedNames()
    ensures Ordered == OutputNames
  {
  }

  /** No output name occurs twice. */
  lemma NamesDistinct()
    ensures Distinct(OutputNames)
  {
    var names := OutputNames;
    forall i, j | 0 <= i < j < |names| ensures names[i] != names[j] {
      assert |names[i]| != |names[j]| || names[i][0] != names[j][0] || names[i][1] != names[j][1];
    }
  }

  /** No output name starts with obs__. */
  lemma NamesUnobserved()
    ensures forall c :: c in OutputNames ==> !StartsWith(c, ObsPrefix)
  {
    var names := OutputNames;
    forall c | c in names ensures !StartsWith(c, ObsPrefix) {
      var i :| 0 <= i < |names| && names[i] == c;
      assert c[0] != 'o';
    }
  }

  /** What the pipeline raises. */
  datatype Error =
    | MissingColumns(missing: set<string>)
    | WrongKind(col: string, dtype: DType)
    | DuplicatePairs
    | FinishColumnMissing
    | InconsistentField(race: Value, field: string)
    | RunnerCount(race: Value, expected: Value, count: nat)
    | FinishOutOfRange(race: Value)
    | Unorderable(race: Value)          // the TypeError of comparing a non-number with a number

  datatype Result<T> = Ok(value: T) | Err(error: Error)

  // ---------------------------------------------------------------------
  // validate_schema
  // ---------------------------------------------------------------------

  /** The two columns that identify a runner. */
  const IdColumns := ["race_id", "horse_id"]

  /** The dtype test `validate_schema` applies to a column declared as `expected`. */
  predicate KindAccepted(expected: string, s: Series) {
    var obj := SeriesObj(s);
    if StartsWith(expected, "datetime") then IsDatetime64AnyDtype(obj) || IsObjectDtype(obj)
    else if expected == "Int64" then DTypeEquals(Dtype(s), "Int64") || IsIntegerDtype(obj) || IsObjectDtype(obj)
    else if expected == "int" then IsIntegerDtype(obj) || IsObjectDtype(obj)
    else if expected == "float" then IsFloatDtype(obj) || IsObjectDtype(obj)
    else if expected == "object" then KindCode(Dtype(s).kind) in {"O", "U", "S"}
    else true
  }

  /**
   * Which dtype kinds each declared type accepts: its own kind or, as a
   * fallback, object; an "object" column only object.
   */
  lemma KindAcceptedByKind(s: Series)
    ensures KindAccepted("datetime64[ns]", s) <==> Dtype(s).kind in {DatetimeKind, ObjectKind}
    ensures KindAccepted("Int64", s) <==> Dtype(s).kind in {IntKind, ObjectKind}
    ensures KindAccepted("int", s) <==> Dtype(s).kind in {IntKind, ObjectKind}
    ensures KindAccepted("float", s) <==> Dtype(s).kind in {FloatKind, ObjectKind}
    ensures KindAccepted("object", s) <==> Dtype(s).kind == ObjectKind
  {
    PredicatesReadTheKind(SeriesObj(s));
    NoDtypeEqualsInt64(s);
    assert StartsWith("datetime64[ns]", "datetime");
    assert !StartsWith("Int64", "datetime") && !StartsWith("int", "datetime");
    assert !StartsWith("float", "datetime") && !StartsWith("object", "datetime");
  }

  /** The first declared column present in `columns` whose dtype is not accepted, as the error raised for it. */
  function FirstRejected(rows: seq<Row>, columns: seq<string>, req: seq<(string, string)>): (e: Option<Error>)
    ensures e.None? <==>
      forall k :: 0 <= k < |req| && req[k].0 in columns ==> KindAccepted(req[k].1, ColumnOf(rows, req[k].0))
    ensures e.Some? ==> exists k :: (0 <= k < |req| && req[k].0 in columns &&
      !KindAccepted(req[k].1, ColumnOf(rows, req[k].0)) && e.value == WrongKind(req[k].0, Dtype(ColumnOf(rows, req[k].0))))
  {
    if |req| == 0 then None
    else if req[0].0 in columns && !KindAccepted(req[0].1, ColumnOf(rows, req[0].0)) then
      Some(WrongKind(req[0].0, Dtype(ColumnOf(rows, req[0].0))))
    else
      var e := FirstRejected(rows, columns, req[1..]);
      assert forall k :: 1 <= k < |req| ==> req[k] == req[1..][k - 1];
      e
  }

  /** A declared column that is absent, or present with an accepted dtype. */
  predicate KindPasses(rows: seq<Row>, columns: seq<string>, req: (string, string)) {
    req.0 in columns ==> KindAccepted(req.1, ColumnOf(rows, req.0))
  }

  /**
   * The column reported is the first rejected one: every declared column
   * before it is absent or passes its dtype test.
   */
  lemma {:induction false} FirstRejectedIsFirst(rows: seq<Row>, columns: seq<string>, req: seq<(string, string)>)
    ensures var e := FirstRejected(rows, columns, req);
      e.Some? ==> exists k :: (0 <= k < |req| && e.value == WrongKind(req[k].0, Dtype(ColumnOf(rows, req[k].0))) &&
        forall p :: 0 <= p < k ==> KindPasses(rows, columns, req[p]))
    decreases |req|
  {
    var e := FirstRejected(rows, columns, req);
    if e.Some? && KindPasses(rows, columns, req[0]) {
      var rest := req[1..];
      FirstRejectedIsFirst(rows, columns, rest);
      assert e == FirstRejected(rows, columns, rest);
      var k :| 0 <= k < |rest| && e.value == WrongKind(rest[k].0, Dtype(ColumnOf(rows, rest[k].0))) &&
        forall p :: 0 <= p < k ==> KindPasses(rows, columns, rest[p]);
      assert req[k + 1] == rest[k];
      forall p | 0 <= p < k + 1 ensures KindPasses(rows, columns, req[p]) {
        if p > 0 { assert req[p] == rest[p - 1]; }
      }
    }
  }

  /** Some runner, identified by (race_id, horse_id), appears twice. */
  predicate HasDuplicatePair(rows: seq<Row>) {
    exists i, j :: 0 <= j < i < |rows| && KeyEq(RowKey(rows[j], IdColumns), RowKey(rows[i], IdColumns))
  }

  /** The outcome of `validate_schema`: missing columns first, then dtype kinds in declaration order, then duplicates. */
  function SchemaVerdict(rows: seq<Row>, columns: seq<string>): Option<Error> {
    var missing := set c | c in Ordered && c !in columns;
    if missing != {} then Some(MissingColumns(missing))
    else
      match FirstRejected(rows, columns, Schema.requiredColumns)
      case Some(e) => Some(e)
      case None => if HasDuplicatePair(rows) then Some(DuplicatePairs) else None
  }

  /**
   * The schema gate passes exactly when every required column is present,
   * every column's dtype kind is accepted and no (race_id, horse_id) pair
   * repeats.
   */
  lemma SchemaVerdictPasses(rows: seq<Row>, columns: seq<string>)
    ensures SchemaVerdict(rows, columns).None? <==>
      (forall c :: c in Ordered ==> c in columns) &&
      (forall k :: 0 <= k < |Schema.requiredColumns| ==>
         KindAccepted(Schema.requiredColumns[k].1, ColumnOf(rows, Schema.requiredColumns[k].0))) &&
      !HasDuplicatePair(rows)
    ensures (exists c :: c in Ordered && c !in columns) ==> SchemaVerdict(rows, columns).value.MissingColumns?
  {
    var missing := set c | c in Ordered && c !in columns;
    if missing == {} {
      forall k | 0 <= k < |Schema.requiredColumns| ensures Schema.requiredColumns[k].0 in columns {
        assert Ordered[k] in Ordered && Ordered[k] !in missing;
      }
    } else {
      var c :| c in missing;
      assert c in Ordered && c !in columns;
    }
  }

  /** `validate_schema(df)`: None when the gate passes, else the error it raises. */
  method ValidateSchema(df: DataFrame) returns (err: Option<Error>)
    ensures err == SchemaVerdict(df.rows, df.columns)
  {
    var missing := set c | c in Ordered && c !in df.columns;
    if missing != {} {
      return Some(MissingColumns(missing));
    }
    err := CheckKinds(df, Schema.requiredColumns);
    if err.Some? {
      return err;
    }
    var flags := df.Duplicated(IdColumns);
    if Any(flags) {
      assert HasDuplicatePair(df.rows) by {
        var i :| 0 <= i < |flags.data| && Truthy(flags.data[i]);
        var j :| 0 <= j < i && KeyEq(RowKey(df.rows[j], IdColumns), RowKey(df.rows[i], IdColumns));
      }
      return Some(DuplicatePairs);
    }
    assert !HasDuplicatePair(df.rows) by {
      forall i, j | 0 <= j < i < |df.rows| ensures !KeyEq(RowKey(df.rows[j], IdColumns), RowKey(df.rows[i], IdColumns)) {
        assert !Truthy(flags.data[i]);
      }
    }
    return None;
  }

  /** The loop over the declared columns: the dtype test of each one present, stopping at the first that fails. */
  method CheckKinds(df: DataFrame, req: seq<(string, string)>) returns (err: Option<Error>)
    ensures err == FirstRejected(df.rows, df.columns, req)
  {
    var i := 0;
    while i < |req|
      invariant 0 <= i <= |req|
      invariant FirstRejected(df.rows, df.columns, req[i..]) == FirstRejected(df.rows, df.columns, req)
    {
      assert req[i..][1..] == req[i + 1..];
      var col := req[i].0;
      var expected := req[i].1;
      if col in df.columns {
        var s := df.Column(col);
        if !KindAccepted(expected, s) {
          return Some(WrongKind(col, Dtype(s)));
        }
      }
      i := i + 1;
    }
    return None;
  }

  // ---------------------------------------------------------------------
  // clean_fields
  // ---------------------------------------------------------------------

  /** The columns a cleaned row must hold a value in. */
  const Essentials := ["race_id", "horse_id", "date", "race_time", "n_runners", "distance"]

  /**
   * The observation columns the leakage loop drops when it walks `cols`:
   * every obs__ column except the first obs__finish_position, which is kept
   * to read the finish positions from.
   */
  function Leaked(cols: seq<string>): (out: seq<string>)
    ensures forall c :: c in out ==> StartsWith(c, ObsPrefix)
  {
    if |cols| == 0 then []
    else
      var front := cols[..|cols| - 1];
      var c := cols[|cols| - 1];
      Leaked(front) + (if StartsWith(c, ObsPrefix) && !(c == FinishSource && FinishSource !in front) then [c] else [])
  }

  /** One more column for the leakage loop to walk. */
  lemma LeakedSnoc(cols: seq<string>, i: nat)
    requires i < |cols|
    ensures Leaked(cols[..i + 1]) == Leaked(cols[..i]) +
      (if StartsWith(cols[i], ObsPrefix) && !(cols[i] == FinishSource && FinishSource !in cols[..i]) then [cols[i]] else [])
    ensures FinishSource in cols[..i + 1] <==> FinishSource in cols[..i] || cols[i] == FinishSource
  {
    assert cols[..i + 1][..i] == cols[..i] && cols[..i + 1][i] == cols[i];
    assert cols[..i + 1] == cols[..i] + [cols[i]];
  }

  /** One step of the leakage loop, with `fromObs` recording whether obs__finish_position came before. */
  lemma LeakStep(cols: seq<string>, i: nat, fromObs: bool)
    requires i < |cols| && (fromObs <==> FinishSource in cols[..i])
    ensures Leaked(cols[..i + 1]) == Leaked(cols[..i]) +
      (if StartsWith(cols[i], ObsPrefix) && !(cols[i] == FinishSource && !fromObs) then [cols[i]] else [])
    ensures FinishSource in cols[..i + 1] <==> fromObs || cols[i] == FinishSource
    ensures cols[i] == FinishSource ==> StartsWith(cols[i], ObsPrefix)
  {
    LeakedSnoc(cols, i);
    assert StartsWith(FinishSource, ObsPrefix) by {
      assert FinishSource[..|ObsPrefix|] == ObsPrefix;
    }
  }

  /** The leakage loop of `clean_fields`: drop the obs__ columns, noting whether obs__finish_position is there. */
  method DropObservations(df: DataFrame) returns (out: DataFrame, fromObs: bool)
    ensures out == df || fresh(out)
    ensures fromObs <==> FinishSource in df.columns
    ensures out.rows == DropColumns(df.rows, Leaked(df.columns))
    ensures out == df || out.columns == FirstRowKeys(out.rows)
  {
    out := df;
    fromObs := false;
    var cols := df.columns;
    ghost var leaked: seq<string> := [];
    DropNoColumns(df.rows);
    var i := 0;
    while i < |cols|
      invariant 0 <= i <= |cols|
      invariant out == df || fresh(out)
      invariant fromObs <==> FinishSource in cols[..i]
      invariant leaked == Leaked(cols[..i])
      invariant out.rows == DropColumns(df.rows, leaked)
      invariant out == df || out.columns == FirstRowKeys(out.rows)
    {
      LeakStep(cols, i, fromObs);
      assert leaked + [] == leaked;
      var col := cols[i];
      if StartsWith(col, ObsPrefix) {
        if col == FinishSource && !fromObs {
          fromObs := true;
        } else {
          DropColumnsTwice(df.rows, leaked, [col]);
          out := out.Drop([col]);
          leaked := leaked + [col];
        }
      }
      i := i + 1;
    }
    assert cols[..|cols|] == cols;
  }

  /** The source of the finish positions: obs__finish_position when present, else finish_position. */
  function FinishColumn(fromObs: bool): string {
    if fromObs then FinishSource else "finish_position"
  }

  /** `pd.to_numeric(v, errors="coerce")`. */
  function AsFloat(v: Value): (r: Value)
    ensures r.Null? || r.Float?
  {
    CastValue(v, FloatCast)
  }

  /** `pd.to_numeric(v, errors="coerce")` followed by `.astype("Int64")`. */
  function WholeNumber(v: Value): (r: Value)
    ensures r.Null? || r.Int?
  {
    CastValue(AsFloat(v), IntCast)
  }

  /** A row after the date and race_time assignments. */
  function Dated(r: Row, parseTime: Value -> Option<int>): Row {
    var a := Set(r, "date", DatetimeValue(Get(r, "date"), parseTime));
    Set(a, "race_time", DatetimeValue(Get(a, "race_time"), parseTime))
  }

  /** A row after the age and draw assignments. */
  function Coerced(r: Row): Row {
    var a := Set(r, "age", AsFloat(Get(r, "age")));
    Set(a, "draw", AsFloat(Get(a, "draw")))
  }

  /** A row after the two weight_lbs assignments. */
  function Weighed(r: Row): Row {
    var a := Set(r, "weight_lbs", ParseWeight(Get(r, "weight_lbs")));
    Set(a, "weight_lbs", AsFloat(Get(a, "weight_lbs")))
  }

  /** A row after the two distance assignments. */
  function Measured(r: Row, showTime: int -> string): Row {
    var a := Set(r, "distance", DistanceOf(Get(r, "distance"), showTime));
    Set(a, "distance", AsFloat(Get(a, "distance")))
  }

  /** A row after the n_runners assignment. */
  function Counted(r: Row): Row {
    Set(r, "n_runners", WholeNumber(Get(r, "n_runners")))
  }

  /** A row after the age, draw, weight, distance and runner-count assignments. */
  function Numbers(r: Row, showTime: int -> string): Row {
    Counted(Measured(Weighed(Coerced(r)), showTime))
  }

  /** A row after the two finish_position assignments, reading the finish from `source`. */
  function Finished(r: Row, source: string): Row {
    var a := Set(r, "finish_position", AsFloat(StandardizeFinish(Get(r, source))));
    Set(a, "finish_position", CastValue(RoundValue(Get(a, "finish_position")), IntCast))
  }

  /** The rows after the conversions of `clean_fields`, obs__finish_position dropped when it was the source. */
  function ConvertedRows(rows: seq<Row>, fromObs: bool, parseTime: Value -> Option<int>, showTime: int -> string): seq<Row> {
    var finished := seq(|rows|, i requires 0 <= i < |rows| =>
      Finished(Numbers(Dated(rows[i], parseTime), showTime), FinishColumn(fromObs)));
    if fromObs then DropColumns(finished, [FinishSource]) else finished
  }

  /** A finish position as `clean_fields` leaves it: standardised, as a float, rounded half to even, as an integer. */
  function FinishValue(v: Value): (r: Value)
    ensures r.Null? || r.Int?
  {
    CastValue(RoundValue(AsFloat(StandardizeFinish(v))), IntCast)
  }

  /** The date and race_time assignments: parsed times, every other entry as it was. */
  lemma DatedValues(r: Row, parseTime: Value -> Option<int>)
    ensures Get(Dated(r, parseTime), "date") == DatetimeValue(Get(r, "date"), parseTime)
    ensures Get(Dated(r, parseTime), "race_time") == DatetimeValue(Get(r, "race_time"), parseTime)
    ensures forall k :: k != "date" && k != "race_time" ==> Get(Dated(r, parseTime), k) == Get(r, k)
  {
    var a := Set(r, "date", DatetimeValue(Get(r, "date"), parseTime));
    assert Get(a, "date") == DatetimeValue(Get(r, "date"), parseTime);
    assert Get(a, "race_time") == Get(r, "race_time");
  }

  /** The age and draw assignments: coerced numbers, every other entry as it was. */
  lemma CoercedValues(r: Row)
    ensures Get(Coerced(r), "age") == AsFloat(Get(r, "age"))
    ensures Get(Coerced(r), "draw") == AsFloat(Get(r, "draw"))
    ensures forall k :: k != "age" && k != "draw" ==> Get(Coerced(r), k) == Get(r, k)
  {
    var a := Set(r, "age", AsFloat(Get(r, "age")));
    assert Get(a, "draw") == Get(r, "draw");
    assert Get(Coerced(r), "age") == Get(a, "age");
  }

  /** The weight_lbs assignments: the parsed weight as a float, every other entry as it was. */
  lemma WeighedValues(r: Row)
    ensures Get(Weighed(r), "weight_lbs") == AsFloat(ParseWeight(Get(r, "weight_lbs")))
    ensures forall k :: k != "weight_lbs" ==> Get(Weighed(r), k) == Get(r, k)
  {
  }

  /** The distance assignments: the parsed distance as a float, every other entry as it was. */
  lemma MeasuredValues(r: Row, showTime: int -> string)
    ensures Get(Measured(r, showTime), "distance") == AsFloat(DistanceOf(Get(r, "distance"), showTime))
    ensures forall k :: k != "distance" ==> Get(Measured(r, showTime), k) == Get(r, k)
  {
  }

  /** The finish_position assignments: the converted finish, every other entry as it was. */
  lemma FinishedValues(r: Row, source: string)
    ensures Get(Finished(r, source), "finish_position") == FinishValue(Get(r, source))
    ensures forall k :: k != "finish_position" ==> Get(Finished(r, source), k) == Get(r, k)
  {
  }

  /** A number or None: what `> 0` can compare. */
  predicate NumberOrNull(v: Value) {
    v.Null? || IsNumeric(v)
  }

  /** The comparisons `> 0` of `clean_fields` need a number or None in age, distance and n_runners. */
  predicate Orderable(r: Row) {
    NumberOrNull(Get(r, "age")) && NumberOrNull(Get(r, "distance")) && NumberOrNull(Get(r, "n_runners"))
  }

  /** After the numeric assignments, age, distance and n_runners hold a number or None. */
  lemma NumbersKinds(r: Row, showTime: int -> string)
    ensures Orderable(Numbers(r, showTime))
  {
    var a := Coerced(r);
    var b := Weighed(a);
    CoercedValues(r);
    WeighedValues(a);
    MeasuredValues(b, showTime);
  }

  /** The finish_position assignments keep a row comparable and leave an integer finish or None. */
  lemma FinishedKinds(r: Row, source: string)
    requires Orderable(r)
    ensures Orderable(Finished(r, source))
    ensures IntegerFinish(Finished(r, source))
  {
    FinishedValues(r, source);
  }

  /** Every converted row can be compared with 0 in age, distance and n_runners, and holds an integer finish or None. */
  lemma ConvertedRowKinds(r: Row, source: string, parseTime: Value -> Option<int>, showTime: int -> string)
    ensures var c := Finished(Numbers(Dated(r, parseTime), showTime), source);
      Orderable(c) && IntegerFinish(c) && TimedRow(c)
  {
    var n := Numbers(Dated(r, parseTime), showTime);
    NumbersKinds(Dated(r, parseTime), showTime);
    FinishedKinds(n, source);
    ConvertedRowTimed(r, source, parseTime, showTime);
  }

  /** The conversions leave date and race_time a datetime or None. */
  lemma ConvertedRowTimed(r: Row, source: string, parseTime: Value -> Option<int>, showTime: int -> string)
    ensures TimedRow(Finished(Numbers(Dated(r, parseTime), showTime), source))
  {
    var d := Dated(r, parseTime);
    var n := Numbers(d, showTime);
    DatedValues(r, parseTime);
    NumbersKeep(d, showTime, "date");
    NumbersKeep(d, showTime, "race_time");
    TimesAgree(d, n);
    FinishedKeeps(n, source, "date");
    FinishedKeeps(n, source, "race_time");
    TimesAgree(n, Finished(n, source));
  }

  /** The finish assignments change no other column. */
  lemma FinishedKeeps(r: Row, source: string, k: string)
    requires k != "finish_position"
    ensures Get(Finished(r, source), k) == Get(r, k)
  {
    FinishedValues(r, source);
  }

  /** The numeric assignments leave every other column as it was. */
  lemma NumbersKeep(r: Row, showTime: int -> string, k: string)
    requires k != "age" && k != "draw" && k != "weight_lbs" && k != "distance" && k != "n_runners"
    ensures Get(Numbers(r, showTime), k) == Get(r, k)
  {
    var a := Coerced(r);
    var b := Weighed(a);
    var c := Measured(b, showTime);
    CoercedValues(r);
    WeighedValues(a);
    MeasuredValues(b, showTime);
    assert Get(Counted(c), k) == Get(c, k);
  }

  /** The same holds of every row of `ConvertedRows`. */
  lemma ConvertedKinds(rows: seq<Row>, fromObs: bool, parseTime: Value -> Option<int>, showTime: int -> string)
    ensures forall c :: c in ConvertedRows(rows, fromObs, parseTime, showTime) ==>
      Orderable(c) && IntegerFinish(c) && TimedRow(c)
  {
    var out := ConvertedRows(rows, fromObs, parseTime, showTime);
    forall i | 0 <= i < |out|
      ensures Orderable(out[i]) && IntegerFinish(out[i]) && TimedRow(out[i])
    {
      var c := Finished(Numbers(Dated(rows[i], parseTime), showTime), FinishColumn(fromObs));
      ConvertedRowKinds(rows[i], FinishColumn(fromObs), parseTime, showTime);
      if fromObs {
        KindsWithoutObs(c);
      }
    }
  }

  /** Dropping obs__finish_position keeps the kinds of the other columns. */
  lemma KindsWithoutObs(r: Row)
    requires Orderable(r) && IntegerFinish(r) && TimedRow(r)
    ensures Orderable(DropKeys(r, [FinishSource])) && IntegerFinish(DropKeys(r, [FinishSource]))
    ensures TimedRow(DropKeys(r, [FinishSource]))
  {
    var d := DropKeys(r, [FinishSource]);
    KeptByDrop(r, [FinishSource], "age");
    KeptByDrop(r, [FinishSource], "distance");
    KeptByDrop(r, [FinishSource], "n_runners");
    KeptByDrop(r, [FinishSource], "finish_position");
    KeptByDrop(r, [FinishSource], "date");
    KeptByDrop(r, [FinishSource], "race_time");
    KindsAgree(r, d);
    TimesAgree(r, d);
  }

  /** Dropping columns keeps every other column's value. */
  lemma KeptByDrop(r: Row, cols: seq<string>, k: string)
    requires k !in cols
    ensures Get(DropKeys(r, cols), k) == Get(r, k)
  {
  }

  /** A row that agrees with `a` on age, distance, n_runners and finish_position has its kinds. */
  lemma KindsAgree(a: Row, b: Row)
    requires Orderable(a) && IntegerFinish(a)
    requires Get(b, "age") == Get(a, "age") && Get(b, "distance") == Get(a, "distance")
    requires Get(b, "n_runners") == Get(a, "n_runners") && Get(b, "finish_position") == Get(a, "finish_position")
    ensures Orderable(b) && IntegerFinish(b)
  {
  }

  /** The date and race_time assignments of `clean_fields`. */
  method ConvertDates(df: DataFrame, parseTime: Value -> Option<int>)
    modifies df
    ensures |df.rows| == |old(df.rows)|
    ensures forall i :: 0 <= i < |df.rows| ==> df.rows[i] == Dated(old(df.rows)[i], parseTime)
  {
    var date := ToDatetime(df.Column("date"), parseTime);
    df.SetItem("date", ColumnValues(date));
    var raceTime := ToDatetime(df.Column("race_time"), parseTime);
    df.SetItem("race_time", ColumnValues(raceTime));
  }

  /** The numeric assignments of `clean_fields`: age, draw, weight_lbs, distance and n_runners. */
  method ConvertNumbers(df: DataFrame, showTime: int -> string)
    modifies df
    ensures |df.rows| == |old(df.rows)|
    ensures forall i :: 0 <= i < |df.rows| ==> df.rows[i] == Numbers(old(df.rows)[i], showTime)
  {
    ConvertAgeDraw(df);
    ConvertWeight(df);
    ConvertDistance(df, showTime);
    ConvertRunners(df);
  }

  /** The age and draw assignments: both coerced to numbers. */
  method ConvertAgeDraw(df: DataFrame)
    modifies df
    ensures |df.rows| == |old(df.rows)|
    ensures forall i :: 0 <= i < |df.rows| ==> df.rows[i] == Coerced(old(df.rows)[i])
  {
    var age := ToNumeric(df.Column("age"));
    df.SetItem("age", ColumnValues(age));
    var draw := ToNumeric(df.Column("draw"));
    df.SetItem("draw", ColumnValues(draw));
  }

  /** The weight_lbs assignments: parsed, then coerced to numbers. */
  method ConvertWeight(df: DataFrame)
    modifies df
    ensures |df.rows| == |old(df.rows)|
    ensures forall i :: 0 <= i < |df.rows| ==> df.rows[i] == Weighed(old(df.rows)[i])
  {
    df.SetItem("weight_lbs", ColumnValues(Apply(df.Column("weight_lbs"), ParseWeight)));
    var weight := ToNumeric(df.Column("weight_lbs"));
    df.SetItem("weight_lbs", ColumnValues(weight));
  }

  /** The distance assignments: parsed, then coerced to numbers. */
  method ConvertDistance(df: DataFrame, showTime: int -> string)
    modifies df
    ensures |df.rows| == |old(df.rows)|
    ensures forall i :: 0 <= i < |df.rows| ==> df.rows[i] == Measured(old(df.rows)[i], showTime)
  {
    df.SetItem("distance", ColumnValues(Apply(df.Column("distance"), v => DistanceOf(v, showTime))));
    var distance := ToNumeric(df.Column("distance"));
    df.SetItem("distance", ColumnValues(distance));
  }

  /** The n_runners assignment: coerced to numbers, then to integers. */
  method ConvertRunners(df: DataFrame)
    modifies df
    ensures |df.rows| == |old(df.rows)|
    ensures forall i :: 0 <= i < |df.rows| ==> df.rows[i] == Counted(old(df.rows)[i])
  {
    var runners := ToNumeric(df.Column("n_runners"));
    runners := AsType(runners, IntCast);
    df.SetItem("n_runners", ColumnValues(runners));
  }

  /** The finish_position assignments of `clean_fields`, reading the finish from `source`. */
  method ConvertFinish(df: DataFrame, source: string)
    modifies df
    ensures |df.rows| == |old(df.rows)|
    ensures forall i :: 0 <= i < |df.rows| ==> df.rows[i] == Finished(old(df.rows)[i], source)
  {
    var finishValues := df.Column(source);
    var standardized := AsType(Apply(finishValues, StandardizeFinish), FloatCast);
    df.SetItem("finish_position", ColumnValues(standardized));
    var rounded := Round(df.Column("finish_position"));
    rounded := AsType(rounded, IntCast);
    df.SetItem("finish_position", ColumnValues(rounded));
  }

  /** The conversions of `clean_fields`: dates parsed, numbers coerced, finish positions standardised. */
  method ConvertColumns(df: DataFrame, fromObs: bool, parseTime: Value -> Option<int>, showTime: int -> string)
    returns (out: DataFrame)
    modifies df
    ensures out.rows == ConvertedRows(old(df.rows), fromObs, parseTime, showTime)
  {
    ConvertDates(df, parseTime);
    ConvertNumbers(df, showTime);
    var source;
    if fromObs {
      source := FinishSource;
    } else {
      source := "finish_position";
    }
    ConvertFinish(df, source);
    ghost var finished := seq(|old(df.rows)|, i requires 0 <= i < |old(df.rows)| =>
      Finished(Numbers(Dated(old(df.rows)[i], parseTime), showTime), FinishColumn(fromObs)));
    assert df.rows == finished;
    if fromObs {
      out := df.Drop([FinishSource]);
    } else {
      out := df;
    }
  }

  /** The rows with every essential value and a positive age, distance and runner count, in order. */
  function Plausible(rows: seq<Row>): seq<Row> {
    Select(Select(Select(Select(rows, NoneMissing(Essentials)), Positive("age")), Positive("distance")), Positive("n_runners"))
  }

  /** A row with its race_id and horse_id cast to integers. */
  function WithIntIds(r: Row): Row {
    Set(Set(r, "race_id", WholeNumber(Get(r, "race_id"))), "horse_id", WholeNumber(Get(r, "horse_id")))
  }

  /** Every row with its identifiers cast. */
  function IntIds(rows: seq<Row>): seq<Row> {
    seq(|rows|, i requires 0 <= i < |rows| => WithIntIds(rows[i]))
  }

  /** The plausible rows with integer identifiers, keeping those whose identifiers both converted. */
  function Valid(rows: seq<Row>): seq<Row> {
    Select(IntIds(Plausible(rows)), NoneMissing(IdColumns))
  }

  /** `df = df[df[col] > 0]`: the rows with a positive number under `col`. */
  method KeepPositive(df: DataFrame, col: string) returns (out: DataFrame)
    requires forall r :: r in df.rows ==> NumberOrNull(Get(r, col))
    ensures fresh(out) && out.columns == FirstRowKeys(out.rows)
    ensures out.rows == Select(df.rows, Positive(col))
  {
    assert forall i :: 0 <= i < |df.rows| ==> NumberOrNull(Get(df.rows[i], col)) by {
      forall i | 0 <= i < |df.rows| ensures NumberOrNull(Get(df.rows[i], col)) {
        assert df.rows[i] in df.rows;
      }
    }
    PositiveMask(df.rows, col);
    out := df.Where(GreaterThan(df.Column(col), Int(0)));
  }

  /** The row filters of `clean_fields`: essentials present, then age, distance and n_runners positive. */
  method DropImplausible(df: DataFrame) returns (out: DataFrame)
    requires forall r :: r in df.rows ==> Orderable(r)
    ensures fresh(out) && out.columns == FirstRowKeys(out.rows)
    ensures out.rows == Plausible(df.rows)
  {
    var essential := df.DropNa(Essentials);
    SelectMembers(df.rows, NoneMissing(Essentials));
    var byAge := KeepPositive(essential, "age");
    SelectMembers(essential.rows, Positive("age"));
    var byDistance := KeepPositive(byAge, "distance");
    SelectMembers(byAge.rows, Positive("distance"));
    out := KeepPositive(byDistance, "n_runners");
  }

  /** The identifier casts of `clean_fields`, then the rows whose identifiers both converted. */
  method CastIds(df: DataFrame) returns (out: DataFrame)
    modifies df
    ensures fresh(out) && out.columns == FirstRowKeys(out.rows)
    ensures out.rows == Select(IntIds(old(df.rows)), NoneMissing(IdColumns))
  {
    ghost var r0 := df.rows;
    CastId(df, "race_id");
    ghost var r1 := df.rows;
    CastId(df, "horse_id");
    forall i | 0 <= i < |r0| ensures df.rows[i] == IntIds(r0)[i] {
      assert Get(r1[i], "horse_id") == Get(r0[i], "horse_id");
    }
    SeqExtensional(df.rows, IntIds(r0));
    out := df.DropNa(IdColumns);
  }

  /** `df[col] = pd.to_numeric(df[col], errors="coerce").astype("Int64")`. */
  method CastId(df: DataFrame, col: string)
    modifies df
    ensures |df.rows| == |old(df.rows)|
    ensures forall i :: 0 <= i < |df.rows| ==> df.rows[i] == Set(old(df.rows)[i], col, WholeNumber(Get(old(df.rows)[i], col)))
  {
    var ids := ToNumeric(df.Column(col));
    ids := AsType(ids, IntCast);
    df.SetItem(col, ColumnValues(ids));
  }

  /** The row filters and identifier casts of `clean_fields`. */
  method DropInvalid(df: DataFrame) returns (out: DataFrame)
    requires forall r :: r in df.rows ==> Orderable(r)
    ensures fresh(out) && out.columns == FirstRowKeys(out.rows)
    ensures out.rows == Valid(df.rows)
  {
    var kept := DropImplausible(df);
    out := CastIds(kept);
  }

  /** The columns of `cols` that are not in `present`, in order. */
  function MissingFrom(cols: seq<string>, present: seq<string>): (out: seq<string>)
    ensures forall c :: c in out <==> c in cols && c !in present
  {
    if |cols| == 0 then []
    else MissingFrom(cols[..|cols| - 1], present) + (if cols[|cols| - 1] in present then [] else [cols[|cols| - 1]])
  }

  /** A row after `df[col] = pd.NA` for every column of `cols` missing from the frame's columns `present`. */
  function Filled(r: Row, present: seq<string>, cols: seq<string>): Row {
    if |cols| == 0 then r
    else
      var f := Filled(r, present, cols[..|cols| - 1]);
      if cols[|cols| - 1] in present then f else Set(f, cols[|cols| - 1], Null)
  }

  /** A filled row holds None under the filled columns and its own values elsewhere. */
  lemma {:induction false} FilledGets(r: Row, present: seq<string>, cols: seq<string>)
    ensures forall k :: Get(Filled(r, present, cols), k) == if k in cols && k !in present then Null else Get(r, k)
  {
    if |cols| > 0 {
      FilledGets(r, present, cols[..|cols| - 1]);
      assert forall k :: k in cols <==> k in cols[..|cols| - 1] || k == cols[|cols| - 1];
    }
  }

  /** An output row: the schema columns in order, each with the row's value, or None when the frame lacks the column. */
  function OutputRow(r: Row, present: seq<string>): Row {
    Project(Filled(r, present, Ordered), Ordered)
  }

  /** Every row as `OutputRow` leaves it. */
  function OutputRows(rows: seq<Row>, present: seq<string>): seq<Row> {
    seq(|rows|, i requires 0 <= i < |rows| => OutputRow(rows[i], present))
  }

  /** The closing step of `clean_fields`: add every missing schema column as None, then select the schema columns in order. */
  method OrderColumns(df: DataFrame) returns (out: DataFrame)
    modifies df
    ensures fresh(out) && out.columns == FirstRowKeys(out.rows)
    ensures out.rows == OutputRows(old(df.rows), old(df.columns))
  {
    ghost var r0 := df.rows;
    ghost var present := df.columns;
    OrderedDistinct();
    FillMissing(df, Ordered);
    out := df.SelectColumns(Ordered);
    assert forall i :: 0 <= i < |r0| ==> out.rows[i] == OutputRow(r0[i], present);
  }

  /** The loop over the schema columns `cols` (distinct names): each one the frame lacks is added, holding None. */
  method FillMissing(df: DataFrame, cols: seq<string>)
    requires Distinct(cols)
    modifies df
    ensures df.columns == old(df.columns) + MissingFrom(cols, old(df.columns))
    ensures df.rows == FilledRows(old(df.rows), old(df.columns), cols)
  {
    ghost var r0 := df.rows;
    ghost var present := df.columns;
    var j := 0;
    while j < |cols|
      invariant 0 <= j <= |cols|
      invariant df.columns == present + MissingFrom(cols[..j], present)
      invariant df.rows == FilledRows(r0, present, cols[..j])
    {
      var col := cols[j];
      DistinctNotBefore(cols, j);
      MissingStep(cols, j, present, df.columns);
      FilledRowsSnoc(r0, present, cols, j);
      FillColumn(df, col);
      j := j + 1;
    }
    assert cols[..|cols|] == cols;
  }

  /** `if col not in df.columns: df[col] = pd.NA`. */
  method FillColumn(df: DataFrame, col: string)
    modifies df
    ensures df.columns == if col in old(df.columns) then old(df.columns) else old(df.columns) + [col]
    ensures df.rows == if col in old(df.columns) then old(df.rows) else SetColumn(old(df.rows), col, Null)
  {
    if col !in df.columns {
      df.SetItem(col, Scalar(Null));
    }
  }

  /** Every row with `key` set to `v`. */
  function SetColumn(rows: seq<Row>, key: string, v: Value): seq<Row> {
    seq(|rows|, i requires 0 <= i < |rows| => Set(rows[i], key, v))
  }

  /** Every row as `Filled` leaves it. */
  function FilledRows(rows: seq<Row>, present: seq<string>, cols: seq<string>): seq<Row> {
    seq(|rows|, i requires 0 <= i < |rows| => Filled(rows[i], present, cols))
  }

  /** One more column of `cols` in `FilledRows`. */
  lemma FilledRowsSnoc(rows: seq<Row>, present: seq<string>, cols: seq<string>, j: nat)
    requires j < |cols|
    ensures FilledRows(rows, present, cols[..j + 1]) ==
      if cols[j] in present then FilledRows(rows, present, cols[..j])
      else SetColumn(FilledRows(rows, present, cols[..j]), cols[j], Null)
  {
    assert cols[..j + 1][..j] == cols[..j];
  }

  /**
   * One step of the loop on the columns: the next column is in the frame
   * exactly when it was there from the start, and adding it when it is not
   * extends the columns by one more missing schema column.
   */
  lemma MissingStep(cols: seq<string>, j: nat, present: seq<string>, columns: seq<string>)
    requires j < |cols| && cols[j] !in cols[..j]
    requires columns == present + MissingFrom(cols[..j], present)
    ensures cols[j] in columns <==> cols[j] in present
    ensures (if cols[j] in columns then columns else columns + [cols[j]]) == present + MissingFrom(cols[..j + 1], present)
  {
    MissingFromStep(cols, j, present);
    NotYetMissing(cols, j, present);
    AppendMissing(present, MissingFrom(cols[..j], present), cols[j], columns);
  }

  /** A column not among the first `j` is not missing among them. */
  lemma NotYetMissing(cols: seq<string>, j: nat, present: seq<string>)
    requires j < |cols| && cols[j] !in cols[..j]
    ensures cols[j] !in MissingFrom(cols[..j], present)
  {
  }

  /** Adding column `c`, not among the added columns `m`, to the columns `present + m`. */
  lemma AppendMissing(present: seq<string>, m: seq<string>, c: string, columns: seq<string>)
    requires columns == present + m && c !in m
    ensures c in columns <==> c in present
    ensures (if c in columns then columns else columns + [c]) == present + (m + if c in present then [] else [c])
  {
    if c in present {
      assert m + [] == m;
    } else {
      assert columns + [c] == present + (m + [c]);
    }
  }

  /** MissingFrom over one more column. */
  lemma MissingFromStep(cols: seq<string>, j: nat, present: seq<string>)
    requires j < |cols|
    ensures MissingFrom(cols[..j + 1], present) == MissingFrom(cols[..j], present) + (if cols[j] in present then [] else [cols[j]])
  {
    assert cols[..j + 1][..j] == cols[..j];
  }

  /** In a sequence of distinct names, no name occurs before its own position. */
  lemma DistinctNotBefore(cols: seq<string>, j: nat)
    requires Distinct(cols) && j < |cols|
    ensures cols[j] !in cols[..j]
  {
    forall i | 0 <= i < j ensures cols[..j][i] != cols[j] {
      assert cols[..j][i] == cols[i];
    }
  }


  /** The rows `clean_fields` returns for the input rows `rows`. */
  function CleanedRows(rows: seq<Row>, parseTime: Value -> Option<int>, showTime: int -> string): seq<Row> {
    var cols := FirstRowKeys(rows);
    var valid := Valid(ConvertedRows(DropColumns(rows, Leaked(cols)), FinishSource in cols, parseTime, showTime));
    OutputRows(valid, FirstRowKeys(valid))
  }

  /** The leakage loop keeps finish_position: it is in the first row after the loop exactly when it was before. */
  lemma FinishKept(rows: seq<Row>)
    ensures "finish_position" in FirstRowKeys(DropColumns(rows, Leaked(FirstRowKeys(rows)))) <==> "finish_position" in FirstRowKeys(rows)
  {
    assert "finish_position" !in Leaked(FirstRowKeys(rows)) by {
      assert "finish_position"[0] != ObsPrefix[0];
    }
  }

  /** Age, distance and n_runners hold a number greater than 0. */
  predicate PositiveCounts(r: Row) {
    Passes(Positive("age"), r) && Passes(Positive("distance"), r) && Passes(Positive("n_runners"), r)
  }

  /** The finish position is an integer or None. */
  predicate IntegerFinish(r: Row) {
    Get(r, "finish_position").Null? || Get(r, "finish_position").Int?
  }

  /** date and race_time hold a datetime or None. */
  predicate TimedRow(r: Row) {
    (Get(r, "date").Null? || Get(r, "date").Time?) && (Get(r, "race_time").Null? || Get(r, "race_time").Time?)
  }

  /** A row that agrees with `a` on date and race_time has its kinds there. */
  lemma TimesAgree(a: Row, b: Row)
    requires TimedRow(a)
    requires Get(b, "date") == Get(a, "date") && Get(b, "race_time") == Get(a, "race_time")
    ensures TimedRow(b)
  {
  }

  /** A row that survives the filters and identifier casts of `clean_fields`. */
  predicate ValidRow(r: Row) {
    (forall c :: c in Essentials ==> !Get(r, c).Null?)
    && PositiveCounts(r)
    && Get(r, "race_id").Int? && Get(r, "horse_id").Int?
    && IntegerFinish(r)
    && TimedRow(r)
  }

  /** A row of the table `clean_fields` returns. */
  predicate CleanRow(r: Row) {
    Keys(r) == Ordered && ValidRow(r)
  }

  /** The filtered rows are input rows with every essential value and positive counts. */
  lemma PlausibleRows(rows: seq<Row>)
    ensures |Plausible(rows)| <= |rows|
    ensures forall r :: r in Plausible(rows) ==>
      r in rows && (forall c :: c in Essentials ==> !Get(r, c).Null?) && PositiveCounts(r)
  {
    var a := Select(rows, NoneMissing(Essentials));
    var b := Select(a, Positive("age"));
    var c := Select(b, Positive("distance"));
    SelectMembers(rows, NoneMissing(Essentials));
    SelectMembers(a, Positive("age"));
    SelectMembers(b, Positive("distance"));
    SelectMembers(c, Positive("n_runners"));
  }

  /** Casting the identifiers changes race_id and horse_id only. */
  lemma WithIntIdsValues(r: Row)
    ensures Get(WithIntIds(r), "race_id") == WholeNumber(Get(r, "race_id"))
    ensures Get(WithIntIds(r), "horse_id") == WholeNumber(Get(r, "horse_id"))
    ensures forall k :: k != "race_id" && k != "horse_id" ==> Get(WithIntIds(r), k) == Get(r, k)
  {
    var a := Set(r, "race_id", WholeNumber(Get(r, "race_id")));
    assert Get(WithIntIds(r), "race_id") == Get(a, "race_id");
  }

  /** A filtered row whose identifiers both converted is valid after the casts. */
  lemma ValidAfterCast(r: Row)
    requires forall c :: c in Essentials ==> !Get(r, c).Null?
    requires PositiveCounts(r) && IntegerFinish(r) && TimedRow(r)
    requires Passes(NoneMissing(IdColumns), WithIntIds(r))
    ensures ValidRow(WithIntIds(r))
  {
    WithIntIdsValues(r);
    IdsAfterCast(r);
    EssentialsAfterCast(r);
    CountsAfterCast(r);
  }

  /** Identifiers that converted are integers. */
  lemma IdsAfterCast(r: Row)
    requires Passes(NoneMissing(IdColumns), WithIntIds(r))
    ensures Get(WithIntIds(r), "race_id").Int? && Get(WithIntIds(r), "horse_id").Int?
  {
    WithIntIdsValues(r);
    assert "race_id" in IdColumns && "horse_id" in IdColumns;
  }

  /** The essential values stay present through the casts. */
  lemma EssentialsAfterCast(r: Row)
    requires forall c :: c in Essentials ==> !Get(r, c).Null?
    requires Passes(NoneMissing(IdColumns), WithIntIds(r))
    ensures forall c :: c in Essentials ==> !Get(WithIntIds(r), c).Null?
  {
    var w := WithIntIds(r);
    WithIntIdsValues(r);
    assert "race_id" in IdColumns && "horse_id" in IdColumns;
    forall c | c in Essentials ensures !Get(w, c).Null? {
      if c != "race_id" && c != "horse_id" {
        assert Get(w, c) == Get(r, c);
      }
    }
  }

  /** The casts leave the counts and the finish as they were. */
  lemma CountsAfterCast(r: Row)
    requires PositiveCounts(r) && IntegerFinish(r) && TimedRow(r)
    ensures PositiveCounts(WithIntIds(r)) && IntegerFinish(WithIntIds(r)) && TimedRow(WithIntIds(r))
  {
    CastKeeps(r, "age");
    CastKeeps(r, "distance");
    CastKeeps(r, "n_runners");
    CastKeeps(r, "finish_position");
    CastKeeps(r, "date");
    CastKeeps(r, "race_time");
    CountsAgree(r, WithIntIds(r));
    TimesAgree(r, WithIntIds(r));
  }

  /** The casts change no column but the identifiers. */
  lemma CastKeeps(r: Row, k: string)
    requires k != "race_id" && k != "horse_id"
    ensures Get(WithIntIds(r), k) == Get(r, k)
  {
    WithIntIdsValues(r);
  }

  /** A row that agrees with `a` on age, distance, n_runners and finish_position has its counts and finish. */
  lemma CountsAgree(a: Row, b: Row)
    requires PositiveCounts(a) && IntegerFinish(a)
    requires Get(b, "age") == Get(a, "age") && Get(b, "distance") == Get(a, "distance")
    requires Get(b, "n_runners") == Get(a, "n_runners")
    requires Get(b, "finish_position") == Get(a, "finish_position") || Get(b, "finish_position").Null?
    ensures PositiveCounts(b) && IntegerFinish(b)
  {
    PositiveAgrees(a, b, "age");
    PositiveAgrees(a, b, "distance");
    PositiveAgrees(a, b, "n_runners");
  }

  /** Whether a row passes `df[col] > 0` depends only on its value under `col`. */
  lemma PositiveAgrees(a: Row, b: Row, col: string)
    requires Passes(Positive(col), a) && Get(b, col) == Get(a, col)
    ensures Passes(Positive(col), b)
  {
  }

  /** Every row the filters and casts keep is valid, given integer-or-None finishes; no row is added. */
  lemma ValidRows(rows: seq<Row>)
    requires forall r :: r in rows ==> IntegerFinish(r) && TimedRow(r)
    ensures |Valid(rows)| <= |rows|
    ensures forall r :: r in Valid(rows) ==> ValidRow(r)
  {
    var kept := Plausible(rows);
    PlausibleRows(rows);
    var cast := IntIds(kept);
    SelectMembers(cast, NoneMissing(IdColumns));
    forall r | r in Valid(rows) ensures ValidRow(r) {
      var i :| 0 <= i < |cast| && cast[i] == r;
      assert kept[i] in kept;
      ValidAfterCast(kept[i]);
    }
  }

  /** The output columns include every essential column, age and finish_position. */
  lemma EssentialsOrdered()
    ensures forall c :: c in Essentials ==> c in Ordered
    ensures "age" in Ordered && "finish_position" in Ordered
  {
    OrderedNames();
    assert OutputNames[9] == "age" && OutputNames[11] == "finish_position";
  }

  /** An output row holds the row's value under each schema column the frame has, and None elsewhere. */
  lemma OutputGets(r: Row, present: seq<string>)
    ensures forall k :: Get(OutputRow(r, present), k) == if k in Ordered && k in present then Get(r, k) else Null
  {
    FilledGets(r, present, Ordered);
  }

  /** An output row of a valid row is clean when the frame has every essential column and age. */
  lemma OutputRowClean(r: Row, present: seq<string>)
    requires ValidRow(r)
    requires forall c :: c in Essentials ==> c in present
    requires "age" in present
    ensures CleanRow(OutputRow(r, present))
  {
    OutputRowKeys(r, present);
    OutputRowValid(r, present);
  }

  /** An output row has exactly the schema columns, in order. */
  lemma OutputRowKeys(r: Row, present: seq<string>)
    ensures Keys(OutputRow(r, present)) == Ordered
  {
    SchemaColumns();
    ProjectKeys(Filled(r, present, Ordered), Ordered);
  }

  /** The output row of a valid row is valid when the frame has every essential column and age. */
  lemma OutputRowValid(r: Row, present: seq<string>)
    requires ValidRow(r)
    requires forall c :: c in Essentials ==> c in present
    requires "age" in present
    ensures ValidRow(OutputRow(r, present))
  {
    var out := OutputRow(r, present);
    EssentialsOrdered();
    forall c | c in Essentials ensures Get(out, c) == Get(r, c) {
      OutputKeeps(r, present, c);
    }
    OutputKeeps(r, present, "age");
    OutputKeepsOrNull(r, present, "finish_position");
    CountsAgree(r, out);
    OutputRowTimed(r, present);
  }

  /** Output rows keep date and race_time a datetime or None. */
  lemma OutputRowTimed(r: Row, present: seq<string>)
    requires TimedRow(r)
    ensures TimedRow(OutputRow(r, present))
  {
    OutputKeepsOrNull(r, present, "date");
    OutputKeepsOrNull(r, present, "race_time");
  }

  /** An output row holds the row's value under each schema column the frame has. */
  lemma OutputKeeps(r: Row, present: seq<string>, k: string)
    requires k in Ordered && k in present
    ensures Get(OutputRow(r, present), k) == Get(r, k)
  {
    OutputGets(r, present);
  }

  /** An output row holds the row's value or None under every column. */
  lemma OutputKeepsOrNull(r: Row, present: seq<string>, k: string)
    ensures Get(OutputRow(r, present), k) == Get(r, k) || Get(OutputRow(r, present), k).Null?
  {
    OutputGets(r, present);
  }

  /** A valid first row has every essential column and age among its keys. */
  lemma ValidColumns(valid: seq<Row>)
    requires |valid| > 0 && ValidRow(valid[0])
    ensures forall c :: c in Essentials ==> c in FirstRowKeys(valid)
    ensures "age" in FirstRowKeys(valid)
  {
    var r := valid[0];
    assert FirstRowKeys(valid) == Keys(r);
    forall c | c in Essentials ensures c in Keys(r) {
      assert !Get(r, c).Null?;
    }
    assert !Get(r, "age").Null? by { assert PositiveCounts(r); }
  }

  /**
   * What `clean_fields` promises of its result: every row has exactly the
   * schema columns in order (so no obs__ column), every essential value,
   * positive age, distance and n_runners, integer identifiers and an
   * integer finish or None; and no row is added.
   */
  lemma CleanedRowsClean(rows: seq<Row>, parseTime: Value -> Option<int>, showTime: int -> string)
    ensures |CleanedRows(rows, parseTime, showTime)| <= |rows|
    ensures forall r :: r in CleanedRows(rows, parseTime, showTime) ==> CleanRow(r)
  {
    var cols := FirstRowKeys(rows);
    var conv := ConvertedRows(DropColumns(rows, Leaked(cols)), FinishSource in cols, parseTime, showTime);
    ConvertedKinds(DropColumns(rows, Leaked(cols)), FinishSource in cols, parseTime, showTime);
    ValidRows(conv);
    OutputRowsClean(Valid(conv));
  }

  /** The output rows of valid rows are clean, one per row. */
  lemma OutputRowsClean(valid: seq<Row>)
    requires forall r :: r in valid ==> ValidRow(r)
    ensures |OutputRows(valid, FirstRowKeys(valid))| == |valid|
    ensures forall r :: r in OutputRows(valid, FirstRowKeys(valid)) ==> CleanRow(r)
  {
    var present := FirstRowKeys(valid);
    forall r | r in OutputRows(valid, present) ensures CleanRow(r) {
      var i :| 0 <= i < |valid| && OutputRow(valid[i], present) == r;
      assert valid[0] in valid && valid[i] in valid;
      ValidColumns(valid);
      OutputRowClean(valid[i], present);
    }
  }

  /** A valid row holds two datetimes and an integer under (date, race_time, race_id). */
  lemma ChronoKinds(r: Row)
    requires ValidRow(r)
    ensures Get(r, "date").Time? && Get(r, "race_time").Time? && Get(r, "race_id").Int?
  {
    assert "date" in Essentials && "race_time" in Essentials;
  }

  /** Valid rows can be ordered by (date, race_time, race_id) without a comparison raising. */
  lemma ValidRowsSortable(rows: seq<Row>)
    requires forall r :: r in rows ==> ValidRow(r)
    ensures KeysComparable(rows, ChronoKeys)
  {
    forall a, b | a in rows && b in rows
      ensures Comparable(RowKey(a, ChronoKeys), RowKey(b, ChronoKeys))
    {
      ChronoKinds(a);
      ChronoKinds(b);
    }
  }

  /**
   * `clean_fields(df)`: fails when the table has neither obs__finish_position
   * nor finish_position; otherwise the cleaned rows, on a copy, the input left
   * as it was.
   */
  method CleanFields(df: DataFrame, parseTime: Value -> Option<int>, showTime: int -> string)
    returns (result: Result<DataFrame>)
    ensures result.Err? <==> FinishSource !in FirstRowKeys(df.rows) && "finish_position" !in FirstRowKeys(df.rows)
    ensures result.Err? ==> result.error == FinishColumnMissing
    ensures result.Ok? ==> result.value.rows == CleanedRows(df.rows, parseTime, showTime)
    ensures result.Ok? ==> result.value.columns == FirstRowKeys(result.value.rows)
    ensures result.Ok? ==> forall r :: r in result.value.rows ==> CleanRow(r)
    ensures result.Ok? ==> KeysComparable(result.value.rows, ChronoKeys)
    ensures df.rows == old(df.rows) && df.columns == old(df.columns)
  {
    var copy := df.Copy();
    var dropped, fromObs := DropObservations(copy);
    assert dropped.columns == FirstRowKeys(dropped.rows);
    FinishKept(df.rows);
    if !fromObs && "finish_position" !in dropped.columns {
      return Err(FinishColumnMissing);
    }
    ghost var leakFree := dropped.rows;
    var converted := ConvertColumns(dropped, fromObs, parseTime, showTime);
    ConvertedKinds(leakFree, fromObs, parseTime, showTime);
    var valid := DropInvalid(converted);
    var ordered := OrderColumns(valid);
    CleanedRowsClean(old(df.rows), parseTime, showTime);
    ValidRowsSortable(ordered.rows);
    return Ok(ordered);
  }

  // ---------------------------------------------------------------------
  // validate_race_invariants
  // ---------------------------------------------------------------------

  /** The fields every row of one race must agree on. */
  const RaceFields := ["date", "racecourse", "race_type_simple", "distance"]

  /** The first field of `fields` holding more than one distinct non-None value in `g`. */
  function FirstInconsistent(g: seq<Row>, fields: seq<string>): (f: Option<string>)
    ensures f.None? <==> forall k :: 0 <= k < |fields| ==> NUnique(ColumnOf(g, fields[k]), true) <= 1
    ensures f.Some? ==> f.value in fields && NUnique(ColumnOf(g, f.value), true) > 1
  {
    if |fields| == 0 then None
    else if NUnique(ColumnOf(g, fields[0]), true) > 1 then Some(fields[0])
    else
      var f := FirstInconsistent(g, fields[1..]);
      assert forall k :: 1 <= k < |fields| ==> fields[k] == fields[1..][k - 1];
      f
  }

  /** The field reported is the first inconsistent one: every field before it is constant. */
  lemma {:induction false} FirstInconsistentIsFirst(g: seq<Row>, fields: seq<string>)
    ensures var f := FirstInconsistent(g, fields);
      f.Some? ==> exists k :: (0 <= k < |fields| && fields[k] == f.value &&
        forall p :: 0 <= p < k ==> NUnique(ColumnOf(g, fields[p]), true) <= 1)
    decreases |fields|
  {
    var f := FirstInconsistent(g, fields);
    if f.Some? && NUnique(ColumnOf(g, fields[0]), true) <= 1 {
      FirstInconsistentIsFirst(g, fields[1..]);
      var k :| 0 <= k < |fields[1..]| && fields[1..][k] == f.value &&
        forall p :: 0 <= p < k ==> NUnique(ColumnOf(g, fields[1..][p]), true) <= 1;
      assert fields[k + 1] == f.value;
      forall p | 0 <= p < k + 1 ensures NUnique(ColumnOf(g, fields[p]), true) <= 1 {
        if p > 0 { assert fields[p] == fields[1..][p - 1]; }
      }
    } else if f.Some? {
      assert fields[0] == f.value;
    }
  }

  /**
   * The verdict on one race group: inconsistent fields first, then the row
   * count against the first row's n_runners (Python `!=`), then the range of
   * the finish positions. A group is never empty; an empty one would pass.
   */
  function RaceVerdict(race: Value, g: seq<Row>): Option<Error> {
    if |g| == 0 then None
    else
      match FirstInconsistent(g, RaceFields)
      case Some(f) => Some(InconsistentField(race, f))
      case None =>
        var expected := Get(g[0], "n_runners");
        if !Equiv(Int(|g|), expected) then Some(RunnerCount(race, expected, |g|))
        else FinishVerdict(race, NonNull(ColumnOf(g, "finish_position").data), expected)
  }

  /**
   * The range check on the non-None finish positions of a race: none is
   * fine; a non-number among them makes the comparison raise; otherwise
   * the smallest must be at least 1 and the largest at most n_runners.
   */
  function FinishVerdict(race: Value, finish: seq<Value>, expected: Value): Option<Error>
    requires Null !in finish && IsNumeric(expected)
  {
    if |finish| == 0 then None
    else if !NumericOrNull(finish) then Some(Unorderable(race))
    else if Num(MinValue(finish)) < 1.0 || Num(MaxValue(finish)) > Num(expected) then Some(FinishOutOfRange(race))
    else None
  }

  /** All the non-None values of `field` in `g` are equal. */
  predicate FieldConstant(g: seq<Row>, field: string) {
    forall i, j :: 0 <= i < |g| && 0 <= j < |g| && !Get(g[i], field).Null? && !Get(g[j], field).Null? ==>
      Equiv(Get(g[i], field), Get(g[j], field))
  }

  /** `nunique(dropna=True) <= 1` on a column of a group says the field is constant there. */
  lemma FieldConstantIff(g: seq<Row>, field: string)
    ensures NUnique(ColumnOf(g, field), true) <= 1 <==> FieldConstant(g, field)
  {
    NUniqueAtMostOne(ColumnOf(g, field));
  }

  /** What a race must satisfy: its fields agree, its size is its n_runners, its finish positions lie in [1, n_runners]. */
  predicate RaceConsistent(g: seq<Row>) {
    |g| > 0 &&
    FieldsConstant(g) &&
    Equiv(Int(|g|), Get(g[0], "n_runners")) &&
    FinishInRange(g)
  }

  /** Every race field is constant over the race. */
  predicate FieldsConstant(g: seq<Row>) {
    forall k :: 0 <= k < |RaceFields| ==> FieldConstant(g, RaceFields[k])
  }

  /** Every non-None finish position of the race is a number between 1 and the race's size. */
  predicate FinishInRange(g: seq<Row>) {
    forall i :: 0 <= i < |g| && !Get(g[i], "finish_position").Null? ==>
      IsNumeric(Get(g[i], "finish_position")) && 1.0 <= Num(Get(g[i], "finish_position")) <= |g| as real
  }

  /** A non-empty race passes its checks exactly when it is consistent. */
  lemma RaceVerdictPasses(race: Value, g: seq<Row>)
    requires |g| > 0
    ensures RaceVerdict(race, g).None? <==> RaceConsistent(g)
  {
    RaceFieldsPass(g);
    var expected := Get(g[0], "n_runners");
    if FirstInconsistent(g, RaceFields).None? && Equiv(Int(|g|), expected) {
      FinishRangePasses(race, g, expected);
      assert RaceVerdict(race, g) == FinishVerdict(race, NonNull(ColumnOf(g, "finish_position").data), expected);
    }
  }

  /** No race field is reported inconsistent exactly when each of them is constant over the race. */
  lemma RaceFieldsPass(g: seq<Row>)
    ensures FirstInconsistent(g, RaceFields).None? <==> FieldsConstant(g)
  {
    forall k | 0 <= k < |RaceFields|
      ensures NUnique(ColumnOf(g, RaceFields[k]), true) <= 1 <==> FieldConstant(g, RaceFields[k])
    {
      FieldConstantIff(g, RaceFields[k]);
    }
  }

  /** The finish check, once the size matches n_runners: it passes exactly when every finish position is a number in [1, size]. */
  lemma FinishRangePasses(race: Value, g: seq<Row>, expected: Value)
    requires |g| > 0 && IsNumeric(expected) && Num(expected) == |g| as real
    ensures FinishVerdict(race, NonNull(ColumnOf(g, "finish_position").data), expected).None? <==> FinishInRange(g)
  {
    var col := ColumnOf(g, "finish_position").data;
    var finish := NonNull(col);
    FinishColumnInRange(g);
    if FinishVerdict(race, finish, expected).None? {
      FinishRangeSound(race, col, finish, expected);
    } else {
      FinishRangeComplete(race, col, finish, expected);
    }
  }

  /** Every non-None value of `col` is a number in [1, bound]. */
  predicate ColumnInRange(col: seq<Value>, bound: real) {
    forall i :: 0 <= i < |col| && !col[i].Null? ==> IsNumeric(col[i]) && 1.0 <= Num(col[i]) <= bound
  }

  /** FinishInRange read off the finish_position column. */
  lemma FinishColumnInRange(g: seq<Row>)
    ensures FinishInRange(g) <==> ColumnInRange(ColumnOf(g, "finish_position").data, |g| as real)
  {
  }

  /** A passing finish check bounds every non-None finish position (`finish` holds the non-None values of `col`). */
  lemma FinishRangeSound(race: Value, col: seq<Value>, finish: seq<Value>, expected: Value)
    requires IsNumeric(expected) && Null !in finish
    requires forall v :: v in finish <==> v in col && !v.Null?
    requires FinishVerdict(race, finish, expected).None?
    ensures ColumnInRange(col, Num(expected))
  {
    forall i | 0 <= i < |col| && !col[i].Null?
      ensures IsNumeric(col[i]) && 1.0 <= Num(col[i]) <= Num(expected)
    {
      assert col[i] in finish;
      var j :| 0 <= j < |finish| && finish[j] == col[i];
    }
  }

  /** A failing finish check has a non-None finish position that is not a number in range. */
  lemma FinishRangeComplete(race: Value, col: seq<Value>, finish: seq<Value>, expected: Value)
    requires IsNumeric(expected) && Null !in finish
    requires forall v :: v in finish <==> v in col && !v.Null?
    requires FinishVerdict(race, finish, expected).Some?
    ensures !ColumnInRange(col, Num(expected))
  {
    if !NumericOrNull(finish) {
      var j :| 0 <= j < |finish| && !finish[j].Null? && !IsNumeric(finish[j]);
      assert finish[j] in col;
    } else {
      var lo := MinValue(finish);
      var hi := MaxValue(finish);
      if Num(lo) < 1.0 {
        assert lo in col;
      } else {
        assert hi in col;
      }
    }
  }

  /** The first error in a sequence of verdicts; None when every verdict passes. */
  function FirstError(vs: seq<Option<Error>>): (e: Option<Error>)
    ensures e.None? <==> forall k :: 0 <= k < |vs| ==> vs[k].None?
  {
    if |vs| == 0 then None
    else if vs[0].Some? then vs[0]
    else
      var e := FirstError(vs[1..]);
      assert forall k :: 1 <= k < |vs| ==> vs[k] == vs[1..][k - 1];
      e
  }

  /** The error found is the earliest one. */
  lemma {:induction false} FirstErrorIsFirst(vs: seq<Option<Error>>)
    requires FirstError(vs).Some?
    ensures exists k :: 0 <= k < |vs| && FirstError(vs) == vs[k] && forall p :: 0 <= p < k ==> vs[p].None?
  {
    if vs[0].Some? {
      assert FirstError(vs) == vs[0];
    } else {
      var rest := vs[1..];
      FirstErrorIsFirst(rest);
      var k :| 0 <= k < |rest| && FirstError(rest) == rest[k] && forall p :: 0 <= p < k ==> rest[p].None?;
      forall p | 0 <= p < k + 1 ensures vs[p].None? {
        if p > 0 { assert vs[p] == rest[p - 1]; }
      }
      assert vs[k + 1] == rest[k];
    }
  }

  /** The verdict on each race group, in group order. */
  function Verdicts(gs: seq<(Value, seq<Row>)>): (vs: seq<Option<Error>>)
    ensures |vs| == |gs| && forall k :: 0 <= k < |gs| ==> vs[k] == RaceVerdict(gs[k].0, gs[k].1)
  {
    seq(|gs|, k requires 0 <= k < |gs| => RaceVerdict(gs[k].0, gs[k].1))
  }

  /** The first race group whose checks fail, as the error raised for it. */
  function FirstFailingRace(gs: seq<(Value, seq<Row>)>): (e: Option<Error>)
    ensures e.None? <==> forall k :: 0 <= k < |gs| ==> RaceVerdict(gs[k].0, gs[k].1).None?
  {
    FirstError(Verdicts(gs))
  }

  /** The error reported is the one of the first race, in group order, that fails. */
  lemma FirstFailingRaceIsFirst(gs: seq<(Value, seq<Row>)>)
    requires FirstFailingRace(gs).Some?
    ensures exists k :: (0 <= k < |gs| && FirstFailingRace(gs) == RaceVerdict(gs[k].0, gs[k].1) &&
      forall p :: 0 <= p < k ==> RaceVerdict(gs[p].0, gs[p].1).None?)
  {
    var vs := Verdicts(gs);
    FirstErrorIsFirst(vs);
    var k :| 0 <= k < |vs| && FirstError(vs) == vs[k] && forall p :: 0 <= p < k ==> vs[p].None?;
    assert vs[k] == RaceVerdict(gs[k].0, gs[k].1);
  }

  /**
   * `validate_race_invariants` returns normally exactly when every race_id
   * group of the table is consistent.
   */
  lemma RacesPass(rows: seq<Row>)
    ensures FirstFailingRace(Groups(rows, "race_id")).None? <==>
      forall k :: 0 <= k < |Groups(rows, "race_id")| ==> RaceConsistent(Groups(rows, "race_id")[k].1)
  {
    var gs := Groups(rows, "race_id");
    GroupsNonEmpty(rows, "race_id");
    forall k | 0 <= k < |gs| ensures RaceVerdict(gs[k].0, gs[k].1).None? <==> RaceConsistent(gs[k].1) {
      assert gs[k] in gs;
      RaceVerdictPasses(gs[k].0, gs[k].1);
    }
  }

  /** `validate_race_invariants(df)`: None when every race passes, else the error raised for the first race that fails. */
  method ValidateRaceInvariants(df: DataFrame) returns (err: Option<Error>)
    ensures err == FirstFailingRace(Groups(df.rows, "race_id"))
  {
    var grouped := df.GroupBy("race_id");
    ghost var verdicts := Verdicts(grouped);
    var k := 0;
    while k < |grouped|
      invariant 0 <= k <= |grouped|
      invariant FirstError(verdicts[k..]) == FirstError(verdicts)
    {
      assert verdicts[k..][1..] == verdicts[k + 1..];
      var raceId := grouped[k].0;
      var group := new DataFrame(grouped[k].1);
      err := CheckRace(raceId, group);
      if err.Some? {
        return err;
      }
      k := k + 1;
    }
    return None;
  }

  /** The body of the loop over race groups: the checks on one group, stopping at the first that fails. */
  method CheckRace(raceId: Value, group: DataFrame) returns (err: Option<Error>)
    ensures err == RaceVerdict(raceId, group.rows)
  {
    if |group.rows| == 0 {
      return None;
    }
    var inconsistent := FindInconsistentField(group);
    if inconsistent.Some? {
      return Some(InconsistentField(raceId, inconsistent.value));
    }
    var expected := group.Column("n_runners").data[0];
    if !Equiv(Int(|group.rows|), expected) {
      return Some(RunnerCount(raceId, expected, |group.rows|));
    }
    err := CheckFinish(raceId, group, expected);
  }

  /** The tail of the race checks: the range of the non-None finish positions. */
  method CheckFinish(raceId: Value, group: DataFrame, expected: Value) returns (err: Option<Error>)
    requires IsNumeric(expected)
    ensures err == FinishVerdict(raceId, NonNull(ColumnOf(group.rows, "finish_position").data), expected)
  {
    // `.astype(int)` hands over the class, not one of the type names the library matches, so it changes nothing.
    var finishVals := AsType(DropNa(group.Column("finish_position")), KeepCast);
    assert finishVals.data == NonNull(ColumnOf(group.rows, "finish_position").data);
    err := CheckFinishRange(raceId, finishVals, expected);
  }

  /** The comparisons of the finish check on the non-None finish positions. */
  method CheckFinishRange(raceId: Value, finishVals: Series, expected: Value) returns (err: Option<Error>)
    requires Null !in finishVals.data && IsNumeric(expected)
    ensures err == FinishVerdict(raceId, finishVals.data, expected)
  {
    if |finishVals.data| > 0 {
      if !NumericOrNull(finishVals.data) {
        return Some(Unorderable(raceId));
      }
      if Num(Min(finishVals)) < 1.0 || Num(Max(finishVals)) > Num(expected) {
        return Some(FinishOutOfRange(raceId));
      }
    }
    return None;
  }

  /** The loop over the race fields: the first one with more than one distinct non-None value. */
  method FindInconsistentField(group: DataFrame) returns (field: Option<string>)
    ensures field == FirstInconsistent(group.rows, RaceFields)
  {
    var f := 0;
    while f < |RaceFields|
      invariant 0 <= f <= |RaceFields|
      invariant FirstInconsistent(group.rows, RaceFields[f..]) == FirstInconsistent(group.rows, RaceFields)
    {
      assert RaceFields[f..][1..] == RaceFields[f + 1..];
      if NUnique(group.Column(RaceFields[f]), true) > 1 {
        return Some(RaceFields[f]);
      }
      f := f + 1;
    }
    return None;
  }

  // ---------------------------------------------------------------------
  // enforce_chronological_order
  // ---------------------------------------------------------------------

  const ChronoKeys := ["date", "race_time", "race_id"]

  /**
   * `enforce_chronological_order(df)`: a stable sort by (date, race_time,
   * race_id); `reset_index` rebuilds the frame over the same rows.
   */
  method EnforceChronologicalOrder(df: DataFrame) returns (ordered: DataFrame)
    requires KeysComparable(df.rows, ChronoKeys)
    ensures fresh(ordered) && ordered.columns == FirstRowKeys(ordered.rows)
    ensures multiset(ordered.rows) == multiset(df.rows)
    ensures SortedBy(ordered.rows, ChronoKeys)
    ensures forall sk :: Select(ordered.rows, SortKeyEquals(ChronoKeys, sk)) == Select(df.rows, SortKeyEquals(ChronoKeys, sk))
  {
    var sorted := df.SortValues(ChronoKeys);
    ordered := new DataFrame(sorted.rows);
  }

  /**
   * The script's flow between loading and saving: the schema gate, the field
   * cleaning, the race gate, then the chronological sort. The cleaned rows
   * always satisfy the sort's precondition.
   */
  method RunPipeline(raw: DataFrame, parseTime: Value -> Option<int>, showTime: int -> string)
    returns (result: Result<DataFrame>)
    ensures result.Ok? <==>
      SchemaVerdict(raw.rows, raw.columns).None? &&
      (FinishSource in FirstRowKeys(raw.rows) || "finish_position" in FirstRowKeys(raw.rows)) &&
      FirstFailingRace(Groups(CleanedRows(raw.rows, parseTime, showTime), "race_id")).None?
    ensures result.Ok? ==> multiset(result.value.rows) == multiset(CleanedRows(raw.rows, parseTime, showTime))
    ensures result.Ok? ==> SortedBy(result.value.rows, ChronoKeys)
    ensures result.Ok? ==> forall r :: r in result.value.rows ==> CleanRow(r)
  {
    var schemaErr := ValidateSchema(raw);
    if schemaErr.Some? {
      return Err(schemaErr.value);
    }
    var cleaned := CleanFields(raw, parseTime, showTime);
    if cleaned.Err? {
      return cleaned;
    }
    var raceErr := ValidateRaceInvariants(cleaned.value);
    if raceErr.Some? {
      return Err(raceErr.value);
    }
    var ordered := EnforceChronologicalOrder(cleaned.value);
    forall r | r in ordered.rows ensures CleanRow(r) {
      assert r in multiset(ordered.rows);
    }
    return Ok(ordered);
  }
}
