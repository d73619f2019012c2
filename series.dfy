/**
 * The one-column `Series` of the in-repo table library: a list of cell
 * values with a name, its `dtype`, and the element-wise maps the cleaning
 * code applies (`astype`, `round`, `to_numeric`, comparisons) together with
 * the reductions it reads (`nunique`, `min`, `max`, `any`, `dropna`).
 */
module PySeries {
  import opened Common
  import opened PyValues
  import Ordering

  datatype Series = Series(data: seq<Value>, name: string)

  /** The dtype kinds the library produces: "M", "f", "i" and "O". */
  datatype Kind = DatetimeKind | FloatKind | IntKind | ObjectKind

  function KindCode(k: Kind): string {
    match k
    case DatetimeKind => "M"
    case FloatKind => "f"
    case IntKind => "i"
    case ObjectKind => "O"
  }

  datatype DType = DType(kind: Kind, name: string)

  /** The kind a single value announces: datetime, float, int (bool included) or object. */
  function ValueKind(v: Value): Kind {
    match v
    case Time(_) => DatetimeKind
    case Float(_) => FloatKind
    case Int(_) => IntKind
    case Bool(_) => IntKind
    case _ => ObjectKind
  }

  /** The position of the first value that is not None, or the length when every value is None. */
  function FirstNonNullIndex(data: seq<Value>): (i: nat)
    ensures i <= |data|
    ensures forall j :: 0 <= j < i ==> data[j].Null?
    ensures i < |data| ==> !data[i].Null?
  {
    if |data| == 0 || !data[0].Null? then 0 else 1 + FirstNonNullIndex(data[1..])
  }

  /** `Series.dtype`: decided by the first value that is not None; object when there is none. */
  function Dtype(s: Series): DType {
    var i := FirstNonNullIndex(s.data);
    if i == |s.data| then DType(ObjectKind, "object")
    else
      match ValueKind(s.data[i])
      case DatetimeKind => DType(DatetimeKind, "datetime64[ns]")
      case FloatKind => DType(FloatKind, "float")
      case IntKind => DType(IntKind, "int")
      case ObjectKind => DType(ObjectKind, "object")
  }

  /**
   * The dtype kind of a Series is the kind of its first non-None value, and
   * object when every value is None.
   */
  lemma DtypeKindIsFirstValueKind(s: Series, k: Kind)
    ensures Dtype(s).kind == k <==>
      (exists i :: 0 <= i < |s.data| && !s.data[i].Null? && ValueKind(s.data[i]) == k &&
                   forall j :: 0 <= j < i ==> s.data[j].Null?) ||
      (k == ObjectKind && forall i :: 0 <= i < |s.data| ==> s.data[i].Null?)
  {
    var f := FirstNonNullIndex(s.data);
    forall i | 0 <= i < |s.data| && !s.data[i].Null? && forall j :: 0 <= j < i ==> s.data[j].Null?
      ensures i == f
    {
    }
  }

  /** `dtype == other` for a string: true when the dtype's name or its kind code is `other`. */
  predicate DTypeEquals(d: DType, other: string) {
    d.name == other || KindCode(d.kind) == other
  }

  /** The library never produces a dtype that compares equal to "Int64". */
  lemma NoDtypeEqualsInt64(s: Series)
    ensures !DTypeEquals(Dtype(s), "Int64")
  {
  }

  /** The three families of `astype` targets: "Int64"/"int"/"int64", "float"/"float64"/"Float64", and anything else. */
  datatype CastTarget = IntCast | FloatCast | KeepCast

  /** One element of `astype`: None stays None, a failed conversion becomes None. */
  function CastValue(v: Value, t: CastTarget): (r: Value)
    ensures v.Null? ==> r.Null?
    ensures t == IntCast ==> (r.Null? || r.Int?) && (r.Int? <==> !v.Null? && ToInt(v).Some?)
    ensures t == FloatCast ==> (r.Null? || r.Float?) && (r.Float? <==> !v.Null? && ToFloat(v).Some?)
    ensures t == KeepCast ==> r == v
  {
    if v.Null? then Null
    else
      match t
      case IntCast => (match ToInt(v) case Some(n) => Int(n) case None => Null)
      case FloatCast => (match ToFloat(v) case Some(x) => Float(x) case None => Null)
      case KeepCast => v
  }

  /** `Series.astype(type_name)`. */
  method AsType(s: Series, t: CastTarget) returns (r: Series)
    ensures r.name == s.name && |r.data| == |s.data|
    ensures forall i :: 0 <= i < |s.data| ==> r.data[i] == CastValue(s.data[i], t)
  {
    var casted: seq<Value> := [];
    var i := 0;
    while i < |s.data|
      invariant 0 <= i <= |s.data| && |casted| == i
      invariant forall j :: 0 <= j < i ==> casted[j] == CastValue(s.data[j], t)
    {
      casted := casted + [CastValue(s.data[i], t)];
      i := i + 1;
    }
    r := Series(casted, s.name);
  }

  /** `pd.to_numeric(series, errors="coerce")`: `float(v)` per element, None where it fails. */
  method ToNumeric(s: Series) returns (r: Series)
    ensures r.name == s.name && |r.data| == |s.data|
    ensures forall i :: 0 <= i < |s.data| ==> r.data[i] == CastValue(s.data[i], FloatCast)
  {
    var coerced: seq<Value> := [];
    var i := 0;
    while i < |s.data|
      invariant 0 <= i <= |s.data| && |coerced| == i
      invariant forall j :: 0 <= j < i ==> coerced[j] == CastValue(s.data[j], FloatCast)
    {
      var v := s.data[i];
      if v.Null? {
        coerced := coerced + [Null];
      } else {
        coerced := coerced + [CastValue(v, FloatCast)];
      }
      i := i + 1;
    }
    r := Series(coerced, s.name);
  }

  /**
   * One element of `pd.to_datetime(series, errors="coerce")`: None stays None,
   * a datetime stays itself, anything else is read by `parseTime` (ISO format,
   * then "%H:%M", then "%H:%M:%S") and becomes None where that fails.
   */
  function DatetimeValue(v: Value, parseTime: Value -> Option<int>): (r: Value)
    ensures r.Null? || r.Time?
    ensures v.Null? ==> r.Null?
    ensures v.Time? ==> r == v
    ensures !v.Null? && !v.Time? ==> (r.Time? <==> parseTime(v).Some?) && (r.Time? ==> r.t == parseTime(v).value)
  {
    match v
    case Null => Null
    case Time(_) => v
    case _ => (match parseTime(v) case Some(t) => Time(t) case None => Null)
  }

  /** `pd.to_datetime(series, errors="coerce")`. */
  method ToDatetime(s: Series, parseTime: Value -> Option<int>) returns (r: Series)
    ensures r.name == s.name && |r.data| == |s.data|
    ensures forall i :: 0 <= i < |s.data| ==> r.data[i] == DatetimeValue(s.data[i], parseTime)
  {
    var parsed: seq<Value> := [];
    var i := 0;
    while i < |s.data|
      invariant 0 <= i <= |s.data| && |parsed| == i
      invariant forall j :: 0 <= j < i ==> parsed[j] == DatetimeValue(s.data[j], parseTime)
    {
      var v := s.data[i];
      if v.Null? || v.Time? {
        parsed := parsed + [v];
      } else {
        match parseTime(v)
        case Some(t) => parsed := parsed + [Time(t)];
        case None => parsed := parsed + [Null];
      }
      i := i + 1;
    }
    r := Series(parsed, s.name);
  }

  /** `round(float(v))` is defined: the value is None or `float(v)` succeeds. */
  predicate Roundable(v: Value) {
    v.Null? || ToFloat(v).Some?
  }

  /** One element of `round()`: None stays None, anything else becomes `round(float(v))`. */
  function RoundValue(v: Value): (r: Value)
    requires Roundable(v)
    ensures v.Null? <==> r.Null?
    ensures !v.Null? ==> r.Int? && -0.5 <= ToFloat(v).value - r.i as real <= 0.5
  {
    if v.Null? then Null else Int(RoundHalfEven(ToFloat(v).value))
  }

  /** `Series.round()`: `round(float(v))` per element; `float(v)` must succeed on every non-None value. */
  method Round(s: Series) returns (r: Series)
    requires forall i :: 0 <= i < |s.data| ==> Roundable(s.data[i])
    ensures r.name == s.name && |r.data| == |s.data|
    ensures forall i :: 0 <= i < |s.data| ==> r.data[i] == RoundValue(s.data[i])
  {
    var rounded: seq<Value> := [];
    var i := 0;
    while i < |s.data|
      invariant 0 <= i <= |s.data| && |rounded| == i
      invariant forall j :: 0 <= j < i ==> rounded[j] == RoundValue(s.data[j])
    {
      rounded := rounded + [RoundValue(s.data[i])];
      i := i + 1;
    }
    r := Series(rounded, s.name);
  }

  /** `Series.apply(fn)`. */
  function Apply(s: Series, f: Value -> Value): (r: Series)
    ensures r.name == s.name && |r.data| == |s.data|
    ensures forall i :: 0 <= i < |s.data| ==> r.data[i] == f(s.data[i])
  {
    Series(seq(|s.data|, i requires 0 <= i < |s.data| => f(s.data[i])), s.name)
  }

  /** The values that are not None, in order. */
  function NonNull(vals: seq<Value>): (r: seq<Value>)
    ensures |r| <= |vals|
    ensures forall v :: v in r <==> v in vals && !v.Null?
  {
    if |vals| == 0 then []
    else (if vals[0].Null? then [] else [vals[0]]) + NonNull(vals[1..])
  }

  /** `Series.dropna()`. */
  function DropNa(s: Series): Series {
    Series(NonNull(s.data), s.name)
  }

  /** `Series.nunique(dropna)`: the number of distinct values under `==`. */
  function NUnique(s: Series, dropna: bool): nat {
    |FirstSeen(if dropna then NonNull(s.data) else s.data)|
  }

  /**
   * `nunique(dropna=True) <= 1` holds exactly when all the non-None values of
   * the Series are equal to each other.
   */
  lemma NUniqueAtMostOne(s: Series)
    ensures NUnique(s, true) <= 1 <==>
      forall i, j :: 0 <= i < |s.data| && 0 <= j < |s.data| && !s.data[i].Null? && !s.data[j].Null? ==> Equiv(s.data[i], s.data[j])
  {
    var nn := NonNull(s.data);
    AtMostOneDistinct(nn);
    if NUnique(s, true) <= 1 {
      forall i, j | 0 <= i < |s.data| && 0 <= j < |s.data| && !s.data[i].Null? && !s.data[j].Null?
        ensures Equiv(s.data[i], s.data[j])
      {
        assert s.data[i] in nn && s.data[j] in nn;
      }
    } else {
      var a, b :| 0 <= a < |nn| && 0 <= b < |nn| && !Equiv(nn[a], nn[b]);
      assert nn[a] in s.data && nn[b] in s.data;
    }
  }

  predicate NumericOrNull(vals: seq<Value>) {
    forall i :: 0 <= i < |vals| ==> vals[i].Null? || IsNumeric(vals[i])
  }

  /**
   * Values Python can order among themselves: any two non-None values are
   * both numbers, both strings or both datetimes. Over a list with two
   * values of different classes, `min` and `max` raise `TypeError`.
   */
  predicate MutuallyOrderable(vals: seq<Value>) {
    forall i, j :: 0 <= i < |vals| && 0 <= j < |vals| && !vals[i].Null? && !vals[j].Null? ==>
      Ordering.SameClass(vals[i], vals[j])
  }

  lemma NumericOrderable(vals: seq<Value>)
    requires NumericOrNull(vals)
    ensures MutuallyOrderable(vals)
  {
  }

  /**
   * Python `min` over the non-None values: the first of the smallest; None
   * when there is none. On numbers, the smallest magnitude.
   */
  function MinValue(vals: seq<Value>): (m: Value)
    requires MutuallyOrderable(vals)
    ensures m.Null? <==> forall i :: 0 <= i < |vals| ==> vals[i].Null?
    ensures !m.Null? ==> m in vals
    ensures !m.Null? ==> forall i :: 0 <= i < |vals| && !vals[i].Null? ==>
      Ordering.SameClass(m, vals[i]) && Ordering.ValCmp(m, vals[i]) <= 0
    ensures !m.Null? && NumericOrNull(vals) ==>
      IsNumeric(m) && forall i :: 0 <= i < |vals| && !vals[i].Null? ==> Num(m) <= Num(vals[i])
  {
    if |vals| == 0 then Null
    else
      assert forall i :: 1 <= i < |vals| ==> vals[i] == vals[1..][i - 1];
      var m := MinValue(vals[1..]);
      if vals[0].Null? then m
      else if m.Null? || Ordering.ValCmp(m, vals[0]) >= 0 then
        LeastFirst(vals, m);
        vals[0]
      else m
  }

  /** When the first value is no greater than the least of the rest, it is the least of all. */
  lemma LeastFirst(vals: seq<Value>, m: Value)
    requires |vals| > 0 && !vals[0].Null? && MutuallyOrderable(vals)
    requires m.Null? ==> forall i :: 1 <= i < |vals| ==> vals[i].Null?
    requires !m.Null? ==> m in vals && Ordering.SameClass(m, vals[0]) && Ordering.ValCmp(m, vals[0]) >= 0
    requires !m.Null? ==> forall i :: 1 <= i < |vals| && !vals[i].Null? ==>
      Ordering.SameClass(m, vals[i]) && Ordering.ValCmp(m, vals[i]) <= 0
    ensures forall i :: 0 <= i < |vals| && !vals[i].Null? ==>
      Ordering.SameClass(vals[0], vals[i]) && Ordering.ValCmp(vals[0], vals[i]) <= 0
  {
    forall i | 0 <= i < |vals| && !vals[i].Null?
      ensures Ordering.SameClass(vals[0], vals[i]) && Ordering.ValCmp(vals[0], vals[i]) <= 0
    {
      Ordering.ValCmpProperties(vals[0], vals[0]);
      if i > 0 {
        Ordering.ValCmpProperties(m, vals[0]);
        Ordering.ValCmpTransitive(vals[0], m, vals[i]);
      }
    }
  }

  /**
   * Python `max` over the non-None values: the first of the largest; None
   * when there is none. On numbers, the largest magnitude.
   */
  function MaxValue(vals: seq<Value>): (m: Value)
    requires MutuallyOrderable(vals)
    ensures m.Null? <==> forall i :: 0 <= i < |vals| ==> vals[i].Null?
    ensures !m.Null? ==> m in vals
    ensures !m.Null? ==> forall i :: 0 <= i < |vals| && !vals[i].Null? ==>
      Ordering.SameClass(vals[i], m) && Ordering.ValCmp(vals[i], m) <= 0
    ensures !m.Null? && NumericOrNull(vals) ==>
      IsNumeric(m) && forall i :: 0 <= i < |vals| && !vals[i].Null? ==> Num(vals[i]) <= Num(m)
  {
    if |vals| == 0 then Null
    else
      assert forall i :: 1 <= i < |vals| ==> vals[i] == vals[1..][i - 1];
      var m := MaxValue(vals[1..]);
      if vals[0].Null? then m
      else if m.Null? || Ordering.ValCmp(m, vals[0]) <= 0 then
        GreatestFirst(vals, m);
        vals[0]
      else
        Ordering.ValCmpProperties(m, vals[0]);
        m
  }

  /** When the first value is no smaller than the greatest of the rest, it is the greatest of all. */
  lemma GreatestFirst(vals: seq<Value>, m: Value)
    requires |vals| > 0 && !vals[0].Null? && MutuallyOrderable(vals)
    requires m.Null? ==> forall i :: 1 <= i < |vals| ==> vals[i].Null?
    requires !m.Null? ==> m in vals && Ordering.SameClass(m, vals[0]) && Ordering.ValCmp(m, vals[0]) <= 0
    requires !m.Null? ==> forall i :: 1 <= i < |vals| && !vals[i].Null? ==>
      Ordering.SameClass(vals[i], m) && Ordering.ValCmp(vals[i], m) <= 0
    ensures forall i :: 0 <= i < |vals| && !vals[i].Null? ==>
      Ordering.SameClass(vals[i], vals[0]) && Ordering.ValCmp(vals[i], vals[0]) <= 0
  {
    forall i | 0 <= i < |vals| && !vals[i].Null?
      ensures Ordering.SameClass(vals[i], vals[0]) && Ordering.ValCmp(vals[i], vals[0]) <= 0
    {
      Ordering.ValCmpProperties(vals[0], vals[0]);
      if i > 0 {
        Ordering.ValCmpTransitive(vals[i], m, vals[0]);
      }
    }
  }

  /** `Series.min()`. */
  function Min(s: Series): Value
    requires MutuallyOrderable(s.data)
  {
    MinValue(s.data)
  }

  /** `Series.max()`. */
  function Max(s: Series): Value
    requires MutuallyOrderable(s.data)
  {
    MaxValue(s.data)
  }

  /**
   * `series > other`: None stays None, every other value becomes the boolean
   * `v > other`; every non-None value must be orderable against `other`.
   */
  function GreaterThan(s: Series, other: Value): (r: Series)
    requires forall i :: 0 <= i < |s.data| && !s.data[i].Null? ==> Ordering.SameClass(s.data[i], other)
    ensures r.name == s.name && |r.data| == |s.data|
    ensures forall i :: 0 <= i < |s.data| ==>
      if s.data[i].Null? then r.data[i].Null? else r.data[i] == Bool(Ordering.ValCmp(s.data[i], other) > 0)
  {
    Series(seq(|s.data|, i requires 0 <= i < |s.data| =>
      if s.data[i].Null? then Null else Bool(Ordering.ValCmp(s.data[i], other) > 0)), s.name)
  }

  /** A comparison `v > 0` that comes out True means a non-None number above zero. */
  lemma GreaterThanZero(s: Series, i: int)
    requires forall j :: 0 <= j < |s.data| && !s.data[j].Null? ==> Ordering.SameClass(s.data[j], Int(0))
    requires 0 <= i < |s.data|
    ensures Truthy(GreaterThan(s, Int(0)).data[i]) <==> IsNumeric(s.data[i]) && Num(s.data[i]) > 0.0
  {
  }

  /** `Series.any()`. */
  predicate Any(s: Series) {
    exists i :: 0 <= i < |s.data| && Truthy(s.data[i])
  }

  /** The loader's `_coerce_value`: `int(text)`, else `float(text)`, else the text itself. */
  function CoerceValue(text: string): (v: Value)
    ensures v.Int? || v.Float? || v == Str(text)
    ensures v.Int? ==> PyText.ParseInt(text) == Some(v.i)
    ensures v.Float? ==> PyText.ParseInt(text).None? && PyText.ParseFloat(text) == Some(v.x)
    ensures v.Str? ==> PyText.ParseInt(text).None? && PyText.ParseFloat(text).None?
  {
    match PyText.ParseInt(text)
    case Some(n) => Int(n)
    case None =>
      match PyText.ParseFloat(text)
      case Some(x) => Float(x)
      case None => Str(text)
  }
}
