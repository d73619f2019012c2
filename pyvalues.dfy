/**
 * The values a cell of the table can hold, and the Python built-ins the
 * table library applies to them: `==`, truthiness, `float(v)`, `int(v)` and
 * `round(x)`. Numbers are exact (`int`, `real`); IEEE rounding, infinities
 * and NaN are not part of the model.
 */
module PyValues {
  import opened Common
  import PyText

  /** A cell value. `Time` is a datetime, as a point on an abstract, totally ordered time line. */
  datatype Value =
    | Null
    | Bool(b: bool)
    | Int(i: int)
    | Float(x: real)
    | Str(s: string)
    | Time(t: int)

  /** `pd.isna(value)`, which the table library defines as `value is None`. */
  predicate IsNa(v: Value) {
    v.Null?
  }

  /** `bool` is a subclass of `int` in Python, so all three take part in arithmetic. */
  predicate IsNumeric(v: Value) {
    v.Bool? || v.Int? || v.Float?
  }

  function Num(v: Value): real
    requires IsNumeric(v)
  {
    match v
    case Bool(b) => if b then 1.0 else 0.0
    case Int(i) => i as real
    case Float(x) => x
  }

  /** Python `a == b`: numbers are equal by magnitude (1 == 1.0 == True), everything else structurally. */
  predicate Equiv(a: Value, b: Value) {
    if IsNumeric(a) && IsNumeric(b) then Num(a) == Num(b) else a == b
  }

  /** `==` is an equivalence relation, which is what lets sets and dict keys rely on it. */
  lemma EquivIsEquivalence(a: Value, b: Value, c: Value)
    ensures Equiv(a, a)
    ensures Equiv(a, b) ==> Equiv(b, a)
    ensures Equiv(a, b) && Equiv(b, c) ==> Equiv(a, c)
  {
  }

  /** Python truthiness, as `if keep:` and `any(...)` read a value. */
  predicate Truthy(v: Value) {
    match v
    case Null => false
    case Bool(b) => b
    case Int(i) => i != 0
    case Float(x) => x != 0.0
    case Str(s) => |s| > 0
    case Time(_) => true
  }

  /** `float(v)`, with `None` standing for the exception it raises on anything else. */
  function ToFloat(v: Value): (r: Option<real>)
    ensures IsNumeric(v) ==> r == Some(Num(v))
    ensures (v.Null? || v.Time?) ==> r == None
  {
    match v
    case Str(s) => PyText.ParseFloat(s)
    case Null => None
    case Time(_) => None
    case _ => Some(Num(v))
  }

  /** `int(x)` for a float: truncation toward zero. */
  function Trunc(x: real): (r: int)
    ensures x >= 0.0 ==> r as real <= x < r as real + 1.0
    ensures x < 0.0 ==> r as real - 1.0 < x <= r as real
  {
    if x >= 0.0 then x.Floor else -((-x).Floor)
  }

  /** `int(v)`, with `None` standing for the exception it raises on anything else. */
  function ToInt(v: Value): (r: Option<int>)
    ensures v.Int? ==> r == Some(v.i)
    ensures v.Float? ==> r == Some(Trunc(v.x))
    ensures (v.Null? || v.Time?) ==> r == None
  {
    match v
    case Null => None
    case Bool(b) => Some(if b then 1 else 0)
    case Int(i) => Some(i)
    case Float(x) => Some(Trunc(x))
    case Str(s) => PyText.ParseInt(s)
    case Time(_) => None
  }

  /** `round(x)` in Python 3: the nearest integer, ties to the even one. */
  function RoundHalfEven(x: real): (r: int)
    ensures -0.5 <= x - r as real <= 0.5
    ensures (x - r as real == 0.5 || x - r as real == -0.5) ==> r % 2 == 0
  {
    var f := x.Floor;
    var d := x - f as real;
    if d < 0.5 then f
    else if d > 0.5 then f + 1
    else if f % 2 == 0 then f
    else f + 1
  }

  /** A rounded value is at most half a unit away from every other integer's distance. */
  lemma RoundIsNearest(x: real, n: int)
    ensures RoundHalfEven(x) == n || (x - n as real >= 0.5 || n as real - x >= 0.5)
  {
  }

  /**
   * The distinct values of `vals` under `==`, each represented by its first
   * occurrence, in order of first appearance: what a Python `set` or the keys
   * of a `dict` filled in order retain.
   */
  function FirstSeen(vals: seq<Value>): seq<Value>
  {
    if |vals| == 0 then []
    else
      var d := FirstSeen(vals[..|vals| - 1]);
      if HasEquiv(d, vals[|vals| - 1]) then d else d + [vals[|vals| - 1]]
  }

  predicate HasEquiv(vals: seq<Value>, v: Value) {
    exists i :: 0 <= i < |vals| && Equiv(vals[i], v)
  }

  /** Pairwise different under `==`. */
  predicate EquivDistinct(vals: seq<Value>) {
    forall i, j :: 0 <= i < j < |vals| ==> !Equiv(vals[i], vals[j])
  }

  /**
   * What FirstSeen keeps: its members are drawn from the input, are pairwise
   * different, and every input value equals one of them.
   */
  lemma {:induction false} FirstSeenSpec(vals: seq<Value>)
    ensures EquivDistinct(FirstSeen(vals))
    ensures forall v :: v in FirstSeen(vals) ==> v in vals
    ensures forall i :: 0 <= i < |vals| ==> HasEquiv(FirstSeen(vals), vals[i])
  {
    if |vals| > 0 {
      var p := vals[..|vals| - 1];
      var last := vals[|vals| - 1];
      FirstSeenSpec(p);
      var d := FirstSeen(p);
      if !HasEquiv(d, last) {
        forall i | 0 <= i < |d| ensures !Equiv(d[i], last) { }
      }
      forall i | 0 <= i < |vals| ensures HasEquiv(FirstSeen(vals), vals[i]) {
        if i < |vals| - 1 {
          assert vals[i] == p[i];
          var j :| 0 <= j < |d| && Equiv(d[j], p[i]);
          assert FirstSeen(vals)[j] == d[j];
        } else if !HasEquiv(d, last) {
          assert FirstSeen(vals)[|d|] == last;
        }
      }
    }
  }

  /** The values of a prefix that are first seen stay first seen. */
  lemma {:induction false} FirstSeenPrefix(vals: seq<Value>, n: nat)
    requires n <= |vals|
    ensures FirstSeen(vals[..n]) <= FirstSeen(vals)
  {
    if n < |vals| {
      FirstSeenPrefix(vals[..|vals| - 1], n);
      assert vals[..|vals| - 1][..n] == vals[..n];
    } else {
      assert vals[..n] == vals;
    }
  }

  /** At most one distinct value exactly when all values are pairwise equal. */
  lemma {:induction false} AtMostOneDistinct(vals: seq<Value>)
    ensures |FirstSeen(vals)| <= 1 <==> forall i, j :: 0 <= i < |vals| && 0 <= j < |vals| ==> Equiv(vals[i], vals[j])
  {
    FirstSeenSpec(vals);
    var d := FirstSeen(vals);
    if |d| <= 1 {
      forall i, j | 0 <= i < |vals| && 0 <= j < |vals| ensures Equiv(vals[i], vals[j]) {
        var a :| 0 <= a < |d| && Equiv(d[a], vals[i]);
        var b :| 0 <= b < |d| && Equiv(d[b], vals[j]);
        assert a == 0 && b == 0;
      }
    } else {
      assert d[0] in vals && d[1] in vals;
      var i :| 0 <= i < |vals| && vals[i] == d[0];
      var j :| 0 <= j < |vals| && vals[j] == d[1];
      assert !Equiv(vals[i], vals[j]);
    }
  }
}
