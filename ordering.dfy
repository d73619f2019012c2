/**
 * Python's `<` as `sorted` applies it to the sort keys of the table rows:
 * numbers by magnitude, strings by code point, datetimes by time; and tuples
 * lexicographically, skipping the positions where the elements are `==`.
 * Values of different classes cannot be ordered (Python raises TypeError);
 * the comparison is only defined where the classes agree.
 */
module Ordering {
  import opened PyValues

  /** Values that Python can order against each other (None only ever meets None through `==`). */
  predicate SameClass(a: Value, b: Value) {
    (IsNumeric(a) && IsNumeric(b)) || (a.Str? && b.Str?) || (a.Time? && b.Time?) || (a.Null? && b.Null?)
  }

  function Sign(x: real): int {
    if x < 0.0 then -1 else if x > 0.0 then 1 else 0
  }

  /** Lexicographic comparison of strings by code point: -1, 0 or 1. */
  function StrCmp(s: string, t: string): int {
    if |s| == 0 && |t| == 0 then 0
    else if |s| == 0 then -1
    else if |t| == 0 then 1
    else if s[0] < t[0] then -1
    else if s[0] > t[0] then 1
    else StrCmp(s[1..], t[1..])
  }

  lemma {:induction false} StrCmpProperties(s: string, t: string)
    ensures StrCmp(s, t) == -StrCmp(t, s)
    ensures StrCmp(s, t) == 0 <==> s == t
  {
    if |s| > 0 && |t| > 0 && s[0] == t[0] {
      StrCmpProperties(s[1..], t[1..]);
      if s[1..] == t[1..] { assert s == [s[0]] + s[1..]; assert t == [t[0]] + t[1..]; }
    }
  }

  lemma {:induction false} StrCmpTransitive(s: string, t: string, u: string)
    requires StrCmp(s, t) <= 0 && StrCmp(t, u) <= 0
    ensures StrCmp(s, u) <= 0
    ensures StrCmp(s, t) < 0 || StrCmp(t, u) < 0 ==> StrCmp(s, u) < 0
  {
    if |s| > 0 && |t| > 0 && |u| > 0 && s[0] == t[0] == u[0] {
      StrCmpTransitive(s[1..], t[1..], u[1..]);
    }
  }

  /** Three-way comparison of two values of one class: -1 for `<`, 0 for `==`, 1 for `>`. */
  function ValCmp(a: Value, b: Value): (c: int)
    requires SameClass(a, b)
    ensures -1 <= c <= 1
  {
    if IsNumeric(a) then Sign(Num(a) - Num(b))
    else if a.Str? then (if StrCmp(a.s, b.s) < 0 then -1 else if StrCmp(a.s, b.s) > 0 then 1 else 0)
    else if a.Time? then Sign((a.t - b.t) as real)
    else 0
  }

  lemma ValCmpProperties(a: Value, b: Value)
    requires SameClass(a, b)
    ensures ValCmp(a, b) == -ValCmp(b, a)
    ensures ValCmp(a, b) == 0 <==> Equiv(a, b)
  {
    if a.Str? { StrCmpProperties(a.s, b.s); }
  }

  lemma ValCmpTransitive(a: Value, b: Value, c: Value)
    requires SameClass(a, b) && SameClass(b, c)
    requires ValCmp(a, b) <= 0 && ValCmp(b, c) <= 0
    ensures SameClass(a, c)
    ensures ValCmp(a, c) <= 0
    ensures ValCmp(a, b) < 0 || ValCmp(b, c) < 0 ==> ValCmp(a, c) < 0
  {
    if a.Str? {
      StrCmpProperties(a.s, b.s);
      StrCmpProperties(b.s, c.s);
      StrCmpTransitive(a.s, b.s, c.s);
    }
  }

  /** Two sort keys (tuples) that Python can compare element by element. */
  predicate Comparable(a: seq<Value>, b: seq<Value>) {
    |a| == |b| && forall i :: 0 <= i < |a| ==> SameClass(a[i], b[i])
  }

  /** Tuple `==`. */
  predicate KeyEq(a: seq<Value>, b: seq<Value>) {
    |a| == |b| && forall i :: 0 <= i < |a| ==> Equiv(a[i], b[i])
  }

  /** Lexicographic three-way comparison of two tuples. */
  function KeyCmp(a: seq<Value>, b: seq<Value>): (c: int)
    requires Comparable(a, b)
    ensures -1 <= c <= 1
  {
    if |a| == 0 then 0
    else
      var c := ValCmp(a[0], b[0]);
      if c != 0 then c else KeyCmp(a[1..], b[1..])
  }

  /** Tuple `<`. */
  predicate KeyLess(a: seq<Value>, b: seq<Value>)
    requires Comparable(a, b)
  {
    KeyCmp(a, b) < 0
  }

  /**
   * KeyLess is Python's tuple `<`: at the first position where the elements
   * are not `==`, the left element is the smaller one.
   */
  lemma {:induction false} KeyLessIsTupleLess(a: seq<Value>, b: seq<Value>)
    requires Comparable(a, b)
    ensures KeyLess(a, b) <==>
      exists i :: 0 <= i < |a| && (forall j :: 0 <= j < i ==> Equiv(a[j], b[j])) && !Equiv(a[i], b[i]) && ValCmp(a[i], b[i]) < 0
  {
    if |a| > 0 {
      ValCmpProperties(a[0], b[0]);
      KeyLessIsTupleLess(a[1..], b[1..]);
      if ValCmp(a[0], b[0]) == 0 {
        if KeyLess(a, b) {
          var i :| 0 <= i < |a| - 1 && (forall j :: 0 <= j < i ==> Equiv(a[1..][j], b[1..][j])) && !Equiv(a[1..][i], b[1..][i]) && ValCmp(a[1..][i], b[1..][i]) < 0;
          assert forall j :: 0 <= j < i + 1 ==> Equiv(a[j], b[j]) by {
            forall j | 0 <= j < i + 1 ensures Equiv(a[j], b[j]) {
              if j > 0 { assert a[j] == a[1..][j - 1] && b[j] == b[1..][j - 1]; }
            }
          }
        }
        if exists i :: 0 <= i < |a| && (forall j :: 0 <= j < i ==> Equiv(a[j], b[j])) && !Equiv(a[i], b[i]) && ValCmp(a[i], b[i]) < 0 {
          var i :| 0 <= i < |a| && (forall j :: 0 <= j < i ==> Equiv(a[j], b[j])) && !Equiv(a[i], b[i]) && ValCmp(a[i], b[i]) < 0;
          assert i > 0;
          assert forall j :: 0 <= j < i - 1 ==> Equiv(a[1..][j], b[1..][j]) by {
            forall j | 0 <= j < i - 1 ensures Equiv(a[1..][j], b[1..][j]) { assert Equiv(a[j + 1], b[j + 1]); }
          }
          assert !Equiv(a[1..][i - 1], b[1..][i - 1]) && ValCmp(a[1..][i - 1], b[1..][i - 1]) < 0;
        }
      }
    }
  }

  lemma {:induction false} KeyCmpProperties(a: seq<Value>, b: seq<Value>)
    requires Comparable(a, b)
    ensures Comparable(b, a)
    ensures KeyCmp(a, b) == -KeyCmp(b, a)
    ensures KeyCmp(a, b) == 0 <==> KeyEq(a, b)
  {
    if |a| > 0 {
      ValCmpProperties(a[0], b[0]);
      KeyCmpProperties(a[1..], b[1..]);
      if KeyEq(a[1..], b[1..]) && Equiv(a[0], b[0]) {
        forall i | 0 <= i < |a| ensures Equiv(a[i], b[i]) {
          if i > 0 { assert a[i] == a[1..][i - 1] && b[i] == b[1..][i - 1]; }
        }
      }
      if KeyEq(a, b) {
        assert Equiv(a[0], b[0]);
        forall i | 0 <= i < |a| - 1 ensures Equiv(a[1..][i], b[1..][i]) { assert Equiv(a[i + 1], b[i + 1]); }
      }
    }
  }

  lemma {:induction false} KeyCmpTransitive(a: seq<Value>, b: seq<Value>, c: seq<Value>)
    requires Comparable(a, b) && Comparable(b, c)
    requires KeyCmp(a, b) <= 0 && KeyCmp(b, c) <= 0
    ensures Comparable(a, c)
    ensures KeyCmp(a, c) <= 0
    ensures KeyCmp(a, b) < 0 || KeyCmp(b, c) < 0 ==> KeyCmp(a, c) < 0
  {
    if |a| > 0 {
      ValCmpTransitive(a[0], b[0], c[0]);
      assert forall i :: 0 <= i < |a| ==> SameClass(a[i], c[i]) by {
        forall i | 0 <= i < |a| ensures SameClass(a[i], c[i]) { assert SameClass(a[i], b[i]) && SameClass(b[i], c[i]); }
      }
      if ValCmp(a[0], b[0]) == 0 && ValCmp(b[0], c[0]) == 0 {
        KeyCmpTransitive(a[1..], b[1..], c[1..]);
      }
    }
  }

  /** KeyLess is a strict weak order whose incomparable pairs are exactly the `==` ones. */
  lemma KeyLessStrictWeakOrder(a: seq<Value>, b: seq<Value>, c: seq<Value>)
    requires Comparable(a, b) && Comparable(b, c)
    ensures Comparable(a, c)
    ensures !KeyLess(a, a)
    ensures KeyLess(a, b) ==> !KeyLess(b, a)
    ensures KeyLess(a, b) && KeyLess(b, c) ==> KeyLess(a, c)
    ensures !KeyLess(b, a) && !KeyLess(c, b) ==> !KeyLess(c, a)
    ensures !KeyLess(a, b) && !KeyLess(b, a) <==> KeyEq(a, b)
  {
    KeyCmpProperties(a, a);
    KeyCmpProperties(a, b);
    KeyCmpProperties(b, c);
    assert forall i :: 0 <= i < |a| ==> SameClass(a[i], c[i]) by {
      forall i | 0 <= i < |a| ensures SameClass(a[i], c[i]) { assert SameClass(a[i], b[i]) && SameClass(b[i], c[i]); }
    }
    KeyCmpProperties(a, c);
    if KeyLess(a, b) && KeyLess(b, c) { KeyCmpTransitive(a, b, c); }
    if !KeyLess(b, a) && !KeyLess(c, b) { KeyCmpTransitive(a, b, c); }
  }
}
