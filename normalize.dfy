/**
 * The three value normalisers of the cleaning code: weights written as
 * pounds or "stones-pounds", distances written as unit tokens ("2m4f110y"),
 * and finish positions with their non-finisher codes. None of them raises:
 * malformed input becomes None.
 */
module Normalize {
  import opened Common
  import opened PyText
  import opened PyValues

  // ---------------------------------------------------------------------
  // _parse_weight
  // ---------------------------------------------------------------------

  /**
   * `_parse_weight` on text: with one hyphen, "S-P" is S stones and P pounds;
   * with more hyphens the two-way unpacking fails; without one, plain pounds.
   */
  function ParseWeightText(text: string): (w: Value)
    ensures w.Null? || w.Float?
  {
    if '-' in text then
      if Count(text, '-') == 1 then
        var h := FindFirst(text, {'-'});
        match (ParseFloat(text[..h]), ParseFloat(text[h + 1..]))
        case (Some(stones), Some(pounds)) => Float(stones * 14.0 + pounds)
        case _ => Null
      else Null
    else
      match ParseFloat(text)
      case Some(x) => Float(x)
      case None => Null
  }

  /**
   * `_parse_weight`: None stays None and numbers become floats. Anything else
   * is read through `str(value)`; a datetime's text contains two hyphens, so
   * it yields None.
   */
  function ParseWeight(v: Value): (w: Value)
    ensures w.Null? || w.Float?
    ensures v.Null? ==> w.Null?
    ensures IsNumeric(v) ==> w == Float(Num(v))
  {
    match v
    case Null => Null
    case Str(text) => ParseWeightText(text)
    case Time(_) => Null
    case _ => Float(Num(v))
  }

  /** A digit string contains no hyphen, and its first hyphen search runs off the end. */
  lemma DigitsHaveNoHyphen(s: string)
    requires AllDigits(s)
    ensures Count(s, '-') == 0 && '-' !in s
  {
    forall i | 0 <= i < |s| ensures s[i] != '-' { assert IsDigit(s[i]); }
  }

  lemma {:induction false} CountConcat(a: string, b: string, c: char)
    ensures Count(a + b, c) == Count(a, c) + Count(b, c)
  {
    if |a| > 0 {
      assert (a + b)[1..] == a[1..] + b;
      CountConcat(a[1..], b, c);
    } else {
      assert a + b == b;
    }
  }

  /** In "a-b" with digit strings a and b, the hyphen is the only one and sits at |a|. */
  lemma SplitAtHyphen(a: string, b: string)
    requires AllDigits(a) && AllDigits(b)
    ensures var text := a + "-" + b;
      '-' in text && Count(text, '-') == 1 && FindFirst(text, {'-'}) == |a| &&
      text[..|a|] == a && text[|a| + 1..] == b
  {
    var text := a + "-" + b;
    DigitsHaveNoHyphen(a);
    DigitsHaveNoHyphen(b);
    CountConcat(a + "-", b, '-');
    CountConcat(a, "-", '-');
    assert "-"[1..] == [];
    assert text[|a|] == '-';
    forall j | 0 <= j < |a| ensures text[j] !in {'-'} { assert text[j] == a[j]; }
    assert text[..|a|] == a;
    assert text[|a| + 1..] == b;
  }

  /** Text with a single hyphen whose two sides parse is stones times 14 plus pounds. */
  lemma WeightOfParts(text: string, h: nat, stones: real, pounds: real)
    requires '-' in text && Count(text, '-') == 1 && FindFirst(text, {'-'}) == h
    requires ParseFloat(text[..h]) == Some(stones) && ParseFloat(text[h + 1..]) == Some(pounds)
    ensures ParseWeight(Str(text)) == Float(stones * 14.0 + pounds)
  {
  }

  /** `_parse_weight(f"{s}-{p}") == s * 14 + p` for natural stones and pounds. */
  lemma StonesAndPounds(s: nat, p: nat)
    ensures ParseWeight(Str(ShowNat(s) + "-" + ShowNat(p))) == Float((14 * s + p) as real)
  {
    ParseFloatShowNat(s);
    ParseFloatShowNat(p);
    WeightOfDigits(ShowNat(s), ShowNat(p), s as real, p as real);
    assert (s as real) * 14.0 + p as real == (14 * s + p) as real;
  }

  /** "a-b" with digit strings a and b is a stones times 14 plus b pounds. */
  lemma WeightOfDigits(a: string, b: string, stones: real, pounds: real)
    requires AllDigits(a) && AllDigits(b)
    requires ParseFloat(a) == Some(stones) && ParseFloat(b) == Some(pounds)
    ensures ParseWeight(Str(a + "-" + b)) == Float(stones * 14.0 + pounds)
  {
    SplitAtHyphen(a, b);
    WeightOfParts(a + "-" + b, |a|, stones, pounds);
  }

  /** `_parse_weight(str(n)) == n`: plain pounds. */
  lemma PlainPounds(n: nat)
    ensures ParseWeight(Str(ShowNat(n))) == Float(n as real)
  {
    DigitsHaveNoHyphen(ShowNat(n));
    ParseFloatShowNat(n);
  }

  /** Text with more than one hyphen is not a weight. */
  lemma ManyHyphensNoWeight(text: string)
    requires Count(text, '-') > 1
    ensures ParseWeight(Str(text)) == Null
  {
  }

  /** "S-P" with a part that is not a number is not a weight. */
  lemma NonNumericPartNoWeight(text: string)
    requires Count(text, '-') == 1
    requires var h := FindFirst(text, {'-'});
      ParseFloat(text[..h]).None? || ParseFloat(text[h + 1..]).None?
    ensures ParseWeight(Str(text)) == Null
  {
  }

  /** Text parses as float only if it has a '-' to give it a sign. */
  lemma NoMinusNonNegative(t: string)
    requires '-' !in t
    ensures ParseFloat(t).Some? ==> ParseFloat(t).value >= 0.0
  {
    var u := Strip(t);
    StripSpec(t);
    if |u| > 0 {
      assert u[0] in t;
    }
  }

  /**
   * A stones-pounds weight is never negative: neither part can carry a minus
   * sign, because the only hyphen is the separator.
   */
  lemma StonesPoundsNonNegative(text: string)
    requires Count(text, '-') == 1
    ensures ParseWeight(Str(text)).Float? ==> ParseWeight(Str(text)).x >= 0.0
  {
    var h := FindFirst(text, {'-'});
    assert '-' in text;
    assert text == text[..h] + [text[h]] + text[h + 1..];
    CountConcat(text[..h] + [text[h]], text[h + 1..], '-');
    CountConcat(text[..h], [text[h]], '-');
    assert Count([text[h]], '-') == 1 by { assert [text[h]][1..] == []; }
    forall j | 0 <= j < h ensures text[..h][j] != '-' { assert text[j] !in {'-'}; }
    NoMinusNonNegative(text[..h]);
    NoMinusNonNegative(text[h + 1..]);
  }

  /** The worked example: "10-7" is 10 stones 7 pounds, 147 pounds. */
  lemma WeightExample()
    ensures ParseWeight(Str("10-7")) == Float(147.0)
  {
    assert ShowNat(10) == "10" by { assert ShowNat(1) == "1"; }
    assert ShowNat(7) == "7";
    assert "10-7" == ShowNat(10) + "-" + ShowNat(7);
    StonesAndPounds(10, 7);
  }

  // ---------------------------------------------------------------------
  // _parse_distance
  // ---------------------------------------------------------------------

  predicate IsUnit(c: char) {
    c == 'm' || c == 'f' || c == 'y'
  }

  /** `x` units in yards: a mile is 1760 yards, a furlong 220, a yard 1. */
  function InYards(x: real, unit: char): real
    requires IsUnit(unit)
  {
    if unit == 'm' then x * 1760.0 else if unit == 'f' then x * 220.0 else x
  }

  /** `float(num)`, with 0.0 when it raises (an empty or malformed buffer). */
  function Magnitude(num: string): (x: real)
    ensures ParseFloat(num).None? ==> x == 0.0
  {
    match ParseFloat(num)
    case Some(x) => x
    case None => 0.0
  }

  /** The scanner's state: yards so far and the pending number text. */
  datatype ScanState = ScanState(yards: real, num: string)

  /**
   * One character of the scan: digits (in the sense of `str.isdigit`) and
   * '.' extend the buffer, a unit
   * letter closes the token, and any other character is skipped and leaves
   * the buffer as it is.
   */
  function Step(st: ScanState, ch: char): ScanState {
    if IsDigitLike(ch) || ch == '.' then ScanState(st.yards, st.num + [ch])
    else if IsUnit(ch) then ScanState(st.yards + InYards(Magnitude(st.num), ch), "")
    else st
  }

  function ScanFrom(st: ScanState, text: string): ScanState
    decreases |text|
  {
    if |text| == 0 then st else ScanFrom(Step(st, text[0]), text[1..])
  }

  /** What is left after the scan: the pending number, when it parses. */
  function Finish(st: ScanState): real {
    if |st.num| > 0 && ParseFloat(st.num).Some? then st.yards + ParseFloat(st.num).value else st.yards
  }

  /** `_parse_distance` on text, as the scan defines it. */
  function DistanceOfText(text: string): (r: Value)
    ensures r.Null? || (r.Float? && r.x > 0.0)
  {
    var total := Finish(ScanFrom(ScanState(0.0, ""), Lower(Strip(text))));
    if total > 0.0 then Float(total) else Null
  }

  /**
   * `_parse_distance`: None stays None, numbers pass through as floats, and
   * anything else is scanned as `str(value)`; `showTime` stands for `str` on
   * a datetime.
   */
  function DistanceOf(v: Value, showTime: int -> string): (r: Value)
    ensures v.Null? ==> r.Null?
    ensures IsNumeric(v) ==> r == Float(Num(v))
    ensures !IsNumeric(v) ==> r.Null? || (r.Float? && r.x > 0.0)
  {
    match v
    case Null => Null
    case Str(s) => DistanceOfText(s)
    case Time(t) => DistanceOfText(showTime(t))
    case _ => Float(Num(v))
  }

  lemma ScanFromStep(st: ScanState, text: string, i: nat)
    requires i < |text|
    ensures ScanFrom(st, text[i..]) == ScanFrom(Step(st, text[i]), text[i + 1..])
  {
    assert text[i..][0] == text[i] && text[i..][1..] == text[i + 1..];
  }

  /** The character loop of `_parse_distance`, updating `yards` and `num` in place. */
  method ParseDistanceText(text: string) returns (r: Value)
    ensures r == DistanceOfText(text)
  {
    var t := Lower(Strip(text));
    var yards := 0.0;
    var num := "";
    var i := 0;
    while i < |t|
      invariant 0 <= i <= |t|
      invariant ScanFrom(ScanState(yards, num), t[i..]) == ScanFrom(ScanState(0.0, ""), t)
    {
      var ch := t[i];
      ScanFromStep(ScanState(yards, num), t, i);
      ghost var before := ScanState(yards, num);
      if IsDigitLike(ch) || ch == '.' {
        num := num + [ch];
      } else if ch == 'm' || ch == 'f' || ch == 'y' {
        yards := yards + InYards(Magnitude(num), ch);
        num := "";
      }
      assert ScanState(yards, num) == Step(before, ch);
      i := i + 1;
    }
    assert t[i..] == [];
    if |num| > 0 {
      match ParseFloat(num)
      case Some(x) => yards := yards + x;
      case None =>
    }
    r := if yards > 0.0 then Float(yards) else Null;
  }

  method ParseDistance(v: Value, showTime: int -> string) returns (r: Value)
    ensures r == DistanceOf(v, showTime)
  {
    match v
    case Null => r := Null;
    case Str(s) => r := ParseDistanceText(s);
    case Time(t) => r := ParseDistanceText(showTime(t));
    case _ => r := Float(Num(v));
  }

  lemma {:induction false} ScanConcat(st: ScanState, a: string, b: string)
    ensures ScanFrom(st, a + b) == ScanFrom(ScanFrom(st, a), b)
    decreases |a|
  {
    if |a| > 0 {
      assert (a + b)[0] == a[0] && (a + b)[1..] == a[1..] + b;
      ScanConcat(Step(st, a[0]), a[1..], b);
    } else {
      assert a + b == b;
    }
  }

  /** Digits only extend the pending number. */
  lemma {:induction false} ScanDigits(y: real, acc: string, d: string)
    requires AllDigits(d)
    ensures ScanFrom(ScanState(y, acc), d) == ScanState(y, acc + d)
    decreases |d|
  {
    if |d| > 0 {
      assert IsDigit(d[0]);
      ScanDigits(y, acc + [d[0]], d[1..]);
      assert acc + [d[0]] + d[1..] == acc + d;
    } else {
      assert acc + d == acc;
    }
  }

  /** A distance as written: a natural number and its unit letter per token. */
  type Token = (nat, char)

  predicate UnitTokens(ts: seq<Token>) {
    forall i :: 0 <= i < |ts| ==> IsUnit(ts[i].1)
  }

  function Render(ts: seq<Token>): (s: string)
    requires UnitTokens(ts)
    decreases |ts|
  {
    if |ts| == 0 then "" else ShowNat(ts[0].0) + [ts[0].1] + Render(ts[1..])
  }

  function Total(ts: seq<Token>): real
    requires UnitTokens(ts)
    decreases |ts|
  {
    if |ts| == 0 then 0.0 else InYards(ts[0].0 as real, ts[0].1) + Total(ts[1..])
  }

  /** One token "<n><unit>" adds n units in yards to an empty buffer's scan. */
  lemma ScanToken(y: real, n: nat, unit: char)
    requires IsUnit(unit)
    ensures ScanFrom(ScanState(y, ""), ShowNat(n) + [unit]) == ScanState(y + InYards(n as real, unit), "")
  {
    var d := ShowNat(n);
    ScanConcat(ScanState(y, ""), d, [unit]);
    ScanDigits(y, "", d);
    assert "" + d == d;
    ParseFloatShowNat(n);
    assert [unit][1..] == [];
  }

  /** Each token adds its number times its unit, and clears the buffer. */
  lemma {:induction false} ScanTokens(y: real, ts: seq<Token>)
    requires UnitTokens(ts)
    ensures ScanFrom(ScanState(y, ""), Render(ts)) == ScanState(y + Total(ts), "")
    decreases |ts|
  {
    if |ts| > 0 {
      var head := ShowNat(ts[0].0) + [ts[0].1];
      var rest := Render(ts[1..]);
      var y1 := y + InYards(ts[0].0 as real, ts[0].1);
      assert Render(ts) == head + rest;
      ScanConcat(ScanState(y, ""), head, rest);
      ScanToken(y, ts[0].0, ts[0].1);
      assert ScanFrom(ScanState(y, ""), head) == ScanState(y1, "");
      ScanTokens(y1, ts[1..]);
      assert ScanFrom(ScanState(y1, ""), rest) == ScanState(y1 + Total(ts[1..]), "");
      assert y + Total(ts) == y1 + Total(ts[1..]);
    }
  }

  /** A rendered distance is digits and unit letters, starting with a digit and ending with a unit. */
  lemma {:induction false} RenderShape(ts: seq<Token>)
    requires UnitTokens(ts)
    ensures forall i :: 0 <= i < |Render(ts)| ==> IsDigit(Render(ts)[i]) || IsUnit(Render(ts)[i])
    ensures |ts| > 0 ==> |Render(ts)| > 0 && IsDigit(Render(ts)[0]) && IsUnit(Render(ts)[|Render(ts)| - 1])
  {
    if |ts| > 0 {
      RenderShape(ts[1..]);
      var d := ShowNat(ts[0].0);
      var s := Render(ts);
      assert s == d + [ts[0].1] + Render(ts[1..]);
      forall i | 0 <= i < |s| ensures IsDigit(s[i]) || IsUnit(s[i]) {
        if i < |d| { assert s[i] == d[i]; }
        else if i > |d| { assert s[i] == Render(ts[1..])[i - |d| - 1]; }
      }
      assert s[0] == d[0];
      if |ts| > 1 {
        assert s[|s| - 1] == Render(ts[1..])[|Render(ts[1..])| - 1];
      }
    }
  }

  /** Digits and lower-case unit letters are left alone by `lower`. */
  lemma LowerUnits(s: string)
    requires forall i :: 0 <= i < |s| ==> IsDigit(s[i]) || IsUnit(s[i])
    ensures Lower(s) == s
  {
    forall i | 0 <= i < |s| ensures LowerChar(s[i]) == s[i] {
      assert IsDigit(s[i]) || IsUnit(s[i]);
    }
  }

  /** Rendered distances have no surrounding space and no capitals. */
  lemma RenderIsNormal(ts: seq<Token>)
    requires UnitTokens(ts)
    ensures Lower(Strip(Render(ts))) == Render(ts)
  {
    var s := Render(ts);
    RenderShape(ts);
    Unpadded(s);
    LowerUnits(s);
  }

  /**
   * A composite distance is the sum of its tokens, each number times its unit
   * (m = 1760 yards, f = 220, y = 1); a zero total is not a distance.
   */
  lemma DistanceOfTokens(ts: seq<Token>)
    requires UnitTokens(ts)
    ensures DistanceOfText(Render(ts)) == if Total(ts) > 0.0 then Float(Total(ts)) else Null
  {
    RenderIsNormal(ts);
    ScanTokens(0.0, ts);
  }

  /** A unit letter with nothing in the buffer adds nothing and leaves the buffer empty. */
  lemma UnitClosesEmptyToken(y: real, unit: char)
    requires IsUnit(unit)
    ensures Step(ScanState(y, ""), unit) == ScanState(y, "")
  {
  }

  /** A bare number is taken as yards. */
  lemma DistanceOfBareNumber(n: nat)
    ensures DistanceOfText(ShowNat(n)) == if n > 0 then Float(n as real) else Null
  {
    var s := ShowNat(n);
    DigitsAreNormal(s);
    ScanDigits(0.0, "", s);
    assert "" + s == s;
    ParseFloatShowNat(n);
  }

  /** The worked example: two miles, four furlongs and 110 yards are 4510 yards. */
  lemma DistanceExample()
    ensures DistanceOfText("2m4f110y") == Float(4510.0)
  {
    var ts: seq<Token> := [(2, 'm'), (4, 'f'), (110, 'y')];
    assert ShowNat(110) == "110" by {
      assert ShowNat(1) == "1";
      assert ShowNat(11) == "11";
    }
    assert Render(ts[2..]) == "110y" by { assert ts[2..][1..] == []; }
    assert Render(ts[1..]) == "4f110y" by { assert ts[1..][1..] == ts[2..]; }
    assert Render(ts) == "2m4f110y";
    assert Total(ts[2..]) == 110.0 by { assert ts[2..][1..] == []; }
    assert Total(ts[1..]) == 990.0 by { assert ts[1..][1..] == ts[2..]; }
    DistanceOfTokens(ts);
  }

  /**
   * A buffer holding a superscript digit never parses, so the token it
   * belongs to adds nothing, whether a unit closes it or the text ends.
   */
  lemma SuperscriptSpoilsToken(y: real, num: string, c: char, unit: char)
    requires IsDigitLike(c) && !IsDigit(c) && c in num && IsUnit(unit)
    ensures Step(ScanState(y, num), unit) == ScanState(y, "")
    ensures Finish(ScanState(y, num)) == y
  {
    ParseFloatRejects(num, c);
  }

  /**
   * A superscript digit joins the pending number, as `str.isdigit` accepts
   * it, but then `float` rejects the buffer, so the whole token counts 0:
   * "2²m" has no distance.
   */
  lemma SuperscriptDigitExample()
    ensures DistanceOfText("2\U{B2}m") == Null
  {
    var s := "2\U{B2}m";
    var buf := "2\U{B2}";
    Unpadded(s);
    assert Strip(s) == s;
    assert Lower(s) == s;
    var st1 := Step(ScanState(0.0, ""), '2');
    assert st1 == ScanState(0.0, "2");
    var st2 := Step(st1, '\U{B2}');
    assert st2 == ScanState(0.0, buf);
    SuperscriptSpoilsToken(0.0, buf, '\U{B2}', 'm');
    var st3 := Step(st2, 'm');
    assert st3 == ScanState(0.0, "");
    assert s[1..] == "\U{B2}m" && s[1..][1..] == "m" && s[1..][1..][1..] == "";
    calc {
      ScanFrom(ScanState(0.0, ""), s);
      ScanFrom(st1, s[1..]);
      ScanFrom(st2, s[1..][1..]);
      ScanFrom(st3, s[1..][1..][1..]);
      st3;
    }
  }

  // ---------------------------------------------------------------------
  // _standardize_finish
  // ---------------------------------------------------------------------

  /** The non-finisher codes (pulled up, unseated rider, fell, brought down, ...). */
  const NonFinishCodes: set<string> :=
    {"pu", "ur", "f", "bd", "ro", "ref", "voi", "lft", "su", "dsq", "dnf", "ot", "otd", "bf"}

  function StandardizeFinishText(text: string): (r: Value)
    ensures r.Null? || (r.Float? && r.x > 0.0)
  {
    var t := Lower(Strip(text));
    if t in NonFinishCodes then Null
    else
      match ParseFloat(t)
      case Some(x) => if x > 0.0 then Float(x) else Null
      case None => Null
  }

  /**
   * `_standardize_finish`: a positive finishing place as a float, or None for
   * missing values, non-finisher codes and anything else. A number's text
   * parses back to the number; `str(True)`, `str(False)` and a datetime's text
   * do not parse.
   */
  function StandardizeFinish(v: Value): (r: Value)
    ensures r.Null? || (r.Float? && r.x > 0.0)
    ensures v.Null? || v.Bool? || v.Time? ==> r.Null?
  {
    match v
    case Null => Null
    case Str(text) => StandardizeFinishText(text)
    case Int(i) => if i > 0 then Float(i as real) else Null
    case Float(x) => if x > 0.0 then Float(x) else Null
    case _ => Null
  }

  /** Every non-finisher code, in any case and with any surrounding space, is None. */
  lemma NonFinishersAreNone(text: string)
    requires Lower(Strip(text)) in NonFinishCodes
    ensures StandardizeFinish(Str(text)) == Null
  {
  }

  /** Digits are left alone by `strip` and `lower`, and are no non-finisher code. */
  lemma DigitsAreNormal(s: string)
    requires |s| > 0 && AllDigits(s)
    ensures Lower(Strip(s)) == s && s !in NonFinishCodes
  {
    StripDigits(s);
    LowerUnits(s);
    assert IsDigit(s[0]);
  }

  /** A place written as digits is that place when it is positive. */
  lemma FinishOfPlace(n: nat)
    ensures StandardizeFinish(Str(ShowNat(n))) == if n > 0 then Float(n as real) else Null
  {
    DigitsAreNormal(ShowNat(n));
    ParseFloatShowNat(n);
  }

  /** A normalised finish is normalised again to itself. */
  lemma StandardizeFinishIdempotent(v: Value)
    ensures StandardizeFinish(StandardizeFinish(v)) == StandardizeFinish(v)
  {
  }

  /** Worked examples: " PU " is a non-finisher, "3" is third place. */
  lemma FinishExamples()
    ensures StandardizeFinish(Str(" PU ")) == Null
    ensures StandardizeFinish(Str("3")) == Float(3.0)
  {
    assert TrimLeft(" PU ") == "PU ";
    assert TrimRight("PU ") == "PU";
    assert Lower("PU") == "pu";
    assert ShowNat(3) == "3";
    FinishOfPlace(3);
  }
}
