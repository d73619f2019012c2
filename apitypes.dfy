/**
 * The dtype predicates of `pandas.api.types` as the in-repo library defines
 * them: each looks up the object's dtype and compares its kind code.
 */
module ApiTypes {
  import opened Common
  import opened PyValues
  import opened PySeries

  /**
   * What the predicates can be handed: a Series, a DataFrame (whose dtype the
   * library reports as None), or any other object, through the `dtype`
   * attribute it may or may not have.
   */
  datatype Obj = SeriesObj(series: Series) | FrameObj | OtherObj(dtype: Option<DType>)

  /** `_get_dtype(obj)`. */
  function GetDtype(obj: Obj): (d: Option<DType>)
    ensures obj.FrameObj? ==> d.None?
    ensures obj.SeriesObj? ==> d == Some(Dtype(obj.series))
  {
    match obj
    case SeriesObj(s) => Some(Dtype(s))
    case FrameObj => None
    case OtherObj(d) => d
  }

  /** `getattr(dtype, "kind", None) == code`. */
  predicate KindIs(d: Option<DType>, code: string) {
    d.Some? && KindCode(d.value.kind) == code
  }

  predicate IsDatetime64AnyDtype(obj: Obj) {
    KindIs(GetDtype(obj), "M")
  }

  predicate IsObjectDtype(obj: Obj) {
    KindIs(GetDtype(obj), "O")
  }

  predicate IsIntegerDtype(obj: Obj) {
    KindIs(GetDtype(obj), "i")
  }

  predicate IsFloatDtype(obj: Obj) {
    KindIs(GetDtype(obj), "f")
  }

  /** Each predicate holds exactly when the kind is its own. */
  lemma PredicatesReadTheKind(obj: Obj)
    ensures IsDatetime64AnyDtype(obj) <==> GetDtype(obj).Some? && GetDtype(obj).value.kind == DatetimeKind
    ensures IsObjectDtype(obj) <==> GetDtype(obj).Some? && GetDtype(obj).value.kind == ObjectKind
    ensures IsIntegerDtype(obj) <==> GetDtype(obj).Some? && GetDtype(obj).value.kind == IntKind
    ensures IsFloatDtype(obj) <==> GetDtype(obj).Some? && GetDtype(obj).value.kind == FloatKind
  {
  }

  /** A DataFrame has no dtype, so all four predicates are false for it. */
  lemma FrameMatchesNothing()
    ensures !IsDatetime64AnyDtype(FrameObj) && !IsObjectDtype(FrameObj)
    ensures !IsIntegerDtype(FrameObj) && !IsFloatDtype(FrameObj)
  {
  }

  /**
   * For a Series the predicate that holds is decided by the
   * first non-None value: a datetime, a float, an int (or bool), or anything
   * else / nothing at all.
   */
  lemma SeriesMatchesExactlyOne(s: Series)
    ensures IsDatetime64AnyDtype(SeriesObj(s)) <==> FirstNonNullIndex(s.data) < |s.data| && s.data[FirstNonNullIndex(s.data)].Time?
    ensures IsFloatDtype(SeriesObj(s)) <==> FirstNonNullIndex(s.data) < |s.data| && s.data[FirstNonNullIndex(s.data)].Float?
    ensures IsIntegerDtype(SeriesObj(s)) <==> FirstNonNullIndex(s.data) < |s.data| &&
                                              (s.data[FirstNonNullIndex(s.data)].Int? || s.data[FirstNonNullIndex(s.data)].Bool?)
    ensures IsObjectDtype(SeriesObj(s)) <==> FirstNonNullIndex(s.data) == |s.data| || s.data[FirstNonNullIndex(s.data)].Str?
  {
  }
}
