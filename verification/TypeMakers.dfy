/** The constructors of types.go, and which of the types they build survive the legacy format. */
module TypeMakers {
  import opened Bytes
  import opened Types
  import opened TypeFormats

  const VOID := 26

  /** The family of OidToType's entry for an oid that is not an array's. */
  function FamilyOfOid(o: int): Option<int> {
    if o == T_ANYELEMENT then Some(ANY)
    else if o == T_BIT || o == T_VARBIT then Some(BIT)
    else if o == T_BOOL then Some(BOOL)
    else if o == T_BPCHAR || o == T_CHAR || o == T_NAME || o == T_TEXT || o == T_VARCHAR then Some(STRING)
    else if o == T_BYTEA then Some(BYTES)
    else if o == T_DATE then Some(DATE)
    else if o == T_FLOAT4 || o == T_FLOAT8 then Some(FLOAT)
    else if o == T_INT2 || o == T_INT4 || o == T_INT8 then Some(INT)
    else if o == T_INET then Some(INET)
    else if o == T_INTERVAL then Some(INTERVAL)
    else if o == T_JSONB then Some(JSON)
    else if o == T_NUMERIC then Some(DECIMAL)
    else if o == T_OID || o == 2205 || o == 4089 || o == 24 || o == 2202 || o == 4096 || o == 2206 then Some(OID)
    else if o == T_TIME then Some(TIME)
    else if o == T_TIMETZ then Some(TIMETZ)
    else if o == T_TIMESTAMP then Some(TIMESTAMP)
    else if o == T_TIMESTAMPTZ then Some(TIMESTAMPTZ)
    else if o == T_UNKNOWN then Some(UNKNOWN)
    else if o == T_UUID then Some(UUID)
    else if o == 2278 then Some(VOID)
    else if o == T_GEOMETRY then Some(GEOMETRY)
    else if o == T_GEOGRAPHY then Some(GEOGRAPHY)
    else if o == T_BOX2D then Some(BOX2D)
    else None
  }

  predicate PrecisionAllowed(family: int, precision: int) {
    if family == INTERVAL || IsTime(family) then 0 <= precision <= 6
    else if family == DECIMAL then precision >= 0
    else precision == 0
  }

  predicate WidthAllowed(family: int, precision: int, width: int) {
    && width >= 0
    && if family == INT then width == 16 || width == 32 || width == 64
       else if family == FLOAT then width == 32 || width == 64
       else if family == DECIMAL then width <= precision
       else IsString(family) || family == BYTES || family == BIT || family == GEOMETRY || family == GEOGRAPHY ||
            width == 0
  }

  /** MakeScalar; None where the source panics. */
  function MakeScalar(family: int, o: int, precision: int, width: int, locale: string): Option<T> {
    var known := FamilyOfOid(o);
    if known.None? || (family != known.value && (family != COLLATED_STRING || known.value != STRING)) then None
    else if family != COLLATED_STRING && locale != "" then None
    else if !PrecisionAllowed(family, precision) || !WidthAllowed(family, precision, width) then None
    else
      Some(Scalar(Plain(family, width, o).(
        precision := precision,
        timePrecisionIsSet := family == INTERVAL || IsTime(family),
        locale := Some(locale),
        intervalDurationField := if family == INTERVAL then Some(IntervalField(0, 0)) else None,
        geoMetadata := if family == GEOMETRY || family == GEOGRAPHY then Some(GeoMetadata) else None)))
  }

  /**
   MakeScalar checks width and oid one by one only, so a mismatched pair of them does not survive;
   neither does a name with a width, nor one collated by an empty locale, nor a geo type.
   */
  lemma ScalarSurvives(family: int, o: int, precision: int, width: int, locale: string)
    requires MakeScalar(family, o, precision, width, locale).Some?
    ensures Survives(MakeScalar(family, o, precision, width, locale).value) <==>
      && family != GEOMETRY && family != GEOGRAPHY
      && (family == INT ==> StableInt(width, o))
      && (family == FLOAT ==> StableFloat(width, o))
      && (o == T_NAME ==> width == 0 && (family == COLLATED_STRING ==> locale != ""))
  {
    var t := MakeScalar(family, o, precision, width, locale).value;
    SurvivesWhenStable(t);
  }

  lemma MismatchedInt()
    ensures var t := MakeScalar(INT, T_INT2, 0, 64, ""); t.Some? && !Survives(t.value)
  {
    ScalarSurvives(INT, T_INT2, 0, 64, "");
  }

  /** MakeCollatedString; None where the source panics. */
  function MakeCollatedString(strType: T, locale: string): Option<T> {
    if IsStringOid(strType.level.oid)
    then Some(Scalar(Plain(COLLATED_STRING, strType.level.width, strType.level.oid).(locale := Some(locale))))
    else None
  }

  lemma CollatedStringSurvives(strType: T, locale: string)
    requires MakeCollatedString(strType, locale).Some?
    ensures Survives(MakeCollatedString(strType, locale).value) <==>
      (strType.level.oid == T_NAME ==> strType.level.width == 0 && locale != "")
  {
    SurvivesWhenStable(MakeCollatedString(strType, locale).value);
  }

  /** MakeTime, MakeTimeTZ, MakeTimestamp and MakeTimestampTZ. */
  function MakeTimeLike(family: int, precision: int): T
    requires IsTime(family)
  {
    Scalar(Plain(family, 0, FamilyToOid(family)).(precision := precision, timePrecisionIsSet := true))
  }

  /** These constructors check nothing, and a precision of -1 is taken for an old default. */
  lemma TimeLikeSurvives(family: int, precision: int)
    requires IsTime(family)
    ensures Survives(MakeTimeLike(family, precision)) <==> precision != -1
  {
    SurvivesWhenStable(MakeTimeLike(family, precision));
  }

  const STRING_TYPE: T := Scalar(Plain(STRING, 0, T_TEXT))

  /** MakeArray; None where CalcArrayOid panics. */
  function MakeArray(elem: T): Option<T> {
    var typ := if elem.level.family == UNKNOWN then STRING_TYPE else elem;
    var o := CalcArrayOid(typ.level);
    if o.None? then None else Some(T(Plain(ARRAY, 0, o.value), Some(typ), []))
  }

  lemma ArrayOidIsNoVector(elem: Level)
    requires CalcArrayOid(elem).Some? && elem.family != ARRAY && elem.family != ENUM && elem.family != UNKNOWN
    ensures CalcArrayOid(elem).value != 0 && !IsVector(CalcArrayOid(elem).value)
  {}

  function ArrayOf(elem: T, o: int): T {
    T(Plain(ARRAY, 0, o), Some(elem), [])
  }

  lemma ArrayOfSurvives(elem: T, o: int)
    requires Current(elem) && (elem.level.family != ARRAY ==> o != 0 && !IsVector(o))
    ensures Survives(ArrayOf(elem, o)) <==> Survives(elem) && elem.level.family != ARRAY
  {
    SurvivesWhenStable(elem);
    SurvivesWhenStable(ArrayOf(elem, o));
  }

  /** The array oid of an enum is whatever it was declared with. */
  predicate EnumArrayOid(elem: Level) {
    elem.udtArrayOid.Some? && elem.udtArrayOid.value != 0 && !IsVector(elem.udtArrayOid.value)
  }

  lemma EnumArraySurvives(elem: T, o: int)
    requires Current(elem) && elem.level.family == ENUM && Some(o) == CalcArrayOid(elem.level)
    ensures Survives(ArrayOf(elem, o)) <==> Survives(elem) && EnumArrayOid(elem.level)
  {
    SurvivesWhenStable(elem);
    SurvivesWhenStable(ArrayOf(elem, o));
  }

  /** An array survives when its element does, is no array itself and has an array oid of its own. */
  lemma ArraySurvives(elem: T)
    requires Current(elem) && MakeArray(elem).Some?
    ensures Survives(MakeArray(elem).value) <==>
      elem.level.family == UNKNOWN ||
      (Survives(elem) && elem.level.family != ARRAY && (elem.level.family == ENUM ==> EnumArrayOid(elem.level)))
  {
    if elem.level.family == UNKNOWN {
      KnownArraySurvives(STRING_TYPE);
      StringSurvives();
    } else if elem.level.family == ENUM {
      EnumArraySurvives(elem, CalcArrayOid(elem.level).value);
    } else {
      KnownArraySurvives(elem);
    }
  }

  lemma StringSurvives()
    ensures Current(STRING_TYPE) && Survives(STRING_TYPE)
  {
    SurvivesWhenStable(STRING_TYPE);
  }

  lemma KnownArraySurvives(elem: T)
    requires Current(elem) && CalcArrayOid(elem.level).Some?
    requires elem.level.family != ENUM && elem.level.family != UNKNOWN
    ensures Survives(ArrayOf(elem, CalcArrayOid(elem.level).value)) <==> Survives(elem) && elem.level.family != ARRAY
  {
    if elem.level.family != ARRAY { ArrayOidIsNoVector(elem.level); }
    ArrayOfSurvives(elem, CalcArrayOid(elem.level).value);
  }

  function MakeLabeledTuple(contents: seq<T>, labels: seq<string>): T {
    T(Plain(TUPLE, 0, T_RECORD).(tupleLabels := labels), None, contents)
  }

  /** A tuple survives when its fields do. */
  lemma TupleSurvives(contents: seq<T>, labels: seq<string>)
    requires forall i :: 0 <= i < |contents| ==> Current(contents[i])
    ensures Survives(MakeLabeledTuple(contents, labels)) <==> forall i :: 0 <= i < |contents| ==> Survives(contents[i])
  {
    forall i | 0 <= i < |contents| ensures Survives(contents[i]) <==> Stable(contents[i]) {
      SurvivesWhenStable(contents[i]);
    }
    SurvivesWhenStable(MakeLabeledTuple(contents, labels));
  }
}
