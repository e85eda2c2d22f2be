/** The descriptors that older versions wrote, by tables of their own, and what the upgrade makes of them. */
module TypeHistory {
  import opened Bytes
  import opened TypeFormats
  import opened TypeMakers
  import opened Types

  // What the aliases stand for.

  /** The bytes of an integer. */
  const INT_ALIASES: seq<(int, nat)> := [(VISIBLE_SMALLINT, 2), (VISIBLE_INTEGER, 4), (VISIBLE_BIGINT, 8)]
  const INT_OIDS: seq<(nat, int)> := [(2, T_INT2), (4, T_INT4), (8, T_INT8)]

  /** The bytes of a float. */
  const FLOAT_ALIASES: seq<(int, nat)> := [(VISIBLE_REAL, 4), (VISIBLE_DOUBLE, 8)]
  const FLOAT_OIDS: seq<(nat, int)> := [(4, T_FLOAT4), (8, T_FLOAT8)]

  /** The object ids of strings and of bit strings. */
  const STRING_ALIASES: seq<(int, int)> :=
    [(VISIBLE_NONE, T_TEXT), (VISIBLE_VARCHAR, T_VARCHAR), (VISIBLE_CHAR, T_BPCHAR), (VISIBLE_QCHAR, T_CHAR)]
  const BIT_ALIASES: seq<(int, int)> := [(VISIBLE_NONE, T_BIT), (VISIBLE_VARBIT, T_VARBIT)]

  /** Nothing but family, width, precision, alias and locale has been written. */
  predicate Bare(past: Level) {
    && past.tupleLabels == [] && !past.timePrecisionIsSet && past.intervalDurationField.None?
    && past.geoMetadata.None? && past.udtArrayOid.None?
  }

  predicate NoLocale(past: Level) {
    past.locale == None || past.locale == Some("")
  }

  /** Integers: by an alias, or else by the width in bits, where odd ones stand for eight bytes. */
  predicate WroteInt(past: Level, n: nat) {
    past.family == INT &&
    if past.visibleType == VISIBLE_NONE || past.visibleType == VISIBLE_BIT then
      n == (if past.width == 8 * 2 then 2 else if past.width == 8 * 4 then 4 else 8)
    else (past.visibleType, n) in INT_ALIASES
  }

  /** Floats: by an alias, by the width, or else by the binary digits of the precision. */
  predicate WroteFloat(past: Level, n: nat) {
    past.family == FLOAT &&
    if past.visibleType != VISIBLE_NONE then (past.visibleType, n) in FLOAT_ALIASES
    else if past.width == 8 * 4 || past.width == 8 * 8 then past.width == 8 * n
    else n == if 0 < past.precision <= 24 then 4 else 8
  }

  predicate WroteString(past: Level, o: int) {
    IsString(past.family) && (past.visibleType, o) in STRING_ALIASES
  }

  predicate WroteBits(past: Level, o: int) {
    past.family == BIT && (past.visibleType, o) in BIT_ALIASES
  }

  // The current types.

  function IntType(n: nat, o: int): T {
    Scalar(Plain(INT, 8 * n, o))
  }

  function FloatType(n: nat, o: int): T {
    Scalar(Plain(FLOAT, 8 * n, o))
  }

  function TextType(family: int, width: int, o: int, locale: string): T {
    Scalar(Plain(family, width, o).(locale := Some(locale)))
  }

  predicate UpgradesTo(past: T, now: T) {
    Upgrade(past).Ok? && Identical(Upgrade(past).value, now)
  }

  /** An old integer is upgraded to the one of n bytes if and only if it was written for it. */
  lemma IntsUpgrade(past: Level, n: nat, o: int)
    requires past.family == INT && Bare(past) && NoLocale(past) && past.precision == 0 && (n, o) in INT_OIDS
    ensures UpgradesTo(Scalar(past), IntType(n, o)) <==> WroteInt(past, n)
  {}

  lemma FloatsUpgrade(past: Level, n: nat, o: int)
    requires past.family == FLOAT && Bare(past) && NoLocale(past) && (n, o) in FLOAT_OIDS
    ensures UpgradesTo(Scalar(past), FloatType(n, o)) <==> WroteFloat(past, n)
  {}

  /** An old string keeps its width and its locale, which only collated ones have. */
  lemma StringsUpgrade(past: Level, o: int, locale: string)
    requires IsString(past.family) && Bare(past) && past.precision == 0
    requires past.locale == Some(locale) || (past.locale == None && locale == "")
    ensures UpgradesTo(Scalar(past), TextType(past.family, past.width, o, locale)) <==>
      WroteString(past, o) && (past.family == STRING ==> locale == "")
  {}

  lemma BitsUpgrade(past: Level, o: int)
    requires past.family == BIT && Bare(past) && NoLocale(past) && past.precision == 0
    ensures UpgradesTo(Scalar(past), TextType(BIT, past.width, o, "")) <==> WroteBits(past, o)
  {}

  const TIME_OIDS: seq<(int, int)> :=
    [(TIME, T_TIME), (TIMETZ, T_TIMETZ), (TIMESTAMP, T_TIMESTAMP), (TIMESTAMPTZ, T_TIMESTAMPTZ)]

  /** A precision is set once it is positive; -1 was a default, and so is 0. */
  lemma TimesUpgrade(past: Level, o: int)
    requires (past.family, o) in TIME_OIDS && Bare(past) && NoLocale(past)
    requires past.oid == 0 && past.width == 0 && past.precision >= -1
    ensures var p := if past.precision < 0 then 0 else past.precision;
            UpgradesTo(Scalar(past), Scalar(Plain(past.family, 0, o).(precision := p, timePrecisionIsSet := p > 0)))
  {}

  const DEFAULT_OIDS: seq<(int, int)> :=
    [(BOOL, T_BOOL), (DECIMAL, T_NUMERIC), (DATE, T_DATE), (BYTES, T_BYTEA), (OID, T_OID), (UNKNOWN, T_UNKNOWN),
     (UUID, T_UUID), (INET, T_INET), (JSON, T_JSONB), (TUPLE, T_RECORD), (ANY, T_ANYELEMENT),
     (GEOMETRY, T_GEOMETRY), (GEOGRAPHY, T_GEOGRAPHY), (BOX2D, T_BOX2D)]

  /** Families without aliases have one object id each, and keep the rest. */
  lemma DefaultsUpgrade(past: Level, o: int)
    requires (past.family, o) in DEFAULT_OIDS && Bare(past) && NoLocale(past) && past.oid == 0
    ensures UpgradesTo(Scalar(past), Scalar(Plain(past.family, past.width, o).(precision := past.precision)))
  {
    DefaultOid(past.family, o);
  }

  predicate NeedsNothing(family: int) {
    && !HasAliases(family) && !IsTime(family) && !IsLegacy(family)
    && family != INTERVAL && family != ARRAY
  }

  lemma DefaultOid(family: int, o: int)
    requires (family, o) in DEFAULT_OIDS
    ensures NeedsNothing(family) && FamilyToOid(family) == o
  {}

  /** Intervals have a duration field of their own, the empty one at first. */
  lemma IntervalsUpgrade(past: Level)
    requires past.family == INTERVAL && Bare(past) && NoLocale(past)
    requires past.oid == 0 && past.width == 0 && past.precision >= 0
    ensures UpgradesTo(Scalar(past), Scalar(Plain(INTERVAL, 0, T_INTERVAL).(precision := past.precision,
      timePrecisionIsSet := past.precision > 0, intervalDurationField := Some(IntervalField(0, 0)))))
  {}

  /** Names are strings without a width, collated ones if they have a locale. */
  lemma NamesUpgrade(past: Level, family: int, locale: string)
    requires past.family == NAME && Bare(past) && past.precision == 0 && IsString(family)
    ensures UpgradesTo(Scalar(past), TextType(family, 0, T_NAME, locale)) <==>
      past.width == 0 && if family == STRING then past.locale == None && locale == "" else past.locale == Some(locale)
  {}

  /** Vectors are arrays of two-byte integers or of object ids. */
  lemma VectorsUpgrade(past: Level)
    requires past.family == INT2VECTOR || past.family == OIDVECTOR
    requires Bare(past) && NoLocale(past) && past.width == 0 && past.precision == 0
    ensures UpgradesTo(Scalar(past),
      if past.family == INT2VECTOR then ArrayOf(IntType(2, T_INT2), T_INT2VECTOR)
      else ArrayOf(Scalar(Plain(OID, 0, T_OID)), T_OIDVECTOR))
  {}

  // Arrays.

  /** An array of a version that had no contents: the descriptor of the element with another family. */
  function OldArray(past: Level): T {
    Scalar(past.(family := ARRAY, arrayElemType := Some(past.family)))
  }

  predicate HasAliases(family: int) {
    family == INT || family == FLOAT || IsString(family) || family == BIT
  }

  /** An array without contents, whose element is read from the array's own fields as u. */
  predicate ReadAs(a: Level, u: Level) {
    && a.family == ARRAY && HasAliases(u.family) && a.arrayElemType == Some(u.family) && Bare(a)
    && UpgradeOther(ElementFromArray(Scalar(a))) == Ok(Scalar(u))
  }

  predicate AliasOid(o: int) {
    || o == T_INT2 || o == T_INT4 || o == T_INT8 || o == T_FLOAT4 || o == T_FLOAT8
    || o == T_TEXT || o == T_VARCHAR || o == T_BPCHAR || o == T_CHAR || o == T_BIT || o == T_VARBIT
  }

  lemma NumbersHaveArrays(o: int)
    requires o == T_INT2 || o == T_INT4 || o == T_INT8 || o == T_FLOAT4 || o == T_FLOAT8
    ensures o in OID_TO_ARRAY_OID && OID_TO_ARRAY_OID[o] != 0
  {}

  lemma TextsHaveArrays(o: int)
    requires o == T_TEXT || o == T_VARCHAR || o == T_BPCHAR || o == T_CHAR || o == T_BIT || o == T_VARBIT
    ensures o in OID_TO_ARRAY_OID && OID_TO_ARRAY_OID[o] != 0
  {}

  lemma AliasHasArray(u: Level)
    requires HasAliases(u.family) && AliasOid(u.oid)
    ensures CalcArrayOid(u).Some? && CalcArrayOid(u).value != 0
  {
    var o := u.oid;
    if o == T_INT2 || o == T_INT4 || o == T_INT8 || o == T_FLOAT4 || o == T_FLOAT8 {
      NumbersHaveArrays(o);
    } else {
      TextsHaveArrays(o);
    }
  }

  lemma UpgradedAlias(t: Level)
    requires HasAliases(t.family) && UpgradeScalar(t).Ok?
    ensures AliasOid(Finish(UpgradeScalar(t).value).oid)
  {}

  lemma ReadAsHasOid(a: Level, u: Level)
    requires ReadAs(a, u)
    ensures CalcArrayOid(u).Some? && CalcArrayOid(u).value != 0
  {
    UpgradedAlias(ElementFromArray(Scalar(a)).level);
    AliasHasArray(u);
  }

  /** It becomes the array of a type if and only if its element becomes the type. */
  lemma ArrayAsElement(a: Level, u: Level, now: Level)
    requires ReadAs(a, u) && CalcArrayOid(now).Some? && now.family != UNKNOWN
    ensures UpgradesTo(Scalar(a), MakeArray(Scalar(now)).value) <==> SameLevel(u, now)
  {
    ReadAsHasOid(a, u);
    var o := CalcArrayOid(u).value;
    var level := Finish(ClearElementFields(a.(oid := o)));
    assert Upgrade(Scalar(a)) == Ok(T(level, Some(Scalar(u)), []));
    var whole := MakeArray(Scalar(now)).value;
    assert Identical(T(level, Some(Scalar(u)), []), whole) <==>
      SameLevel(level, whole.level) && Identical(Scalar(u), Scalar(now));
  }

  /** Arrays are upgraded as their elements are. */
  lemma ArraysUpgrade(past: Level, now: Level)
    requires HasAliases(past.family) && Bare(past) && UpgradesTo(Scalar(past), Scalar(now))
    requires CalcArrayOid(now).Some? && now.family != UNKNOWN
    ensures UpgradesTo(OldArray(past), MakeArray(Scalar(now)).value)
  {
    var a := OldArray(past).level;
    var u := UpgradeOther(ElementFromArray(Scalar(a))).value.level;
    ElementUpgrades(past);
    ArrayAsElement(a, u, now);
  }

  lemma ElementUpgrades(past: Level)
    requires HasAliases(past.family) && Bare(past) && Upgrade(Scalar(past)).Ok?
    ensures var a, now := OldArray(past).level, Upgrade(Scalar(past)).value.level;
            var u := UpgradeOther(ElementFromArray(Scalar(a)));
            u.Ok? && u.value == Scalar(now.(arrayDimensions := [], arrayElemType := None)) && ReadAs(a, u.value.level)
  {}

  // What is written today can be read by older versions.

  /** The alias of a float says all that its width does, and an empty locale is none. */
  lemma DowngradeWrites(t: Level)
    requires CurrentLevel(t) && StableScalar(t) && HasAliases(t.family) && t.oid != T_NAME
    ensures var d := Downgrade(t, None);
            && d.Ok? && d.value.family == t.family && d.value.width == t.width
            && d.value.locale == (if t.locale == Some("") then None else t.locale)
            && (t.family == INT ==> exists n: nat :: WroteInt(d.value, n) && (n, t.oid) in INT_OIDS)
            && (t.family == FLOAT ==>
                  exists n: nat ::
                    WroteFloat(d.value, n) && WroteFloat(d.value.(width := 0), n) && (n, t.oid) in FLOAT_OIDS)
            && (IsString(t.family) ==> WroteString(d.value, t.oid))
            && (t.family == BIT ==> WroteBits(d.value, t.oid))
  {
    var written := Downgrade(t, None).value;
    if t.family == INT { assert WroteInt(written, t.width / 8) && (t.width / 8, t.oid) in INT_OIDS; }
    if t.family == FLOAT { assert WroteFloat(written, t.width / 8) && (t.width / 8, t.oid) in FLOAT_OIDS; }
  }

  /** The array fields repeat the element, so that its contents can be dropped, unless these are names. */
  lemma ContentsCanBeDropped(elem: Level, o: int)
    requires CurrentLevel(elem) && StableScalar(elem) && HasAliases(elem.family) && Bare(elem) && elem.precision == 0
    requires MakeArray(Scalar(elem)) == Some(ArrayOf(Scalar(elem), o))
    ensures var d := Downgrade(ArrayOf(Scalar(elem), o).level, Some(elem));
            d.Ok? && (UpgradesTo(Scalar(d.value), ArrayOf(Scalar(elem), o)) <==> elem.oid != T_NAME)
  {
    ArrayOidIsNoVector(elem);
    ElementDowngrades(elem);
    RepeatedFields(elem, o);
    var d := Downgrade(ArrayOf(Scalar(elem), o).level, Some(elem)).value;
    RepeatedElement(elem, d);
    ArrayAsElement(d, UpgradeOther(ElementFromArray(Scalar(d))).value.level, elem);
  }

  lemma ElementDowngrades(elem: Level)
    requires StableScalar(elem) && HasAliases(elem.family)
    ensures DowngradeScalar(elem).Ok?
  {}

  /** The fields of an array that has been downgraded without its contents. */
  predicate RepeatsElement(elem: Level, d: Level) {
    && d.family == ARRAY && d.arrayElemType == Some(elem.family) && Bare(d)
    && Repeats(elem, ElementFromArray(Scalar(d)).level)
  }

  lemma RepeatedElement(elem: Level, d: Level)
    requires CurrentLevel(elem) && StableScalar(elem) && HasAliases(elem.family) && Bare(elem) && elem.precision == 0
    requires RepeatsElement(elem, d)
    ensures var u := UpgradeOther(ElementFromArray(Scalar(d)));
            u.Ok? && ReadAs(d, u.value.level) && (SameLevel(u.value.level, elem) <==> elem.oid != T_NAME)
  {
    var e := ElementFromArray(Scalar(d)).level;
    if elem.family == INT || elem.family == FLOAT { RepeatedNumber(elem, e); } else { RepeatedText(elem, e); }
  }

  /** What an element of an array is written as, apart from its object id. */
  predicate Repeats(elem: Level, e: Level) {
    && DowngradeScalar(elem).Ok? && Bare(e) && e.precision == 0
    && e.family == elem.family && e.width == elem.width && e.visibleType == DowngradeScalar(elem).value.visibleType
    && e.locale == if elem.locale == Some("") then None else elem.locale
  }

  lemma RepeatedFields(elem: Level, o: int)
    requires CurrentLevel(elem) && StableScalar(elem) && HasAliases(elem.family) && Bare(elem) && elem.precision == 0
    requires DowngradeScalar(elem).Ok? && !IsVector(o)
    ensures var d := Downgrade(ArrayOf(Scalar(elem), o).level, Some(elem)); d.Ok? && RepeatsElement(elem, d.value)
  {}

  lemma RepeatedNumber(elem: Level, e: Level)
    requires CurrentLevel(elem) && StableScalar(elem) && Bare(elem) && elem.precision == 0 && Repeats(elem, e)
    requires elem.family == INT || elem.family == FLOAT
    ensures UpgradeScalar(e).Ok? && SameLevel(Finish(UpgradeScalar(e).value), elem) && elem.oid != T_NAME
  {}

  lemma RepeatedText(elem: Level, e: Level)
    requires CurrentLevel(elem) && StableScalar(elem) && Bare(elem) && elem.precision == 0 && Repeats(elem, e)
    requires IsString(elem.family) || elem.family == BIT
    ensures UpgradeScalar(e).Ok? && (SameLevel(Finish(UpgradeScalar(e).value), elem) <==> elem.oid != T_NAME)
  {}
}
