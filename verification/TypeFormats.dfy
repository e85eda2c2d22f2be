/** The downgrade to the legacy descriptor, the upgrade from it, and what survives the passage. */
module TypeFormats {
  import opened Bytes
  import opened Types

  datatype FormatError =
    | UnexpectedVisibleType | UnexpectedOid | NestedArray | StringWithLocale | NameWithWidth | NilPointer | NoArrayOid

  predicate IsTime(family: int) {
    family == TIMESTAMP || family == TIMESTAMPTZ || family == TIME || family == TIMETZ
  }

  predicate IsString(family: int) {
    family == STRING || family == COLLATED_STRING
  }

  predicate IsLegacy(family: int) {
    family == NAME || family == INT2VECTOR || family == OIDVECTOR
  }

  predicate IsStringAlias(v: int) {
    v == VISIBLE_VARCHAR || v == VISIBLE_CHAR || v == VISIBLE_QCHAR || v == VISIBLE_NONE
  }

  predicate IsStringOid(oid: int) {
    oid == T_TEXT || oid == T_VARCHAR || oid == T_BPCHAR || oid == T_CHAR || oid == T_NAME
  }

  predicate StableInt(width: int, oid: int) {
    (width == 16 && oid == T_INT2) || (width == 32 && oid == T_INT4) || (width == 64 && oid == T_INT8)
  }

  predicate StableFloat(width: int, oid: int) {
    (width == 32 && oid == T_FLOAT4) || (width == 64 && oid == T_FLOAT8)
  }

  // Downgrading one level.

  function EmptyLocaleToNil(t: Level): Level {
    if t.locale == Some("") then t.(locale := None) else t
  }

  function DowngradeString(t: Level): Result<Level, FormatError> {
    if t.oid == T_TEXT then Ok(t)
    else if t.oid == T_VARCHAR then Ok(t.(visibleType := VISIBLE_VARCHAR))
    else if t.oid == T_BPCHAR then Ok(t.(visibleType := VISIBLE_CHAR))
    else if t.oid == T_CHAR then Ok(t.(visibleType := VISIBLE_QCHAR))
    else if t.oid == T_NAME then Ok(t.(family := NAME))
    else Err(UnexpectedOid)
  }

  function DowngradeScalar(t: Level): Result<Level, FormatError> {
    if t.family == BIT then Ok(if t.oid == T_VARBIT then t.(visibleType := VISIBLE_VARBIT) else t)
    else if t.family == FLOAT then Ok(if t.width == 32 then t.(visibleType := VISIBLE_REAL) else t)
    else if IsString(t.family) then DowngradeString(t)
    else Ok(t)
  }

  /** The array fields take over what describes the element. */
  function DowngradeArray(t: Level, contents: Level, elem: Level): Level {
    t.(width := elem.width, precision := elem.precision, locale := elem.locale, visibleType := elem.visibleType,
       arrayElemType := Some(contents.family),
       family := if t.oid == T_INT2VECTOR then INT2VECTOR else if t.oid == T_OIDVECTOR then OIDVECTOR else t.family)
  }

  /** downgradeType for a type whose contents, if any, are given by their level. */
  function Downgrade(t: Level, contents: Option<Level>): Result<Level, FormatError> {
    if t.family == ARRAY then
      if contents.None? then Err(NilPointer)
      else if contents.value.family == ARRAY then Err(NestedArray)
      else match DowngradeScalar(contents.value)
        case Err(e) => Err(e)
        case Ok(elem) => Ok(EmptyLocaleToNil(DowngradeArray(t, contents.value, EmptyLocaleToNil(elem))))
    else match DowngradeScalar(t)
      case Err(e) => Err(e)
      case Ok(d) => Ok(EmptyLocaleToNil(d))
  }

  // Upgrading one level.

  function UpgradeInt(t: Level): Result<Level, FormatError> {
    if t.visibleType == VISIBLE_SMALLINT then Ok(t.(width := 16, oid := T_INT2))
    else if t.visibleType == VISIBLE_INTEGER then Ok(t.(width := 32, oid := T_INT4))
    else if t.visibleType == VISIBLE_BIGINT then Ok(t.(width := 64, oid := T_INT8))
    else if t.visibleType == VISIBLE_BIT || t.visibleType == VISIBLE_NONE then
      Ok(if t.width == 16 then t.(oid := T_INT2)
         else if t.width == 32 then t.(oid := T_INT4)
         else t.(oid := T_INT8, width := 64))
    else Err(UnexpectedVisibleType)
  }

  function UpgradeFloat(t: Level): Result<Level, FormatError> {
    var u := t.(precision := 0);
    if t.visibleType == VISIBLE_REAL then Ok(u.(oid := T_FLOAT4, width := 32))
    else if t.visibleType == VISIBLE_DOUBLE then Ok(u.(oid := T_FLOAT8, width := 64))
    else if t.visibleType == VISIBLE_NONE then
      Ok(if t.width == 32 then u.(oid := T_FLOAT4)
         else if t.width == 64 then u.(oid := T_FLOAT8)
         else if 1 <= t.precision <= 24 then u.(oid := T_FLOAT4, width := 32)
         else u.(oid := T_FLOAT8, width := 64))
    else Err(UnexpectedVisibleType)
  }

  function UpgradeTime(t: Level): Level {
    if t.precision == -1 then t.(precision := 0, timePrecisionIsSet := false)
    else if t.precision > 0 then t.(timePrecisionIsSet := true)
    else t
  }

  function UpgradeInterval(t: Level): Level {
    var u := if t.intervalDurationField.None? then t.(intervalDurationField := Some(IntervalField(0, 0))) else t;
    if t.precision > 0 then u.(timePrecisionIsSet := true) else u
  }

  function WithStringOid(t: Level): Level {
    t.(oid := if t.visibleType == VISIBLE_VARCHAR then T_VARCHAR
              else if t.visibleType == VISIBLE_CHAR then T_BPCHAR
              else if t.visibleType == VISIBLE_QCHAR then T_CHAR else T_TEXT)
  }

  function UpgradeString(t: Level): Result<Level, FormatError> {
    if !IsStringAlias(t.visibleType) then Err(UnexpectedVisibleType)
    else if t.family == STRING && t.locale.Some? && t.locale.value != "" then Err(StringWithLocale)
    else Ok(WithStringOid(t))
  }

  function UpgradeBit(t: Level): Result<Level, FormatError> {
    if t.visibleType == VISIBLE_VARBIT then Ok(t.(oid := T_VARBIT))
    else if t.visibleType == VISIBLE_NONE then Ok(t.(oid := T_BIT))
    else Err(UnexpectedVisibleType)
  }

  function AsName(t: Level): Level {
    t.(family := if t.locale.Some? then COLLATED_STRING else STRING, oid := T_NAME)
  }

  function UpgradeName(t: Level): Result<Level, FormatError> {
    if t.width != 0 then Err(NameWithWidth) else Ok(AsName(t))
  }

  function UpgradeScalar(t: Level): Result<Level, FormatError> {
    if t.family == INT then UpgradeInt(t)
    else if t.family == FLOAT then UpgradeFloat(t)
    else if IsTime(t.family) then Ok(UpgradeTime(t))
    else if t.family == INTERVAL then Ok(UpgradeInterval(t))
    else if IsString(t.family) then UpgradeString(t)
    else if t.family == BIT then UpgradeBit(t)
    else if t.family == NAME then UpgradeName(t)
    else Ok(t)
  }

  /** What every family has in common at the end of the upgrade. */
  function Finish(t: Level): Level {
    t.(oid := if t.oid == 0 then FamilyToOid(t.family) else t.oid,
       visibleType := 0,
       locale := if t.locale.None? then Some("") else t.locale)
  }

  /** A copy of the array that stands for its element. */
  function ElementFromArray(t: T): T
    requires t.level.arrayElemType.Some?
  {
    t.(level := t.level.(family := t.level.arrayElemType.value, arrayDimensions := [], arrayElemType := None))
  }

  /**
   The contents of an array from a version that had none are the array itself with the element's
   family. An array of arrays of that age has no element type to follow.
   */
  function ContentsFromArray(t: T): Result<T, FormatError> {
    if t.level.arrayElemType.None? || t.level.arrayElemType == Some(ARRAY) then Err(NilPointer)
    else
      match UpgradeOther(ElementFromArray(t))
      case Err(e) => Err(e)
      case Ok(u) =>
        if CalcArrayOid(u.level).None? then Err(NoArrayOid)
        else Ok(t.(arrayContents := Some(u), level := t.level.(oid := CalcArrayOid(u.level).value)))
  }

  function UpgradeArray(t: T): Result<T, FormatError> {
    match if t.arrayContents.Some? then Ok(t) else ContentsFromArray(t)
    case Err(e) => Err(e)
    case Ok(u) =>
      if u.arrayContents.Some? && u.arrayContents.value.level.family == ARRAY then Err(NestedArray)
      else Ok(u.(level := Finish(ClearElementFields(u.level))))
  }

  /** Zeroes the fields that described the element in older formats. */
  function ClearElementFields(t: Level): Level {
    t.(width := 0, precision := 0, locale := None, visibleType := 0, arrayElemType := None, arrayDimensions := [])
  }

  function UpgradeOther(t: T): Result<T, FormatError> {
    if t.level.family == INT2VECTOR then
      Ok(t.(level := Finish(t.level.(family := ARRAY, width := 0, oid := T_INT2VECTOR)),
            arrayContents := Some(INT2_TYPE)))
    else if t.level.family == OIDVECTOR then
      Ok(t.(level := Finish(t.level.(family := ARRAY, oid := T_OIDVECTOR)), arrayContents := Some(OID_TYPE)))
    else match UpgradeScalar(t.level)
      case Err(e) => Err(e)
      case Ok(u) => Ok(t.(level := Finish(u)))
  }

  function Upgrade(t: T): Result<T, FormatError> {
    if t.level.family == ARRAY then UpgradeArray(t) else UpgradeOther(t)
  }

  // What an upgrade that fails leaves in the receiver.

  function ScalarLeftover(t: Level): Level {
    if IsString(t.family) && IsStringAlias(t.visibleType) then WithStringOid(t)
    else if t.family == NAME then AsName(t)
    else t
  }

  function ArrayLeftover(t: T): T {
    if t.arrayContents.Some? || t.level.arrayElemType.None? || t.level.arrayElemType == Some(ARRAY) then t
    else match UpgradeOther(ElementFromArray(t))
      case Err(_) => t
      case Ok(u) =>
        T(if CalcArrayOid(u.level).Some? then t.level.(oid := CalcArrayOid(u.level).value) else t.level,
          Some(u), t.tupleContents)
  }

  function Leftover(t: T): T {
    if t.level.family == ARRAY then ArrayLeftover(t) else t.(level := ScalarLeftover(t.level))
  }

  // All levels: every child is downgraded and upgraded on its own.

  function LevelOf(t: Option<T>): Option<Level> {
    if t.Some? then Some(t.value.level) else None
  }

  /** Marshal: the descriptor that goes into the bytes. */
  function Marshal(t: T): Result<T, FormatError>
    decreases t, |t.tupleContents| + 1
  {
    var d := Downgrade(t.level, LevelOf(t.arrayContents));
    var fields := MarshalFields(t, 0);
    var contents := if t.arrayContents.Some? then Marshal(t.arrayContents.value) else Ok(t);
    if d.Err? then Err(d.error)
    else if fields.Err? then Err(fields.error)
    else if contents.Err? then contents
    else Ok(T(d.value, if t.arrayContents.Some? then Some(contents.value) else None, fields.value))
  }

  function MarshalFields(t: T, i: nat): (r: Result<seq<T>, FormatError>)
    requires i <= |t.tupleContents|
    decreases t, |t.tupleContents| - i
  {
    if i == |t.tupleContents| then Ok([]) else
      var head := Marshal(t.tupleContents[i]);
      var tail := MarshalFields(t, i + 1);
      if head.Err? then Err(head.error) else if tail.Err? then tail else Ok([head.value] + tail.value)
  }

  /** Unmarshal: children are read, and upgraded, before their parent is. */
  function Unmarshal(w: T): Result<T, FormatError>
    decreases w, |w.tupleContents| + 1
  {
    var fields := UnmarshalFields(w, 0);
    var contents := if w.arrayContents.Some? then Unmarshal(w.arrayContents.value) else Ok(w);
    if fields.Err? then Err(fields.error)
    else if contents.Err? then contents
    else Upgrade(T(w.level, if w.arrayContents.Some? then Some(contents.value) else None, fields.value))
  }

  function UnmarshalFields(w: T, i: nat): (r: Result<seq<T>, FormatError>)
    requires i <= |w.tupleContents|
    ensures r.Ok? ==> |r.value| == |w.tupleContents| - i
    decreases w, |w.tupleContents| - i
  {
    if i == |w.tupleContents| then Ok([]) else
      var head := Unmarshal(w.tupleContents[i]);
      var tail := UnmarshalFields(w, i + 1);
      if head.Err? then Err(head.error) else if tail.Err? then tail else Ok([head.value] + tail.value)
  }

  /** Through the legacy format and back. */
  function Passage(t: T): Result<T, FormatError> {
    match Marshal(t)
    case Err(e) => Err(e)
    case Ok(w) => Unmarshal(w)
  }

  predicate Survives(t: T) {
    Passage(t).Ok? && Identical(t, Passage(t).value)
  }

  // When a type survives.

  /** The descriptors in use since 20.1: nothing is left of the legacy format. */
  predicate Current(t: T)
    decreases t
  {
    && CurrentLevel(t.level)
    && (t.arrayContents.Some? ==> Current(t.arrayContents.value))
    && forall i :: 0 <= i < |t.tupleContents| ==> Current(t.tupleContents[i])
  }

  /** What one scalar or tuple level must satisfy. */
  predicate StableScalar(t: Level) {
    && t.locale.Some?
    && (t.oid != 0 || FamilyToOid(t.family) == 0)
    && (t.family == INT ==> StableInt(t.width, t.oid))
    && (t.family == FLOAT ==> t.precision == 0 && StableFloat(t.width, t.oid))
    && (IsTime(t.family) ==>
          t.precision != -1 && (t.precision > 0 ==> t.timePrecisionIsSet))
    && (t.family == INTERVAL ==> t.precision > 0 ==> t.timePrecisionIsSet)
    && (IsString(t.family) ==> StableString(t))
    && (t.family == BIT ==> (t.oid == T_BIT || t.oid == T_VARBIT))
  }

  /** A name is told to be collated by its locale alone, and has no width. */
  predicate StableString(t: Level)
    requires t.locale.Some?
  {
    && IsStringOid(t.oid)
    && (t.family == STRING ==> t.locale.value == "")
    && (t.oid == T_NAME ==> t.width == 0 && (t.family == COLLATED_STRING ==> t.locale.value != ""))
  }

  predicate StableArray(t: T) {
    && t.arrayContents.Some? && t.arrayContents.value.level.family != ARRAY
    && t.level.width == 0 && t.level.precision == 0 && t.level.locale == Some("") && t.level.oid != 0
    && (t.level.oid == T_INT2VECTOR ==> Identical(t.arrayContents.value, INT2_TYPE))
    && (t.level.oid == T_OIDVECTOR ==> Identical(t.arrayContents.value, OID_TYPE))
  }

  /** No geo metadata without a duration field, which Identical would hold against the type. */
  predicate NoBareGeo(t: Level) {
    t.geoMetadata.None? || t.intervalDurationField.Some?
  }

  /** The condition on all levels. */
  predicate Stable(t: T)
    decreases t
  {
    && NoBareGeo(t.level)
    && (if t.level.family == ARRAY then StableArray(t) else StableScalar(t.level))
    && (t.arrayContents.Some? ==> Stable(t.arrayContents.value))
    && forall i :: 0 <= i < |t.tupleContents| ==> Stable(t.tupleContents[i])
  }

  // One level.

  predicate CurrentLevel(t: Level) {
    t.visibleType == VISIBLE_NONE && !IsLegacy(t.family)
  }

  /** One level through the legacy format and back, for everything but arrays. */
  function LevelPassage(t: Level): Result<Level, FormatError>
    requires t.family != ARRAY
  {
    match Downgrade(t, None)
    case Err(e) => Err(e)
    case Ok(d) =>
      match UpgradeScalar(d)
      case Err(e) => Err(e)
      case Ok(u) => Ok(Finish(u))
  }

  predicate LevelSurvives(t: Level)
    requires t.family != ARRAY
  {
    LevelPassage(t).Ok? && SameLevel(t, LevelPassage(t).value)
  }

  lemma IntLevel(t: Level)
    requires CurrentLevel(t) && t.family == INT
    ensures LevelSurvives(t) <==> NoBareGeo(t) && StableScalar(t)
  {}

  lemma FloatLevel(t: Level)
    requires CurrentLevel(t) && t.family == FLOAT
    ensures LevelSurvives(t) <==> NoBareGeo(t) && StableScalar(t)
  {}

  lemma BitLevel(t: Level)
    requires CurrentLevel(t) && t.family == BIT
    ensures LevelSurvives(t) <==> NoBareGeo(t) && StableScalar(t)
  {}

  lemma NameLevel(t: Level)
    requires CurrentLevel(t) && IsString(t.family) && t.oid == T_NAME
    ensures LevelSurvives(t) <==> NoBareGeo(t) && StableScalar(t)
  {}

  lemma StringPassage(t: Level)
    requires CurrentLevel(t) && IsString(t.family) && t.oid != T_NAME
    ensures LevelPassage(t) ==
      if !IsStringOid(t.oid) then Err(UnexpectedOid)
      else if t.family == STRING && t.locale.Some? && t.locale.value != "" then Err(StringWithLocale)
      else Ok(t.(locale := Some(if t.locale.Some? then t.locale.value else "")))
  {}

  lemma StringLevel(t: Level)
    requires CurrentLevel(t) && IsString(t.family)
    ensures LevelSurvives(t) <==> NoBareGeo(t) && StableScalar(t)
  {
    if t.oid == T_NAME {
      NameLevel(t);
    } else {
      StringPassage(t);
    }
  }

  lemma TimeLevel(t: Level)
    requires CurrentLevel(t) && IsTime(t.family)
    ensures LevelSurvives(t) <==> NoBareGeo(t) && StableScalar(t)
  {}

  lemma IntervalLevel(t: Level)
    requires CurrentLevel(t) && t.family == INTERVAL
    ensures LevelSurvives(t) <==> NoBareGeo(t) && StableScalar(t)
  {}

  lemma OtherLevel(t: Level)
    requires CurrentLevel(t) && t.family != INT && t.family != FLOAT && t.family != BIT && !IsString(t.family)
    requires !IsTime(t.family) && t.family != INTERVAL && t.family != ARRAY
    ensures LevelSurvives(t) <==> NoBareGeo(t) && StableScalar(t)
  {}

  lemma ScalarLevel(t: Level)
    requires CurrentLevel(t) && t.family != ARRAY
    ensures LevelSurvives(t) <==> NoBareGeo(t) && StableScalar(t)
  {
    if t.family == INT { IntLevel(t); }
    else if t.family == FLOAT { FloatLevel(t); }
    else if t.family == BIT { BitLevel(t); }
    else if IsString(t.family) { StringLevel(t); }
    else if IsTime(t.family) { TimeLevel(t); }
    else if t.family == INTERVAL { IntervalLevel(t); }
    else { OtherLevel(t); }
  }

  /** One type through the format when its contents and fields have come back as c and fs. */
  function OneLevel(t: T, c: Option<T>, fs: seq<T>): Result<T, FormatError> {
    match Downgrade(t.level, LevelOf(t.arrayContents))
    case Err(e) => Err(e)
    case Ok(d) => Upgrade(T(d, c, fs))
  }

  lemma ScalarOneLevel(t: T, c: Option<T>, fs: seq<T>)
    requires CurrentLevel(t.level) && t.level.family != ARRAY
    ensures OneLevel(t, c, fs) ==
      match LevelPassage(t.level) { case Err(e) => Err(e) case Ok(u) => Ok(T(u, c, fs)) }
  {}

  predicate IsVector(oid: int) {
    oid == T_INT2VECTOR || oid == T_OIDVECTOR
  }

  /** The level of an array after the passage: the element fields of older formats are cleared. */
  lemma PlainArrayLevel(t: T, c: T, fs: seq<T>)
    requires CurrentLevel(t.level) && t.level.family == ARRAY && !IsVector(t.level.oid)
    requires t.arrayContents.Some? && t.arrayContents.value.level.family != ARRAY
    requires DowngradeScalar(t.arrayContents.value.level).Ok? && c.level.family != ARRAY
    ensures var r := OneLevel(t, Some(c), fs);
            && r.Ok? && r.value.arrayContents == Some(c) && r.value.tupleContents == fs
            && (SameLevel(t.level, r.value.level) <==>
                NoBareGeo(t.level) && t.level.width == 0 && t.level.precision == 0 && t.level.locale == Some("") &&
                t.level.oid != 0)
  {}

  lemma PlainArrayFails(t: T, c: Option<T>, fs: seq<T>)
    requires t.level.family == ARRAY && !IsVector(t.level.oid) && c.Some? == t.arrayContents.Some?
    ensures OneLevel(t, c, fs).Ok? ==>
      t.arrayContents.Some? && t.arrayContents.value.level.family != ARRAY && c.value.level.family != ARRAY &&
      DowngradeScalar(t.arrayContents.value.level).Ok?
  {}

  function VectorElement(oid: int): T
    requires IsVector(oid)
  {
    if oid == T_INT2VECTOR then INT2_TYPE else OID_TYPE
  }

  /** A vector comes back with its canonical element. */
  lemma VectorContents(t: T, c: Option<T>, fs: seq<T>)
    requires CurrentLevel(t.level) && t.level.family == ARRAY && IsVector(t.level.oid)
    ensures var r := OneLevel(t, c, fs);
            r.Ok? ==> && t.arrayContents.Some? && t.arrayContents.value.level.family != ARRAY
                      && r.value.arrayContents == Some(VectorElement(t.level.oid)) && r.value.tupleContents == fs
  {}

  lemma VectorLevel(t: T, c: Option<T>, fs: seq<T>)
    requires CurrentLevel(t.level) && t.level.family == ARRAY && IsVector(t.level.oid) && t.arrayContents.Some?
    requires SameLevel(t.arrayContents.value.level, VectorElement(t.level.oid).level)
    ensures var r := OneLevel(t, c, fs);
            && r.Ok?
            && (SameLevel(t.level, r.value.level) <==>
                NoBareGeo(t.level) && t.level.width == 0 && t.level.precision == 0 && t.level.locale == Some(""))
  {}

  /** What is identical to a vector's element is itself stable. */
  lemma VectorElementStable(x: T, oid: int)
    requires Current(x) && IsVector(oid) && Identical(x, VectorElement(oid))
    ensures Stable(x)
  {}

  // All levels.

  /** c and fs are what the contents and the fields of t come back as. */
  ghost predicate Passed(t: T, c: Option<T>, fs: seq<T>) {
    && c.Some? == t.arrayContents.Some?
    && (c.Some? ==> Passage(t.arrayContents.value) == Ok(c.value))
    && |fs| == |t.tupleContents|
    && forall i :: 0 <= i < |fs| ==> Passage(t.tupleContents[i]) == Ok(fs[i])
  }

  /** Marshalling the fields from i on yields w exactly when each of them yields its own. */
  lemma {:induction false} MarshalledFields(t: T, i: nat)
    requires i <= |t.tupleContents|
    ensures MarshalFields(t, i).Ok? <==> forall k :: i <= k < |t.tupleContents| ==> Marshal(t.tupleContents[k]).Ok?
    ensures var r := MarshalFields(t, i);
            r.Ok? ==> |r.value| == |t.tupleContents| - i &&
                      forall k :: 0 <= k < |r.value| ==> Marshal(t.tupleContents[i + k]) == Ok(r.value[k])
    decreases |t.tupleContents| - i
  {
    if i < |t.tupleContents| { MarshalledFields(t, i + 1); }
  }

  lemma {:induction false} FieldsUnmarshalTo(w: T, i: nat, fs: seq<T>)
    requires i <= |w.tupleContents| == |fs|
    requires forall k :: 0 <= k < |fs| ==> Unmarshal(w.tupleContents[k]) == Ok(fs[k])
    ensures UnmarshalFields(w, i) == Ok(fs[i..])
    decreases |w.tupleContents| - i
  {
    if i < |w.tupleContents| {
      FieldsUnmarshalTo(w, i + 1, fs);
      assert fs[i..] == [fs[i]] + fs[i + 1..];
    }
  }

  lemma {:induction false} UnmarshalledField(w: T, i: nat, k: nat)
    requires i <= k < |w.tupleContents| && UnmarshalFields(w, i).Ok?
    ensures Unmarshal(w.tupleContents[k]) == Ok(UnmarshalFields(w, i).value[k - i])
    decreases k - i
  {
    if i < k { UnmarshalledField(w, i + 1, k); }
  }

  /** The children of what Unmarshal hands to Upgrade. */
  ghost predicate Unmarshalled(w: T, c: Option<T>, fs: seq<T>) {
    && c.Some? == w.arrayContents.Some?
    && (c.Some? ==> Unmarshal(w.arrayContents.value) == Ok(c.value))
    && |fs| == |w.tupleContents|
    && forall i :: 0 <= i < |fs| ==> Unmarshal(w.tupleContents[i]) == Ok(fs[i])
  }

  ghost predicate Marshalled(t: T, w: T) {
    && w.arrayContents.Some? == t.arrayContents.Some?
    && (w.arrayContents.Some? ==> Marshal(t.arrayContents.value) == Ok(w.arrayContents.value))
    && |w.tupleContents| == |t.tupleContents|
    && forall i :: 0 <= i < |w.tupleContents| ==> Marshal(t.tupleContents[i]) == Ok(w.tupleContents[i])
  }

  lemma UnmarshalParts(w: T, c: Option<T>, fs: seq<T>)
    requires Unmarshalled(w, c, fs)
    ensures Unmarshal(w) == Upgrade(T(w.level, c, fs))
  {
    FieldsUnmarshalTo(w, 0, fs);
    assert fs[0..] == fs;
  }

  lemma UnmarshalNeedsParts(w: T) returns (c: Option<T>, fs: seq<T>)
    requires Unmarshal(w).Ok?
    ensures Unmarshalled(w, c, fs)
  {
    fs := UnmarshalFields(w, 0).value;
    forall k | 0 <= k < |fs| ensures Unmarshal(w.tupleContents[k]) == Ok(fs[k]) { UnmarshalledField(w, 0, k); }
    c := if w.arrayContents.Some? then Some(Unmarshal(w.arrayContents.value).value) else None;
  }

  lemma MarshalParts(t: T)
    ensures Marshal(t).Ok? ==> Marshalled(t, Marshal(t).value)
    ensures Marshal(t).Ok? ==> Downgrade(t.level, LevelOf(t.arrayContents)) == Ok(Marshal(t).value.level)
  {
    MarshalledFields(t, 0);
  }

  lemma MarshalFails(t: T)
    requires Marshal(t).Err? && (t.arrayContents.Some? ==> Marshal(t.arrayContents.value).Ok?)
    requires forall i :: 0 <= i < |t.tupleContents| ==> Marshal(t.tupleContents[i]).Ok?
    ensures Downgrade(t.level, LevelOf(t.arrayContents)) == Err(Marshal(t).error)
  {
    MarshalledFields(t, 0);
  }

  lemma PassageOfParts(t: T, c: Option<T>, fs: seq<T>)
    requires Passed(t, c, fs)
    ensures Passage(t) == OneLevel(t, c, fs)
  {
    if Marshal(t).Ok? {
      MarshalParts(t);
      UnmarshalParts(Marshal(t).value, c, fs);
    } else {
      MarshalFails(t);
    }
  }

  lemma PassageNeedsParts(t: T) returns (c: Option<T>, fs: seq<T>)
    requires Passage(t).Ok?
    ensures Passed(t, c, fs)
  {
    MarshalParts(t);
    c, fs := UnmarshalNeedsParts(Marshal(t).value);
  }

  /**
   A current descriptor comes back from the legacy format identical to itself exactly when it is
   stable on every level.
   */
  lemma {:induction false} SurvivesWhenStable(t: T)
    requires Current(t)
    ensures Survives(t) <==> Stable(t)
    decreases t
  {
    if t.arrayContents.Some? { SurvivesWhenStable(t.arrayContents.value); }
    forall i | 0 <= i < |t.tupleContents| ensures Survives(t.tupleContents[i]) <==> Stable(t.tupleContents[i]) {
      SurvivesWhenStable(t.tupleContents[i]);
    }
    if Survives(t) { MustBeStable(t); }
    if Stable(t) { StableSurvives(t); }
  }

  ghost predicate ChildrenDecided(t: T) {
    && (t.arrayContents.Some? ==> (Survives(t.arrayContents.value) <==> Stable(t.arrayContents.value)))
    && forall i :: 0 <= i < |t.tupleContents| ==> (Survives(t.tupleContents[i]) <==> Stable(t.tupleContents[i]))
  }

  lemma StableSurvives(t: T)
    requires Current(t) && ChildrenDecided(t) && Stable(t)
    ensures Survives(t)
  {
    var c := if t.arrayContents.Some? then Some(Passage(t.arrayContents.value).value) else None;
    var fs := seq(|t.tupleContents|, i requires 0 <= i < |t.tupleContents| => Passage(t.tupleContents[i]).value);
    PassageOfParts(t, c, fs);
    if t.level.family != ARRAY {
      ScalarLevel(t.level);
      ScalarOneLevel(t, c, fs);
    } else {
      StableElementDowngrades(t.arrayContents.value);
      if IsVector(t.level.oid) {
        VectorContents(t, c, fs);
        VectorLevel(t, c, fs);
      } else {
        PlainArrayLevel(t, c.value, fs);
      }
    }
  }

  lemma StableElementDowngrades(t: T)
    requires Stable(t) && t.level.family != ARRAY
    ensures DowngradeScalar(t.level).Ok?
  {}

  lemma MustBeStable(t: T)
    requires Current(t) && ChildrenDecided(t) && Survives(t)
    ensures Stable(t)
  {
    var c, fs := PassageNeedsParts(t);
    PassageOfParts(t, c, fs);
    if t.level.family != ARRAY {
      ScalarLevel(t.level);
      ScalarOneLevel(t, c, fs);
    } else if IsVector(t.level.oid) {
      VectorMustBeStable(t, c, fs);
    } else {
      PlainArrayFails(t, c, fs);
      PlainArrayLevel(t, c.value, fs);
    }
  }

  lemma VectorMustBeStable(t: T, c: Option<T>, fs: seq<T>)
    requires Current(t) && t.level.family == ARRAY && IsVector(t.level.oid)
    requires OneLevel(t, c, fs).Ok? && Identical(t, OneLevel(t, c, fs).value)
    ensures NoBareGeo(t.level) && StableArray(t) && Stable(t.arrayContents.value)
  {
    VectorContents(t, c, fs);
    assert Identical(t.arrayContents.value, VectorElement(t.level.oid));
    VectorLevel(t, c, fs);
    VectorElementStable(t.arrayContents.value, t.level.oid);
  }
}
