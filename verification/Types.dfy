/** Type descriptors of types.go, their comparison, and the legacy format they are stored in. */
module Types {
  import opened Bytes

  // Families.

  const BOOL := 0
  const INT := 1
  const FLOAT := 2
  const DECIMAL := 3
  const DATE := 4
  const TIMESTAMP := 5
  const INTERVAL := 6
  const STRING := 7
  const BYTES := 8
  const TIMESTAMPTZ := 9
  const COLLATED_STRING := 10
  const OID := 12
  const UNKNOWN := 13
  const UUID := 14
  const ARRAY := 15
  const INET := 16
  const TIME := 17
  const JSON := 18
  const TIMETZ := 19
  const TUPLE := 20
  const BIT := 21
  const GEOMETRY := 22
  const GEOGRAPHY := 23
  const ENUM := 24
  const BOX2D := 25
  const ANY := 100

  // Families of the legacy format.

  const NAME := 11
  const INT2VECTOR := 200
  const OIDVECTOR := 201

  // Aliases of the legacy format.

  const VISIBLE_NONE := 0
  const VISIBLE_INTEGER := 1
  const VISIBLE_SMALLINT := 2
  const VISIBLE_BIGINT := 3
  const VISIBLE_BIT := 4
  const VISIBLE_REAL := 5
  const VISIBLE_DOUBLE := 6
  const VISIBLE_VARCHAR := 7
  const VISIBLE_CHAR := 8
  const VISIBLE_QCHAR := 9
  const VISIBLE_VARBIT := 10

  // PostgreSQL's object ids and CockroachDB's own.

  const T_BOOL := 16
  const T_BYTEA := 17
  const T_CHAR := 18
  const T_NAME := 19
  const T_INT8 := 20
  const T_INT2 := 21
  const T_INT2VECTOR := 22
  const T_INT4 := 23
  const T_TEXT := 25
  const T_OID := 26
  const T_OIDVECTOR := 30
  const T_FLOAT4 := 700
  const T_FLOAT8 := 701
  const T_UNKNOWN := 705
  const T_INET := 869
  const T_BPCHAR := 1042
  const T_VARCHAR := 1043
  const T_DATE := 1082
  const T_TIME := 1083
  const T_TIMESTAMP := 1114
  const T_TIMESTAMPTZ := 1184
  const T_INTERVAL := 1186
  const T_TIMETZ := 1266
  const T_BIT := 1560
  const T_VARBIT := 1562
  const T_NUMERIC := 1700
  const T_RECORD := 2249
  const T_ANYARRAY := 2277
  const T_ANYELEMENT := 2283
  const T__RECORD := 2287
  const T_UUID := 2950
  const T_JSONB := 3802
  const T_GEOMETRY := 90000
  const T_GEOGRAPHY := 90002
  const T_BOX2D := 90004

  const PREDEFINED_OID_MAX := 100000

  datatype IntervalField = IntervalField(durationType: int, fromDurationType: int)

  datatype GeoMetadata = GeoMetadata

  /** The fields of InternalType that describe one level of a type. */
  datatype Level = Level(
    family: int,
    width: int,
    precision: int,
    arrayDimensions: seq<int>,
    locale: Option<string>,
    visibleType: int,
    arrayElemType: Option<int>,
    tupleLabels: seq<string>,
    oid: int,
    timePrecisionIsSet: bool,
    intervalDurationField: Option<IntervalField>,
    geoMetadata: Option<GeoMetadata>,
    udtArrayOid: Option<int>)

  /** InternalType: its own level, and the types of its elements or fields. */
  datatype T = T(level: Level, arrayContents: Option<T>, tupleContents: seq<T>)

  function Plain(family: int, width: int, oid: int): Level {
    Level(family, width, 0, [], Some(""), VISIBLE_NONE, None, [], oid, false, None, None, None)
  }

  function Scalar(level: Level): T {
    T(level, None, [])
  }

  const INT2_TYPE: T := Scalar(Plain(INT, 16, T_INT2))
  const OID_TYPE: T := Scalar(Plain(OID, 0, T_OID))

  // Identical, level by level.

  /** Fields that must both be absent or both be present and equal. */
  predicate SameOption<A(==)>(a: Option<A>, b: Option<A>) {
    a == b
  }

  /** An absent duration field matches any, but only between types without geo metadata. */
  predicate SameDuration(t: Level, other: Level) {
    if t.intervalDurationField.Some? && other.intervalDurationField.Some? then
      t.intervalDurationField == other.intervalDurationField
    else t.geoMetadata.None? && other.geoMetadata.None?
  }

  predicate SameLevel(t: Level, other: Level) {
    && t.family == other.family
    && t.width == other.width
    && t.precision == other.precision
    && t.timePrecisionIsSet == other.timePrecisionIsSet
    && SameDuration(t, other)
    && SameOption(t.locale, other.locale)
    && t.tupleLabels == other.tupleLabels
    && SameOption(t.udtArrayOid, other.udtArrayOid)
    && t.oid == other.oid
  }

  predicate Identical(t: T, other: T)
    decreases t
  {
    && SameLevel(t.level, other.level)
    && t.arrayContents.Some? == other.arrayContents.Some?
    && (t.arrayContents.Some? ==> Identical(t.arrayContents.value, other.arrayContents.value))
    && |t.tupleContents| == |other.tupleContents|
    && forall i :: 0 <= i < |t.tupleContents| ==> Identical(t.tupleContents[i], other.tupleContents[i])
  }

  /** The fields of a level that are compared; geo metadata is hidden by a duration field. */
  function ComparedLevel(t: Level): Level {
    t.(arrayDimensions := [], visibleType := VISIBLE_NONE, arrayElemType := None, geoMetadata := None)
  }

  function Compared(t: T): T
    decreases t
  {
    T(ComparedLevel(t.level), if t.arrayContents.Some? then Some(Compared(t.arrayContents.value)) else None,
      seq(|t.tupleContents|, i requires 0 <= i < |t.tupleContents| => Compared(t.tupleContents[i])))
  }

  /** Two levels say as much of durations as each other, and hide no geo metadata by leaving the duration out. */
  predicate AlikeLevel(t: Level, other: Level) {
    && t.intervalDurationField.Some? == other.intervalDurationField.Some?
    && (t.intervalDurationField.None? ==> t.geoMetadata.None? && other.geoMetadata.None?)
  }

  predicate Alike(t: T, other: T)
    decreases t
  {
    && AlikeLevel(t.level, other.level)
    && (t.arrayContents.Some? && other.arrayContents.Some? ==> Alike(t.arrayContents.value, other.arrayContents.value))
    && forall i :: 0 <= i < |t.tupleContents| && i < |other.tupleContents| ==>
         Alike(t.tupleContents[i], other.tupleContents[i])
  }

  /** Such types are identical if and only if all the fields that are compared are equal, at every level. */
  lemma {:induction false} IdenticalIffEqual(t: T, other: T)
    requires Alike(t, other)
    ensures Identical(t, other) <==> Compared(t) == Compared(other)
    decreases t
  {
    if t.arrayContents.Some? && other.arrayContents.Some? {
      IdenticalIffEqual(t.arrayContents.value, other.arrayContents.value);
    }
    forall i | 0 <= i < |t.tupleContents| && i < |other.tupleContents|
      ensures Identical(t.tupleContents[i], other.tupleContents[i])
              <==> Compared(t).tupleContents[i] == Compared(other).tupleContents[i]
    {
      IdenticalIffEqual(t.tupleContents[i], other.tupleContents[i]);
    }
    if Compared(t) == Compared(other) { assert |Compared(t).tupleContents| == |Compared(other).tupleContents|; }
  }

  /** Every level has a duration field or no geo metadata. */
  predicate Comparable(t: T)
    decreases t
  {
    && (t.level.geoMetadata.None? || t.level.intervalDurationField.Some?)
    && (t.arrayContents.Some? ==> Comparable(t.arrayContents.value))
    && forall i :: 0 <= i < |t.tupleContents| ==> Comparable(t.tupleContents[i])
  }

  /** A type is identical to itself unless it carries geo metadata without a duration field somewhere. */
  lemma {:induction false} IdenticalReflexive(t: T)
    ensures Identical(t, t) <==> Comparable(t)
    decreases t
  {
    if t.arrayContents.Some? { IdenticalReflexive(t.arrayContents.value); }
    forall i | 0 <= i < |t.tupleContents|
      ensures Identical(t.tupleContents[i], t.tupleContents[i]) <==> Comparable(t.tupleContents[i])
    {
      IdenticalReflexive(t.tupleContents[i]);
    }
  }

  lemma GeometryIsNotItself()
    ensures var geometry := Scalar(Plain(GEOMETRY, 0, T_GEOMETRY).(geoMetadata := Some(GeoMetadata)));
            !Identical(geometry, geometry)
  {}

  lemma {:induction false} IdenticalSymmetric(t: T, other: T)
    requires Identical(t, other)
    ensures Identical(other, t)
    decreases t
  {
    if t.arrayContents.Some? { IdenticalSymmetric(t.arrayContents.value, other.arrayContents.value); }
    forall i | 0 <= i < |t.tupleContents| ensures Identical(other.tupleContents[i], t.tupleContents[i]) {
      IdenticalSymmetric(t.tupleContents[i], other.tupleContents[i]);
    }
  }

  /** Nothing about the duration field or the geo metadata of a level is hidden by comparing it with another. */
  predicate LevelCarries(t: Level, other: Level) {
    && t.intervalDurationField.Some? == other.intervalDurationField.Some?
    && (t.intervalDurationField.Some? && other.geoMetadata.None? ==> t.geoMetadata.None?)
  }

  predicate Carries(t: T, other: T)
    decreases t
  {
    && LevelCarries(t.level, other.level)
    && (t.arrayContents.Some? && other.arrayContents.Some? ==>
          Carries(t.arrayContents.value, other.arrayContents.value))
    && forall i :: 0 <= i < |t.tupleContents| && i < |other.tupleContents| ==>
         Carries(t.tupleContents[i], other.tupleContents[i])
  }

  lemma {:induction false} IdenticalCarries(a: T, b: T, c: T)
    requires Identical(a, b) && Identical(b, c) && Carries(a, b)
    ensures Identical(a, c)
    decreases a
  {
    if a.arrayContents.Some? { IdenticalCarries(a.arrayContents.value, b.arrayContents.value, c.arrayContents.value); }
    forall i | 0 <= i < |a.tupleContents| ensures Identical(a.tupleContents[i], c.tupleContents[i]) {
      IdenticalCarries(a.tupleContents[i], b.tupleContents[i], c.tupleContents[i]);
    }
  }

  lemma {:induction false} IdenticalComparable(a: T, b: T)
    requires Identical(a, b)
    ensures Comparable(b)
    decreases a
  {
    if a.arrayContents.Some? { IdenticalComparable(a.arrayContents.value, b.arrayContents.value); }
    forall i | 0 <= i < |b.tupleContents| ensures Comparable(b.tupleContents[i]) {
      IdenticalComparable(a.tupleContents[i], b.tupleContents[i]);
    }
  }

  /** A level that is like b's and unlike a's. */
  function Telling(a: Level, b: Level): Level {
    if b.intervalDurationField.None? then b.(intervalDurationField := Some(OtherThan(a.intervalDurationField)))
    else if a.intervalDurationField.None? then b.(geoMetadata := Some(GeoMetadata))
    else b.(intervalDurationField := None)
  }

  function OtherThan(f: Option<IntervalField>): (r: IntervalField)
    ensures Some(r) != f
  {
    if f.Some? then IntervalField(f.value.durationType + 1, 0) else IntervalField(0, 0)
  }

  lemma TellingLevel(a: Level, b: Level)
    requires SameLevel(a, b) && !LevelCarries(a, b)
    ensures SameLevel(b, Telling(a, b)) && !SameLevel(a, Telling(a, b))
  {}

  /** Where the level in the middle hides something, a type is identical to it and not to the first. */
  lemma {:induction false} Hidden(a: T, b: T) returns (c: T)
    requires Identical(a, b) && !Carries(a, b)
    ensures Identical(b, c) && !Identical(a, c)
    decreases a
  {
    IdenticalComparable(a, b);
    IdenticalReflexive(b);
    if !LevelCarries(a.level, b.level) {
      TellingLevel(a.level, b.level);
      c := b.(level := Telling(a.level, b.level));
    } else if a.arrayContents.Some? && !Carries(a.arrayContents.value, b.arrayContents.value) {
      var contents := Hidden(a.arrayContents.value, b.arrayContents.value);
      c := b.(arrayContents := Some(contents));
    } else {
      var i :| 0 <= i < |a.tupleContents| && !Carries(a.tupleContents[i], b.tupleContents[i]);
      var field := Hidden(a.tupleContents[i], b.tupleContents[i]);
      c := b.(tupleContents := b.tupleContents[i := field]);
      assert c.tupleContents[i] == field;
    }
  }

  /**
   Being identical is transitive through b exactly when b has a duration field where a has one, and no
   geo metadata appears beside it.
   */
  lemma IdenticalTransitive(a: T, b: T)
    requires Identical(a, b)
    ensures (forall c :: Identical(b, c) ==> Identical(a, c)) <==> Carries(a, b)
  {
    if Carries(a, b) {
      forall c | Identical(b, c) ensures Identical(a, c) { IdenticalCarries(a, b, c); }
    } else {
      var c := Hidden(a, b);
    }
  }

  function IntervalType(field: Option<IntervalField>): T {
    Scalar(Plain(INTERVAL, 0, T_INTERVAL).(intervalDurationField := field))
  }

  lemma IdenticalIsNotTransitive()
    ensures Identical(IntervalType(Some(IntervalField(1, 0))), IntervalType(None))
    ensures Identical(IntervalType(None), IntervalType(Some(IntervalField(2, 0))))
    ensures !Identical(IntervalType(Some(IntervalField(1, 0))), IntervalType(Some(IntervalField(2, 0))))
  {}

  // The oid tables.

  function FamilyToOid(family: int): int {
    if family == BOOL then T_BOOL
    else if family == INT then T_INT8
    else if family == FLOAT then T_FLOAT8
    else if family == DECIMAL then T_NUMERIC
    else if family == DATE then T_DATE
    else if family == TIMESTAMP then T_TIMESTAMP
    else if family == INTERVAL then T_INTERVAL
    else if family == STRING then T_TEXT
    else if family == BYTES then T_BYTEA
    else if family == TIMESTAMPTZ then T_TIMESTAMPTZ
    else if family == COLLATED_STRING then T_TEXT
    else if family == OID then T_OID
    else if family == UNKNOWN then T_UNKNOWN
    else if family == UUID then T_UUID
    else if family == ARRAY then T_ANYARRAY
    else if family == INET then T_INET
    else if family == TIME then T_TIME
    else if family == TIMETZ then T_TIMETZ
    else if family == JSON then T_JSONB
    else if family == TUPLE then T_RECORD
    else if family == BIT then T_BIT
    else if family == ANY then T_ANYELEMENT
    else if family == GEOMETRY then T_GEOMETRY
    else if family == GEOGRAPHY then T_GEOGRAPHY
    else if family == BOX2D then T_BOX2D
    else 0
  }

  const OID_TO_ARRAY_OID: map<int, int> := map[
    T_ANYELEMENT := T_ANYARRAY, T_BIT := 1561, T_BOOL := 1000, T_BPCHAR := 1014, T_BYTEA := 1001, T_CHAR := 1002,
    T_DATE := 1182, T_FLOAT4 := 1021, T_FLOAT8 := 1022, T_INET := 1041, T_INT2 := 1005, T_INT2VECTOR := 1006,
    T_INT4 := 1007, T_INT8 := 1016, T_INTERVAL := 1187, T_JSONB := 3807, T_NAME := 1003, T_NUMERIC := 1231,
    T_OID := 1028, T_OIDVECTOR := 1013, T_RECORD := T__RECORD, 2205 := 2210, 4089 := 4090, 24 := 1008, 2202 := 2207,
    4096 := 4097, 2206 := 2211, T_TEXT := 1009, T_TIME := 1183, T_TIMETZ := 1270, T_TIMESTAMP := 1115,
    T_TIMESTAMPTZ := 1185, T_UUID := 2951, T_VARBIT := 1563, T_VARCHAR := 1015, T_GEOMETRY := 90001,
    T_GEOGRAPHY := 90003, T_BOX2D := 90005]

  /** The oid of an array of this type; none when the table has no entry, where the source panics. */
  function CalcArrayOid(elem: Level): Option<int> {
    if elem.family == ARRAY && elem.oid != T_INT2VECTOR && elem.oid != T_OIDVECTOR then Some(elem.oid)
    else if elem.family == UNKNOWN then Some(0)
    else if elem.family == ENUM then Some(if elem.udtArrayOid.Some? then elem.udtArrayOid.value else 0)
    else if elem.family == TUPLE && elem.oid > PREDEFINED_OID_MAX then Some(T__RECORD)
    else if elem.oid in OID_TO_ARRAY_OID then Some(OID_TO_ARRAY_OID[elem.oid])
    else None
  }
}
