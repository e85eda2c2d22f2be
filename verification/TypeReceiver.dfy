/** upgradeType and downgradeType as they run: the receiver's fields are assigned case by case. */
module TypeReceiver {
  import opened Bytes
  import opened Types
  import opened TypeFormats

  class Receiver {
    var level: Level
    var arrayContents: Option<T>
    var tupleContents: seq<T>

    constructor (t: T)
      ensures AsType() == t
    {
      level, arrayContents, tupleContents := t.level, t.arrayContents, t.tupleContents;
    }

    ghost function AsType(): T
      reads this
    {
      T(level, arrayContents, tupleContents)
    }

    /** The level becomes the downgraded one, or stays as it is on an error; the children stay in any case. */
    method DowngradeType() returns (error: Option<FormatError>)
      modifies this
      ensures arrayContents == old(arrayContents) && tupleContents == old(tupleContents)
      ensures match Downgrade(old(level), LevelOf(old(arrayContents)))
              case Err(e) => error == Some(e) && level == old(level)
              case Ok(d) => error == None && level == d
      decreases if level.family == ARRAY then 1 else 0
    {
      error := None;
      if level.family == BIT {
        if level.oid == T_VARBIT { level := level.(visibleType := VISIBLE_VARBIT); }
      } else if level.family == FLOAT {
        if level.width == 32 { level := level.(visibleType := VISIBLE_REAL); }
      } else if IsString(level.family) {
        error := DowngradeStringType();
        if error != None { return; }
      } else if level.family == ARRAY {
        error := DowngradeArrayType();
        if error != None { return; }
      }
      if level.locale == Some("") { level := level.(locale := None); }
    }

    method DowngradeStringType() returns (error: Option<FormatError>)
      modifies this`level
      ensures match DowngradeString(old(level))
              case Err(e) => error == Some(e) && level == old(level)
              case Ok(d) => error == None && level == d
    {
      error := None;
      if level.oid == T_TEXT {
      } else if level.oid == T_VARCHAR {
        level := level.(visibleType := VISIBLE_VARCHAR);
      } else if level.oid == T_BPCHAR {
        level := level.(visibleType := VISIBLE_CHAR);
      } else if level.oid == T_CHAR {
        level := level.(visibleType := VISIBLE_QCHAR);
      } else if level.oid == T_NAME {
        level := level.(family := NAME);
      } else {
        error := Some(UnexpectedOid);
      }
    }

    /** A copy of the contents is downgraded, and the array takes over what describes it. */
    method DowngradeArrayType() returns (error: Option<FormatError>)
      requires level.family == ARRAY
      modifies this`level
      ensures match arrayContents
              case None => error == Some(NilPointer)
              case Some(c) =>
                if c.level.family == ARRAY then error == Some(NestedArray)
                else match DowngradeScalar(c.level)
                  case Err(e) => error == Some(e)
                  case Ok(elem) => error == None && level == DowngradeArray(old(level), c.level, EmptyLocaleToNil(elem))
      ensures error.Some? ==> level == old(level)
      decreases 1, 0
    {
      if arrayContents == None { return Some(NilPointer); }
      var contents := arrayContents.value;
      if contents.level.family == ARRAY { return Some(NestedArray); }
      var temp := new Receiver(contents);
      error := temp.DowngradeType();
      if error != None { return; }
      level := level.(width := temp.level.width, precision := temp.level.precision, locale := temp.level.locale);
      level := level.(visibleType := temp.level.visibleType, arrayElemType := Some(contents.level.family));
      if level.oid == T_INT2VECTOR {
        level := level.(family := INT2VECTOR);
      } else if level.oid == T_OIDVECTOR {
        level := level.(family := OIDVECTOR);
      }
    }

    method UpgradeType() returns (error: Option<FormatError>)
      modifies this
      ensures match Upgrade(old(AsType()))
              case Err(e) => error == Some(e) && AsType() == Leftover(old(AsType()))
              case Ok(t) => error == None && AsType() == t
      decreases if level.family == ARRAY then 2 else 0
    {
      if level.family == ARRAY {
        error := UpgradeArrayType();
      } else if level.family == INT2VECTOR {
        level := level.(family := ARRAY, width := 0, oid := T_INT2VECTOR);
        arrayContents := Some(INT2_TYPE);
        error := None;
      } else if level.family == OIDVECTOR {
        level := level.(family := ARRAY, oid := T_OIDVECTOR);
        arrayContents := Some(OID_TYPE);
        error := None;
      } else {
        error := UpgradeScalarType();
      }
      if error != None { return; }
      if level.oid == 0 { level := level.(oid := FamilyToOid(level.family)); }
      level := level.(visibleType := 0);
      if level.locale == None { level := level.(locale := Some("")); }
    }

    /** The cases of the switch that touch the level alone. */
    method UpgradeScalarType() returns (error: Option<FormatError>)
      modifies this`level
      ensures match UpgradeScalar(old(level))
              case Err(e) => error == Some(e) && level == ScalarLeftover(old(level))
              case Ok(u) => error == None && level == u
    {
      error := None;
      if level.family == INT {
        error := UpgradeIntType();
      } else if level.family == FLOAT {
        error := UpgradeFloatType();
      } else if IsTime(level.family) {
        var precision := level.precision;
        if precision == -1 { level := level.(precision := 0, timePrecisionIsSet := false); }
        if level.precision > 0 { level := level.(timePrecisionIsSet := true); }
      } else if level.family == INTERVAL {
        if level.intervalDurationField == None { level := level.(intervalDurationField := Some(IntervalField(0, 0))); }
        if level.precision > 0 { level := level.(timePrecisionIsSet := true); }
      } else if IsString(level.family) {
        error := UpgradeStringType();
      } else if level.family == BIT {
        if level.visibleType == VISIBLE_VARBIT { level := level.(oid := T_VARBIT); }
        else if level.visibleType == VISIBLE_NONE { level := level.(oid := T_BIT); }
        else { error := Some(UnexpectedVisibleType); }
      } else if level.family == NAME {
        level := level.(family := if level.locale != None then COLLATED_STRING else STRING);
        level := level.(oid := T_NAME);
        if level.width != 0 { error := Some(NameWithWidth); }
      }
    }

    method UpgradeIntType() returns (error: Option<FormatError>)
      modifies this`level
      ensures match UpgradeInt(old(level))
              case Err(e) => error == Some(e) && level == old(level)
              case Ok(u) => error == None && level == u
    {
      error := None;
      if level.visibleType == VISIBLE_SMALLINT {
        level := level.(width := 16, oid := T_INT2);
      } else if level.visibleType == VISIBLE_INTEGER {
        level := level.(width := 32, oid := T_INT4);
      } else if level.visibleType == VISIBLE_BIGINT {
        level := level.(width := 64, oid := T_INT8);
      } else if level.visibleType == VISIBLE_BIT || level.visibleType == VISIBLE_NONE {
        if level.width == 16 { level := level.(oid := T_INT2); }
        else if level.width == 32 { level := level.(oid := T_INT4); }
        else { level := level.(oid := T_INT8, width := 64); }
      } else {
        error := Some(UnexpectedVisibleType);
      }
    }

    method UpgradeFloatType() returns (error: Option<FormatError>)
      modifies this`level
      ensures match UpgradeFloat(old(level))
              case Err(e) => error == Some(e) && level == old(level)
              case Ok(u) => error == None && level == u
    {
      if level.visibleType == VISIBLE_REAL {
        level := level.(oid := T_FLOAT4, width := 32);
      } else if level.visibleType == VISIBLE_DOUBLE {
        level := level.(oid := T_FLOAT8, width := 64);
      } else if level.visibleType == VISIBLE_NONE {
        if level.width == 32 { level := level.(oid := T_FLOAT4); }
        else if level.width == 64 { level := level.(oid := T_FLOAT8); }
        else if 1 <= level.precision <= 24 { level := level.(oid := T_FLOAT4, width := 32); }
        else { level := level.(oid := T_FLOAT8, width := 64); }
      } else {
        return Some(UnexpectedVisibleType);
      }
      level := level.(precision := 0);
      error := None;
    }

    method UpgradeStringType() returns (error: Option<FormatError>)
      requires IsString(level.family)
      modifies this`level
      ensures match UpgradeString(old(level))
              case Err(e) => error == Some(e) && level == ScalarLeftover(old(level))
              case Ok(u) => error == None && level == u
    {
      error := None;
      if level.visibleType == VISIBLE_VARCHAR { level := level.(oid := T_VARCHAR); }
      else if level.visibleType == VISIBLE_CHAR { level := level.(oid := T_BPCHAR); }
      else if level.visibleType == VISIBLE_QCHAR { level := level.(oid := T_CHAR); }
      else if level.visibleType == VISIBLE_NONE { level := level.(oid := T_TEXT); }
      else { return Some(UnexpectedVisibleType); }
      if level.family == STRING && level.locale.Some? && level.locale.value != "" { return Some(StringWithLocale); }
    }

    /** An array of an older version gets its contents first; then the element's fields are cleared. */
    method UpgradeArrayType() returns (error: Option<FormatError>)
      requires level.family == ARRAY
      modifies this
      ensures tupleContents == old(tupleContents)
      ensures match UpgradeArray(old(AsType()))
              case Err(e) => error == Some(e) && AsType() == ArrayLeftover(old(AsType()))
              case Ok(t) => error == None && T(Finish(level), arrayContents, tupleContents) == t
      decreases 1, 0
    {
      if arrayContents == None {
        if level.arrayElemType == None || level.arrayElemType == Some(ARRAY) { return Some(NilPointer); }
        var elem := level.(family := level.arrayElemType.value, arrayDimensions := [], arrayElemType := None);
        var contents := new Receiver(T(elem, None, tupleContents));
        error := contents.UpgradeType();
        if error != None { return; }
        arrayContents := Some(T(contents.level, contents.arrayContents, contents.tupleContents));
        var o := CalcArrayOid(contents.level);
        if o == None { return Some(NoArrayOid); }
        level := level.(oid := o.value);
      }
      if arrayContents.value.level.family == ARRAY { return Some(NestedArray); }
      level := level.(width := 0, precision := 0, locale := None, visibleType := 0, arrayElemType := None,
                      arrayDimensions := []);
      error := None;
    }
  }
}
