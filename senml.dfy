/** Resolution of a SenML pack (RFC 8428, section 4.6): one left-to-right pass
    that keeps the base attributes in effect, checks the version, builds and
    validates each record's full name, and computes its unit, value, sum and
    absolute time.

    `ResolvePack` is the specification: a left fold over the records.
    `Resolve` is the library's loop, proved to compute exactly `ResolvePack`
    with the threshold the library uses. */
module SenML {
  import opened SenMLDatatypes

  /** The highest version the library supports; also the default version. */
  const SENML_VERSION: int := 10

  /** The relative-time threshold as the library computes it. The library writes
      `2^28`, which in Go is the exclusive-or of 2 and 28, that is 30; RFC 8428
      section 4.5.3 intends 2**28 (see `SenMLIntended`). */
  const RELATIVE_TIME_THRESHOLD: real := 30.0

  /** The ways resolution fails; the first one met in record order is returned. */
  datatype Error =
    | UnsupportedVersion(got: int)   // a record's version is above SENML_VERSION
    | InconsistentVersion            // a record's version differs from the pack's
    | EmptyName                      // base name ++ name is empty
    | InvalidNameCharacters          // it holds a character outside [A-Za-z0-9-:./_]
    | InvalidNameStart               // it does not start with a letter or digit
    | MissingValue                   // the resolved record has no v, vs, vb, vd or s

  datatype Result<+T> = Ok(value: T) | Err(error: Error)

  // ---------------------------------------------------------------------------
  // Names (RFC 8428 section 4.5.1)

  predicate IsAlphanumeric(c: char) {
    'A' <= c <= 'Z' || 'a' <= c <= 'z' || '0' <= c <= '9'
  }

  predicate IsNameChar(c: char) {
    IsAlphanumeric(c) || c == '-' || c == ':' || c == '.' || c == '/' || c == '_'
  }

  /** A well-formed full name: non-empty, only name characters, and a letter
      or digit first. */
  predicate ValidName(s: string) {
    |s| > 0 && IsAlphanumeric(s[0]) && forall i :: 0 <= i < |s| ==> IsNameChar(s[i])
  }

  /** Whether `s` matches `^[a-zA-Z0-9\-\:\.\/\_]*$`. */
  function AllNameChars(s: string): (b: bool)
    ensures b <==> forall i :: 0 <= i < |s| ==> IsNameChar(s[i])
  {
    s == [] || (IsNameChar(s[0]) && AllNameChars(s[1..]))
  }

  /** The three name checks, in the order the library runs them. */
  function CheckName(name: string): (r: Option<Error>)
    ensures r.None? <==> ValidName(name)
    ensures r == Some(EmptyName) <==> name == []
    ensures r == Some(InvalidNameCharacters) <==>
              exists i :: 0 <= i < |name| && !IsNameChar(name[i])
    ensures r == Some(InvalidNameStart) <==>
              name != [] && !IsAlphanumeric(name[0]) &&
              forall i :: 0 <= i < |name| ==> IsNameChar(name[i])
  {
    if |name| == 0 then Some(EmptyName)
    else if !AllNameChars(name) then Some(InvalidNameCharacters)
    else if !IsAlphanumeric(name[0]) then Some(InvalidNameStart)
    else None
  }

  // ---------------------------------------------------------------------------
  // Versions

  /** The version check of one record, given the version adopted so far. */
  function CheckVersion(adopted: Option<int>, declared: Option<int>): (r: Option<Error>)
    ensures r.None? <==>
              declared.None? ||
              (declared.value <= SENML_VERSION && (adopted.None? || adopted == declared))
    ensures declared.Some? && declared.value > SENML_VERSION ==>
              r == Some(UnsupportedVersion(declared.value))
    ensures r.Some? && r != Some(InconsistentVersion) ==>
              declared.Some? && r == Some(UnsupportedVersion(declared.value)) &&
              declared.value > SENML_VERSION
  {
    if declared.None? then None
    else if declared.value > SENML_VERSION then Some(UnsupportedVersion(declared.value))
    else if adopted.None? || adopted.value == declared.value then None
    else Some(InconsistentVersion)
  }

  /** The pack's version after a record passed `CheckVersion`: the first
      record fixes it, to its own version or, when it has none, to the default. */
  function AdoptVersion(adopted: Option<int>, declared: Option<int>): Option<int> {
    if adopted.Some? then adopted
    else if declared.Some? then declared
    else Some(SENML_VERSION)
  }

  // ---------------------------------------------------------------------------
  // The running base state

  datatype BaseState = BaseState(
    name: Option<string>,
    time: Option<real>,
    unit: Option<string>,
    value: Option<real>,
    sum: Option<real>,
    version: Option<int>
  )

  const NO_BASE := BaseState(None, None, None, None, None, None)

  /** A declared base attribute replaces the slot; an absent one keeps it. */
  function Override<T>(slot: Option<T>, declared: Option<T>): Option<T> {
    if declared.Some? then declared else slot
  }

  /** The base state once `rec` has been read. */
  function Absorb(base: BaseState, rec: Record): BaseState {
    BaseState(
      Override(base.name, rec.baseName),
      Override(base.time, rec.baseTime),
      Override(base.unit, rec.baseUnit),
      Override(base.value, rec.baseValue),
      Override(base.sum, rec.baseSum),
      AdoptVersion(base.version, rec.version))
  }

  /** The base state after reading all of `rs`, from the empty state. */
  function StateAfter(rs: seq<Record>): BaseState
    decreases |rs|
  {
    if rs == [] then NO_BASE
    else Absorb(StateAfter(rs[..|rs| - 1]), rs[|rs| - 1])
  }

  // ---------------------------------------------------------------------------
  // Resolving one record

  /** `base + own` with an absent contributor counting as zero, present iff at
      least one contributor is (a base of 0 still counts as present). */
  function Accumulate(base: Option<real>, own: Option<real>): Option<real> {
    if base.Some? || own.Some? then Some(base.GetOr(0.0) + own.GetOr(0.0)) else None
  }

  /** The resolved time: base time + own time, and a result below `threshold`
      is relative to `now` (seconds since the epoch). */
  function ResolveTime(base: Option<real>, own: Option<real>, now: int, threshold: real): Option<real> {
    match Accumulate(base, own)
    case None => None
    case Some(t) => Some(if t < threshold then t + now as real else t)
  }

  /** The full name of a record: the base name in effect followed by its own. */
  function FullName(base: BaseState, rec: Record): string {
    base.name.GetOr("") + rec.name.GetOr("")
  }

  /** The record `rec` resolves to, with `base` the state once `rec` has been
      read and its name checked, before the check that it has a value. */
  function Merge(base: BaseState, rec: Record, now: int, threshold: real): Record {
    EMPTY_RECORD.(
      name := Some(FullName(base, rec)),
      unit := if rec.unit.Some? then rec.unit else base.unit,
      value := Accumulate(base.value, rec.value),
      boolValue := rec.boolValue,
      stringValue := rec.stringValue,
      dataValue := rec.dataValue,
      sum := Accumulate(base.sum, rec.sum),
      time := ResolveTime(base.time, rec.time, now, threshold),
      updateTime := rec.updateTime)
  }

  /** Resolve `rec` against the base state `before` built from the records
      preceding it. */
  function ResolveRecord(before: BaseState, rec: Record, now: int, threshold: real): (r: Result<Record>)
    ensures r.Ok? <==>
              CheckVersion(before.version, rec.version).None? &&
              ValidName(FullName(Absorb(before, rec), rec)) &&
              (HasValueField(rec) || Override(before.value, rec.baseValue).Some? ||
               Override(before.sum, rec.baseSum).Some?)
    ensures r.Ok? ==>
              BaseFree(r.value) && r.value.link.None? && HasValueField(r.value) &&
              r.value.name == Some(FullName(Absorb(before, rec), rec))
  {
    match CheckVersion(before.version, rec.version)
    case Some(e) => Err(e)
    case None =>
      var base := Absorb(before, rec);
      match CheckName(FullName(base, rec))
      case Some(e) => Err(e)
      case None =>
        var out := Merge(base, rec, now, threshold);
        if HasValueField(out) then Ok(out) else Err(MissingValue)
  }

  /** The three exits of `ResolveRecord`, one per check. */
  lemma ResolveRecordCases(before: BaseState, rec: Record, now: int, threshold: real)
    ensures CheckVersion(before.version, rec.version).Some? ==>
              ResolveRecord(before, rec, now, threshold) == Err(CheckVersion(before.version, rec.version).value)
    ensures CheckVersion(before.version, rec.version).None? &&
            CheckName(FullName(Absorb(before, rec), rec)).Some? ==>
              ResolveRecord(before, rec, now, threshold) ==
              Err(CheckName(FullName(Absorb(before, rec), rec)).value)
    ensures CheckVersion(before.version, rec.version).None? &&
            CheckName(FullName(Absorb(before, rec), rec)).None? ==>
              var out := Merge(Absorb(before, rec), rec, now, threshold);
              ResolveRecord(before, rec, now, threshold) ==
              if HasValueField(out) then Ok(out) else Err(MissingValue)
  {
  }

  // ---------------------------------------------------------------------------
  // Resolving a pack

  /** The records of `rs` resolved in order, or the first error met. */
  function ResolvePack(rs: seq<Record>, now: int, threshold: real): (r: Result<seq<Record>>)
    ensures r.Ok? ==> |r.value| == |rs|
    decreases |rs|
  {
    if rs == [] then Ok([])
    else
      var k := |rs| - 1;
      match ResolvePack(rs[..k], now, threshold)
      case Err(e) => Err(e)
      case Ok(prefix) =>
        match ResolveRecord(StateAfter(rs[..k]), rs[k], now, threshold)
        case Err(e) => Err(e)
        case Ok(out) => Ok(prefix + [out])
  }

  /** Once a prefix fails, the whole pack fails with the same error. */
  lemma {:induction false} ErrorPersists(rs: seq<Record>, k: nat, now: int, threshold: real)
    requires k <= |rs|
    requires ResolvePack(rs[..k], now, threshold).Err?
    ensures ResolvePack(rs, now, threshold) == ResolvePack(rs[..k], now, threshold)
    decreases |rs| - k
  {
    if k < |rs| {
      var n := |rs| - 1;
      assert rs[..n][..k] == rs[..k];
      ErrorPersists(rs[..n], k, now, threshold);
    } else {
      assert rs[..k] == rs;
    }
  }

  /** Resolving the first `i + 1` records, given the first `i`. */
  lemma Step(rs: seq<Record>, i: nat, now: int, threshold: real)
    requires i < |rs|
    requires ResolvePack(rs[..i], now, threshold).Ok?
    ensures ResolveRecord(StateAfter(rs[..i]), rs[i], now, threshold).Err? ==>
              ResolvePack(rs[..i + 1], now, threshold) ==
              Err(ResolveRecord(StateAfter(rs[..i]), rs[i], now, threshold).error)
    ensures ResolveRecord(StateAfter(rs[..i]), rs[i], now, threshold).Ok? ==>
              ResolvePack(rs[..i + 1], now, threshold) ==
              Ok(ResolvePack(rs[..i], now, threshold).value +
                 [ResolveRecord(StateAfter(rs[..i]), rs[i], now, threshold).value])
    ensures StateAfter(rs[..i + 1]) == Absorb(StateAfter(rs[..i]), rs[i])
  {
    assert rs[..i + 1][..i] == rs[..i];
  }

  /** The library's construction of a resolved record, field by field, from
      the record, its full name `name` and the base attributes in `base`:
      the unit is the record's own or else the base unit, the value, the sum
      and the time start from 0, take the base and add the record's own, and
      are set when either is present, a time below the threshold is made
      absolute, and the remaining values are copied. */
  method BuildRecord(base: BaseState, record: Record, name: string, now: int) returns (resolvedRecord: Record)
    requires name == FullName(base, record)
    ensures resolvedRecord == Merge(base, record, now, RELATIVE_TIME_THRESHOLD)
  {
    var resolvedUnit: Option<string> := None;
    if record.unit.Some? {
      resolvedUnit := record.unit;
    } else if base.unit.Some? {
      resolvedUnit := base.unit;
    }

    var value := 0.0;
    if base.value.Some? {
      value := base.value.value;
    }
    if record.value.Some? {
      value := value + record.value.value;
    }
    var resolvedValue: Option<real> := None;
    if base.value.Some? || record.value.Some? {
      resolvedValue := Some(value);
    }
    assert resolvedValue == Accumulate(base.value, record.value);

    var sum := 0.0;
    if base.sum.Some? {
      sum := base.sum.value;
    }
    if record.sum.Some? {
      sum := sum + record.sum.value;
    }
    var resolvedSum: Option<real> := None;
    if base.sum.Some? || record.sum.Some? {
      resolvedSum := Some(sum);
    }
    assert resolvedSum == Accumulate(base.sum, record.sum);

    var time := 0.0;
    if base.time.Some? {
      time := base.time.value;
    }
    if record.time.Some? {
      time := time + record.time.value;
    }
    var resolvedTime: Option<real> := None;
    if base.time.Some? || record.time.Some? {
      if time < RELATIVE_TIME_THRESHOLD {
        resolvedTime := Some(time + now as real);
      } else {
        resolvedTime := Some(time);
      }
    }
    assert resolvedTime == ResolveTime(base.time, record.time, now, RELATIVE_TIME_THRESHOLD);

    // The boolean, string and data values and the update time are copied.
    resolvedRecord := EMPTY_RECORD.(
      name := Some(name),
      unit := resolvedUnit,
      value := resolvedValue,
      boolValue := record.boolValue,
      stringValue := record.stringValue,
      dataValue := record.dataValue,
      sum := resolvedSum,
      time := resolvedTime,
      updateTime := record.updateTime);
  }

  /** The library's `Resolve`: the same pass as a loop over the records, with
      the base attributes in local variables. */
  method Resolve(message: Message, now: int) returns (result: Result<Message>)
    ensures result.Ok? <==> ResolvePack(message.records, now, RELATIVE_TIME_THRESHOLD).Ok?
    ensures result.Ok? ==>
              result.value == Message(ResolvePack(message.records, now, RELATIVE_TIME_THRESHOLD).value)
    ensures result.Err? ==>
              result.error == ResolvePack(message.records, now, RELATIVE_TIME_THRESHOLD).error
  {
    var records := message.records;
    var baseName: Option<string> := None;
    var baseTime: Option<real> := None;
    var baseUnit: Option<string> := None;
    var baseValue: Option<real> := None;
    var baseSum: Option<real> := None;
    var baseVersion: Option<int> := None;
    var resolvedRecords: seq<Record> := [];

    for i := 0 to |records|
      invariant BaseState(baseName, baseTime, baseUnit, baseValue, baseSum, baseVersion)
                == StateAfter(records[..i])
      invariant ResolvePack(records[..i], now, RELATIVE_TIME_THRESHOLD) == Ok(resolvedRecords)
    {
      var record := records[i];
      ghost var before := StateAfter(records[..i]);
      ghost var expected := ResolveRecord(before, record, now, RELATIVE_TIME_THRESHOLD);
      Step(records, i, now, RELATIVE_TIME_THRESHOLD);
      ResolveRecordCases(before, record, now, RELATIVE_TIME_THRESHOLD);

      // Base attributes
      if record.version.Some? {
        if record.version.value > SENML_VERSION {
          result := Err(UnsupportedVersion(record.version.value));
          assert expected == Err(result.error);
          ErrorPersists(records, i + 1, now, RELATIVE_TIME_THRESHOLD);
          return;
        } else if baseVersion.None? {
          baseVersion := record.version;
        } else if record.version.value != baseVersion.value {
          result := Err(InconsistentVersion);
          assert expected == Err(result.error);
          ErrorPersists(records, i + 1, now, RELATIVE_TIME_THRESHOLD);
          return;
        }
      } else if baseVersion.None? {
        baseVersion := Some(SENML_VERSION);
      }
      if record.baseName.Some? {
        baseName := record.baseName;
      }
      if record.baseTime.Some? {
        baseTime := record.baseTime;
      }
      if record.baseUnit.Some? {
        baseUnit := record.baseUnit;
      }
      if record.baseValue.Some? {
        baseValue := record.baseValue;
      }
      if record.baseSum.Some? {
        baseSum := record.baseSum;
      }

      // Name
      var resolvedName := "";
      if baseName.Some? {
        resolvedName := baseName.value;
      }
      if record.name.Some? {
        resolvedName := resolvedName + record.name.value;
      }
      var base := BaseState(baseName, baseTime, baseUnit, baseValue, baseSum, baseVersion);
      assert base == Absorb(before, record);
      assert resolvedName == FullName(base, record);
      // The three name checks, in order: empty, characters, first character.
      var nameError := CheckName(resolvedName);
      if nameError.Some? {
        result := Err(nameError.value);
        assert expected == Err(result.error);
        ErrorPersists(records, i + 1, now, RELATIVE_TIME_THRESHOLD);
        return;
      }

      var resolvedRecord := BuildRecord(base, record, resolvedName, now);
      // A value or a sum must be present
      if resolvedRecord.value.None? && resolvedRecord.stringValue.None? &&
         resolvedRecord.boolValue.None? && resolvedRecord.dataValue.None? &&
         resolvedRecord.sum.None? {
        result := Err(MissingValue);
        assert expected == Err(result.error);
        ErrorPersists(records, i + 1, now, RELATIVE_TIME_THRESHOLD);
        return;
      }

      assert expected == Ok(resolvedRecord);
      resolvedRecords := resolvedRecords + [resolvedRecord];
    }

    // The library then means to stamp a non-default version on every record,
    // but it assigns to a per-iteration copy: `resolvedRecords` is unchanged.
    if baseVersion.Some? && baseVersion.value != SENML_VERSION {
      for j := 0 to |resolvedRecords| {
        var copy := resolvedRecords[j];
        copy := copy.(version := baseVersion);
      }
    }

    assert records[..|records|] == records;
    result := Ok(Message(resolvedRecords));
  }
}
