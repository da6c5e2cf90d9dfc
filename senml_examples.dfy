/** Small packs that show the resolution rules one at a time. */
module SenMLExamples {
  import opened SenMLDatatypes
  import opened SenML
  import opened SenMLProperties
  import opened SenMLIntended

  // ---------------------------------------------------------------------------
  // Names

  /** The three name errors, one per check. */
  lemma NameErrors()
    ensures CheckName("") == Some(EmptyName)
    ensures CheckName("test(") == Some(InvalidNameCharacters)
    ensures CheckName("-test") == Some(InvalidNameStart)
    ensures CheckName("test").None?
  {
    assert !IsNameChar("test("[4]);
    assert !IsAlphanumeric("-test"[0]);
    assert forall i :: 0 <= i < |"-test"| ==> IsNameChar("-test"[i]);
    assert ValidName("test");
  }

  /** A record with no base name and no name fails with EmptyName, one whose
      name starts with '-' with InvalidNameStart. */
  lemma NameErrorsInPacks(now: int)
    ensures ResolvePack([EMPTY_RECORD.(value := Some(1.0))], now, RELATIVE_TIME_THRESHOLD) ==
            Err(EmptyName)
    ensures ResolvePack([EMPTY_RECORD.(name := Some("-test"), value := Some(1.0))], now,
                        RELATIVE_TIME_THRESHOLD) ==
            Err(InvalidNameStart)
  {
    var unnamed := EMPTY_RECORD.(value := Some(1.0));
    var dashed := EMPTY_RECORD.(name := Some("-test"), value := Some(1.0));
    assert !IsAlphanumeric("-test"[0]);
    assert forall i :: 0 <= i < |"-test"| ==> IsNameChar("-test"[i]);
    assert [unnamed][..0] == [] && [dashed][..0] == [];
    assert FullName(Absorb(NO_BASE, unnamed), unnamed) == "";
    assert FullName(Absorb(NO_BASE, dashed), dashed) == "-test";
  }

  /** The base name alone names a record: `[{bn:"A", v:1}, {v:2}]` resolves
      to the names A and A. */
  lemma InheritedName(now: int)
    ensures var out := ResolvePack([EMPTY_RECORD.(baseName := Some("A"), value := Some(1.0)),
                                    EMPTY_RECORD.(value := Some(2.0))], now, RELATIVE_TIME_THRESHOLD);
            out.Ok? && |out.value| == 2 &&
            out.value[0].name == Some("A") && out.value[1].name == Some("A")
  {
    var a := EMPTY_RECORD.(baseName := Some("A"), value := Some(1.0));
    var b := EMPTY_RECORD.(value := Some(2.0));
    ResolvePair(a, b, now, RELATIVE_TIME_THRESHOLD);
    assert FullName(Absorb(NO_BASE, a), a) == "A";
    assert FullName(Absorb(Absorb(NO_BASE, a), b), b) == "A";
    assert ValidName("A");
  }

  // ---------------------------------------------------------------------------
  // Values and units

  /** The base value is added: `[{bv:1, bn:"x", v:0}, {v:2}]` resolves to the
      values 1 and 3. */
  lemma AdditiveValue(now: int)
    ensures var out := ResolvePack([EMPTY_RECORD.(baseValue := Some(1.0), baseName := Some("x"),
                                                  value := Some(0.0)),
                                    EMPTY_RECORD.(value := Some(2.0))], now, RELATIVE_TIME_THRESHOLD);
            out.Ok? && |out.value| == 2 &&
            out.value[0].value == Some(1.0) && out.value[1].value == Some(3.0)
  {
    var a := EMPTY_RECORD.(baseValue := Some(1.0), baseName := Some("x"), value := Some(0.0));
    var b := EMPTY_RECORD.(value := Some(2.0));
    ResolvePair(a, b, now, RELATIVE_TIME_THRESHOLD);
    assert FullName(Absorb(NO_BASE, a), a) == "x";
    assert FullName(Absorb(Absorb(NO_BASE, a), b), b) == "x";
    assert ValidName("x");
  }

  /** The base unit is not combined with the record's own:
      `[{bu:"C", bn:"x", v:0}, {u:"F", v:1}]` resolves to the units C and F. */
  lemma UnitOverride(now: int)
    ensures var out := ResolvePack([EMPTY_RECORD.(baseUnit := Some("C"), baseName := Some("x"),
                                                  value := Some(0.0)),
                                    EMPTY_RECORD.(unit := Some("F"), value := Some(1.0))],
                                   now, RELATIVE_TIME_THRESHOLD);
            out.Ok? && |out.value| == 2 &&
            out.value[0].unit == Some("C") && out.value[1].unit == Some("F")
  {
    var a := EMPTY_RECORD.(baseUnit := Some("C"), baseName := Some("x"), value := Some(0.0));
    var b := EMPTY_RECORD.(unit := Some("F"), value := Some(1.0));
    ResolvePair(a, b, now, RELATIVE_TIME_THRESHOLD);
    assert FullName(Absorb(NO_BASE, a), a) == "x";
    assert FullName(Absorb(Absorb(NO_BASE, a), b), b) == "x";
    assert ValidName("x");
  }

  /** A base sum alone is enough of a value, and a base sum of 0 still
      counts as present. */
  lemma BaseOnlyValues(now: int)
    ensures var out := ResolvePack([EMPTY_RECORD.(baseSum := Some(0.0), baseName := Some("x"))],
                                   now, RELATIVE_TIME_THRESHOLD);
            out.Ok? && out.value[0].sum == Some(0.0) && out.value[0].value.None?
    ensures ResolvePack([EMPTY_RECORD.(name := Some("x"))], now, RELATIVE_TIME_THRESHOLD) ==
            Err(MissingValue)
  {
    var a := EMPTY_RECORD.(baseSum := Some(0.0), baseName := Some("x"));
    var b := EMPTY_RECORD.(name := Some("x"));
    assert [a][..0] == [] && [b][..0] == [];
    assert FullName(Absorb(NO_BASE, a), a) == "x";
    assert FullName(Absorb(NO_BASE, b), b) == "x";
    assert ValidName("x");
    assert ResolvePack([a], now, RELATIVE_TIME_THRESHOLD) ==
           Ok([] + [ResolveRecord(NO_BASE, a, now, RELATIVE_TIME_THRESHOLD).value]);
  }

  // ---------------------------------------------------------------------------
  // Time

  /** At the threshold a time is kept, one second below it is made relative
      to now: 30 as written, 2**28 as intended. */
  lemma TimeBoundary(now: int)
    ensures ResolveTime(None, Some(30.0), now, RELATIVE_TIME_THRESHOLD) == Some(30.0)
    ensures ResolveTime(None, Some(29.0), now, RELATIVE_TIME_THRESHOLD) == Some(29.0 + now as real)
    ensures ResolveTime(None, Some(268435456.0), now, INTENDED_RELATIVE_TIME_THRESHOLD) ==
            Some(268435456.0)
    ensures ResolveTime(None, Some(268435455.0), now, INTENDED_RELATIVE_TIME_THRESHOLD) ==
            Some(268435455.0 + now as real)
    ensures ResolveTime(Some(1276020076.001), Some(-5.0), now, INTENDED_RELATIVE_TIME_THRESHOLD) ==
            Some(1276020071.001)
  {
  }

  // ---------------------------------------------------------------------------
  // Versions

  /** Version 5 on every record: the pack resolves; as written (at either
      threshold) no record carries the version, as intended every record
      carries 5. */
  lemma VersionFive(now: int)
    ensures var a := EMPTY_RECORD.(version := Some(5), name := Some("x"), value := Some(1.0));
            var b := EMPTY_RECORD.(version := Some(5), name := Some("y"), value := Some(2.0));
            ResolvePack([a, b], now, RELATIVE_TIME_THRESHOLD).Ok? &&
            ResolvePack([a, b], now, RELATIVE_TIME_THRESHOLD).value[0].version.None? &&
            ResolvePack([a, b], now, RELATIVE_TIME_THRESHOLD).value[1].version.None? &&
            ResolvePack([a, b], now, INTENDED_RELATIVE_TIME_THRESHOLD).Ok? &&
            ResolvePack([a, b], now, INTENDED_RELATIVE_TIME_THRESHOLD).value[0].version.None? &&
            ResolvePack([a, b], now, INTENDED_RELATIVE_TIME_THRESHOLD).value[1].version.None? &&
            ResolveIntended([a, b], now).Ok? &&
            ResolveIntended([a, b], now).value[0].version == Some(5) &&
            ResolveIntended([a, b], now).value[1].version == Some(5)
  {
    var a := EMPTY_RECORD.(version := Some(5), name := Some("x"), value := Some(1.0));
    var b := EMPTY_RECORD.(version := Some(5), name := Some("y"), value := Some(2.0));
    ResolvePair(a, b, now, RELATIVE_TIME_THRESHOLD);
    ResolvePair(a, b, now, INTENDED_RELATIVE_TIME_THRESHOLD);
    assert FullName(Absorb(NO_BASE, a), a) == "x";
    assert FullName(Absorb(Absorb(NO_BASE, a), b), b) == "y";
    assert ValidName("x") && ValidName("y");
    IntendedVersionStamped([a, b], now);
  }

  /** Versions 5 and 6 in one pack fail with InconsistentVersion; a version
      above 10 fails with UnsupportedVersion. */
  lemma MixedVersions(now: int)
    ensures ResolvePack([EMPTY_RECORD.(version := Some(5), name := Some("x"), value := Some(1.0)),
                         EMPTY_RECORD.(version := Some(6), name := Some("x"), value := Some(2.0))],
                        now, RELATIVE_TIME_THRESHOLD) ==
            Err(InconsistentVersion)
    ensures ResolvePack([EMPTY_RECORD.(version := Some(11), name := Some("x"), value := Some(1.0))],
                        now, RELATIVE_TIME_THRESHOLD) ==
            Err(UnsupportedVersion(11))
  {
    var a := EMPTY_RECORD.(version := Some(5), name := Some("x"), value := Some(1.0));
    var b := EMPTY_RECORD.(version := Some(6), name := Some("x"), value := Some(2.0));
    var c := EMPTY_RECORD.(version := Some(11), name := Some("x"), value := Some(1.0));
    ResolvePair(a, b, now, RELATIVE_TIME_THRESHOLD);
    assert FullName(Absorb(NO_BASE, a), a) == "x";
    assert ValidName("x");
    assert [c][..0] == [];
  }
}
