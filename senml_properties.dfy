/** What resolution promises, stated over the specification `ResolvePack`:
    record-by-record resolution with the first error returned, last-write-wins
    base attributes that only reach forward, one pack-wide version, the
    meaning of every resolved field, and that resolving a resolved pack
    changes nothing. */
module SenMLProperties {
  import opened SenMLDatatypes
  import opened SenML

  // ---------------------------------------------------------------------------
  // The pass is record by record

  /** Every prefix of a pack that resolves resolves, to the matching prefix
      of the output. */
  lemma {:induction false} PrefixResolves(rs: seq<Record>, k: nat, now: int, threshold: real)
    requires k <= |rs| && ResolvePack(rs, now, threshold).Ok?
    ensures ResolvePack(rs[..k], now, threshold).Ok?
    ensures ResolvePack(rs[..k], now, threshold).value == ResolvePack(rs, now, threshold).value[..k]
    decreases |rs| - k
  {
    if k < |rs| {
      var n := |rs| - 1;
      assert rs[..n][..k] == rs[..k];
      PrefixResolves(rs[..n], k, now, threshold);
    } else {
      assert rs[..k] == rs;
    }
  }

  /** Record i of the output is record i resolved against the base state
      built from the records before it. */
  lemma StepAt(rs: seq<Record>, i: nat, now: int, threshold: real)
    requires i < |rs| && ResolvePack(rs, now, threshold).Ok?
    ensures ResolveRecord(StateAfter(rs[..i]), rs[i], now, threshold) ==
            Ok(ResolvePack(rs, now, threshold).value[i])
  {
    PrefixResolves(rs, i + 1, now, threshold);
    PrefixResolves(rs, i, now, threshold);
    Step(rs, i, now, threshold);
  }

  /** A pack whose every record resolves against the state before it resolves. */
  lemma {:induction false} StepsResolve(rs: seq<Record>, now: int, threshold: real)
    requires forall i :: 0 <= i < |rs| ==>
               ResolveRecord(StateAfter(rs[..i]), rs[i], now, threshold).Ok?
    ensures ResolvePack(rs, now, threshold).Ok?
    decreases |rs|
  {
    if rs != [] {
      var k := |rs| - 1;
      forall i | 0 <= i < k
        ensures ResolveRecord(StateAfter(rs[..k][..i]), rs[..k][i], now, threshold).Ok?
      {
        assert rs[..k][..i] == rs[..i];
      }
      StepsResolve(rs[..k], now, threshold);
      Step(rs, k, now, threshold);
      assert rs[..k + 1] == rs;
    }
  }

  /** A pack resolves iff every record resolves against the base state built
      from the records before it, and then record i of the output is exactly
      that record resolved: same length, same order. */
  lemma ResolvePackSteps(rs: seq<Record>, now: int, threshold: real)
    ensures ResolvePack(rs, now, threshold).Ok? <==>
              forall i :: 0 <= i < |rs| ==>
                ResolveRecord(StateAfter(rs[..i]), rs[i], now, threshold).Ok?
    ensures ResolvePack(rs, now, threshold).Ok? ==>
              |ResolvePack(rs, now, threshold).value| == |rs| &&
              forall i :: 0 <= i < |rs| ==>
                ResolveRecord(StateAfter(rs[..i]), rs[i], now, threshold) ==
                Ok(ResolvePack(rs, now, threshold).value[i])
  {
    if ResolvePack(rs, now, threshold).Ok? {
      forall i | 0 <= i < |rs|
        ensures ResolveRecord(StateAfter(rs[..i]), rs[i], now, threshold) ==
                Ok(ResolvePack(rs, now, threshold).value[i])
      {
        StepAt(rs, i, now, threshold);
      }
    } else if forall i :: 0 <= i < |rs| ==>
                ResolveRecord(StateAfter(rs[..i]), rs[i], now, threshold).Ok? {
      StepsResolve(rs, now, threshold);
    }
  }

  /** A failing pack fails with the error of its first failing record: every
      record before it resolves. */
  lemma {:induction false} FirstError(rs: seq<Record>, now: int, threshold: real)
    requires ResolvePack(rs, now, threshold).Err?
    ensures exists k :: 0 <= k < |rs| &&
              ResolvePack(rs[..k], now, threshold).Ok? &&
              ResolveRecord(StateAfter(rs[..k]), rs[k], now, threshold) ==
              Err(ResolvePack(rs, now, threshold).error)
    decreases |rs|
  {
    var k := |rs| - 1;
    if ResolvePack(rs[..k], now, threshold).Err? {
      FirstError(rs[..k], now, threshold);
      var j :| 0 <= j < k &&
               ResolvePack(rs[..k][..j], now, threshold).Ok? &&
               ResolveRecord(StateAfter(rs[..k][..j]), rs[..k][j], now, threshold) ==
               Err(ResolvePack(rs[..k], now, threshold).error);
      assert rs[..k][..j] == rs[..j];
    }
  }

  /** Forward-only inheritance: what follows a prefix never changes how the
      prefix resolves. */
  lemma ForwardOnly(a: seq<Record>, b: seq<Record>, now: int, threshold: real)
    requires ResolvePack(a + b, now, threshold).Ok?
    ensures ResolvePack(a, now, threshold).Ok?
    ensures ResolvePack(a + b, now, threshold).value[..|a|] == ResolvePack(a, now, threshold).value
  {
    assert (a + b)[..|a|] == a;
    PrefixResolves(a + b, |a|, now, threshold);
  }

  /** A pack of two records: the second resolves against the base state the
      first leaves behind. */
  lemma ResolvePair(a: Record, b: Record, now: int, threshold: real)
    ensures ResolvePack([a, b], now, threshold) ==
            match ResolveRecord(NO_BASE, a, now, threshold)
            case Err(e) => Err(e)
            case Ok(x) =>
              match ResolveRecord(Absorb(NO_BASE, a), b, now, threshold)
              case Err(e) => Err(e)
              case Ok(y) => Ok([x, y])
  {
    var rs := [a, b];
    assert rs[..1] == [a] && [a][..0] == [];
    assert StateAfter([a]) == Absorb(NO_BASE, a);
    var first := ResolveRecord(NO_BASE, a, now, threshold);
    if first.Ok? {
      assert ResolvePack([a], now, threshold) == Ok([] + [first.value]);
      assert [] + [first.value] == [first.value];
      var second := ResolveRecord(Absorb(NO_BASE, a), b, now, threshold);
      if second.Ok? {
        assert [first.value] + [second.value] == [first.value, second.value];
      }
    } else {
      assert ResolvePack([a], now, threshold) == Err(first.error);
    }
  }

  // ---------------------------------------------------------------------------
  // The base state

  /** Last write wins: the base state holds the latest declaration of each
      base attribute among the records read so far. */
  lemma {:induction false} LastWriteWins(rs: seq<Record>, k: nat)
    requires k < |rs|
    ensures rs[k].baseName.Some? && (forall j :: k < j < |rs| ==> rs[j].baseName.None?) ==>
              StateAfter(rs).name == rs[k].baseName
    ensures rs[k].baseTime.Some? && (forall j :: k < j < |rs| ==> rs[j].baseTime.None?) ==>
              StateAfter(rs).time == rs[k].baseTime
    ensures rs[k].baseUnit.Some? && (forall j :: k < j < |rs| ==> rs[j].baseUnit.None?) ==>
              StateAfter(rs).unit == rs[k].baseUnit
    ensures rs[k].baseValue.Some? && (forall j :: k < j < |rs| ==> rs[j].baseValue.None?) ==>
              StateAfter(rs).value == rs[k].baseValue
    ensures rs[k].baseSum.Some? && (forall j :: k < j < |rs| ==> rs[j].baseSum.None?) ==>
              StateAfter(rs).sum == rs[k].baseSum
    decreases |rs|
  {
    var n := |rs| - 1;
    if k < n {
      LastWriteWins(rs[..n], k);
    }
  }

  /** A base attribute that no record read so far declares is absent. */
  lemma {:induction false} NeverDeclared(rs: seq<Record>)
    ensures (forall j :: 0 <= j < |rs| ==> rs[j].baseName.None?) ==> StateAfter(rs).name.None?
    ensures (forall j :: 0 <= j < |rs| ==> rs[j].baseTime.None?) ==> StateAfter(rs).time.None?
    ensures (forall j :: 0 <= j < |rs| ==> rs[j].baseUnit.None?) ==> StateAfter(rs).unit.None?
    ensures (forall j :: 0 <= j < |rs| ==> rs[j].baseValue.None?) ==> StateAfter(rs).value.None?
    ensures (forall j :: 0 <= j < |rs| ==> rs[j].baseSum.None?) ==> StateAfter(rs).sum.None?
    decreases |rs|
  {
    if rs != [] {
      NeverDeclared(rs[..|rs| - 1]);
    }
  }

  /** The pack's version is fixed by its first record: its own version, or the
      default when it declares none (so the default is adopted at once). */
  lemma {:induction false} EffectiveVersion(rs: seq<Record>)
    ensures rs == [] ==> StateAfter(rs).version.None?
    ensures rs != [] ==> StateAfter(rs).version == Some(rs[0].version.GetOr(SENML_VERSION))
    decreases |rs|
  {
    if |rs| > 1 {
      EffectiveVersion(rs[..|rs| - 1]);
    }
  }

  // ---------------------------------------------------------------------------
  // Versions

  /** In a pack that resolves, every declared version is supported and equals
      the first record's version, or the default if the first declares none. */
  lemma VersionAgreement(rs: seq<Record>, now: int, threshold: real)
    requires ResolvePack(rs, now, threshold).Ok?
    ensures forall i :: 0 <= i < |rs| && rs[i].version.Some? ==>
              rs[i].version.value <= SENML_VERSION &&
              rs[i].version.value == rs[0].version.GetOr(SENML_VERSION)
  {
    ResolvePackSteps(rs, now, threshold);
    forall i | 0 <= i < |rs| && rs[i].version.Some?
      ensures rs[i].version.value <= SENML_VERSION &&
              rs[i].version.value == rs[0].version.GetOr(SENML_VERSION)
    {
      EffectiveVersion(rs[..i]);
      assert ResolveRecord(StateAfter(rs[..i]), rs[i], now, threshold).Ok?;
      if i > 0 {
        assert rs[..i][0] == rs[0];
      }
    }
  }

  /** A record whose version is unsupported, or differs from the pack's,
      makes the pack fail; when every record before it resolves, the error is
      that version error. */
  lemma VersionViolation(rs: seq<Record>, i: nat, now: int, threshold: real)
    requires i < |rs| && rs[i].version.Some?
    requires rs[i].version.value > SENML_VERSION ||
             rs[i].version.value != rs[0].version.GetOr(SENML_VERSION)
    ensures ResolvePack(rs, now, threshold).Err?
    ensures ResolvePack(rs[..i], now, threshold).Ok? ==>
              ResolvePack(rs, now, threshold) ==
              Err(if rs[i].version.value > SENML_VERSION
                  then UnsupportedVersion(rs[i].version.value)
                  else InconsistentVersion)
  {
    if ResolvePack(rs, now, threshold).Ok? {
      VersionAgreement(rs, now, threshold);
    }
    if ResolvePack(rs[..i], now, threshold).Ok? {
      EffectiveVersion(rs[..i]);
      if i > 0 {
        assert rs[..i][0] == rs[0];
      }
      Step(rs, i, now, threshold);
      ErrorPersists(rs, i + 1, now, threshold);
    }
  }

  // ---------------------------------------------------------------------------
  // The resolved fields

  /** One resolved record, in terms of the record and the base state once the
      record has been read. */
  lemma RecordFields(before: BaseState, rec: Record, now: int, threshold: real)
    requires ResolveRecord(before, rec, now, threshold).Ok?
    ensures var out := ResolveRecord(before, rec, now, threshold).value;
            var base := Absorb(before, rec);
            // the name: base name ++ own name, well formed
            out.name == Some(base.name.GetOr("") + rec.name.GetOr("")) &&
            ValidName(out.name.value) &&
            // the unit: own unit, else base unit; never combined
            out.unit == (if rec.unit.Some? then rec.unit else base.unit) &&
            // value and sum: base + own, present iff either is
            (out.value.Some? <==> base.value.Some? || rec.value.Some?) &&
            (out.value.Some? ==> out.value.value == base.value.GetOr(0.0) + rec.value.GetOr(0.0)) &&
            (out.sum.Some? <==> base.sum.Some? || rec.sum.Some?) &&
            (out.sum.Some? ==> out.sum.value == base.sum.GetOr(0.0) + rec.sum.GetOr(0.0)) &&
            // the time: base + own, present iff either is, made absolute below the threshold
            (out.time.Some? <==> base.time.Some? || rec.time.Some?) &&
            (out.time.Some? ==>
               var raw := base.time.GetOr(0.0) + rec.time.GetOr(0.0);
               out.time.value == if raw < threshold then raw + now as real else raw) &&
            // copied unchanged
            out.boolValue == rec.boolValue && out.stringValue == rec.stringValue &&
            out.dataValue == rec.dataValue && out.updateTime == rec.updateTime &&
            // no base attribute, no version, no link; some value
            BaseFree(out) && out.link.None? && HasValueField(out)
  {
  }

  /** A record fails with MissingValue exactly when, after resolution, it has
      none of v, vs, vb, vd, s: no own value field and no base value or sum. */
  lemma MissingValueExactly(before: BaseState, rec: Record, now: int, threshold: real)
    requires CheckVersion(before.version, rec.version).None?
    requires ValidName(FullName(Absorb(before, rec), rec))
    ensures ResolveRecord(before, rec, now, threshold) == Err(MissingValue) <==>
              !HasValueField(rec) && Absorb(before, rec).value.None? && Absorb(before, rec).sum.None?
  {
  }

  // ---------------------------------------------------------------------------
  // Resolving a resolved pack

  /** The shape of a resolved record: no base attribute, version or link, a
      well-formed name, a value, and an absolute time. */
  predicate IsResolved(r: Record, threshold: real) {
    BaseFree(r) && r.link.None? && r.name.Some? && ValidName(r.name.value) &&
    HasValueField(r) && (r.time.None? || r.time.value >= threshold)
  }

  /** Reading base-free records leaves every base slot empty; only the version
      becomes the default. */
  lemma {:induction false} BaseFreeState(s: seq<Record>)
    requires forall i :: 0 <= i < |s| ==> BaseFree(s[i])
    ensures StateAfter(s) == if s == [] then NO_BASE else NO_BASE.(version := Some(SENML_VERSION))
    decreases |s|
  {
    if s != [] {
      BaseFreeState(s[..|s| - 1]);
    }
  }

  /** A resolved record resolves to itself against the state that base-free
      records leave behind. */
  lemma ResolvedRecordIsFixed(r: Record, now: int, threshold: real, withVersion: bool)
    requires IsResolved(r, threshold)
    ensures var before := if withVersion then NO_BASE.(version := Some(SENML_VERSION)) else NO_BASE;
            ResolveRecord(before, r, now, threshold) == Ok(r)
  {
    var before := if withVersion then NO_BASE.(version := Some(SENML_VERSION)) else NO_BASE;
    assert Absorb(before, r) == NO_BASE.(version := Some(SENML_VERSION));
    assert FullName(Absorb(before, r), r) == r.name.value;
    assert Accumulate(None, r.value) == r.value;
    assert Accumulate(None, r.sum) == r.sum;
    assert ResolveTime(None, r.time, now, threshold) == r.time;
  }

  /** A pack of resolved records resolves to itself. */
  lemma ResolvedIsFixpoint(s: seq<Record>, now: int, threshold: real)
    requires forall i :: 0 <= i < |s| ==> IsResolved(s[i], threshold)
    ensures ResolvePack(s, now, threshold) == Ok(s)
  {
    forall i | 0 <= i < |s|
      ensures ResolveRecord(StateAfter(s[..i]), s[i], now, threshold) == Ok(s[i])
    {
      BaseFreeState(s[..i]);
      ResolvedRecordIsFixed(s[i], now, threshold, i > 0);
    }
    ResolvePackSteps(s, now, threshold);
    assert ResolvePack(s, now, threshold).value == s;
  }

  /** Resolving is idempotent: once resolved, a pack whose times all lie at
      or above the threshold resolves to itself. */
  lemma Idempotent(rs: seq<Record>, now: int, threshold: real)
    requires ResolvePack(rs, now, threshold).Ok?
    requires forall i :: 0 <= i < |ResolvePack(rs, now, threshold).value| ==>
               ResolvePack(rs, now, threshold).value[i].time.None? ||
               ResolvePack(rs, now, threshold).value[i].time.value >= threshold
    ensures ResolvePack(ResolvePack(rs, now, threshold).value, now, threshold) ==
            ResolvePack(rs, now, threshold)
  {
    var out := ResolvePack(rs, now, threshold).value;
    forall i | 0 <= i < |out| ensures IsResolved(out[i], threshold) {
      StepAt(rs, i, now, threshold);
    }
    ResolvedIsFixpoint(out, now, threshold);
  }

  // ---------------------------------------------------------------------------
  // Examples

  /** The pack that the library's own test resolves: one full record with base
      attributes and version 5, then six records relying on them. */
  function TestPack(): seq<Record> {
    var first := EMPTY_RECORD.(
      baseName := Some(TEST_BASE_NAME), baseTime := Some(1276020076.001),
      baseUnit := Some("A"), version := Some(5),
      name := Some("voltage"), unit := Some("V"), value := Some(120.1));
    var current := EMPTY_RECORD.(name := Some("current"));
    [first,
     current.(time := Some(-5.0), value := Some(1.2)),
     current.(time := Some(-4.0), value := Some(1.3)),
     current.(time := Some(-3.0), value := Some(1.4)),
     current.(time := Some(-2.0), value := Some(1.5)),
     current.(time := Some(-1.0), value := Some(1.6)),
     current.(value := Some(1.7))]
  }

  const TEST_BASE_NAME := "urn:dev:ow:10e2073a0108006:"

  /** The base state in effect from the test pack's first record on. */
  const TEST_BASE := BaseState(Some(TEST_BASE_NAME), Some(1276020076.001), Some("A"),
                               None, None, Some(5))

  lemma {:induction false} TestPackState(i: nat)
    requires 1 <= i <= |TestPack()|
    ensures StateAfter(TestPack()[..i]) == TEST_BASE
  {
    var rs := TestPack();
    if i > 1 {
      TestPackState(i - 1);
      assert rs[..i][..i - 1] == rs[..i - 1];
    } else {
      assert rs[..i][..0] == [];
    }
  }

  /** The first record of the test pack resolves on its own. */
  lemma TestPackFirstResolves(now: int)
    ensures ResolveRecord(NO_BASE, TestPack()[0], now, RELATIVE_TIME_THRESHOLD).Ok?
  {
    var first := TestPack()[0];
    assert FullName(Absorb(NO_BASE, first), first) == "urn:dev:ow:10e2073a0108006:voltage";
    assert ValidName("urn:dev:ow:10e2073a0108006:voltage");
  }

  /** Every later record of the test pack resolves against the first's base
      attributes. */
  lemma TestPackLaterResolves(i: nat, now: int)
    requires 1 <= i < |TestPack()|
    ensures ResolveRecord(TEST_BASE, TestPack()[i], now, RELATIVE_TIME_THRESHOLD).Ok?
  {
    var rec := TestPack()[i];
    assert FullName(TEST_BASE, rec) == "urn:dev:ow:10e2073a0108006:current";
    assert ValidName("urn:dev:ow:10e2073a0108006:current");
  }

  /** The test pack resolves: `bver` 5 on the first record only is consistent
      with the records that declare none. */
  lemma TestPackResolves(now: int)
    ensures ResolvePack(TestPack(), now, RELATIVE_TIME_THRESHOLD).Ok?
    ensures |ResolvePack(TestPack(), now, RELATIVE_TIME_THRESHOLD).value| == 7
  {
    var rs := TestPack();
    forall i | 0 <= i < |rs|
      ensures ResolveRecord(StateAfter(rs[..i]), rs[i], now, RELATIVE_TIME_THRESHOLD).Ok?
    {
      if i > 0 {
        TestPackState(i);
        TestPackLaterResolves(i, now);
      } else {
        assert rs[..i] == [];
        TestPackFirstResolves(now);
      }
    }
    ResolvePackSteps(rs, now, RELATIVE_TIME_THRESHOLD);
  }

  /** In the resolved test pack every record carries the base name, unit and
      time of the first, its own unit overriding the base unit, and no version. */
  lemma TestPackInherits(now: int)
    ensures ResolvePack(TestPack(), now, RELATIVE_TIME_THRESHOLD).Ok?
    ensures var out := ResolvePack(TestPack(), now, RELATIVE_TIME_THRESHOLD).value;
            |out| == 7 &&
            out[0].name == Some(TEST_BASE_NAME + "voltage") &&
            out[0].unit == Some("V") && out[0].value == Some(120.1) &&
            out[0].version.None? &&
            out[1].name == Some(TEST_BASE_NAME + "current") &&
            out[1].unit == Some("A") && out[1].time == Some(1276020071.001) &&
            out[6].time == Some(1276020076.001)
  {
    var rs := TestPack();
    TestPackResolves(now);
    var out := ResolvePack(rs, now, RELATIVE_TIME_THRESHOLD).value;
    StepAt(rs, 0, now, RELATIVE_TIME_THRESHOLD);
    StepAt(rs, 1, now, RELATIVE_TIME_THRESHOLD);
    StepAt(rs, 6, now, RELATIVE_TIME_THRESHOLD);
    assert rs[..0] == [];
    TestPackState(1);
    TestPackState(6);
    RecordFields(NO_BASE, rs[0], now, RELATIVE_TIME_THRESHOLD);
    RecordFields(TEST_BASE, rs[1], now, RELATIVE_TIME_THRESHOLD);
    RecordFields(TEST_BASE, rs[6], now, RELATIVE_TIME_THRESHOLD);
  }
}
