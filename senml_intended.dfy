/** Resolution as the library evidently intends it, beside the two places
    where the code does otherwise:

    - the relative-time threshold is 2**28 seconds (RFC 8428 section 4.5.3),
      where the code's `2^28` is the exclusive-or 30;
    - a pack whose version is not the default has that version stamped on
      every resolved record, where the code's stamping loop assigns to a
      per-iteration copy and leaves the records unchanged. */
module SenMLIntended {
  import opened SenMLDatatypes
  import opened SenML
  import opened SenMLProperties

  /** 2**28: times below it are relative to the current time. */
  const INTENDED_RELATIVE_TIME_THRESHOLD: real := 268435456.0

  /** Every record of `out` with its version set to `v`. */
  function StampVersion(out: seq<Record>, v: int): (r: seq<Record>)
    ensures |r| == |out|
    ensures forall i :: 0 <= i < |r| ==> r[i] == out[i].(version := Some(v))
  {
    if out == [] then [] else [out[0].(version := Some(v))] + StampVersion(out[1..], v)
  }

  /** The version a resolved pack carries: none when its version is the
      default, the pack's version otherwise. */
  function StampedVersion(rs: seq<Record>): Option<int> {
    var adopted := StateAfter(rs).version;
    if adopted.Some? && adopted.value != SENML_VERSION then adopted else None
  }

  /** The intended resolution: the as-written pass with the threshold 2**28,
      then the pack's version stamped when it is not the default. */
  function ResolveIntended(rs: seq<Record>, now: int): Result<seq<Record>> {
    match ResolvePack(rs, now, INTENDED_RELATIVE_TIME_THRESHOLD)
    case Err(e) => Err(e)
    case Ok(out) =>
      var adopted := StateAfter(rs).version;
      if adopted.Some? && adopted.value != SENML_VERSION then Ok(StampVersion(out, adopted.value))
      else Ok(out)
  }

  // ---------------------------------------------------------------------------
  // Version stamping

  /** As written: however the pack declares its version, no resolved record
      carries one. */
  lemma AsWrittenDropsVersion(rs: seq<Record>, now: int, threshold: real)
    requires ResolvePack(rs, now, threshold).Ok?
    ensures forall i :: 0 <= i < |ResolvePack(rs, now, threshold).value| ==>
              ResolvePack(rs, now, threshold).value[i].version.None?
  {
    ResolvePackSteps(rs, now, threshold);
  }

  /** As written, the test pack declares version 5 and resolves with no
      version on its first record. */
  lemma AsWrittenTestPackVersion(now: int)
    ensures StateAfter(TestPack()).version == Some(5)
    ensures ResolvePack(TestPack(), now, RELATIVE_TIME_THRESHOLD).Ok?
    ensures ResolvePack(TestPack(), now, RELATIVE_TIME_THRESHOLD).value[0].version.None?
  {
    TestPackState(7);
    assert TestPack()[..7] == TestPack();
    TestPackInherits(now);
  }

  /** Intended: a pack resolves exactly when the as-written pass does, to the
      same records, each carrying the pack's version when it is not the
      default, which is the first record's version (else 10). */
  lemma IntendedVersionStamped(rs: seq<Record>, now: int)
    ensures ResolveIntended(rs, now).Ok? <==> ResolvePack(rs, now, INTENDED_RELATIVE_TIME_THRESHOLD).Ok?
    ensures ResolveIntended(rs, now).Err? ==>
              ResolveIntended(rs, now) == ResolvePack(rs, now, INTENDED_RELATIVE_TIME_THRESHOLD)
    ensures ResolveIntended(rs, now).Ok? ==>
              var out := ResolvePack(rs, now, INTENDED_RELATIVE_TIME_THRESHOLD).value;
              |ResolveIntended(rs, now).value| == |rs| &&
              forall i :: 0 <= i < |rs| ==>
                ResolveIntended(rs, now).value[i] == out[i].(version := StampedVersion(rs))
    ensures rs != [] ==>
              StampedVersion(rs) ==
              if rs[0].version.GetOr(SENML_VERSION) == SENML_VERSION then None
              else rs[0].version
  {
    EffectiveVersion(rs);
    if ResolveIntended(rs, now).Ok? {
      var out := ResolvePack(rs, now, INTENDED_RELATIVE_TIME_THRESHOLD).value;
      AsWrittenDropsVersion(rs, now, INTENDED_RELATIVE_TIME_THRESHOLD);
      forall i | 0 <= i < |rs|
        ensures ResolveIntended(rs, now).value[i] == out[i].(version := StampedVersion(rs))
      {
        assert out[i].version.None?;
        assert out[i] == out[i].(version := None);
      }
    }
  }

  // ---------------------------------------------------------------------------
  // The relative-time threshold

  /** A single record `{"n":"x","t":100,"v":1}`. */
  const ONE_RELATIVE := [EMPTY_RECORD.(name := Some("x"), time := Some(100.0), value := Some(1.0))]

  /** As written, the time 100, which RFC 8428 reads as 100 seconds from now,
      is kept as 100 because it is not below 30; intended, it is made absolute. */
  lemma AsWrittenKeepsRelativeTime(now: int)
    ensures ResolvePack(ONE_RELATIVE, now, RELATIVE_TIME_THRESHOLD) ==
            Ok([EMPTY_RECORD.(name := Some("x"), time := Some(100.0), value := Some(1.0))])
    ensures ResolveIntended(ONE_RELATIVE, now) ==
            Ok([EMPTY_RECORD.(name := Some("x"), time := Some(100.0 + now as real), value := Some(1.0))])
  {
    var rec := ONE_RELATIVE[0];
    assert ONE_RELATIVE[..0] == [];
    assert Absorb(NO_BASE, rec) == NO_BASE.(version := Some(SENML_VERSION));
    assert FullName(Absorb(NO_BASE, rec), rec) == "x";
    assert ValidName("x");
    var kept := EMPTY_RECORD.(name := Some("x"), time := Some(100.0), value := Some(1.0));
    var made := kept.(time := Some(100.0 + now as real));
    assert ResolveRecord(NO_BASE, rec, now, RELATIVE_TIME_THRESHOLD) == Ok(kept);
    assert ResolveRecord(NO_BASE, rec, now, INTENDED_RELATIVE_TIME_THRESHOLD) == Ok(made);
    assert [] + [kept] == [kept] && [] + [made] == [made];
    assert StateAfter(ONE_RELATIVE) == Absorb(NO_BASE, rec);
    assert ResolvePack(ONE_RELATIVE, now, INTENDED_RELATIVE_TIME_THRESHOLD) == Ok([made]);
  }

  /** Intended: once the clock is past 2**29 seconds (in 1987), every
      resolved time that lies at most 2**28 seconds before now or is already
      absolute comes out absolute, at or above 2**28. */
  lemma IntendedTimeIsAbsolute(rs: seq<Record>, now: int, i: nat)
    requires now >= 536870912
    requires ResolvePack(rs, now, INTENDED_RELATIVE_TIME_THRESHOLD).Ok? && i < |rs|
    requires var base := Absorb(StateAfter(rs[..i]), rs[i]);
             base.time.GetOr(0.0) + rs[i].time.GetOr(0.0) >= -INTENDED_RELATIVE_TIME_THRESHOLD
    ensures ResolvePack(rs, now, INTENDED_RELATIVE_TIME_THRESHOLD).value[i].time.Some? ==>
              ResolvePack(rs, now, INTENDED_RELATIVE_TIME_THRESHOLD).value[i].time.value >=
              INTENDED_RELATIVE_TIME_THRESHOLD
  {
    StepAt(rs, i, now, INTENDED_RELATIVE_TIME_THRESHOLD);
    RecordFields(StateAfter(rs[..i]), rs[i], now, INTENDED_RELATIVE_TIME_THRESHOLD);
  }
}
