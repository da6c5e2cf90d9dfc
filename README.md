# go-senml resolution, modelled in Dafny

go-senml decodes and encodes SenML packs (RFC 8428) and resolves them.
Resolution is one left-to-right pass over the records of a pack. The pass
keeps the base attributes in effect (base name, base time, base unit, base
value, base sum and the pack's version). For each record it:

- checks the record's version;
- builds the full name (base name followed by the record's own name) and
  checks it against the SenML name grammar;
- computes the unit, value, sum and time, making the time absolute when it
  is below a threshold;
- rejects the record when it is left with no value.

The first failing record ends the pass with its error.

The project has five modules:

- `SenMLDatatypes` (`senml_datatypes.dfy`) holds the record, with every
  attribute an `Option`, and the message.
- `SenML` (`senml.dfy`) holds the resolution rules:
  - the specification `ResolvePack`, a left fold of `ResolveRecord` over
    the records, with `StateAfter` as the base state after a prefix;
  - the library's `Resolve` method, written as the library writes it (a loop
    over the records, with the base attributes in locals), proved to compute
    exactly `ResolvePack`. Its field-by-field construction of each resolved
    record (unit, value, sum, time and the copied values) is the method
    `BuildRecord`, which `Resolve` calls; it is proved equal to `Merge`.
- `SenMLProperties` (`senml_properties.dfy`) proves what resolution promises:
  - record-by-record resolution and the first error;
  - last-write-wins base attributes that reach forward only;
  - one version per pack;
  - the meaning of each resolved field;
  - idempotence;
  - the library's own test pack.
- `SenMLIntended` (`senml_intended.dfy`) holds the two findings below, each
  as written and as intended.
- `SenMLExamples` (`senml_examples.dfy`) holds small packs that show one rule
  each.

Modelling choices:

- The `float64` attributes are `real`.
- The wall clock is the parameter `now`: whole seconds since the epoch, as
  `time.Now().Unix()` gives them.
- The messages of the Go errors become the constructors of `Error`.
- The pure specification takes the relative-time threshold as a parameter.
  `Resolve` fixes it to 30, the value the code computes.

The lemmas `SenML.Step` and `SenML.ResolveRecordCases` are proof helpers
for `Resolve`'s loop. `Step` unfolds `ResolvePack` and `StateAfter` by one
record. `ResolveRecordCases` lists `ResolveRecord`'s three exits. Neither
states anything beyond those definitions.

The library's code and its record type disagree on one name. `Resolve`
reads and writes `record.BaseVersion` (senml.go:81-87 and senml.go:233), but `SenMLRecord` declares
the field as `Version` (senml_datatypes.go:56). The model has one field,
`version`, and the code's reads and writes all refer to it.

## Model

| member | source | states |
|---|---|---|
| SenML.AllNameChars | senml.go:124-125 | true exactly when every character of the name is in `[A-Za-z0-9-:./_]` |
| SenML.CheckName | senml.go:113-133 | the three name checks in the library's order. No error iff the name is non-empty, uses only name characters and starts with a letter or digit. EmptyName iff the name is empty. InvalidNameCharacters iff some character is outside the set. InvalidNameStart iff the only fault is the first character. |
| SenML.CheckVersion | senml.go:81-94 | a record passes iff it declares no version, or declares one of at most 10 that equals the adopted version (or none is adopted yet). Above 10 gives UnsupportedVersion with the version read. Any other failure is InconsistentVersion. |
| SenML.AdoptVersion | senml.go:81-94 | no contract of its own: keeps the version adopted so far, else takes the record's, else the default 10; SenMLProperties.EffectiveVersion states it over a pack |
| SenML.Absorb | senml.go:81-109 | no contract of its own: a declared base attribute replaces its slot and an absent one keeps it; SenMLProperties.LastWriteWins, SenMLProperties.NeverDeclared and SenMLProperties.EffectiveVersion state it |
| SenML.StateAfter | senml.go:56-109 | no contract of its own: the base locals after a prefix of the pack; `Resolve`'s loop invariant ties the locals to it, and SenMLProperties.LastWriteWins, SenMLProperties.NeverDeclared and SenMLProperties.BaseFreeState state it |
| SenML.FullName | senml.go:113-119 | no contract of its own: the base name followed by the record's name, either absent counting as empty; SenMLProperties.RecordFields and SenMLExamples.InheritedName state it |
| SenML.Accumulate | senml.go:146-157 | no contract of its own: base plus own, present iff either is (lines 146-157 for the value, 180-191 for the sum); SenMLProperties.RecordFields, SenMLExamples.AdditiveValue and SenMLExamples.BaseOnlyValues state it |
| SenML.ResolveTime | senml.go:193-209 | no contract of its own: base plus own time, shifted by now below the threshold; SenMLProperties.RecordFields, SenMLExamples.TimeBoundary and SenMLIntended.IntendedTimeIsAbsolute state it |
| SenML.Merge | senml.go:134-216 | no contract of its own: the record built from a record and the base state, before the value check (line 70 starts it empty); SenMLProperties.RecordFields states every field |
| SenML.ResolveRecord | senml.go:70-225 | a record resolves iff its version passes, the base name followed by its name is a valid name, and it has a value field or a base value or base sum is in effect. A resolved record has exactly that name, no base attribute, no version, no link, and some value. |
| SenML.ResolvePack | senml.go:69-226 | a pack that resolves has as many records as its input |
| SenML.ErrorPersists | senml.go:69-226 | once a prefix of the pack fails, the whole pack fails with the same error (the pass returns at the first error, at any of the exits at lines 83, 88, 121, 126, 131 and 221) |
| SenML.BuildRecord | senml.go:136-216 | the library's field-by-field construction of a resolved record (own unit else base unit; value, sum and time starting from 0, taking the base and adding the record's own, set when either is present; a time below 30 made absolute; vb, vs, vd and ut copied) is exactly `Merge` at threshold 30 |
| SenML.Resolve | senml.go:53-240 | the loop returns Ok exactly when `ResolvePack` does (threshold 30), with the same records in the same order, and otherwise the same first error |
| SenMLProperties.PrefixResolves | senml.go:69-226 | every prefix of a resolving pack resolves, to the matching prefix of the output |
| SenMLProperties.StepAt | senml.go:69-225 | output record i is input record i resolved against the base state left by records 0..i-1 |
| SenMLProperties.StepsResolve | senml.go:69-226 | a pack whose every record resolves against the state before it resolves |
| SenMLProperties.ResolvePackSteps | senml.go:69-226 | a pack resolves iff every record resolves against the state before it. The output then has the same length and order, and record i is record i resolved. |
| SenMLProperties.FirstError | senml.go:81-223 | a failing pack fails with the error of its first failing record; every record before it resolves |
| SenMLProperties.ForwardOnly | senml.go:95-109 | records after a prefix never change how the prefix resolves |
| SenMLProperties.ResolvePair | senml.go:69-226 | a two-record pack resolves its second record against the state the first leaves |
| SenMLProperties.LastWriteWins | senml.go:95-109 | each base slot (name, time, unit, value, sum) holds the latest declaration among the records read |
| SenMLProperties.NeverDeclared | senml.go:56-60 | a base slot that no record read so far declares is absent |
| SenMLProperties.EffectiveVersion | senml.go:81-94 | the pack's version is fixed by the first record: its own, or 10 when it declares none, so the default is adopted at once |
| SenMLProperties.VersionAgreement | senml.go:81-90 | in a resolving pack every declared version is at most 10 and equals the first record's version, or 10 |
| SenMLProperties.VersionViolation | senml.go:82-89 | a too-high or differing version makes the pack fail. When all records before it resolve, the error is UnsupportedVersion(v) or InconsistentVersion. |
| SenMLProperties.RecordFields | senml.go:113-216 | each resolved field, in terms of the record and the base state:<br>- name is base name followed by own name, and valid;<br>- unit is own, else base;<br>- value and sum are base plus own, present iff either is;<br>- time is base plus own, made absolute below the threshold;<br>- vb, vs, vd and ut are copied;<br>- no base attribute, version or link. |
| SenMLProperties.MissingValueExactly | senml.go:218-223 | once version and name pass, a record fails with MissingValue iff it has no v, vs, vb, vd or s and no base value or base sum is in effect |
| SenMLProperties.BaseFreeState | senml.go:81-109 | reading records with no base attributes leaves every base slot empty; only the version becomes 10 |
| SenMLProperties.ResolvedRecordIsFixed | senml.go:70-225 | a resolved record with an absolute time resolves to itself |
| SenMLProperties.ResolvedIsFixpoint | senml.go:69-226 | a pack of resolved records with absolute times resolves to itself |
| SenMLProperties.Idempotent | senml.go:53-240 | resolving the output of a resolution again gives the same records, when its times are absolute |
| SenMLProperties.TestPackState | senml_test.go:13-23 | after the first record of the test pack the base state is the first record's bn, bt, bu and bver 5, and later records keep it |
| SenMLProperties.TestPackFirstResolves | senml_test.go:14-16 | the first test record resolves on its own (its full name `urn:dev:ow:10e2073a0108006:voltage` is valid) |
| SenMLProperties.TestPackLaterResolves | senml_test.go:17-22 | each later test record resolves against the first's base attributes |
| SenMLProperties.TestPackResolves | senml_test.go:13-35 | the test pack resolves without error, to seven records |
| SenMLProperties.TestPackInherits | senml_test.go:13-35 | in the resolved test pack:<br>- record 0 is `...:voltage` in V with value 120.1 and no version;<br>- record 1 is `...:current` in the base unit A at time 1276020071.001;<br>- record 6 is at the base time. |
| SenMLIntended.StampVersion | senml.go:230-235 | stamping keeps the length and sets the version of every record, changing nothing else |
| SenMLIntended.StampedVersion | senml.go:228-235 | no contract of its own: the version the stamping loop means to set, the pack's adopted version when it is not 10 and none otherwise; SenMLIntended.IntendedVersionStamped states it, and ties it to the first record's version |
| SenMLIntended.ResolveIntended | senml.go:53-240 | no contract of its own: the pass at threshold 2**28, then the pack's version stamped on every record when it is not 10; SenMLIntended.IntendedVersionStamped and SenMLIntended.AsWrittenKeepsRelativeTime state it |
| SenMLIntended.AsWrittenDropsVersion | senml.go:228-235 | as written, no record of a resolved pack carries a version, whatever the pack declares |
| SenMLIntended.AsWrittenTestPackVersion | senml_test.go:13-35 | as written, the test pack's version is 5, yet its first resolved record has no version |
| SenMLIntended.IntendedVersionStamped | senml.go:228-235 | intended resolution succeeds or fails exactly as the pass does. On success it returns the same records, each carrying the pack's version (the first record's) when that is not 10, and none otherwise. |
| SenMLIntended.AsWrittenKeepsRelativeTime | senml.go:203 | as written, `{"n":"x","t":100,"v":1}` keeps time 100; intended, it resolves to now + 100 |
| SenMLIntended.IntendedTimeIsAbsolute | senml.go:193-209 | with threshold 2**28 and a clock past 2**29, every resolved time whose base plus own time is at least -2**28 comes out absolute (at least 2**28) |
| SenMLExamples.NameErrors | senml.go:120-133 | `""` is EmptyName, `"test("` is InvalidNameCharacters, `"-test"` is InvalidNameStart, `"test"` is valid |
| SenMLExamples.NameErrorsInPacks | senml.go:113-133 | a record with neither base name nor name fails with EmptyName; one named `-test` fails with InvalidNameStart |
| SenMLExamples.InheritedName | senml.go:113-119 | `[{bn:"A",v:1},{v:2}]` resolves to the names A and A |
| SenMLExamples.AdditiveValue | senml.go:146-157 | `[{bv:1,bn:"x",v:0},{v:2}]` resolves to the values 1 and 3 |
| SenMLExamples.UnitOverride | senml.go:136-144 | `[{bu:"C",bn:"x",v:0},{u:"F",v:1}]` resolves to the units C and F |
| SenMLExamples.BaseOnlyValues | senml.go:180-223 | a base sum of 0 alone gives the sum 0 and no value; a record with a name but no value fails with MissingValue |
| SenMLExamples.TimeBoundary | senml.go:193-209 | a time at the threshold is kept and one second below it becomes relative to now, both for 30 and for 2**28 |
| SenMLExamples.VersionFive | senml.go:228-235 | a pack with version 5 on every record resolves. As written (threshold 30, and 2**28 too) neither output record has a version; intended, both output records have 5. |
| SenMLExamples.MixedVersions | senml.go:81-90 | versions 5 then 6 fail with InconsistentVersion; version 11 fails with UnsupportedVersion(11) |

## Left out

- `Decode` and `Encode` (senml.go:29-50), the JSON and XML struct tags and the XML plumbing (`XmlName` and `Xmlns`, which `Resolve` copies across at senml.go:63-67 and senml.go:74-77) are not modelled. They are serialisation, not resolution.
- The wall clock (senml.go:54) is the parameter `now`.
- IEEE-754 rounding is not modelled: the `float64` attributes and sums are exact `real`s.
- The regular expressions (senml.go:124 and senml.go:129) are written out as character predicates, not run by a regexp engine.
- On an error the Go method also returns the records resolved so far. The model returns the error alone.
- Sorting the records by time is not modelled: the code leaves it as a TODO (senml.go:237) and does not sort.
- senml_test.go's encoding steps and its XML test are not modelled; the test pack's resolution is (`TestPack*`).
- RFC 8428 reads the relative-time threshold as 2**28, and the TODO at senml.go:237 asks for chronological order. The model follows the code: threshold 30 and no sort. The corrected threshold is in `SenMLIntended`.
- SenMLProperties.Idempotent: requires every resolved time to be at or above the threshold. A relative time read again would be shifted by `now` a second time.

## Findings

| source | as written | input that shows it | evidently intended | confidence | as-written member | corrected member |
|---|---|---|---|---|---|---|
| senml.go:203 | `resolvedTime < 2^28` compares against 2 XOR 28, which is 30 | `[{"n":"x","t":100,"v":1}]` resolves to time 100, not now + 100 | the threshold 2**28 = 268435456 of RFC 8428 section 4.5.3 | high; not executed | SenMLIntended.AsWrittenKeepsRelativeTime | SenMLIntended.IntendedTimeIsAbsolute |
| senml.go:230-235 | the stamping loop assigns the version to the range loop's copy of each record, so the output is unchanged | the test pack with `bver` 5 resolves with no version on any record | every resolved record carries the pack's non-default version | high; not executed | SenMLIntended.AsWrittenDropsVersion | SenMLIntended.IntendedVersionStamped |
