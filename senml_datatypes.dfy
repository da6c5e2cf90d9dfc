/** The SenML record of RFC 8428 as the library decodes it: every attribute is
    optional, so every field is an `Option`. The `float64` attributes are
    modelled as `real` (no IEEE-754 rounding), the version as an unbounded `int`.
 */
module SenMLDatatypes {

  datatype Option<+T> = None | Some(value: T) {

    /** The carried value, or `default` when absent. */
    function GetOr(default: T): T {
      match this
      case Some(v) => v
      case None => default
    }
  }

  /** One record of a pack. Base attributes (`baseName` ... `version`) apply to
      this record and to every later record until redeclared; the regular
      attributes apply to this record only. */
  datatype Record = Record(
    // prepended to the names of this and later records ("bn")
    baseName: Option<string>,
    // added to the times of this and later records ("bt")
    baseTime: Option<real>,
    // the unit of this and later records that declare none ("bu")
    baseUnit: Option<string>,
    // added to the values of this and later records ("bv")
    baseValue: Option<real>,
    // added to the sums of this and later records ("bs")
    baseSum: Option<real>,
    // the media-type version of the pack ("bver"); absent means the default
    version: Option<int>,
    // "n": appended to the base name, the result names the resource
    name: Option<string>,
    // "u"
    unit: Option<string>,
    // "v", "vs", "vb", "vd": the value fields
    value: Option<real>,
    stringValue: Option<string>,
    boolValue: Option<bool>,
    dataValue: Option<string>,
    // "s": integrated sum of the values over time
    sum: Option<real>,
    // "t": time of the measurement
    time: Option<real>,
    // "ut": maximum time before an updated reading
    updateTime: Option<real>,
    // "l": additional information about the record
    link: Option<string>
  )

  /** The record with no attribute at all (Go's `SenMLRecord{}`). */
  const EMPTY_RECORD := Record(None, None, None, None, None, None, None, None,
                               None, None, None, None, None, None, None, None)

  /** A pack: the records in wire order. */
  datatype Message = Message(records: seq<Record>)

  /** At least one of v, vs, vb, vd or s is present. */
  predicate HasValueField(r: Record) {
    r.value.Some? || r.stringValue.Some? || r.boolValue.Some? ||
    r.dataValue.Some? || r.sum.Some?
  }

  /** The record declares no base attribute and no version. */
  predicate BaseFree(r: Record) {
    r.baseName.None? && r.baseTime.None? && r.baseUnit.None? &&
    r.baseValue.None? && r.baseSum.None? && r.version.None?
  }
}
