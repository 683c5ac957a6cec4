/**
 * RMC, the "recommended minimum specific GNSS data" sentence of IEC 61162-1
 * (NMEA 0183): its field layout, the protocol-revision gating of its trailing
 * fields, the decoder that fills an S666 session from a split field array, and
 * the encoder that turns a session back into the sentence's field list.
 *
 * Field 0 of the array is the address (talker and message id); fields 1 to 13
 * are the sentence fields below. The S666 session is a record of slot maps; the
 * helpers whose bodies are outside this model (numeric parser, enumeration
 * tables, date-time merging, position builder, token writers, framing) are
 * parameters.
 */
module RmcSentence {
  import opened Wrappers
  import opened Decimals
  import opened Measures
  import opened FieldHandler

  const MSG_ID: string := "RMC"

  const I_UTC_TIME: nat := 1
  const I_STATUS: nat := 2
  const I_LATITUDE: nat := 3
  const I_LATITUDE_REFERENCE: nat := 4
  const I_LONGITUDE: nat := 5
  const I_LONGITUDE_REFERENCE: nat := 6
  const I_SOG: nat := 7
  const I_TRACK_MADE_GOOD: nat := 8
  const I_DATE: nat := 9
  const I_MAGNETIC_VARIATION: nat := 10
  const I_MAGNETIC_VARIATION_REFERENCE: nat := 11
  const I_FAA_MODE_INDICATOR: nat := 12
  const I_NAV_STATUS: nat := 13

  // Slots of the S666 types the sentence fills (`Angle`, `Speed`, the code types).
  const MAGNITUDE: Slot := "magnitude"
  const INVALID_MAGNITUDE: Slot := "invalidMagnitude"
  const REFERENCE: Slot := "reference"
  const INVALID_REFERENCE: Slot := "invalidReference"
  const VALUE: Slot := "value"
  const INVALID_VALUE: Slot := "invalidValue"

  /**
   * `getLastFieldIndex`: the index of the last field in each supported revision
   * of the sentence: 11 before NMEA 2.3, 12 (FAA mode) from 2.3, 13 (navigational
   * status) from 4.1.
   */
  function LastFieldIndex(): (r: set<nat>)
    ensures |r| == 3
    ensures I_MAGNETIC_VARIATION_REFERENCE in r && I_NAV_STATUS in r
    ensures forall k :: k in r ==> I_MAGNETIC_VARIATION_REFERENCE <= k <= I_NAV_STATUS
  {
    {I_MAGNETIC_VARIATION_REFERENCE, I_FAA_MODE_INDICATOR, I_NAV_STATUS}
  }

  /** The runtime exceptions decode and encode can end in. */
  datatype SentenceError =
    | FieldIndexOutOfBounds(index: nat)  // ArrayIndexOutOfBoundsException on `fields[index]`
    | NullMagnitude                       // NullPointerException: "W" with an unparseable magnitude
    | InvalidCast                         // ClassCastException: valid-class magnetic variation without magnitude
    | RemoveFromEmpty                     // IndexOutOfBoundsException: `remove(-1)` on an empty content list

  // ---------------------------------------------------------------------------
  // The S666 session
  // ---------------------------------------------------------------------------

  /** `VesselDynamicCharacteristic`: each slot may be absent (Java `null`). */
  datatype Dynamics = Dynamics(
    speedOverGround: Option<Measure<Decimal>>,
    track: Option<Measure<Decimal>>,
    magneticVariation: Option<Measure<Decimal>>)

  /** The `Vessel` feature: its pose and its dynamic characteristics. */
  datatype Vessel = Vessel(pose: Option<Measure<Decimal>>, dynamics: Option<Dynamics>)

  /** What an S666 session holds that RMC reads or writes. */
  datatype Session = Session(
    dateTime: Option<Measure<string>>,
    validStatus: Option<Measure<bool>>,
    positioningSystemMode: Option<Measure<string>>,
    navigationalStatus: Option<Measure<string>>,
    vessel: Option<Vessel>)

  /** The S666 container that decode fills in place; adding an item of a kind replaces the previous one. */
  class S666 {
    var dateTime: Option<Measure<string>>
    var validStatus: Option<Measure<bool>>
    var positioningSystemMode: Option<Measure<string>>
    var navigationalStatus: Option<Measure<string>>
    var vessel: Option<Vessel>

    function State(): (s: Session)
      reads this
      ensures s.vessel == vessel
    {
      Session(dateTime, validStatus, positioningSystemMode, navigationalStatus, vessel)
    }

    constructor ()
      ensures State() == Session(None, None, None, None, None)
    {
      dateTime, validStatus, positioningSystemMode, navigationalStatus, vessel := None, None, None, None, None;
    }
  }

  // ---------------------------------------------------------------------------
  // Decoding
  // ---------------------------------------------------------------------------

  /** The collaborators decode calls but whose bodies are outside this model. */
  datatype DecodeHelpers = DecodeHelpers(
    toDecimal: string -> Option<Decimal>,                                   // DecoderUtils::toDecimal
    dateTime: (string, string) -> Measure<string>,                          // N0183DateTimeBuilder: date field, time field
    position: (string, string, string, string) -> Option<Measure<Decimal>>, // makePositionWithLatLong, then makePose(..).get(), assumed to succeed
    mapBoolean: string -> Option<bool>,                                     // status letter
    mapFaaMode: string -> Option<string>,                                   // FAA mode letter
    mapNavStatus: string -> Option<string>,                                 // navigational status letter
    decimalText: Decimal -> string,                                         // String.valueOf(BigDecimal)
    minuteToDegree: Decimal)                                                // UnitConversions.MINUTE_TO_DEGREE

  /** A magnitude field (speed or angle) bound to the magnitude slots. */
  function MagnitudeBinding(field: string, toDecimal: string -> Option<Decimal>): Binding<Decimal>
  {
    Binding(Some(field), toDecimal, MAGNITUDE, INVALID_MAGNITUDE)
  }

  /** A code field bound to the value slots of a code type. */
  function CodeBinding<V>(field: string, mapper: string -> Option<V>): Binding<V>
  {
    Binding(Some(field), mapper, VALUE, INVALID_VALUE)
  }

  /**
   * The reference letter of a magnetic variation that is neither "E" nor "W",
   * bound as a further field of the angle whose parser (`ref -> Optional.empty()`)
   * never succeeds, so its raw text always goes to the invalid reference slot.
   */
  function ReferenceBinding(reference: string): Binding<Decimal>
  {
    Binding(Some(reference), _ => None, REFERENCE, INVALID_REFERENCE)
  }

  /** The magnetic variation decode stores, from its magnitude and reference fields. */
  function MagneticVariation(magnitude: string, reference: string, h: DecodeHelpers): Result<Measure<Decimal>, SentenceError>
  {
    if reference == "E" || reference == "W" then
      var angle := Bind(Measurable, [MagnitudeBinding(magnitude, h.toDecimal)]);
      if reference == "W" then
        if MAGNITUDE in angle.values then Ok(ApplyWrite(angle, WriteValue(MAGNITUDE, Negate(angle.values[MAGNITUDE]))))
        else Err(NullMagnitude)
      else Ok(angle)
    else
      Ok(Bind(Measurable, [MagnitudeBinding(magnitude, h.toDecimal), ReferenceBinding(reference)]))
  }

  /** Decode sign rule, "E": the magnitude is kept as it is, or its raw text when it does not parse. */
  lemma {:induction false} EastVariation(magnitude: string, h: DecodeHelpers)
    ensures MagneticVariation(magnitude, "E", h).Ok?
    ensures var m, p := MagneticVariation(magnitude, "E", h).value, h.toDecimal(magnitude);
      (m.valid <==> p.Some?)
      && (p.Some? ==> m.values == map[MAGNITUDE := p.value] && m.texts == map[])
      && (p.None? ==> m.values == map[] && m.texts == map[INVALID_MAGNITUDE := magnitude])
  {
    BindSingle(Measurable, MagnitudeBinding(magnitude, h.toDecimal));
  }

  /** Decode sign rule, "W": the magnitude is negated; an unparseable one is fatal. */
  lemma {:induction false} WestVariation(magnitude: string, h: DecodeHelpers)
    ensures var r, p := MagneticVariation(magnitude, "W", h), h.toDecimal(magnitude);
      (r.Err? <==> p.None?)
      && (r.Err? ==> r.error == NullMagnitude)
      && (r.Ok? ==> r.value.valid && r.value.values == map[MAGNITUDE := Negate(p.value)] && r.value.texts == map[])
  {
    BindSingle(Measurable, MagnitudeBinding(magnitude, h.toDecimal));
  }

  /**
   * Decode sign rule, any other reference: always an invalid angle that keeps the
   * reference's raw text; the magnitude is stored unsigned in its valid slot when
   * it parses, and as raw text otherwise.
   */
  lemma {:induction false} OtherReferenceVariation(magnitude: string, reference: string, h: DecodeHelpers)
    requires reference != "E" && reference != "W"
    ensures MagneticVariation(magnitude, reference, h).Ok?
    ensures var m, p := MagneticVariation(magnitude, reference, h).value, h.toDecimal(magnitude);
      && !m.valid
      && (p.Some? ==> m.values == map[MAGNITUDE := p.value] && m.texts == map[INVALID_REFERENCE := reference])
      && (p.None? ==> m.values == map[] && m.texts == map[INVALID_MAGNITUDE := magnitude, INVALID_REFERENCE := reference])
  {
    var b0, b1 := MagnitudeBinding(magnitude, h.toDecimal), ReferenceBinding(reference);
    BindingWritesOfTwo(b0, b1);
    ApplyTwo(Empty(Measurable, AllParse([b0, b1])), BindingWrite(b0), BindingWrite(b1));
  }

  lemma {:induction false} VariationRule(magnitude: string, reference: string, h: DecodeHelpers)
    ensures reference == "E" ==> MagneticVariation(magnitude, reference, h).Ok?
    ensures reference == "W" ==> (MagneticVariation(magnitude, reference, h).Err? <==> h.toDecimal(magnitude).None?)
    ensures reference != "E" && reference != "W" ==> MagneticVariation(magnitude, reference, h).Ok?
  {
    if reference == "E" {
      EastVariation(magnitude, h);
    } else if reference == "W" {
      WestVariation(magnitude, h);
    } else {
      OtherReferenceVariation(magnitude, reference, h);
    }
  }

  /** The new session decode leaves behind, and how it ends. */
  function Decoded(st: Session, fields: seq<string>, h: DecodeHelpers): (Outcome<SentenceError>, Session)
  {
    if |fields| <= I_SOG then (Fail(FieldIndexOutOfBounds(I_SOG)), st)
    else if |fields| <= I_TRACK_MADE_GOOD then (Fail(FieldIndexOutOfBounds(I_TRACK_MADE_GOOD)), st)
    else if |fields| <= I_DATE then (Fail(FieldIndexOutOfBounds(I_DATE)), st)
    else
      var dated := st.(dateTime := Some(h.dateTime(fields[I_DATE], fields[I_UTC_TIME])));
      if |fields| <= I_MAGNETIC_VARIATION_REFERENCE then (Fail(FieldIndexOutOfBounds(I_MAGNETIC_VARIATION_REFERENCE)), dated)
      else match MagneticVariation(fields[I_MAGNETIC_VARIATION], fields[I_MAGNETIC_VARIATION_REFERENCE], h)
        case Err(e) => (Fail(e), dated)
        case Ok(mv) => (Pass, Completed(dated, fields, h, mv))
  }

  /** The session after a decode that gets past the magnetic variation: the gated codes, the status and the vessel. */
  function Completed(dated: Session, fields: seq<string>, h: DecodeHelpers, mv: Measure<Decimal>): Session
    requires |fields| > I_MAGNETIC_VARIATION_REFERENCE
  {
    var withMode := if |fields| - 1 > I_FAA_MODE_INDICATOR
      then dated.(positioningSystemMode := Some(Bind(Unmeasurable, [CodeBinding(fields[I_FAA_MODE_INDICATOR], h.mapFaaMode)])))
      else dated;
    var withStatus := if |fields| - 1 > I_NAV_STATUS
      then withMode.(navigationalStatus := Some(Bind(Unmeasurable, [CodeBinding(fields[I_NAV_STATUS], h.mapNavStatus)])))
      else withMode;
    var dynamics := Dynamics(
      Some(Bind(Measurable, [MagnitudeBinding(fields[I_SOG], h.toDecimal)])),
      Some(Bind(Measurable, [MagnitudeBinding(fields[I_TRACK_MADE_GOOD], h.toDecimal)])),
      Some(mv));
    var pose := h.position(fields[I_LATITUDE], fields[I_LATITUDE_REFERENCE], fields[I_LONGITUDE], fields[I_LONGITUDE_REFERENCE]);
    withStatus.(validStatus := Some(Bind(Measurable, [CodeBinding(fields[I_STATUS], h.mapBoolean)])),
                vessel := Some(Vessel(pose, Some(dynamics))))
  }

  /** `decode`: fills the session from a split RMC field array. */
  method Decode(s666: S666, fields: seq<string>, h: DecodeHelpers) returns (outcome: Outcome<SentenceError>)
    modifies s666
    ensures (outcome, s666.State()) == Decoded(old(s666.State()), fields, h)
  {
    if |fields| <= I_SOG {
      return Fail(FieldIndexOutOfBounds(I_SOG));
    }
    var sog := MakeMeasure(MagnitudeBinding(fields[I_SOG], h.toDecimal));
    var speed := sog.Value();
    if |fields| <= I_TRACK_MADE_GOOD {
      return Fail(FieldIndexOutOfBounds(I_TRACK_MADE_GOOD));
    }
    var track := MakeMeasure(MagnitudeBinding(fields[I_TRACK_MADE_GOOD], h.toDecimal));
    var course := track.Value();
    if |fields| <= I_DATE {
      return Fail(FieldIndexOutOfBounds(I_DATE));
    }
    ghost var dated := s666.State().(dateTime := Some(h.dateTime(fields[I_DATE], fields[I_UTC_TIME])));
    s666.dateTime := Some(h.dateTime(fields[I_DATE], fields[I_UTC_TIME]));
    assert s666.State() == dated;
    var pose := h.position(fields[I_LATITUDE], fields[I_LATITUDE_REFERENCE], fields[I_LONGITUDE], fields[I_LONGITUDE_REFERENCE]);
    if |fields| <= I_MAGNETIC_VARIATION_REFERENCE {
      return Fail(FieldIndexOutOfBounds(I_MAGNETIC_VARIATION_REFERENCE));
    }
    var variation := DecodeVariation(fields[I_MAGNETIC_VARIATION], fields[I_MAGNETIC_VARIATION_REFERENCE], h);
    if variation.Err? {
      return Fail(variation.error);
    }
    Complete(s666, fields, h, speed, course, pose, variation.value);
    outcome := Pass;
  }

  /** The rest of `decode` once the magnetic variation is known: the revision-gated codes, the status and the vessel. */
  method Complete(s666: S666, fields: seq<string>, h: DecodeHelpers,
                  speed: Measure<Decimal>, course: Measure<Decimal>, pose: Option<Measure<Decimal>>, mv: Measure<Decimal>)
    requires |fields| > I_MAGNETIC_VARIATION_REFERENCE
    requires speed == Bind(Measurable, [MagnitudeBinding(fields[I_SOG], h.toDecimal)])
    requires course == Bind(Measurable, [MagnitudeBinding(fields[I_TRACK_MADE_GOOD], h.toDecimal)])
    requires pose == h.position(fields[I_LATITUDE], fields[I_LATITUDE_REFERENCE], fields[I_LONGITUDE], fields[I_LONGITUDE_REFERENCE])
    modifies s666
    ensures s666.State() == Completed(old(s666.State()), fields, h, mv)
  {
    ghost var withMode := if |fields| - 1 > I_FAA_MODE_INDICATOR
      then old(s666.State()).(positioningSystemMode := Some(Bind(Unmeasurable, [CodeBinding(fields[I_FAA_MODE_INDICATOR], h.mapFaaMode)])))
      else old(s666.State());
    if |fields| - 1 > I_FAA_MODE_INDICATOR {
      var mode := MakeUnmeasure(CodeBinding(fields[I_FAA_MODE_INDICATOR], h.mapFaaMode));
      s666.positioningSystemMode := Some(mode.Value());
    }
    assert s666.State() == withMode;
    ghost var withStatus := if |fields| - 1 > I_NAV_STATUS
      then withMode.(navigationalStatus := Some(Bind(Unmeasurable, [CodeBinding(fields[I_NAV_STATUS], h.mapNavStatus)])))
      else withMode;
    if |fields| - 1 > I_NAV_STATUS {
      var status := MakeUnmeasure(CodeBinding(fields[I_NAV_STATUS], h.mapNavStatus));
      s666.navigationalStatus := Some(status.Value());
    }
    assert s666.State() == withStatus;
    var valid := MakeMeasure(CodeBinding(fields[I_STATUS], h.mapBoolean));
    s666.validStatus := Some(valid.Value());
    var dynamics := Dynamics(Some(speed), Some(course), Some(mv));
    s666.vessel := Some(Vessel(pose, Some(dynamics)));
  }

  /** The magnetic-variation part of `decode`, on fresh measure objects. */
  method DecodeVariation(magnitude: string, reference: string, h: DecodeHelpers) returns (r: Result<Measure<Decimal>, SentenceError>)
    ensures r == MagneticVariation(magnitude, reference, h)
  {
    if reference == "E" || reference == "W" {
      var angle := MakeMeasure(MagnitudeBinding(magnitude, h.toDecimal));
      if reference == "W" {
        if MAGNITUDE !in angle.values {
          return Err(NullMagnitude);
        }
        angle.Accept(WriteValue(MAGNITUDE, Negate(angle.values[MAGNITUDE])));
      }
      r := Ok(angle.Value());
    } else {
      var angle := MakeMeasureOfTwo(MagnitudeBinding(magnitude, h.toDecimal), ReferenceBinding(reference));
      r := Ok(angle.Value());
    }
  }

  /**
   * Field bounds: decode fails on a short array exactly when it has fewer than
   * twelve elements, naming the first of the indices it reads in turn (7, 8, 9,
   * then 11) that is out of range, and by then it has written nothing but (from
   * ten elements on) the date-time. The only other failure is "W" with an
   * unparseable magnitude.
   */
  lemma {:induction false} DecodeBounds(st: Session, fields: seq<string>, h: DecodeHelpers)
    ensures var (outcome, after) := Decoded(st, fields, h);
      && (outcome.Fail? && outcome.error.FieldIndexOutOfBounds? <==> |fields| <= I_MAGNETIC_VARIATION_REFERENCE)
      && (outcome.Fail? && outcome.error.FieldIndexOutOfBounds? ==>
            && |fields| <= outcome.error.index
            && (|fields| <= I_DATE ==> outcome.error.index == if |fields| < I_SOG then I_SOG else |fields|)
            && (|fields| > I_DATE ==> outcome.error.index == I_MAGNETIC_VARIATION_REFERENCE)
            && after.(dateTime := st.dateTime) == st
            && (after.dateTime != st.dateTime ==> |fields| > I_DATE))
      && (outcome.Fail? && outcome.error == NullMagnitude <==>
            |fields| > I_MAGNETIC_VARIATION_REFERENCE && fields[I_MAGNETIC_VARIATION_REFERENCE] == "W"
            && h.toDecimal(fields[I_MAGNETIC_VARIATION]).None?)
      && (outcome.Fail? ==> outcome.error.FieldIndexOutOfBounds? || outcome.error == NullMagnitude)
  {
    if |fields| > I_MAGNETIC_VARIATION_REFERENCE {
      VariationRule(fields[I_MAGNETIC_VARIATION], fields[I_MAGNETIC_VARIATION_REFERENCE], h);
    }
  }

  /**
   * Revision gating: for an array that holds the address, the fields of one
   * supported revision and one trailing element, decode never reads out of
   * range and takes the FAA mode and the navigational status exactly when that
   * revision has them.
   */
  lemma {:induction false} RevisionGates(st: Session, fields: seq<string>, h: DecodeHelpers, k: nat)
    requires k in LastFieldIndex() && |fields| == k + 2
    ensures var (outcome, after) := Decoded(st, fields, h);
      && (outcome.Fail? ==> outcome.error == NullMagnitude)
      && (outcome.Pass? ==>
            && (k < I_FAA_MODE_INDICATOR ==> after.positioningSystemMode == st.positioningSystemMode)
            && (k >= I_FAA_MODE_INDICATOR ==>
                  after.positioningSystemMode == Some(Bind(Unmeasurable, [CodeBinding(fields[I_FAA_MODE_INDICATOR], h.mapFaaMode)])))
            && (k < I_NAV_STATUS ==> after.navigationalStatus == st.navigationalStatus)
            && (k >= I_NAV_STATUS ==>
                  after.navigationalStatus == Some(Bind(Unmeasurable, [CodeBinding(fields[I_NAV_STATUS], h.mapNavStatus)]))))
  {
    DecodeBounds(st, fields, h);
  }

  /**
   * Revision gating without the trailing element: for an array of exactly the
   * address and the fields of one revision, the last gated field of that
   * revision is not taken. A 4.1 array gives the FAA mode but never the
   * navigational status, and a 2.3 array gives neither.
   */
  lemma {:induction false} RevisionGatesWithoutTrailer(st: Session, fields: seq<string>, h: DecodeHelpers, k: nat)
    requires k in LastFieldIndex() && |fields| == k + 1
    ensures var (outcome, after) := Decoded(st, fields, h);
      && (outcome.Fail? ==> outcome.error == NullMagnitude)
      && (outcome.Pass? ==>
            && after.navigationalStatus == st.navigationalStatus
            && (k < I_NAV_STATUS ==> after.positioningSystemMode == st.positioningSystemMode)
            && (k == I_NAV_STATUS ==>
                  after.positioningSystemMode == Some(Bind(Unmeasurable, [CodeBinding(fields[I_FAA_MODE_INDICATOR], h.mapFaaMode)]))))
  {
    DecodeBounds(st, fields, h);
  }

  // ---------------------------------------------------------------------------
  // Degrees and decimal minutes to decimal degrees
  // ---------------------------------------------------------------------------

  /**
   * The latitude/longitude conversion of "ddmm.mm" / "dddmm.mm", step by step as
   * `BigDecimal` does it: whole degrees plus the minutes times the
   * minute-to-degree factor, cut toward zero to the fractional digits of `x`.
   */
  function ConvertMinutes(x: Decimal, minuteToDegree: Decimal): Decimal
  {
    SetScaleDown(DegreesPlusMinutes(x, minuteToDegree), RemainderOfOne(x).scale)
  }

  /** The sum before the final cut: whole degrees of x/100 plus its fraction scaled back to minutes, times the factor. */
  function DegreesPlusMinutes(x: Decimal, minuteToDegree: Decimal): Decimal
  {
    var shifted := MovePointLeft(x, 2);
    var degrees := SetScaleDown(shifted, 0);
    var minutes := Multiply(MovePointRight(RemainderOfOne(shifted), 2), minuteToDegree);
    Add(degrees, minutes)
  }

  lemma {:induction false} DegreesPlusMinutesValue(x: Decimal, minuteToDegree: Decimal)
    requires x.scale >= 0 && minuteToDegree.scale >= 0
    ensures DegreesPlusMinutes(x, minuteToDegree).scale >= 0
    ensures var w := Value(x) / 100.0;
      Value(DegreesPlusMinutes(x, minuteToDegree))
        == TruncReal(w) as real + (w - TruncReal(w) as real) * 100.0 * Value(minuteToDegree)
  {
    DegreesPlusMinutesSteps(x, minuteToDegree, Value(x) / 100.0, TruncReal(Value(x) / 100.0), Value(minuteToDegree));
  }

  /** The same, with x/100, its whole part and the factor as plain values. */
  lemma {:induction false} DegreesPlusMinutesSteps(x: Decimal, minuteToDegree: Decimal, w: real, t: int, m: real)
    requires x.scale >= 0 && minuteToDegree.scale >= 0
    requires Value(x) / 100.0 == w && TruncReal(w) == t && Value(minuteToDegree) == m
    ensures DegreesPlusMinutes(x, minuteToDegree).scale >= 0
    ensures Value(DegreesPlusMinutes(x, minuteToDegree)) == t as real + (w - t as real) * 100.0 * m
  {
    HundredthValue(x);
    ShiftedSteps(MovePointLeft(x, 2), minuteToDegree, w, t, m);
  }

  lemma {:induction false} ShiftedSteps(shifted: Decimal, minuteToDegree: Decimal, w: real, t: int, m: real)
    requires shifted.scale >= 2 && minuteToDegree.scale >= 0
    requires Value(shifted) == w && TruncReal(w) == t && Value(minuteToDegree) == m
    ensures var r := Add(SetScaleDown(shifted, 0), Multiply(MovePointRight(RemainderOfOne(shifted), 2), minuteToDegree));
      r.scale >= 0 && Value(r) == t as real + (w - t as real) * 100.0 * m
  {
    WholeValue(shifted, w, t);
    MinutesSteps(shifted, minuteToDegree, w, t, m);
    SumValue(SetScaleDown(shifted, 0), Multiply(MovePointRight(RemainderOfOne(shifted), 2), minuteToDegree),
      t as real, (w - t as real) * 100.0 * m);
  }

  lemma {:induction false} MinutesSteps(shifted: Decimal, minuteToDegree: Decimal, w: real, t: int, m: real)
    requires shifted.scale >= 2 && minuteToDegree.scale >= 0
    requires Value(shifted) == w && TruncReal(w) == t && Value(minuteToDegree) == m
    ensures var r := Multiply(MovePointRight(RemainderOfOne(shifted), 2), minuteToDegree);
      r.scale >= 0 && Value(r) == (w - t as real) * 100.0 * m
  {
    FractionValue(shifted, w, t);
    ScaledProductValue(RemainderOfOne(shifted), minuteToDegree, w - t as real, m);
  }

  lemma {:induction false} ScaledProductValue(fraction: Decimal, minuteToDegree: Decimal, f: real, m: real)
    requires fraction.scale >= 2 && minuteToDegree.scale >= 0
    requires Value(fraction) == f && Value(minuteToDegree) == m
    ensures var r := Multiply(MovePointRight(fraction, 2), minuteToDegree);
      r.scale >= 0 && Value(r) == f * 100.0 * m
  {
    HundredfoldValue(fraction, f);
    ProductValue(MovePointRight(fraction, 2), minuteToDegree, f * 100.0, m);
  }

  // Value steps over opaque real values, so that the floor in the conversion stays out of their proofs.

  lemma {:induction false} HundredthValue(d: Decimal)
    requires d.scale >= 0
    ensures MovePointLeft(d, 2).scale == d.scale + 2 && Value(MovePointLeft(d, 2)) == Value(d) / 100.0
  {
    MovePointLeftValue(d, 2);
    assert Pow10(2) == 100;
  }

  lemma {:induction false} WholeValue(d: Decimal, v: real, t: int)
    requires d.scale >= 0 && Value(d) == v && TruncReal(v) == t
    ensures SetScaleDown(d, 0).scale == 0 && Value(SetScaleDown(d, 0)) == t as real
  {
    SetScaleDownValue(d, 0);
    assert Pow10(0) == 1;
  }

  lemma {:induction false} FractionValue(d: Decimal, v: real, t: int)
    requires d.scale >= 0 && Value(d) == v && TruncReal(v) == t
    ensures RemainderOfOne(d).scale == d.scale && Value(RemainderOfOne(d)) == v - t as real
  {
    RemainderOfOneValue(d);
  }

  lemma {:induction false} HundredfoldValue(d: Decimal, v: real)
    requires d.scale >= 2 && Value(d) == v
    ensures MovePointRight(d, 2).scale == d.scale - 2 && Value(MovePointRight(d, 2)) == v * 100.0
  {
    MovePointRightValue(d, 2);
    assert Pow10(2) == 100;
  }

  lemma {:induction false} ProductValue(a: Decimal, b: Decimal, va: real, vb: real)
    requires a.scale >= 0 && b.scale >= 0 && Value(a) == va && Value(b) == vb
    ensures Multiply(a, b).scale >= 0 && Value(Multiply(a, b)) == va * vb
  {
    MultiplyValue(a, b);
  }

  lemma {:induction false} SumValue(a: Decimal, b: Decimal, va: real, vb: real)
    requires a.scale >= 0 && b.scale >= 0 && Value(a) == va && Value(b) == vb
    ensures Add(a, b).scale >= 0 && Value(Add(a, b)) == va + vb
  {
    AddValue(a, b);
  }

  /**
   * The converted value is trunc(x/100) + frac(x/100)·100·factor, cut toward zero
   * to as many fractional digits as `x` has.
   */
  lemma {:induction false} ConvertMinutesValue(x: Decimal, minuteToDegree: Decimal)
    requires x.scale >= 0 && minuteToDegree.scale >= 0
    ensures ConvertMinutes(x, minuteToDegree).scale == x.scale
    ensures var w := Value(x) / 100.0;
      Value(ConvertMinutes(x, minuteToDegree))
        == TruncToScale(TruncReal(w) as real + (w - TruncReal(w) as real) * 100.0 * Value(minuteToDegree), x.scale)
  {
    DegreesPlusMinutesValue(x, minuteToDegree);
    RemainderOfOneValue(x);
    SetScaleDownValue(DegreesPlusMinutes(x, minuteToDegree), x.scale);
  }

  /**
   * The worked example 5310.980 → 53.183 holds whenever the factor is at least
   * 1/60 and less than 1/60 + 1/10980.
   */
  lemma {:induction false} ConvertMinutesExample(minuteToDegree: Decimal)
    requires minuteToDegree.scale >= 0
    requires 1.0 / 60.0 <= Value(minuteToDegree) < 1.0 / 60.0 + 1.0 / 10980.0
    ensures ConvertMinutes(Decimal(5310980, 3), minuteToDegree) == Decimal(53183, 3)
  {
    ExampleShape(minuteToDegree, 53183);
  }

  /** A factor just below 1/60 (a rounded-down one-sixtieth) gives 53.182 instead. */
  lemma {:induction false} ConvertMinutesExampleBelow(minuteToDegree: Decimal)
    requires minuteToDegree.scale >= 0
    requires 1.0 / 60.0 - 1.0 / 10980.0 <= Value(minuteToDegree) < 1.0 / 60.0
    ensures ConvertMinutes(Decimal(5310980, 3), minuteToDegree) == Decimal(53182, 3)
  {
    ExampleShape(minuteToDegree, 53182);
  }

  lemma {:induction false} ExampleShape(minuteToDegree: Decimal, expected: nat)
    requires minuteToDegree.scale >= 0
    requires expected as real <= 53000.0 + 10980.0 * Value(minuteToDegree) < expected as real + 1.0
    ensures ConvertMinutes(Decimal(5310980, 3), minuteToDegree) == Decimal(expected, 3)
  {
    var x := Decimal(5310980, 3);
    var r := ConvertMinutes(x, minuteToDegree);
    assert Value(x) / 100.0 == 53.1098 by {
      assert Pow10(3) == 1000;
    }
    assert TruncReal(53.1098) == 53;
    ConvertMinutesValue(x, minuteToDegree);
    ExampleArithmetic(Value(minuteToDegree), expected);
    assert Value(r) == expected as real / 1000.0;
    assert r.unscaled as real / 1000.0 == expected as real / 1000.0 by {
      ValueOfScaled(r);
      assert Pow10(3) == 1000;
    }
  }

  lemma {:induction false} ExampleArithmetic(m: real, expected: nat)
    requires expected as real <= 53000.0 + 10980.0 * m < expected as real + 1.0
    ensures TruncToScale(53.0 + (53.1098 - 53.0) * 100.0 * m, 3) == expected as real / 1000.0
  {
    var y := 53000.0 + 10980.0 * m;
    assert Pow10(3) == 1000;
    assert (53.0 + (53.1098 - 53.0) * 100.0 * m) * 1000.0 == y;
    assert TruncReal(y) == expected by {
      assert y >= 0.0;
      assert y.Floor == expected;
    }
  }

  /** The text decode uses for a coordinate: the converted value, or the raw field when it does not parse. */
  function CoordinateText(field: string, h: DecodeHelpers): (r: string)
    ensures h.toDecimal(field).None? ==> r == field
    ensures h.toDecimal(field).Some? ==> r == h.decimalText(ConvertMinutes(h.toDecimal(field).value, h.minuteToDegree))
  {
    match h.toDecimal(field)
    case Some(x) => h.decimalText(ConvertMinutes(x, h.minuteToDegree))
    case None => field
  }

  // ---------------------------------------------------------------------------
  // Encoding
  // ---------------------------------------------------------------------------

  /** The token writers encode calls (N0183ExtractUtil) and the framing, outside this model. */
  datatype EncodeHelpers = EncodeHelpers(
    timeTokens: Option<Measure<string>> -> seq<string>,
    validTokens: Option<Measure<bool>> -> seq<string>,
    poseTokens: Option<Measure<Decimal>> -> seq<string>,
    speedTokens: Option<Measure<Decimal>> -> seq<string>,
    angleTokens: Option<Measure<Decimal>> -> seq<string>,
    dateTokens: Option<Measure<string>> -> seq<string>,
    modeTokens: Option<Measure<string>> -> seq<string>,
    navStatusTokens: Option<Measure<string>> -> seq<string>,
    createSentence: (string, seq<string>) -> string)

  /**
   * The sign letter encode writes after the magnetic variation: from the sign of
   * the magnitude when there is one, else the stored invalid reference, else
   * nothing. Asking a valid-class angle without magnitude for its invalid
   * reference is a failed cast.
   */
  function MagneticVariationSign(variation: Option<Measure<Decimal>>): (r: Result<string, SentenceError>)
    ensures r.Err? <==> variation.Some? && MAGNITUDE !in variation.value.values && variation.value.valid
    ensures r.Err? ==> r.error == InvalidCast
    ensures r.Ok? && variation.Some? && MAGNITUDE in variation.value.values ==>
      (r.value == "W" <==> IsNegative(variation.value.values[MAGNITUDE])) && (r.value == "W" || r.value == "E")
    ensures r.Ok? && (variation.None? || MAGNITUDE !in variation.value.values) ==>
      r.value == if variation.Some? && INVALID_REFERENCE in variation.value.texts then variation.value.texts[INVALID_REFERENCE] else ""
  {
    match variation
    case None => Ok("")
    case Some(mv) =>
      if MAGNITUDE in mv.values then Ok(if IsNegative(mv.values[MAGNITUDE]) then "W" else "E")
      else if mv.valid then Err(InvalidCast)
      else if INVALID_REFERENCE in mv.texts then Ok(mv.texts[INVALID_REFERENCE])
      else Ok("")
  }

  /** The dynamics of a vessel, slot by slot, with an absent characteristic read as all-absent. */
  function SpeedOf(v: Vessel): Option<Measure<Decimal>>
  {
    if v.dynamics.Some? then v.dynamics.value.speedOverGround else None
  }

  function TrackOf(v: Vessel): Option<Measure<Decimal>>
  {
    if v.dynamics.Some? then v.dynamics.value.track else None
  }

  function VariationOf(v: Vessel): Option<Measure<Decimal>>
  {
    if v.dynamics.Some? then v.dynamics.value.magneticVariation else None
  }

  /** The content list `extractRmcContent` assembles, before framing. */
  function RmcContent(s: Session, v: Vessel, h: EncodeHelpers): Result<seq<string>, SentenceError>
  {
    var head := h.timeTokens(s.dateTime) + h.validTokens(s.validStatus) + h.poseTokens(v.pose) + h.speedTokens(SpeedOf(v));
    if head == [] then Err(RemoveFromEmpty)
    else match MagneticVariationSign(VariationOf(v))
      case Err(e) => Err(e)
      case Ok(letter) =>
        Ok(head[..|head| - 1] + h.angleTokens(TrackOf(v)) + h.dateTokens(s.dateTime) + h.angleTokens(VariationOf(v))
           + [letter] + h.modeTokens(s.positioningSystemMode) + h.navStatusTokens(s.navigationalStatus))
  }

  /** `extractRmcContent`: builds the content list step by step and frames it. */
  method ExtractRmcContent(s666: S666, vessel: Vessel, h: EncodeHelpers) returns (r: Result<string, SentenceError>)
    ensures r.Err? <==> RmcContent(s666.State(), vessel, h).Err?
    ensures r.Err? ==> r.error == RmcContent(s666.State(), vessel, h).error
    ensures r.Ok? ==> r.value == h.createSentence(MSG_ID, RmcContent(s666.State(), vessel, h).value)
  {
    var msgContent: seq<string> := [];
    msgContent := msgContent + h.timeTokens(s666.dateTime);
    msgContent := msgContent + h.validTokens(s666.validStatus);
    msgContent := msgContent + h.poseTokens(vessel.pose);
    msgContent := msgContent + h.speedTokens(SpeedOf(vessel));
    assert msgContent == h.timeTokens(s666.dateTime) + h.validTokens(s666.validStatus) + h.poseTokens(vessel.pose)
      + h.speedTokens(SpeedOf(vessel));
    if |msgContent| == 0 {
      return Err(RemoveFromEmpty);
    }
    ghost var head := msgContent;
    msgContent := msgContent[..|msgContent| - 1];
    msgContent := msgContent + h.angleTokens(TrackOf(vessel));
    msgContent := msgContent + h.dateTokens(s666.dateTime);
    var variation := VariationOf(vessel);
    msgContent := msgContent + h.angleTokens(variation);
    if variation.Some? && MAGNITUDE in variation.value.values {
      msgContent := msgContent + [if IsNegative(variation.value.values[MAGNITUDE]) then "W" else "E"];
    } else if variation.Some? {
      if variation.value.valid {
        return Err(InvalidCast);
      }
      if INVALID_REFERENCE in variation.value.texts {
        msgContent := msgContent + [variation.value.texts[INVALID_REFERENCE]];
      } else {
        msgContent := msgContent + [""];
      }
    } else {
      msgContent := msgContent + [""];
    }
    assert msgContent == head[..|head| - 1] + h.angleTokens(TrackOf(vessel)) + h.dateTokens(s666.dateTime)
      + h.angleTokens(variation) + [MagneticVariationSign(variation).value];
    msgContent := msgContent + h.modeTokens(s666.positioningSystemMode);
    msgContent := msgContent + h.navStatusTokens(s666.navigationalStatus);
    r := Ok(h.createSentence(MSG_ID, msgContent));
  }

  /** `encode`: no sentence without a vessel, otherwise exactly one. */
  method Encode(s666: S666, h: EncodeHelpers) returns (r: Result<seq<string>, SentenceError>)
    ensures s666.vessel.None? ==> r == Ok([])
    ensures r.Ok? ==> (|r.value| == 1 <==> s666.vessel.Some?) && |r.value| <= 1
    ensures s666.vessel.Some? ==> (r.Err? <==> RmcContent(s666.State(), s666.vessel.value, h).Err?)
    ensures s666.vessel.Some? && r.Ok? ==> r.value == [h.createSentence(MSG_ID, RmcContent(s666.State(), s666.vessel.value, h).value)]
  {
    if s666.vessel.None? {
      return Ok([]);
    }
    var sentence := ExtractRmcContent(s666, s666.vessel.value, h);
    match sentence
    case Ok(text) => r := Ok([text]);
    case Err(e) => r := Err(e);
  }

  /** Each token writer emits the number of fields its quantity occupies; the speed writer adds a unit letter. */
  predicate StandardTokens(s: Session, v: Vessel, h: EncodeHelpers)
  {
    && |h.timeTokens(s.dateTime)| == 1 && |h.validTokens(s.validStatus)| == 1 && |h.poseTokens(v.pose)| == 4
    && |h.speedTokens(SpeedOf(v))| == 2 && |h.angleTokens(TrackOf(v))| == 1 && |h.dateTokens(s.dateTime)| == 1
    && |h.angleTokens(VariationOf(v))| == 1 && |h.modeTokens(s.positioningSystemMode)| == 1
    && |h.navStatusTokens(s.navigationalStatus)| == 1
  }

  /**
   * Encode field order: with standard token counts the content has one entry per
   * RMC field, field i at position i - 1 (the address is not part of it), the
   * speed's unit letter dropped, the sign letter in the reference position, and
   * the trailing fields present as (possibly empty) tokens.
   */
  lemma {:induction false} RmcContentLayout(s: Session, v: Vessel, h: EncodeHelpers)
    requires StandardTokens(s, v, h)
    ensures RmcContent(s, v, h).Ok? <==> MagneticVariationSign(VariationOf(v)).Ok?
    ensures RmcContent(s, v, h).Ok? ==>
      var c, pose := RmcContent(s, v, h).value, h.poseTokens(v.pose);
      && |c| == I_NAV_STATUS
      && c[I_UTC_TIME - 1] == h.timeTokens(s.dateTime)[0]
      && c[I_STATUS - 1] == h.validTokens(s.validStatus)[0]
      && c[I_LATITUDE - 1] == pose[0] && c[I_LATITUDE_REFERENCE - 1] == pose[1]
      && c[I_LONGITUDE - 1] == pose[2] && c[I_LONGITUDE_REFERENCE - 1] == pose[3]
      && c[I_SOG - 1] == h.speedTokens(SpeedOf(v))[0]
      && c[I_TRACK_MADE_GOOD - 1] == h.angleTokens(TrackOf(v))[0]
      && c[I_DATE - 1] == h.dateTokens(s.dateTime)[0]
      && c[I_MAGNETIC_VARIATION - 1] == h.angleTokens(VariationOf(v))[0]
      && c[I_MAGNETIC_VARIATION_REFERENCE - 1] == MagneticVariationSign(VariationOf(v)).value
      && c[I_FAA_MODE_INDICATOR - 1] == h.modeTokens(s.positioningSystemMode)[0]
      && c[I_NAV_STATUS - 1] == h.navStatusTokens(s.navigationalStatus)[0]
  {
  }

  /**
   * Decode then encode of the magnetic-variation sign letter: a parsed magnitude
   * gets its letter from its (with "W" negated) sign, whatever the reference was;
   * a reference other than "E" or "W" with an unparseable magnitude comes back
   * verbatim, and "E" with an unparseable magnitude comes back empty.
   */
  lemma {:induction false} SignLetterAfterDecode(magnitude: string, reference: string, h: DecodeHelpers)
    ensures var r, p := MagneticVariation(magnitude, reference, h), h.toDecimal(magnitude);
      r.Ok? ==>
        var letter := MagneticVariationSign(Some(r.value));
        && (reference == "E" && p.Some? ==> letter == Ok(if p.value.unscaled < 0 then "W" else "E"))
        && (reference == "W" ==> p.Some? && letter == Ok(if p.value.unscaled > 0 then "W" else "E"))
        && (reference == "E" && p.None? ==> letter == Ok(""))
        && (reference != "E" && reference != "W" && p.Some? ==> letter == Ok(if p.value.unscaled < 0 then "W" else "E"))
        && (reference != "E" && reference != "W" && p.None? ==> letter == Ok(reference))
  {
    if reference == "E" {
      EastVariation(magnitude, h);
    } else if reference == "W" {
      WestVariation(magnitude, h);
      if h.toDecimal(magnitude).Some? {
        NegateValue(h.toDecimal(magnitude).value);
      }
    } else {
      OtherReferenceVariation(magnitude, reference, h);
    }
  }

  /**
   * The reference letter survives decode and encode when it is "E" or "W" and
   * the magnitude parses to a positive number, or when it is another letter and
   * the magnitude does not parse. A zero magnitude with "W" comes back as "E",
   * and another letter with a parsed magnitude is replaced by "E" or "W".
   */
  lemma {:induction false} SignLetterRoundTrip(magnitude: string, reference: string, h: DecodeHelpers)
    ensures var r, p := MagneticVariation(magnitude, reference, h), h.toDecimal(magnitude);
      && ((reference == "E" || reference == "W") && p.Some? && p.value.unscaled > 0 ==>
            r.Ok? && MagneticVariationSign(Some(r.value)) == Ok(reference))
      && (reference != "E" && reference != "W" && p.None? ==> r.Ok? && MagneticVariationSign(Some(r.value)) == Ok(reference))
      && (reference != "E" && reference != "W" && p.Some? ==>
            r.Ok? && MagneticVariationSign(Some(r.value)) != Ok(reference)
            && MagneticVariationSign(Some(r.value)) == Ok(if p.value.unscaled < 0 then "W" else "E"))
      && (reference == "W" && p.Some? && p.value.unscaled == 0 ==> r.Ok? && MagneticVariationSign(Some(r.value)) == Ok("E"))
  {
    VariationRule(magnitude, reference, h);
    SignLetterAfterDecode(magnitude, reference, h);
  }
}
