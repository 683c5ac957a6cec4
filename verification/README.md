# RMC sentence and field-validity combinators, modelled in Dafny

This project models two parts of an NMEA 0183 / IEC 61162-1 to S-100 (S666) translator.

- **Field-validity combinators** (`FieldHandler`). The builders parse raw sentence fields and record what happened to each field in a measure or unmeasure object. A field that parses goes into its *valid* slot. A field that fails goes into its *invalid* (raw-text) slot, and the whole object then becomes the *invalid* variant (the Java subclass). Compound builders combine a magnitude and an influence into one value. When that combination fails, they record each origin as *indirect-invalid* (the origin parsed but its partner did not) or as *invalid* (its raw text). The readers get a field back out of a measure for the encoder.
- **The RMC sentence** (`RmcSentence`). This is the recommended minimum specific GNSS data sentence of IEC 61162-1. The model covers:
  - its field indices;
  - the revision table of last-field indices (before 2.3, from 2.3, from 4.1);
  - the decoder, which fills an S666 session from a split field array;
  - the "ddmm.mm" to decimal-degree conversion, done with `BigDecimal` operations;
  - the magnetic-variation sign rules;
  - the encoder, which rebuilds the field list from a session.

## Files

| file | content |
|---|---|
| `wrappers.dfy` | `Option` (Java `Optional`/`null`), `Result` (value or thrown exception), `Outcome` (a `void` method returns or throws). |
| `decimals.dfy` | `java.math.BigDecimal` as an unscaled integer with a scale. Covers the operations the conversion uses (`movePointLeft`, `movePointRight`, `setScale(_, DOWN)`, `remainder(ONE)`, `add`, `multiply`, `negate`, `compareTo(ZERO) < 0`). Each arithmetic operation has a lemma stating its exact real value, and the comparison one stating that it tests for a value below zero. |
| `measures.dfy` | A measure as a value: its kind, its class (valid or invalid), its set value slots and its set raw-text slots. Covers the setter writes and the specification of every builder. `Bind` specifies the builder: parse all fields (which fixes the class), then write each field's outcome in field order. `CompoundMeasure` specifies the compound builders. Lemmas about them are included. |
| `field_handler.dfy` | The imperative builders over two classes. `MeasureObject` is the S666 object whose setters fill slots in place. `ResultReference` is the per-call holder that creates the valid or the invalid variant lazily. Each builder is proved to produce what `Measures` specifies. The readers are also here. |
| `rmc_sentence.dfy` | The RMC constants, the S666 session (a class updated in place), `Decode` and `Encode` proved against the specification functions `Decoded` and `RmcContent`, and the conversion and sign-rule lemmas. |

## Model

| member | source | states |
|---|---|---|
| Measures.ApplyWritesKeepsVariant | FieldHandler.java:451-461 | Setters never change an object's kind or class (valid/invalid). |
| Measures.LastWriteWins | FieldHandler.java:638-655 | Setters applied in sequence: the last write to a slot is what the slot holds. |
| Measures.BindVariant | FieldHandler.java:97-127 | A builder returns the invalid variant exactly when some field fails to parse (or is null). |
| Measures.BindFieldOutcome | FieldHandler.java:162-204 | With distinct setters, each field's outcome is recorded whatever the other fields did. A parsed field's value is in its valid slot and its invalid slot is empty. A failed field's raw text (`"null"` for null) is in its invalid slot and its valid slot is empty. |
| Measures.BindNothingElse | FieldHandler.java:162-204 | A builder sets no slot other than the fields' own outcome slots. |
| Measures.BindReorder | FieldHandler.java:162-204 | Taking the fields in another order gives the same measure, including the same class: fault accumulation is order-independent. |
| Measures.BindSingle | FieldHandler.java:49-67 | The single-field builder returns one of two things. A parsed field gives the valid variant holding the value. A failed field gives the invalid variant holding `String.valueOf(field)`. |
| Measures.CompoundVariant | FieldHandler.java:281-319 | The compound result is valid exactly when both origins parse. It then holds only the combined value. A null combination of two parsed origins is a fatal NullPointerException, never an invalid measure. |
| Measures.CompoundPerOrigin | FieldHandler.java:488-504 | When either origin fails, each origin is attributed independently. Its invalid slot holds its raw text exactly when it failed. Its indirect-invalid slot holds its parsed value exactly when it parsed. No other slot is set. |
| Measures.CompoundWithFieldVariant | FieldHandler.java:359-409 | With one further plain field: the result is valid exactly when all three fields parse, and the plain field's outcome is always recorded. If only the plain field fails, the invalid result still carries the combined value. |
| FieldHandler.MeasureObject.constructor | FieldHandler.java:521-528 | A supplier creates an object of its class with no slot set. |
| FieldHandler.MeasureObject.Accept | FieldHandler.java:451-461 | A setter call changes exactly its own slot. |
| FieldHandler.ResultReference.Get | FieldHandler.java:451-461 | `get()` returns the object of the current variant, created on first access. It holds what the holder held before. |
| FieldHandler.ResultReference.RequestInvalid | FieldHandler.java:424-434 | `requestInvalid()` switches the holder to the invalid variant for good. It keeps an existing invalid object and otherwise creates an empty one. |
| FieldHandler.ParseField | FieldHandler.java:424-434 | The parse is `field.flatMap(parser)`. The holder is asked for the invalid variant exactly when that parse is empty, and is otherwise untouched. |
| FieldHandler.SetField | FieldHandler.java:451-461 | The parsed value goes through the valid setter; otherwise the raw text goes through the invalid setter on the invalid variant. |
| FieldHandler.SetInvalidCompoundField | FieldHandler.java:488-504 | Both origins are attributed on the invalid variant, magnitude first and influence second. |
| FieldHandler.MakeMeasure | FieldHandler.java:49-67 | The single-field builder returns a fresh object equal to `Bind` of its one field. |
| FieldHandler.MakeMeasureOfTwo | FieldHandler.java:97-127 | Both fields are parsed before either is written. The result equals `Bind` of the two fields. |
| FieldHandler.MakeMeasureOfThree | FieldHandler.java:162-204 | All three fields are parsed before any is written. The result equals `Bind` of the three fields. |
| FieldHandler.MakeUnmeasure | FieldHandler.java:229-247 | As the single-field builder, for the unmeasurable kind. |
| FieldHandler.MakeCompoundMeasure | FieldHandler.java:281-319 | The compound builder returns the fatal error or the object exactly as `CompoundMeasure` says. |
| FieldHandler.MakeCompoundMeasureWithField | FieldHandler.java:359-409 | The compound builder with a plain field returns exactly what `CompoundMeasureWithField` says. The plain field is written first. |
| FieldHandler.MakeInfallibleMeasure | FieldHandler.java:521-528 | A fresh object of the supplier's class with the one setter applied. |
| FieldHandler.AddToInfallibleMeasure | FieldHandler.java:540-546 | One more setter is applied to the given object, which is returned. |
| FieldHandler.MakeInfallibleMeasureOfTwo | FieldHandler.java:566-575 | A fresh object with the two setters applied in order. |
| FieldHandler.MakeInfallibleMeasureOfThree | FieldHandler.java:598-612 | A fresh object with the three setters applied in order. |
| FieldHandler.MakeInfallibleMeasureOfFour | FieldHandler.java:638-655 | A fresh object with the four setters applied in order. |
| FieldHandler.MakeInfallibleMeasureIterator | FieldHandler.java:681-693 | A fresh object of the supplier's class, with only slots that some key chooses set. A slot whose keys all parse to values is set, and one whose keys all parse to `null` is not. When keys choose distinct setters, each slot holds exactly its key's parse. |
| FieldHandler.AddToInfallibleMeasureIterator | FieldHandler.java:713-726 | Every map entry goes through the setter its key chooses, and a `null` parse clears that slot. Raw-text slots and slots no key chooses are untouched. A slot whose keys all parse to values ends up set, and one whose keys all parse to `null` ends up cleared. With distinct setters, each slot holds exactly its key's parse. |
| FieldHandler.MakeInfallibleUnmeasure | FieldHandler.java:743-751 | A fresh unmeasure of the supplier's class with the one setter applied. |
| FieldHandler.MakeInfallibleUnmeasureOfTwo | FieldHandler.java:771-782 | A fresh unmeasure with the two setters applied in order. |
| FieldHandler.MakeInfallibleUnmeasureOfThree | FieldHandler.java:805-819 | A fresh unmeasure with the three setters applied in order. |
| FieldHandler.IsValidOrInvalidFieldSet | FieldHandler.java:833-873 | True exactly when the valid slot or the invalid slot is set. Reading the invalid slot of a valid-class object is a ClassCastException. |
| FieldHandler.Extract | FieldHandler.java:892-946 | Returns the formatted valid value when it is set, else the invalid slot's text. A valid-class object without the value is a ClassCastException. An invalid one with neither slot set is an IllegalStateException. |
| FieldHandler.ExtractFromMeasureWithEmptyValidField | FieldHandler.java:961-983 | Returns the invalid slot's text exactly when the object is of the invalid class and that slot is set. |
| FieldHandler.FieldSetGuardsExtract | FieldHandler.java:833-946 | `isValidOrInvalidFieldSet` is true exactly when the extractor returns a text. It is false exactly when the extractor throws IllegalStateException, and it throws exactly when the extractor throws ClassCastException. |
| FieldHandler.ExtractAfterBind | FieldHandler.java:928-946 | Reading back any field of a builder's result never fails. A parsed field comes back formatted, a failed one as its raw text. |
| FieldHandler.RoundTripField | FieldHandler.java:928-946 | Decode then extract gives back the raw field whenever the formatter inverts the parser. |
| Decimals.MovePointLeftValue | RmcSentence.java:137 | `movePointLeft(n)` divides the value by 10^n and adds n to the scale. |
| Decimals.SetScaleDownValue | RmcSentence.java:139 | `setScale(s, DOWN)` cuts the value toward zero to s fractional digits. |
| Decimals.AddValue | RmcSentence.java:141 | `add` is the exact sum, at the larger scale. |
| Decimals.RemainderOfOneValue | RmcSentence.java:142 | `remainder(ONE)` is the value minus its truncation toward zero, at the same scale. |
| Decimals.MovePointRightValue | RmcSentence.java:143 | `movePointRight(n)` multiplies the value by 10^n, and the scale never drops below 0. |
| Decimals.MultiplyValue | RmcSentence.java:144 | `multiply` is the exact product, and the scales add. |
| Decimals.NegateValue | RmcSentence.java:204 | `negate` flips the value's sign. The negation of a positive magnitude is negative, and that of zero is not. |
| Decimals.IsNegativeValue | RmcSentence.java:293 | `compareTo(ZERO) < 0` holds exactly when the value is below zero, at every scale. |
| RmcSentence.LastFieldIndex | RmcSentence.java:318-321 | Three revisions whose last field indices lie between 11 and 13, including 11 and 13. |
| RmcSentence.EastVariation | RmcSentence.java:195-206 | With "E", the variation is the magnitude unchanged. An unparseable magnitude gives an invalid angle holding its raw text. |
| RmcSentence.WestVariation | RmcSentence.java:203-205 | With "W", the variation is the negated magnitude. An unparseable magnitude is a NullPointerException. |
| RmcSentence.OtherReferenceVariation | RmcSentence.java:207-217 | Any other reference gives an invalid angle holding the reference's raw text. The magnitude is kept unsigned in its valid slot when it parses, and as raw text when it does not. No other slot is set. |
| RmcSentence.DecodeVariation | RmcSentence.java:194-218 | The imperative magnetic-variation step builds exactly `MagneticVariation`. |
| RmcSentence.Decode | RmcSentence.java:104-247 | The outcome and the new session state are exactly those `Decoded` gives from the old state. |
| RmcSentence.DecodeBounds | RmcSentence.java:104-218 | Decode reads indices 7, 8, 9 and then 11. It throws ArrayIndexOutOfBounds exactly when the array has fewer than 12 elements, naming the first of those indices out of range; by then only the date-time (from 10 elements) is written. The only other failure is "W" with an unparseable magnitude. |
| RmcSentence.RevisionGates | RmcSentence.java:219-239 | Take an array with the address, one revision's fields and one trailing element. Decode never reads out of range. It stores the FAA mode exactly when the revision has field 12, and the navigational status exactly when it has field 13; otherwise those entries are unchanged. |
| RmcSentence.RevisionGatesWithoutTrailer | RmcSentence.java:219-239 | For an array of exactly the address and one revision's fields, decode never reads out of range and skips that revision's last gated field. 4.1 gives the FAA mode but never the navigational status, and 2.3 gives neither. |
| RmcSentence.DegreesPlusMinutesValue | RmcSentence.java:137-145 | Before the final cut, the value is trunc(x/100) + frac(x/100)·100·factor. |
| RmcSentence.ConvertMinutesValue | RmcSentence.java:135-148 | The converted coordinate is trunc(x/100) + frac(x/100)·100·factor, cut toward zero to as many fractional digits as x has. |
| RmcSentence.ConvertMinutesExample | RmcSentence.java:135-148 | 5310.980 converts to 53.183 (scale 3) whenever the factor lies in [1/60, 1/60 + 1/10980). |
| RmcSentence.ConvertMinutesExampleBelow | RmcSentence.java:135-148 | A factor just below 1/60 converts 5310.980 to 53.182 instead. |
| RmcSentence.CoordinateText | RmcSentence.java:164-171 | A coordinate field that parses is used as the text of its converted value, whose meaning `ConvertMinutesValue` states. One that does not parse is used as raw text. |
| RmcSentence.MagneticVariationSign | RmcSentence.java:289-300 | The sign letter is "W" exactly for a negative magnitude and "E" otherwise. Without a magnitude it is the stored invalid reference, or "". A valid-class angle without a magnitude is a ClassCastException. |
| RmcSentence.ExtractRmcContent | RmcSentence.java:268-315 | The step-by-step list is framed as `createSentence("RMC", RmcContent(...))`. The same errors are thrown, including the removal from an empty list. |
| RmcSentence.Encode | RmcSentence.java:256-263 | There is no sentence without a vessel, and exactly one sentence with one. |
| RmcSentence.RmcContentLayout | RmcSentence.java:268-315 | With standard token counts the content has 13 entries, field i at position i−1. The speed's unit letter is dropped, the sign letter sits in the reference position, and the trailing fields are present. |
| RmcSentence.SignLetterAfterDecode | RmcSentence.java:289-300 | Decode then encode of the sign letter: a parsed magnitude gets its letter from its sign, negated for "W", whatever the reference was. A reference other than E or W with an unparseable magnitude comes back verbatim, and "E" with an unparseable magnitude comes back empty. |
| RmcSentence.SignLetterRoundTrip | RmcSentence.java:195-218 | The reference survives decode and encode when it is E or W and the magnitude is positive, or when it is another letter and the magnitude does not parse. Another letter with a parsed magnitude is replaced by E or W, and "W" with a zero magnitude comes back as "E". |

## Decisions and deviations

- **Trailing element in the field array.** The FAA-mode and navigational-status gates (RmcSentence.java:219 and :229) compare `fields.length - 1` with the field's index, so a revision's last gated field is decoded only when the array holds one more element after it. `RevisionGates` states the gates assuming the splitter leaves the checksum as a separate last element. The splitter is not part of this model. `RevisionGatesWithoutTrailer` states what the code does with an array of exactly the address and one revision's fields. A 4.1 array then gives the FAA mode but not the navigational status, and a 2.3 array gives neither. A sentence whose checksum is only a suffix of field 13 therefore decodes without its navigational status, even though the sentence's own example ends in "S" (Safe). The model follows the code.
- **Sign of "E" variations.** The sentence's own example (RmcSentence.java:81) ends in "003.3,E". The code keeps the magnitude for "E" and negates it only for "W", so that example decodes to +3.3°.
- **Magnetic variation builders.** The body of `MeasureUtil.makeAngle` is not part of this model, so its two forms are read by their arguments. The four-argument call (RmcSentence.java:197-202) passes the magnitude and the unit, and is taken to be the two-field `makeMeasure` (FieldHandler.java:97-127). The six-argument call (RmcSentence.java:209-216) passes the magnitude, the unit and the reference, each with its parser and with no combiner. It is taken to be the three-field `makeMeasure` (FieldHandler.java:162-204). Its reference parser never yields a value, so the reference text always lands in `invalidReference`, and the angle is of the invalid class. A parsed magnitude stays in `magnitude`. The unit always parses and writes only the unit slot, which this model leaves out.
- **`null` setter arguments.** A setter given `null` clears its slot (`Clear`), and the readers then see that slot as unset. The infallible builders accept such writes, and the iterator's parser may return `null`.
- **`ResultReference`.** Its source is not part of this model. It is modelled as lazy: `get()` creates the object of the current variant, and `requestInvalid()` switches the holder to the invalid variant once and for all. In the builders every parse precedes every write, so the object is never created before the switch.
- **Slot names.** Slot names of the S666 types (`magnitude`, `invalidMagnitude`, `reference`, `invalidReference`, `value`, `invalidValue`) stand for their getters and setters.
- **One value type per measure.** The Java builders give each field, each compound origin and the combined value its own type parameter. In the model a measure's value slots, both origins and the combination share one generic type `V`. The builders never convert between these types, so no behaviour depends on them being distinct.
- **Measure classes.** A measure's class (valid or invalid subclass) is the `valid` flag, which also answers `MeasureUtil.isInvalid`.
- **`Class.cast` failures.** A failed `Class.cast` or `(InvalidAngle)` cast is modelled as an error result, as are the NullPointerExceptions and index exceptions the code can throw.
- **S666 session.** Adding a metadata item or the vessel replaces the previous item of its type.

## Left out

- Units (knots, degrees) and the unit arguments of the builders: they always parse, and they do not affect the class or any slot other than the unit slot.
- `MeasureUtil`, `UnmeasurableUtil`, `DecoderUtils`, the `N0183*` enumeration tables, `N0183DateTimeBuilder`, `makePositionWithLatLong`/`makePose`, `N0183ExtractUtil` and `N0183ParserUtil.createSentence` are outside this model. Each is a parameter (`DecodeHelpers`, `EncodeHelpers`), and the `MeasureUtil` builder calls go through the modelled `makeMeasure` builders, as "Magnetic variation builders" above explains. The `.get()` on `makePose`'s result (RmcSentence.java:192-193) is assumed to succeed. The `position` parameter returns no pose only when `makePositionWithLatLong` gives none, so a `NoSuchElementException` from an empty `makePose` is not modelled.
- The unused `lonFromDirection`/`latFromDirection` values (RmcSentence.java:173-186) are left out. They only feed results that decode discards. The conversion they read is modelled (`ConvertMinutes`, `CoordinateText`).
- `UnitConversions.MINUTE_TO_DEGREE` is a parameter, because its value is not part of this model. The examples state the range of factors for which the documented result holds.
- Decimals.MovePointLeftValue, Decimals.MovePointRightValue, Decimals.SetScaleDownValue, Decimals.RemainderOfOneValue, Decimals.AddValue, Decimals.MultiplyValue: these are stated only for non-negative scales, which is what parsed sentence fields have. The operations themselves are modelled for every scale.
- RmcSentence.DegreesPlusMinutesValue: stated only for a coordinate and a minute-to-degree factor of non-negative scale, as with the `Decimals` value lemmas it rests on. Parsed sentence fields have such scales. The conversion itself is modelled for every scale.
- RmcSentence.ConvertMinutesValue: stated only for non-negative scales, for the same reason as `DegreesPlusMinutesValue`.
- FieldHandler.AddToInfallibleMeasureIterator: when two keys choose the same setter, what that slot holds depends on the map's iteration order. The contract then says only that the slot is set when all those keys parse to values, and cleared when all parse to `null`.
- FieldHandler.AddToInfallibleMeasureIterator: `setValues` chooses valid-value setters only. A caller whose parsed type is `String` could hand it raw-text setters of an invalid class, and the model does not cover that case.
- FieldHandler.MakeInfallibleMeasureIterator: the same two limits as `AddToInfallibleMeasureIterator`, which it calls on a fresh object.
- Precision limits of `BigDecimal` (`MathContext`) are not modelled, since the operations used are exact.
- Thread safety is not modelled.
