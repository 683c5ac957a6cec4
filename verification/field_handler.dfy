/**
 * The field-validity combinators: builders that parse raw sentence fields and
 * record each outcome in a measure object through its setters, and the readers
 * the encoder uses to get a field back out of a measure.
 *
 * The builders work in place on two kinds of object: the measure object itself
 * (`MeasureObject`, whose slots the setters fill) and the per-call holder
 * (`ResultReference`) that decides, lazily, whether the valid or the invalid
 * variant is created. Each builder is proved to produce exactly what the value
 * specifications in `Measures` say (`Bind`, `CompoundMeasure`, ...).
 */
module FieldHandler {
  import opened Wrappers
  import opened Measures

  /** An S666 measure or unmeasure object; `valid` is its class (valid type or its invalid subtype). */
  class MeasureObject<V> {
    const kind: Kind
    const valid: bool
    var values: map<Slot, V>
    var texts: map<Slot, string>

    /** The object's contents as a value. */
    function Value(): (m: Measure<V>)
      reads this
      ensures m.kind == kind && m.valid == valid
    {
      Measure(kind, valid, values, texts)
    }

    /** A supplier such as `Angle::new`: nothing is set yet. */
    constructor (kind: Kind, valid: bool)
      ensures Value() == Empty(kind, valid)
    {
      this.kind := kind;
      this.valid := valid;
      values := map[];
      texts := map[];
    }

    /** `setter.accept(this, x)`; a raw-text setter exists only on the invalid class. */
    method Accept(w: Write<V>)
      requires TargetOf(w).TextChannel? ==> !valid
      modifies this
      ensures Value() == ApplyWrite(old(Value()), w)
    {
      match w
      case WriteValue(s, v) => values := values[s := v];
      case WriteText(s, t) => texts := texts[s := t];
      case Clear(ValueChannel(s)) => values := values - {s};
      case Clear(TextChannel(s)) => texts := texts - {s};
    }
  }

  /** What the holder's view becomes when `requestInvalid()` is called on it. */
  ghost function Requested<V>(invalid: bool, view: Measure<V>): Measure<V>
  {
    if invalid then view else Empty(view.kind, false)
  }

  /**
   * The per-call result holder. It starts undecided (valid); `requestInvalid()`
   * switches it to the invalid variant for good, and the object of the chosen
   * variant is created on first access.
   */
  class ResultReference<V> {
    const kind: Kind
    var invalid: bool
    var current: MeasureObject?<V>

    ghost predicate Valid()
      reads this, current
    {
      current != null ==> current.kind == kind && current.valid == !invalid
    }

    /** What `get()` would return now, as a value. */
    ghost function View(): (m: Measure<V>)
      reads this, current
      requires Valid()
      ensures m.kind == kind && m.valid == !invalid
    {
      if current == null then Empty(kind, !invalid) else current.Value()
    }

    /** `ResultReference.newMeasurable` / `newUnmeasurable`. */
    constructor (kind: Kind)
      ensures Valid() && this.kind == kind && !invalid && current == null
    {
      this.kind := kind;
      invalid := false;
      current := null;
    }

    /** `get()`: the object of the current variant, created if need be. */
    method Get() returns (m: MeasureObject<V>)
      requires Valid()
      modifies this
      ensures Valid() && invalid == old(invalid) && m == current
      ensures old(current) == null ==> fresh(m)
      ensures old(current) != null ==> m == old(current)
      ensures m.Value() == old(View())
    {
      if current == null {
        current := new MeasureObject(kind, !invalid);
      }
      m := current;
    }

    /** `requestInvalid()`: switch to the invalid variant (once and for all) and return its object. */
    method RequestInvalid() returns (m: MeasureObject<V>)
      requires Valid()
      modifies this
      ensures Valid() && invalid && m == current && !m.valid
      ensures old(invalid) && old(current) != null ==> m == old(current)
      ensures !(old(invalid) && old(current) != null) ==> fresh(m)
      ensures m.Value() == Requested(old(invalid), old(View()))
    {
      if !invalid || current == null {
        invalid := true;
        current := new MeasureObject(kind, false);
      }
      m := current;
    }
  }

  // ---------------------------------------------------------------------------
  // Internal steps
  // ---------------------------------------------------------------------------

  /**
   * `parseField`: the parse is `field.flatMap(parser)`, and the holder is asked
   * for the invalid variant exactly when that parse is empty; otherwise the
   * holder is left untouched.
   */
  method ParseField<V>(field: RawField, parser: string -> Option<V>, result: ResultReference<V>) returns (p: Option<V>)
    requires result.Valid()
    modifies result
    ensures result.Valid()
    ensures p == Parse(field, parser)
    ensures result.invalid == (old(result.invalid) || p.None?)
    ensures p.Some? ==> unchanged(result)
    ensures result.current == old(result.current) || fresh(result.current)
    ensures result.View() == if p.Some? then old(result.View()) else Requested(old(result.invalid), old(result.View()))
  {
    p := Parse(field, parser);
    if p.None? {
      var _ := result.RequestInvalid();
    }
  }

  /** `setField`: the parsed value through the valid setter, else the raw text through the invalid one. */
  method SetField<V>(parsed: Option<V>, field: RawField, result: ResultReference<V>, validSlot: Slot, invalidSlot: Slot)
    returns (m: MeasureObject<V>)
    requires result.Valid()
    modifies result, result.current
    ensures result.Valid() && m == result.current
    ensures result.invalid == (old(result.invalid) || parsed.None?)
    ensures fresh(m) || m == old(result.current)
    ensures m.Value() == ApplyWrite(
      if parsed.Some? then old(result.View()) else Requested(old(result.invalid), old(result.View())),
      FieldWrite(parsed, field, validSlot, invalidSlot))
  {
    if parsed.Some? {
      m := result.Get();
      m.Accept(WriteValue(validSlot, parsed.value));
    } else {
      m := result.RequestInvalid();
      m.Accept(WriteText(invalidSlot, RawText(field)));
    }
  }

  /**
   * `setInvalidCompoundField`: each origin of a failed compound is attributed on
   * the invalid variant, the magnitude first, then the influence.
   */
  method SetInvalidCompoundField<V>(
    parsedField: Option<V>, field: RawField, parsedInfluence: Option<V>, influence: RawField,
    result: ResultReference<V>, show: V -> string,
    indirectSlot: Slot, invalidSlot: Slot, indirectInfluenceSlot: Slot, invalidInfluenceSlot: Slot)
    returns (m: MeasureObject<V>)
    requires result.Valid()
    modifies result, result.current
    ensures result.Valid() && result.invalid && m == result.current && !m.valid
    ensures fresh(m) || m == old(result.current)
    ensures m.Value() == ApplyWrites(Requested(old(result.invalid), old(result.View())),
      [ Attribution(parsedField, field, show, indirectSlot, invalidSlot),
        Attribution(parsedInfluence, influence, show, indirectInfluenceSlot, invalidInfluenceSlot) ])
  {
    var w0 := Attribution(parsedField, field, show, indirectSlot, invalidSlot);
    var w1 := Attribution(parsedInfluence, influence, show, indirectInfluenceSlot, invalidInfluenceSlot);
    ghost var start := Requested(result.invalid, result.View());
    var target := result.RequestInvalid();
    target.Accept(w0);
    target := result.RequestInvalid();
    target.Accept(w1);
    m := result.RequestInvalid();
    ApplyTwo(start, w0, w1);
  }

  // ---------------------------------------------------------------------------
  // Builders that parse
  // ---------------------------------------------------------------------------

  lemma {:induction false} BindingWritesOfTwo<V>(b0: Binding<V>, b1: Binding<V>)
    ensures BindingWrites([b0, b1]) == [BindingWrite(b0), BindingWrite(b1)]
    ensures AllParse([b0, b1]) == (Parsed(b0).Some? && Parsed(b1).Some?)
  {
    assert [b0, b1][0] == b0 && [b0, b1][1] == b1;
  }

  lemma {:induction false} BindingWritesOfThree<V>(b0: Binding<V>, b1: Binding<V>, b2: Binding<V>)
    ensures BindingWrites([b0, b1, b2]) == [BindingWrite(b0), BindingWrite(b1), BindingWrite(b2)]
    ensures AllParse([b0, b1, b2]) == (Parsed(b0).Some? && Parsed(b1).Some? && Parsed(b2).Some?)
    ensures ApplyWrites(Empty(Measurable, AllParse([b0, b1, b2])), BindingWrites([b0, b1, b2]))
         == ApplyWrite(ApplyWrite(ApplyWrite(Empty(Measurable, AllParse([b0, b1, b2])), BindingWrite(b0)), BindingWrite(b1)), BindingWrite(b2))
  {
    assert [b0, b1, b2][0] == b0 && [b0, b1, b2][1] == b1 && [b0, b1, b2][2] == b2;
    var ws := BindingWrites([b0, b1, b2]);
    assert ws[..2] == [ws[0], ws[1]];
    ApplyTwo(Empty(Measurable, AllParse([b0, b1, b2])), ws[0], ws[1]);
  }

  /** Single-field `makeMeasure`. */
  method MakeMeasure<V>(b: Binding<V>) returns (r: MeasureObject<V>)
    ensures fresh(r) && r.Value() == Bind(Measurable, [b])
  {
    var result := new ResultReference(Measurable);
    var p := ParseField(b.field, b.parser, result);
    r := SetField(p, b.field, result, b.validSlot, b.invalidSlot);
    BindSingle(Measurable, b);
  }

  /** Single-field `makeUnmeasure`. */
  method MakeUnmeasure<V>(b: Binding<V>) returns (r: MeasureObject<V>)
    ensures fresh(r) && r.Value() == Bind(Unmeasurable, [b])
  {
    var result := new ResultReference(Unmeasurable);
    var p := ParseField(b.field, b.parser, result);
    r := SetField(p, b.field, result, b.validSlot, b.invalidSlot);
    BindSingle(Unmeasurable, b);
  }

  /** Two-field `makeMeasure`: both fields are parsed before either is written. */
  method MakeMeasureOfTwo<V>(b0: Binding<V>, b1: Binding<V>) returns (r: MeasureObject<V>)
    ensures fresh(r) && r.Value() == Bind(Measurable, [b0, b1])
  {
    var result := new ResultReference(Measurable);
    var p0 := ParseField(b0.field, b0.parser, result);
    var p1 := ParseField(b1.field, b1.parser, result);
    var _ := SetField(p0, b0.field, result, b0.validSlot, b0.invalidSlot);
    var _ := SetField(p1, b1.field, result, b1.validSlot, b1.invalidSlot);
    r := result.Get();
    BindingWritesOfTwo(b0, b1);
    ApplyTwo(Empty(Measurable, AllParse([b0, b1])), BindingWrite(b0), BindingWrite(b1));
  }

  /** Three-field `makeMeasure`: all three fields are parsed before any is written. */
  method MakeMeasureOfThree<V>(b0: Binding<V>, b1: Binding<V>, b2: Binding<V>) returns (r: MeasureObject<V>)
    ensures fresh(r) && r.Value() == Bind(Measurable, [b0, b1, b2])
  {
    var result := new ResultReference(Measurable);
    var p0 := ParseField(b0.field, b0.parser, result);
    var p1 := ParseField(b1.field, b1.parser, result);
    var p2 := ParseField(b2.field, b2.parser, result);
    var _ := SetField(p0, b0.field, result, b0.validSlot, b0.invalidSlot);
    var _ := SetField(p1, b1.field, result, b1.validSlot, b1.invalidSlot);
    var _ := SetField(p2, b2.field, result, b2.validSlot, b2.invalidSlot);
    r := result.Get();
    BindingWritesOfThree(b0, b1, b2);
  }

  /** Compound `makeMeasure`: magnitude and influence combined into one value, or attributed per origin. */
  method MakeCompoundMeasure<V>(c: Compound<V>) returns (r: Result<MeasureObject<V>, Fatal>)
    ensures r.Err? <==> CompoundMeasure(c).Err?
    ensures r.Err? ==> r.error == CompoundMeasure(c).error
    ensures r.Ok? ==> fresh(r.value) && r.value.Value() == CompoundMeasure(c).value
  {
    var result := new ResultReference(Measurable);
    var pf := ParseField(c.field, c.fieldParser, result);
    var pi := ParseField(c.influence, c.influenceParser, result);
    if pf.None? || pi.None? {
      var m := SetInvalidCompoundField(pf, c.field, pi, c.influence, result, c.show,
        c.indirectSlot, c.invalidSlot, c.indirectInfluenceSlot, c.invalidInfluenceSlot);
      r := Ok(m);
    } else {
      match c.combiner(pf.value, pi.value)
      case None =>
        r := Err(NullCompound);
      case Some(v) =>
        var m := MakeInfallibleMeasure(true, WriteValue(c.validSlot, v));
        r := Ok(m);
    }
  }

  /** Compound `makeMeasure` with one further plain field, which is parsed and written first. */
  method MakeCompoundMeasureWithField<V>(c: Compound<V>, b: Binding<V>) returns (r: Result<MeasureObject<V>, Fatal>)
    ensures r.Err? <==> CompoundMeasureWithField(c, b).Err?
    ensures r.Err? ==> r.error == CompoundMeasureWithField(c, b).error
    ensures r.Ok? ==> fresh(r.value) && r.value.Value() == CompoundMeasureWithField(c, b).value
  {
    var result := new ResultReference(Measurable);
    var pf := ParseField(c.field, c.fieldParser, result);
    var pi := ParseField(c.influence, c.influenceParser, result);
    var ps := ParseField(b.field, b.parser, result);
    var _ := SetField(ps, b.field, result, b.validSlot, b.invalidSlot);
    if pf.None? || pi.None? {
      var m := SetInvalidCompoundField(pf, c.field, pi, c.influence, result, c.show,
        c.indirectSlot, c.invalidSlot, c.indirectInfluenceSlot, c.invalidInfluenceSlot);
      r := Ok(m);
    } else {
      match c.combiner(pf.value, pi.value)
      case None =>
        r := Err(NullCompound);
      case Some(v) =>
        var target := result.Get();
        var m := AddToInfallibleMeasure(target, WriteValue(c.validSlot, v));
        r := Ok(m);
    }
  }

  // ---------------------------------------------------------------------------
  // Builders that cannot fail: the supplier fixes the class, the setters just run
  // ---------------------------------------------------------------------------

  /** Single-setter `makeInfallibleMeasure`; `valid` is the class the supplier creates. */
  method MakeInfallibleMeasure<V>(valid: bool, w: Write<V>) returns (r: MeasureObject<V>)
    requires TargetOf(w).TextChannel? ==> !valid
    ensures fresh(r) && r.Value() == ApplyWrites(Empty(Measurable, valid), [w])
  {
    r := new MeasureObject(Measurable, valid);
    r.Accept(w);
    ApplyOne(Empty(Measurable, valid), w);
  }

  /** Two-setter `makeInfallibleMeasure`. */
  method MakeInfallibleMeasureOfTwo<V>(valid: bool, w0: Write<V>, w1: Write<V>) returns (r: MeasureObject<V>)
    requires (TargetOf(w0).TextChannel? || TargetOf(w1).TextChannel?) ==> !valid
    ensures fresh(r) && r.Value() == ApplyWrites(Empty(Measurable, valid), [w0, w1])
  {
    r := new MeasureObject(Measurable, valid);
    r.Accept(w0);
    r.Accept(w1);
    ApplyTwo(Empty(Measurable, valid), w0, w1);
  }

  /** Three-setter `makeInfallibleMeasure`. */
  method MakeInfallibleMeasureOfThree<V>(valid: bool, w0: Write<V>, w1: Write<V>, w2: Write<V>) returns (r: MeasureObject<V>)
    requires (TargetOf(w0).TextChannel? || TargetOf(w1).TextChannel? || TargetOf(w2).TextChannel?) ==> !valid
    ensures fresh(r) && r.Value() == ApplyWrites(Empty(Measurable, valid), [w0, w1, w2])
  {
    r := new MeasureObject(Measurable, valid);
    r.Accept(w0);
    r.Accept(w1);
    r.Accept(w2);
    assert [w0, w1, w2][..2] == [w0, w1];
    ApplyTwo(Empty(Measurable, valid), w0, w1);
  }

  /** Four-setter `makeInfallibleMeasure`. */
  method MakeInfallibleMeasureOfFour<V>(valid: bool, w0: Write<V>, w1: Write<V>, w2: Write<V>, w3: Write<V>)
    returns (r: MeasureObject<V>)
    requires (TargetOf(w0).TextChannel? || TargetOf(w1).TextChannel? || TargetOf(w2).TextChannel? || TargetOf(w3).TextChannel?) ==> !valid
    ensures fresh(r) && r.Value() == ApplyWrites(Empty(Measurable, valid), [w0, w1, w2, w3])
  {
    r := new MeasureObject(Measurable, valid);
    r.Accept(w0);
    r.Accept(w1);
    r.Accept(w2);
    r.Accept(w3);
    assert [w0, w1, w2, w3][..3] == [w0, w1, w2];
    assert [w0, w1, w2][..2] == [w0, w1];
    ApplyTwo(Empty(Measurable, valid), w0, w1);
  }

  /** `addToInfallibleMeasure`: one more setter applied to an existing measure, which is returned. */
  method AddToInfallibleMeasure<V>(m: MeasureObject<V>, w: Write<V>) returns (r: MeasureObject<V>)
    requires TargetOf(w).TextChannel? ==> !m.valid
    modifies m
    ensures r == m && m.Value() == ApplyWrite(old(m.Value()), w)
  {
    m.Accept(w);
    r := m;
  }

  /** Single-setter `makeInfallibleUnmeasure`. */
  method MakeInfallibleUnmeasure<V>(valid: bool, w: Write<V>) returns (r: MeasureObject<V>)
    requires TargetOf(w).TextChannel? ==> !valid
    ensures fresh(r) && r.Value() == ApplyWrites(Empty(Unmeasurable, valid), [w])
  {
    r := new MeasureObject(Unmeasurable, valid);
    r.Accept(w);
    ApplyOne(Empty(Unmeasurable, valid), w);
  }

  /** Two-setter `makeInfallibleUnmeasure`. */
  method MakeInfallibleUnmeasureOfTwo<V>(valid: bool, w0: Write<V>, w1: Write<V>) returns (r: MeasureObject<V>)
    requires (TargetOf(w0).TextChannel? || TargetOf(w1).TextChannel?) ==> !valid
    ensures fresh(r) && r.Value() == ApplyWrites(Empty(Unmeasurable, valid), [w0, w1])
  {
    r := new MeasureObject(Unmeasurable, valid);
    r.Accept(w0);
    r.Accept(w1);
    ApplyTwo(Empty(Unmeasurable, valid), w0, w1);
  }

  /** Three-setter `makeInfallibleUnmeasure`. */
  method MakeInfallibleUnmeasureOfThree<V>(valid: bool, w0: Write<V>, w1: Write<V>, w2: Write<V>) returns (r: MeasureObject<V>)
    requires (TargetOf(w0).TextChannel? || TargetOf(w1).TextChannel? || TargetOf(w2).TextChannel?) ==> !valid
    ensures fresh(r) && r.Value() == ApplyWrites(Empty(Unmeasurable, valid), [w0, w1, w2])
  {
    r := new MeasureObject(Unmeasurable, valid);
    r.Accept(w0);
    r.Accept(w1);
    r.Accept(w2);
    assert [w0, w1, w2][..2] == [w0, w1];
    ApplyTwo(Empty(Unmeasurable, valid), w0, w1);
  }

  /** `setValues` gives different keys different setters. */
  predicate InjectiveOn<K(!new)>(setValues: K -> Slot, keys: set<K>)
  {
    forall k, k' :: k in keys && k' in keys && k != k' ==> setValues(k) != setValues(k')
  }

  /**
   * Every key of `keys` that chooses slot `s` parses to a value (`nonNull`) or
   * to `null` (`!nonNull`).
   */
  predicate ChosenOnly<K(!new), F, V>(keys: set<K>, fields: map<K, F>, parser: F -> Option<V>, setValues: K -> Slot,
                                     s: Slot, nonNull: bool)
    requires keys <= fields.Keys
  {
    forall k :: k in keys && setValues(k) == s ==> parser(fields[k]).Some? == nonNull
  }

  /** The setter call the iterator makes for one entry; a `null` parse clears the chosen slot. */
  function EntryWrite<V>(parsed: Option<V>, slot: Slot): Write<V>
  {
    match parsed
    case Some(v) => WriteValue(slot, v)
    case None => Clear(ValueChannel(slot))
  }

  /** What one entry does to the value slots: the parsed value is stored, a `null` parse clears the slot. */
  function EntryValues<V>(values: map<Slot, V>, parsed: Option<V>, slot: Slot): map<Slot, V>
  {
    match parsed
    case Some(v) => values[slot := v]
    case None => values - {slot}
  }

  // What the iterator has done to the value slots once it has taken the keys
  // `done`, starting from `before`, clause by clause.

  /** Only slots chosen so far can have been added. */
  ghost predicate KeysChosen<K(!new), V>(before: map<Slot, V>, after: map<Slot, V>, done: set<K>, setValues: K -> Slot)
  {
    after.Keys <= before.Keys + (set k | k in done :: setValues(k))
  }

  /** A slot no key so far chooses is as it was. */
  ghost predicate OthersKept<K(!new), V>(before: map<Slot, V>, after: map<Slot, V>, done: set<K>, setValues: K -> Slot)
  {
    forall s :: (forall k :: k in done ==> setValues(k) != s) ==>
      (s in after <==> s in before) && (s in before ==> after[s] == before[s])
  }

  /** A slot whose keys so far all parse to values (`nonNull`), or all to `null`, is set, or cleared. */
  ghost predicate AgreeingSlots<K(!new), F, V>(after: map<Slot, V>, done: set<K>, fields: map<K, F>, parser: F -> Option<V>,
                                               setValues: K -> Slot, nonNull: bool)
    requires done <= fields.Keys
  {
    forall k :: k in done && ChosenOnly(done, fields, parser, setValues, setValues(k), nonNull) ==>
      (setValues(k) in after <==> nonNull)
  }

  /** With distinct setters, each slot chosen so far holds exactly its key's parse. */
  ghost predicate HoldsParses<K(!new), F, V>(after: map<Slot, V>, done: set<K>, fields: map<K, F>, parser: F -> Option<V>,
                                             setValues: K -> Slot)
    requires done <= fields.Keys
  {
    InjectiveOn(setValues, fields.Keys) ==> forall k :: k in done ==>
      (parser(fields[k]).Some? <==> setValues(k) in after)
      && (parser(fields[k]).Some? ==> after[setValues(k)] == parser(fields[k]).value)
  }

  ghost predicate Filled<K(!new), F, V>(before: map<Slot, V>, after: map<Slot, V>, done: set<K>,
                                        fields: map<K, F>, parser: F -> Option<V>, setValues: K -> Slot)
    requires done <= fields.Keys
  {
    && KeysChosen(before, after, done, setValues)
    && OthersKept(before, after, done, setValues)
    && AgreeingSlots(after, done, fields, parser, setValues, true)
    && AgreeingSlots(after, done, fields, parser, setValues, false)
    && HoldsParses(after, done, fields, parser, setValues)
  }

  lemma {:induction false} KeysChosenStep<K(!new), V>(before: map<Slot, V>, after: map<Slot, V>, done: set<K>, key: K,
                                                      parsed: Option<V>, setValues: K -> Slot)
    requires KeysChosen(before, after, done, setValues)
    ensures KeysChosen(before, EntryValues(after, parsed, setValues(key)), done + {key}, setValues)
  {
    var after' := EntryValues(after, parsed, setValues(key));
    forall s | s in after' ensures s in before.Keys + (set k | k in done + {key} :: setValues(k)) {
      if s != setValues(key) {
        assert s in after;
      }
    }
  }

  lemma {:induction false} OthersKeptStep<K(!new), V>(before: map<Slot, V>, after: map<Slot, V>, done: set<K>, key: K,
                                                      parsed: Option<V>, setValues: K -> Slot)
    requires OthersKept(before, after, done, setValues)
    ensures OthersKept(before, EntryValues(after, parsed, setValues(key)), done + {key}, setValues)
  {
  }

  lemma {:induction false} AgreeingSlotsStep<K(!new), F, V>(after: map<Slot, V>, done: set<K>, key: K, fields: map<K, F>,
                                                            parser: F -> Option<V>, setValues: K -> Slot, nonNull: bool)
    requires done <= fields.Keys && key in fields
    requires AgreeingSlots(after, done, fields, parser, setValues, nonNull)
    ensures AgreeingSlots(EntryValues(after, parser(fields[key]), setValues(key)), done + {key}, fields, parser, setValues, nonNull)
  {
    var after', done' := EntryValues(after, parser(fields[key]), setValues(key)), done + {key};
    forall k | k in done' && ChosenOnly(done', fields, parser, setValues, setValues(k), nonNull)
      ensures setValues(k) in after' <==> nonNull
    {
      if setValues(k) != setValues(key) {
        assert ChosenOnly(done, fields, parser, setValues, setValues(k), nonNull);
      }
    }
  }

  lemma {:induction false} HoldsParsesStep<K(!new), F, V>(after: map<Slot, V>, done: set<K>, key: K, fields: map<K, F>,
                                                          parser: F -> Option<V>, setValues: K -> Slot)
    requires done <= fields.Keys && key in fields && key !in done
    requires HoldsParses(after, done, fields, parser, setValues)
    ensures HoldsParses(EntryValues(after, parser(fields[key]), setValues(key)), done + {key}, fields, parser, setValues)
  {
  }

  /** Taking one more entry keeps `Filled`. */
  lemma {:induction false} FilledStep<K(!new), F, V>(before: map<Slot, V>, after: map<Slot, V>, done: set<K>, key: K,
                                                     fields: map<K, F>, parser: F -> Option<V>, setValues: K -> Slot)
    requires done <= fields.Keys && key in fields && key !in done
    requires Filled(before, after, done, fields, parser, setValues)
    ensures Filled(before, EntryValues(after, parser(fields[key]), setValues(key)), done + {key}, fields, parser, setValues)
  {
    KeysChosenStep(before, after, done, key, parser(fields[key]), setValues);
    OthersKeptStep(before, after, done, key, parser(fields[key]), setValues);
    AgreeingSlotsStep(after, done, key, fields, parser, setValues, true);
    AgreeingSlotsStep(after, done, key, fields, parser, setValues, false);
    HoldsParsesStep(after, done, key, fields, parser, setValues);
  }

  /**
   * `addToInfallibleMeasureIterator`: for every entry of the map, the setter
   * chosen by its key receives the parsed entry value, which may be `null`. The
   * map's iteration order is unspecified, so the loop takes the entries in an
   * arbitrary order. A slot all of whose keys parse to values ends up set, one all
   * of whose keys parse to `null` ends up cleared, and when different keys choose
   * different setters each slot holds exactly its key's parse.
   */
  method AddToInfallibleMeasureIterator<K(!new), F, V>(m: MeasureObject<V>, fields: map<K, F>, parser: F -> Option<V>,
                                                       setValues: K -> Slot)
    modifies m
    ensures m.texts == old(m.texts)
    ensures m.values.Keys <= old(m.values.Keys) + set k | k in fields :: setValues(k)
    ensures forall s :: (forall k :: k in fields ==> setValues(k) != s) ==>
      (s in m.values <==> s in old(m.values)) && (s in old(m.values) ==> m.values[s] == old(m.values)[s])
    ensures forall k :: k in fields && ChosenOnly(fields.Keys, fields, parser, setValues, setValues(k), true) ==>
      setValues(k) in m.values
    ensures forall k :: k in fields && ChosenOnly(fields.Keys, fields, parser, setValues, setValues(k), false) ==>
      setValues(k) !in m.values
    ensures InjectiveOn(setValues, fields.Keys) ==> forall k :: k in fields ==>
      (parser(fields[k]).Some? <==> setValues(k) in m.values)
      && (parser(fields[k]).Some? ==> m.values[setValues(k)] == parser(fields[k]).value)
  {
    var rest := fields.Keys;
    ghost var done: set<K> := {};
    while rest != {}
      invariant rest + done == fields.Keys && rest !! done
      invariant m.texts == old(m.texts)
      invariant Filled(old(m.values), m.values, done, fields, parser, setValues)
      decreases rest
    {
      var key :| key in rest;
      FilledStep(old(m.values), m.values, done, key, fields, parser, setValues);
      m.Accept(EntryWrite(parser(fields[key]), setValues(key)));
      rest := rest - {key};
      done := done + {key};
    }
  }

  /** `makeInfallibleMeasureIterator`: a fresh measure of the supplier's class, filled from the map. */
  method MakeInfallibleMeasureIterator<K(!new), F, V>(valid: bool, fields: map<K, F>, parser: F -> Option<V>,
                                                      setValues: K -> Slot)
    returns (m: MeasureObject<V>)
    ensures fresh(m) && m.kind == Measurable && m.valid == valid && m.texts == map[]
    ensures m.values.Keys <= set k | k in fields :: setValues(k)
    ensures forall k :: k in fields && ChosenOnly(fields.Keys, fields, parser, setValues, setValues(k), true) ==>
      setValues(k) in m.values
    ensures forall k :: k in fields && ChosenOnly(fields.Keys, fields, parser, setValues, setValues(k), false) ==>
      setValues(k) !in m.values
    ensures InjectiveOn(setValues, fields.Keys) ==> forall k :: k in fields ==>
      (parser(fields[k]).Some? <==> setValues(k) in m.values)
      && (parser(fields[k]).Some? ==> m.values[setValues(k)] == parser(fields[k]).value)
  {
    m := new MeasureObject(Measurable, valid);
    AddToInfallibleMeasureIterator(m, fields, parser, setValues);
  }

  // ---------------------------------------------------------------------------
  // Readers used by the encoder
  // ---------------------------------------------------------------------------

  /**
   * `extractFromMeasure` / `extractFromUnmeasurable`: the valid value through the
   * formatter when it is set, otherwise the text of the invalid slot. Reaching for
   * the invalid slot of a valid-class object is a failed cast; an invalid-class
   * object with neither slot set is an illegal state.
   */
  function Extract<V>(m: Measure<V>, validSlot: Slot, invalidSlot: Slot, format: V -> string): (r: Result<string, Fatal>)
    ensures r.Ok? <==> validSlot in m.values || (!m.valid && invalidSlot in m.texts)
    ensures r.Err? ==> (r.error == ClassCast <==> m.valid) && r.error != NullCompound
    ensures validSlot in m.values ==> r == Ok(format(m.values[validSlot]))
    ensures validSlot !in m.values && r.Ok? ==> r.value == m.texts[invalidSlot]
  {
    if validSlot in m.values then Ok(format(m.values[validSlot]))
    else if m.valid then Err(ClassCast)
    else if invalidSlot in m.texts then Ok(m.texts[invalidSlot])
    else Err(IllegalState)
  }

  /** `isValidOrInvalidFieldSet`: is either channel of the field set? */
  function IsValidOrInvalidFieldSet<V>(m: Measure<V>, validSlot: Slot, invalidSlot: Slot): (r: Result<bool, Fatal>)
    ensures r.Err? <==> validSlot !in m.values && m.valid
    ensures r.Err? ==> r.error == ClassCast
    ensures r.Ok? ==> (r.value <==> validSlot in m.values || invalidSlot in m.texts)
  {
    if validSlot in m.values then Ok(true)
    else if m.valid then Err(ClassCast)
    else Ok(invalidSlot in m.texts)
  }

  /**
   * `extractFromMeasureWithEmptyValidField`: the text of an invalid slot whose
   * field has no valid counterpart; nothing for a measure of the valid class or
   * when that slot is not set.
   */
  function ExtractFromMeasureWithEmptyValidField<V>(m: Measure<V>, invalidSlot: Slot): (r: Option<string>)
    ensures r.Some? <==> !m.valid && invalidSlot in m.texts
    ensures r.Some? ==> r.value == m.texts[invalidSlot]
  {
    if m.valid then None
    else if invalidSlot in m.texts then Some(m.texts[invalidSlot])
    else None
  }

  /** `isValidOrInvalidFieldSet` is exactly the guard under which the extractor returns a text. */
  lemma {:induction false} FieldSetGuardsExtract<V>(m: Measure<V>, validSlot: Slot, invalidSlot: Slot, format: V -> string)
    ensures IsValidOrInvalidFieldSet(m, validSlot, invalidSlot) == Ok(true) <==> Extract(m, validSlot, invalidSlot, format).Ok?
    ensures IsValidOrInvalidFieldSet(m, validSlot, invalidSlot) == Ok(false) <==> Extract(m, validSlot, invalidSlot, format) == Err(IllegalState)
    ensures IsValidOrInvalidFieldSet(m, validSlot, invalidSlot).Err? <==> Extract(m, validSlot, invalidSlot, format) == Err(ClassCast)
  {
  }

  /**
   * Reading back any field of a builder's result never fails: a parsed field
   * comes back through the formatter, a failed one as its raw text, and only a
   * failed one shows up through the empty-valid-field reader.
   */
  lemma {:induction false} ExtractAfterBind<V>(kind: Kind, bs: seq<Binding<V>>, i: nat, format: V -> string)
    requires DistinctSlots(bs) && i < |bs|
    ensures var m := Bind(kind, bs);
      && Extract(m, bs[i].validSlot, bs[i].invalidSlot, format)
           == (match Parsed(bs[i]) case Some(v) => Ok(format(v)) case None => Ok(RawText(bs[i].field)))
      && IsValidOrInvalidFieldSet(m, bs[i].validSlot, bs[i].invalidSlot) == Ok(true)
      && ExtractFromMeasureWithEmptyValidField(m, bs[i].invalidSlot)
           == (if Parsed(bs[i]).None? then Some(RawText(bs[i].field)) else None)
  {
    BindVariant(kind, bs);
    BindFieldOutcome(kind, bs, i);
  }

  /**
   * Decode then encode gives back the field: when the formatter recovers the
   * text every parsed value came from, the extractor returns the raw field (for a
   * null field, the text "null") whether or not the field parsed.
   */
  lemma {:induction false} RoundTripField<V>(kind: Kind, bs: seq<Binding<V>>, i: nat, format: V -> string)
    requires DistinctSlots(bs) && i < |bs|
    requires forall f :: bs[i].parser(f).Some? ==> format(bs[i].parser(f).value) == f
    ensures Extract(Bind(kind, bs), bs[i].validSlot, bs[i].invalidSlot, format) == Ok(RawText(bs[i].field))
  {
    ExtractAfterBind(kind, bs, i, format);
  }
}
