/**
 * The value side of the field-validity layer: a measure (or unmeasure) as a
 * tagged record, the writes a setter performs on it, and the specification
 * functions that say what the builders in `FieldHandler` produce.
 *
 * A Java measure object of the valid class has only the valid slots; one of the
 * invalid class (a subclass) has both. Here `valid` is that class tag, `values`
 * holds the valid slots that are set and `texts` the invalid (raw-text) slots
 * that are set; a slot that is absent from its map is a Java `null`.
 */
module Measures {
  import opened Wrappers

  /** The name of a property of a measure; a setter or getter is identified by its slot. */
  type Slot = string

  /** `AbstractMeasurableType` (continuous quantity) or `AbstractUnmeasurableType` (code). */
  datatype Kind = Measurable | Unmeasurable

  datatype Measure<V> = Measure(kind: Kind, valid: bool, values: map<Slot, V>, texts: map<Slot, string>)

  /** What a supplier such as `Angle::new` or `InvalidAngle::new` returns: no slot set. */
  function Empty<V>(kind: Kind, valid: bool): Measure<V>
  {
    Measure(kind, valid, map[], map[])
  }

  /** A raw sentence field; `None` is a Java `null`. */
  type RawField = Option<string>

  /** `String.valueOf(field)`: a null field is recorded as the text "null". */
  function RawText(field: RawField): string
  {
    match field
    case None => "null"
    case Some(s) => s
  }

  /**
   * One application of a setter (`BiConsumer.accept`) to a measure: a value into
   * a valid slot, a text into an invalid slot, or a Java `null` into either, which
   * clears it.
   */
  datatype Write<V> = WriteValue(slot: Slot, value: V) | WriteText(slot: Slot, text: string) | Clear(channel: Target)

  /** The slot a write lands in, with its channel. */
  datatype Target = ValueChannel(slot: Slot) | TextChannel(slot: Slot)

  function TargetOf<V>(w: Write<V>): Target
  {
    match w
    case WriteValue(s, _) => ValueChannel(s)
    case WriteText(s, _) => TextChannel(s)
    case Clear(t) => t
  }

  function ApplyWrite<V>(m: Measure<V>, w: Write<V>): Measure<V>
  {
    match w
    case WriteValue(s, v) => m.(values := m.values[s := v])
    case WriteText(s, t) => m.(texts := m.texts[s := t])
    case Clear(ValueChannel(s)) => m.(values := m.values - {s})
    case Clear(TextChannel(s)) => m.(texts := m.texts - {s})
  }

  /** The writes applied one after the other, in sequence order. */
  function ApplyWrites<V>(m: Measure<V>, ws: seq<Write<V>>): Measure<V>
    decreases |ws|
  {
    if ws == [] then m else ApplyWrite(ApplyWrites(m, ws[..|ws| - 1]), ws[|ws| - 1])
  }

  lemma {:induction false} ApplyOne<V>(m: Measure<V>, w: Write<V>)
    ensures ApplyWrites(m, [w]) == ApplyWrite(m, w)
  {
    assert [w][..0] == [];
  }

  lemma {:induction false} ApplyTwo<V>(m: Measure<V>, w0: Write<V>, w1: Write<V>)
    ensures ApplyWrites(m, [w0, w1]) == ApplyWrite(ApplyWrite(m, w0), w1)
  {
    assert [w0, w1][..1] == [w0];
    ApplyOne(m, w0);
  }

  /** The measure `m` carries what `w` wrote. */
  ghost predicate Holds<V>(m: Measure<V>, w: Write<V>)
  {
    match w
    case WriteValue(s, v) => s in m.values && m.values[s] == v
    case WriteText(s, t) => s in m.texts && m.texts[s] == t
    case Clear(ValueChannel(s)) => s !in m.values
    case Clear(TextChannel(s)) => s !in m.texts
  }

  /** No write of `ws` lands in `t`. */
  predicate Untouched<V>(ws: seq<Write<V>>, t: Target)
  {
    forall i :: 0 <= i < |ws| ==> TargetOf(ws[i]) != t
  }

  predicate DistinctTargets<V>(ws: seq<Write<V>>)
  {
    forall i, j :: 0 <= i < j < |ws| ==> TargetOf(ws[i]) != TargetOf(ws[j])
  }

  /** The variant a measure was created as never changes under writes. */
  lemma {:induction false} ApplyWritesKeepsVariant<V>(m: Measure<V>, ws: seq<Write<V>>)
    ensures ApplyWrites(m, ws).kind == m.kind && ApplyWrites(m, ws).valid == m.valid
    decreases |ws|
  {
    if ws != [] {
      ApplyWritesKeepsVariant(m, ws[..|ws| - 1]);
    }
  }

  /** A slot no write touches keeps what it had. */
  lemma {:induction false} ApplyWritesFrame<V>(m: Measure<V>, ws: seq<Write<V>>, s: Slot)
    ensures var r := ApplyWrites(m, ws);
      && (Untouched(ws, ValueChannel(s)) ==>
            (s in r.values <==> s in m.values) && (s in m.values ==> r.values[s] == m.values[s]))
      && (Untouched(ws, TextChannel(s)) ==>
            (s in r.texts <==> s in m.texts) && (s in m.texts ==> r.texts[s] == m.texts[s]))
    decreases |ws|
  {
    if ws != [] {
      var init := ws[..|ws| - 1];
      ApplyWritesFrame(m, init, s);
      assert Untouched(ws, ValueChannel(s)) ==> Untouched(init, ValueChannel(s)) by {
        if Untouched(ws, ValueChannel(s)) {
          forall i | 0 <= i < |init| ensures TargetOf(init[i]) != ValueChannel(s) {
            assert init[i] == ws[i];
          }
        }
      }
      assert Untouched(ws, TextChannel(s)) ==> Untouched(init, TextChannel(s)) by {
        if Untouched(ws, TextChannel(s)) {
          forall i | 0 <= i < |init| ensures TargetOf(init[i]) != TextChannel(s) {
            assert init[i] == ws[i];
          }
        }
      }
    }
  }

  /** Last write wins: the last write to a slot is what the slot holds afterwards. */
  lemma {:induction false} LastWriteWins<V>(m: Measure<V>, ws: seq<Write<V>>, i: nat)
    requires i < |ws|
    requires forall j :: i < j < |ws| ==> TargetOf(ws[j]) != TargetOf(ws[i])
    ensures Holds(ApplyWrites(m, ws), ws[i])
    decreases |ws|
  {
    var init := ws[..|ws| - 1];
    if i < |ws| - 1 {
      forall j | i < j < |init| ensures TargetOf(init[j]) != TargetOf(init[i]) {
        assert init[j] == ws[j] && init[i] == ws[i];
      }
      LastWriteWins(m, init, i);
      assert init[i] == ws[i];
      assert TargetOf(ws[|ws| - 1]) != TargetOf(ws[i]);
    }
  }

  /** With distinct targets every write survives, whatever came before or after it. */
  lemma {:induction false} ApplyWritesAt<V>(m: Measure<V>, ws: seq<Write<V>>, i: nat)
    requires DistinctTargets(ws) && i < |ws|
    ensures Holds(ApplyWrites(m, ws), ws[i])
  {
    LastWriteWins(m, ws, i);
  }

  /** `ws'` lists the writes of `ws` in another order: `p` maps positions of `ws'` to positions of `ws`, `q` is its inverse. */
  ghost predicate Reordering<V>(ws: seq<Write<V>>, ws': seq<Write<V>>, p: seq<nat>, q: seq<nat>)
  {
    && |ws'| == |ws| && |p| == |ws| && |q| == |ws|
    && (forall k :: 0 <= k < |p| ==> p[k] < |ws| && q[p[k]] == k && ws'[k] == ws[p[k]])
    && (forall k :: 0 <= k < |q| ==> q[k] < |ws| && p[q[k]] == k)
  }

  lemma {:induction false} ReorderingKeepsDistinct<V>(ws: seq<Write<V>>, ws': seq<Write<V>>, p: seq<nat>, q: seq<nat>)
    requires Reordering(ws, ws', p, q) && DistinctTargets(ws)
    ensures DistinctTargets(ws')
  {
    forall i, j | 0 <= i < j < |ws'| ensures TargetOf(ws'[i]) != TargetOf(ws'[j]) {
      assert p[i] != p[j] by { assert q[p[i]] == i && q[p[j]] == j; }
      if p[i] < p[j] { assert TargetOf(ws[p[i]]) != TargetOf(ws[p[j]]); }
      else { assert TargetOf(ws[p[j]]) != TargetOf(ws[p[i]]); }
    }
  }

  lemma {:induction false} ReorderingUntouched<V>(ws: seq<Write<V>>, ws': seq<Write<V>>, p: seq<nat>, q: seq<nat>, t: Target)
    requires Reordering(ws, ws', p, q) && Untouched(ws, t)
    ensures Untouched(ws', t)
  {
    forall k | 0 <= k < |ws'| ensures TargetOf(ws'[k]) != t {
      assert ws'[k] == ws[p[k]];
    }
  }

  /** After a reordering of distinct writes, slot `s` reads the same in both channels. */
  lemma {:induction false} ReorderingAgreesOn<V>(m: Measure<V>, ws: seq<Write<V>>, ws': seq<Write<V>>, p: seq<nat>, q: seq<nat>, s: Slot)
    requires Reordering(ws, ws', p, q) && DistinctTargets(ws) && DistinctTargets(ws')
    ensures var r, r' := ApplyWrites(m, ws), ApplyWrites(m, ws');
      && (s in r.values <==> s in r'.values) && (s in r.values ==> r.values[s] == r'.values[s])
      && (s in r.texts <==> s in r'.texts) && (s in r.texts ==> r.texts[s] == r'.texts[s])
  {
    ApplyWritesFrame(m, ws, s);
    ApplyWritesFrame(m, ws', s);
    if !Untouched(ws, ValueChannel(s)) {
      var i :| 0 <= i < |ws| && TargetOf(ws[i]) == ValueChannel(s);
      ApplyWritesAt(m, ws, i);
      assert ws'[q[i]] == ws[i];
      ApplyWritesAt(m, ws', q[i]);
    } else {
      ReorderingUntouched(ws, ws', p, q, ValueChannel(s));
    }
    if !Untouched(ws, TextChannel(s)) {
      var i :| 0 <= i < |ws| && TargetOf(ws[i]) == TextChannel(s);
      ApplyWritesAt(m, ws, i);
      assert ws'[q[i]] == ws[i];
      ApplyWritesAt(m, ws', q[i]);
    } else {
      ReorderingUntouched(ws, ws', p, q, TextChannel(s));
    }
  }

  /** Writes to pairwise distinct slots commute: any reordering of them yields the same measure. */
  lemma {:induction false} ApplyWritesReorder<V>(m: Measure<V>, ws: seq<Write<V>>, ws': seq<Write<V>>, p: seq<nat>, q: seq<nat>)
    requires Reordering(ws, ws', p, q) && DistinctTargets(ws)
    ensures ApplyWrites(m, ws') == ApplyWrites(m, ws)
  {
    var r, r' := ApplyWrites(m, ws), ApplyWrites(m, ws');
    ReorderingKeepsDistinct(ws, ws', p, q);
    assert r.values == r'.values by {
      forall s: Slot | s in r.values || s in r'.values
        ensures s in r.values && s in r'.values && r.values[s] == r'.values[s]
      {
        ReorderingAgreesOn(m, ws, ws', p, q, s);
      }
      SameMaps(r.values, r'.values);
    }
    assert r.texts == r'.texts by {
      forall s: Slot | s in r.texts || s in r'.texts
        ensures s in r.texts && s in r'.texts && r.texts[s] == r'.texts[s]
      {
        ReorderingAgreesOn(m, ws, ws', p, q, s);
      }
      SameMaps(r.texts, r'.texts);
    }
    ApplyWritesKeepsVariant(m, ws);
    ApplyWritesKeepsVariant(m, ws');
  }

  lemma {:induction false} SameMaps<K, W>(a: map<K, W>, b: map<K, W>)
    requires forall k :: k in a || k in b ==> k in a && k in b && a[k] == b[k]
    ensures a == b
  {
  }

  // ---------------------------------------------------------------------------
  // Binding raw fields through parsers (makeMeasure / makeUnmeasure)
  // ---------------------------------------------------------------------------

  /**
   * One field of a builder call: the raw field, its parser (`F -> Optional<P>`),
   * the slot its valid setter writes and the slot its invalid setter writes.
   */
  datatype Binding<V> = Binding(field: RawField, parser: string -> Option<V>, validSlot: Slot, invalidSlot: Slot)

  /** `Optional.ofNullable(field).flatMap(parser)`. */
  function Parse<V>(field: RawField, parser: string -> Option<V>): Option<V>
  {
    match field
    case None => None
    case Some(f) => parser(f)
  }

  function Parsed<V>(b: Binding<V>): Option<V>
  {
    Parse(b.field, b.parser)
  }

  /** The write `setField` performs: the parsed value through the valid setter, else the raw text through the invalid one. */
  function FieldWrite<V>(parsed: Option<V>, field: RawField, validSlot: Slot, invalidSlot: Slot): Write<V>
  {
    match parsed
    case Some(v) => WriteValue(validSlot, v)
    case None => WriteText(invalidSlot, RawText(field))
  }

  function BindingWrite<V>(b: Binding<V>): Write<V>
  {
    FieldWrite(Parsed(b), b.field, b.validSlot, b.invalidSlot)
  }

  function BindingWrites<V>(bs: seq<Binding<V>>): (ws: seq<Write<V>>)
    ensures |ws| == |bs|
  {
    seq(|bs|, i requires 0 <= i < |bs| => BindingWrite(bs[i]))
  }

  predicate AllParse<V>(bs: seq<Binding<V>>)
  {
    forall i :: 0 <= i < |bs| ==> Parsed(bs[i]).Some?
  }

  /** Different fields of one call go to different setters. */
  predicate DistinctSlots<V>(bs: seq<Binding<V>>)
  {
    forall i, j :: 0 <= i < j < |bs| ==> bs[i].validSlot != bs[j].validSlot && bs[i].invalidSlot != bs[j].invalidSlot
  }

  /**
   * What a builder over the fields `bs` returns, as a two-phase pipeline: first
   * every field is parsed, which fixes the variant (valid exactly when all parse);
   * then each field's outcome is written into that one variant, in field order.
   */
  function Bind<V>(kind: Kind, bs: seq<Binding<V>>): Measure<V>
  {
    ApplyWrites(Empty(kind, AllParse(bs)), BindingWrites(bs))
  }

  /** A builder's result is invalid exactly when some field fails to parse. */
  lemma {:induction false} BindVariant<V>(kind: Kind, bs: seq<Binding<V>>)
    ensures Bind(kind, bs).kind == kind
    ensures Bind(kind, bs).valid <==> AllParse(bs)
  {
    ApplyWritesKeepsVariant(Empty(kind, AllParse(bs)), BindingWrites(bs));
  }

  lemma {:induction false} BindingWritesDistinct<V>(bs: seq<Binding<V>>)
    requires DistinctSlots(bs)
    ensures DistinctTargets(BindingWrites(bs))
  {
    var ws := BindingWrites(bs);
    forall i, j | 0 <= i < j < |ws| ensures TargetOf(ws[i]) != TargetOf(ws[j]) {
      assert ws[i] == BindingWrite(bs[i]) && ws[j] == BindingWrite(bs[j]);
    }
  }

  /**
   * Every field is recorded in its own channel, whatever the other fields did:
   * a parsed field's value sits in its valid slot (and its invalid slot stays
   * empty), a failed field's raw text sits in its invalid slot (and its valid
   * slot stays empty).
   */
  lemma {:induction false} BindFieldOutcome<V>(kind: Kind, bs: seq<Binding<V>>, i: nat)
    requires DistinctSlots(bs) && i < |bs|
    ensures var r := Bind(kind, bs);
      match Parsed(bs[i])
      case Some(v) => bs[i].validSlot in r.values && r.values[bs[i].validSlot] == v && bs[i].invalidSlot !in r.texts
      case None => bs[i].invalidSlot in r.texts && r.texts[bs[i].invalidSlot] == RawText(bs[i].field)
                   && bs[i].validSlot !in r.values
  {
    var ws := BindingWrites(bs);
    var m := Empty(kind, AllParse(bs));
    BindingWritesDistinct(bs);
    ApplyWritesAt(m, ws, i);
    assert ws[i] == BindingWrite(bs[i]);
    ApplyWritesFrame(m, ws, bs[i].validSlot);
    ApplyWritesFrame(m, ws, bs[i].invalidSlot);
    if Parsed(bs[i]).Some? {
      forall j | 0 <= j < |ws| ensures TargetOf(ws[j]) != TextChannel(bs[i].invalidSlot) {
        assert ws[j] == BindingWrite(bs[j]);
        if j != i {
          assert bs[j].invalidSlot != bs[i].invalidSlot by {
            if j < i { assert bs[j].invalidSlot != bs[i].invalidSlot; }
          }
        }
      }
    } else {
      forall j | 0 <= j < |ws| ensures TargetOf(ws[j]) != ValueChannel(bs[i].validSlot) {
        assert ws[j] == BindingWrite(bs[j]);
        if j != i {
          assert bs[j].validSlot != bs[i].validSlot by {
            if j < i { assert bs[j].validSlot != bs[i].validSlot; }
          }
        }
      }
    }
  }

  /** Nothing but the fields' own outcomes is recorded. */
  lemma {:induction false} BindNothingElse<V>(kind: Kind, bs: seq<Binding<V>>, s: Slot)
    ensures var r := Bind(kind, bs);
      && (s in r.values ==> exists i :: 0 <= i < |bs| && bs[i].validSlot == s && Parsed(bs[i]).Some?)
      && (s in r.texts ==> exists i :: 0 <= i < |bs| && bs[i].invalidSlot == s && Parsed(bs[i]).None?)
  {
    var ws := BindingWrites(bs);
    var m := Empty(kind, AllParse(bs));
    ApplyWritesFrame(m, ws, s);
    if !Untouched(ws, ValueChannel(s)) {
      var i :| 0 <= i < |ws| && TargetOf(ws[i]) == ValueChannel(s);
      assert ws[i] == BindingWrite(bs[i]);
    }
    if !Untouched(ws, TextChannel(s)) {
      var i :| 0 <= i < |ws| && TargetOf(ws[i]) == TextChannel(s);
      assert ws[i] == BindingWrite(bs[i]);
    }
  }

  /**
   * The order in which a builder takes its fields does not matter: any
   * reordering of fields with distinct setters gives the same measure, and in
   * particular the same variant (fault accumulation is commutative).
   */
  lemma {:induction false} BindReorder<V>(kind: Kind, bs: seq<Binding<V>>, bs': seq<Binding<V>>, p: seq<nat>, q: seq<nat>)
    requires |bs'| == |bs| && |p| == |bs| && |q| == |bs|
    requires forall k :: 0 <= k < |p| ==> p[k] < |bs| && q[p[k]] == k && bs'[k] == bs[p[k]]
    requires forall k :: 0 <= k < |q| ==> q[k] < |bs| && p[q[k]] == k
    requires DistinctSlots(bs)
    ensures Bind(kind, bs') == Bind(kind, bs)
  {
    var ws, ws' := BindingWrites(bs), BindingWrites(bs');
    forall k | 0 <= k < |p| ensures ws'[k] == ws[p[k]] {
      assert ws'[k] == BindingWrite(bs'[k]) && ws[p[k]] == BindingWrite(bs[p[k]]);
    }
    assert Reordering(ws, ws', p, q);
    BindingWritesDistinct(bs);
    assert AllParse(bs') == AllParse(bs) by {
      if AllParse(bs) {
        forall k | 0 <= k < |bs'| ensures Parsed(bs'[k]).Some? { assert bs'[k] == bs[p[k]]; }
      }
      if AllParse(bs') {
        forall k | 0 <= k < |bs| ensures Parsed(bs[k]).Some? { assert bs'[q[k]] == bs[k]; }
      }
    }
    ApplyWritesReorder(Empty(kind, AllParse(bs)), ws, ws', p, q);
  }

  /**
   * The single-field builder: a parsed field gives the valid variant holding the
   * value, a failed (or null) field the invalid variant holding `String.valueOf(field)`.
   */
  lemma {:induction false} BindSingle<V>(kind: Kind, b: Binding<V>)
    ensures Bind(kind, [b]) == match Parsed(b)
      case Some(v) => Measure(kind, true, map[b.validSlot := v], map[])
      case None => Measure(kind, false, map[], map[b.invalidSlot := RawText(b.field)])
  {
    var ws := BindingWrites([b]);
    assert ws == [BindingWrite(b)];
    assert AllParse([b]) == Parsed(b).Some? by {
      assert [b][0] == b;
    }
    ApplyOne(Empty(kind, Parsed(b).Some?), BindingWrite(b));
  }

  // ---------------------------------------------------------------------------
  // Two fields combined into one quantity (the compound makeMeasure)
  // ---------------------------------------------------------------------------

  /** The fatal runtime exceptions the layer throws for broken contracts, never for bad input. */
  datatype Fatal =
    | NullCompound  // NullPointerException: the combiner returned null for two parsed inputs
    | ClassCast     // ClassCastException: a valid-class measure read through the invalid getter
    | IllegalState  // IllegalStateException: neither the valid nor the invalid slot is set

  /**
   * A magnitude field and an influence field (a direction or reference letter),
   * each with its parser, the combiner (`None` is a null result), `String.valueOf`
   * for parsed values, the valid slot of the combined value, and per origin an
   * indirect-invalid slot (the origin parsed, its partner did not) and an invalid
   * slot (the origin's raw text).
   */
  datatype Compound<!V> = Compound(
    field: RawField, fieldParser: string -> Option<V>,
    influence: RawField, influenceParser: string -> Option<V>,
    combiner: (V, V) -> Option<V>, show: V -> string,
    validSlot: Slot,
    indirectSlot: Slot, invalidSlot: Slot,
    indirectInfluenceSlot: Slot, invalidInfluenceSlot: Slot)

  /** Per-origin attribution: the parsed value as indirect-invalid, or the raw text as invalid. */
  function Attribution<V>(parsed: Option<V>, raw: RawField, show: V -> string, indirectSlot: Slot, invalidSlot: Slot): Write<V>
  {
    match parsed
    case Some(v) => WriteText(indirectSlot, show(v))
    case None => WriteText(invalidSlot, RawText(raw))
  }

  function CompoundAttribution<V>(c: Compound<V>): seq<Write<V>>
  {
    [ Attribution(Parse(c.field, c.fieldParser), c.field, c.show, c.indirectSlot, c.invalidSlot),
      Attribution(Parse(c.influence, c.influenceParser), c.influence, c.show, c.indirectInfluenceSlot, c.invalidInfluenceSlot) ]
  }

  /** What the compound builder returns: a fresh valid measure with the combined value, or the attributed invalid one. */
  function CompoundMeasure<V>(c: Compound<V>): Result<Measure<V>, Fatal>
  {
    var pf, pi := Parse(c.field, c.fieldParser), Parse(c.influence, c.influenceParser);
    if pf.None? || pi.None? then Ok(ApplyWrites(Empty(Measurable, false), CompoundAttribution(c)))
    else match c.combiner(pf.value, pi.value)
      case None => Err(NullCompound)
      case Some(v) => Ok(ApplyWrite(Empty(Measurable, true), WriteValue(c.validSlot, v)))
  }

  /** What the compound builder with one further plain field returns; the plain field is written first. */
  function CompoundMeasureWithField<V>(c: Compound<V>, b: Binding<V>): Result<Measure<V>, Fatal>
  {
    var pf, pi := Parse(c.field, c.fieldParser), Parse(c.influence, c.influenceParser);
    var base := ApplyWrite(Empty(Measurable, pf.Some? && pi.Some? && Parsed(b).Some?), BindingWrite(b));
    if pf.None? || pi.None? then Ok(ApplyWrites(base, CompoundAttribution(c)))
    else match c.combiner(pf.value, pi.value)
      case None => Err(NullCompound)
      case Some(v) => Ok(ApplyWrite(base, WriteValue(c.validSlot, v)))
  }

  predicate DistinctAttributionSlots<V>(c: Compound<V>)
  {
    && c.indirectSlot != c.invalidSlot && c.indirectSlot != c.indirectInfluenceSlot
    && c.indirectSlot != c.invalidInfluenceSlot && c.invalidSlot != c.indirectInfluenceSlot
    && c.invalidSlot != c.invalidInfluenceSlot && c.indirectInfluenceSlot != c.invalidInfluenceSlot
  }

  /**
   * The compound result is valid exactly when both origins parse, and then it
   * holds the combined value and nothing else; a null combination of two parsed
   * origins is fatal, never an invalid measure.
   */
  lemma {:induction false} CompoundVariant<V>(c: Compound<V>)
    ensures var pf, pi := Parse(c.field, c.fieldParser), Parse(c.influence, c.influenceParser);
      var r := CompoundMeasure(c);
      && (r.Err? <==> pf.Some? && pi.Some? && c.combiner(pf.value, pi.value).None?)
      && (r.Err? ==> r.error == NullCompound)
      && (r.Ok? ==> r.value.kind == Measurable && (r.value.valid <==> pf.Some? && pi.Some?))
      && (r.Ok? && r.value.valid ==>
            r.value.values == map[c.validSlot := c.combiner(pf.value, pi.value).value] && r.value.texts == map[])
  {
    ApplyWritesKeepsVariant(Empty(Measurable, false), CompoundAttribution(c));
  }

  /**
   * When either origin fails, each origin is attributed independently of the
   * other: its invalid slot is set exactly when it failed (to its raw text) and
   * its indirect-invalid slot exactly when it parsed (to its parsed value). The
   * three failure shapes are therefore told apart by which slots are set.
   */
  lemma {:induction false} CompoundPerOrigin<V>(c: Compound<V>)
    requires DistinctAttributionSlots(c)
    ensures var pf, pi := Parse(c.field, c.fieldParser), Parse(c.influence, c.influenceParser);
      var r := CompoundMeasure(c);
      (pf.None? || pi.None?) ==>
        && r.Ok? && !r.value.valid && r.value.values == map[]
        && (c.invalidSlot in r.value.texts <==> pf.None?)
        && (c.indirectSlot in r.value.texts <==> pf.Some?)
        && (c.invalidInfluenceSlot in r.value.texts <==> pi.None?)
        && (c.indirectInfluenceSlot in r.value.texts <==> pi.Some?)
        && (pf.None? ==> r.value.texts[c.invalidSlot] == RawText(c.field))
        && (pf.Some? ==> r.value.texts[c.indirectSlot] == c.show(pf.value))
        && (pi.None? ==> r.value.texts[c.invalidInfluenceSlot] == RawText(c.influence))
        && (pi.Some? ==> r.value.texts[c.indirectInfluenceSlot] == c.show(pi.value))
        && r.value.texts.Keys <= {c.indirectSlot, c.invalidSlot, c.indirectInfluenceSlot, c.invalidInfluenceSlot}
  {
    var ws := CompoundAttribution(c);
    ApplyTwo(Empty(Measurable, false), ws[0], ws[1]);
  }

  /**
   * With the further plain field: the result is valid exactly when all three
   * fields parse; the plain field's outcome is always recorded; and if only the
   * plain field fails, the result is invalid yet still carries the combined value
   * in the valid slot.
   */
  lemma {:induction false} CompoundWithFieldVariant<V>(c: Compound<V>, b: Binding<V>)
    requires b.validSlot != c.validSlot
    requires b.invalidSlot !in {c.indirectSlot, c.invalidSlot, c.indirectInfluenceSlot, c.invalidInfluenceSlot}
    ensures var pf, pi := Parse(c.field, c.fieldParser), Parse(c.influence, c.influenceParser);
      var r := CompoundMeasureWithField(c, b);
      && (r.Err? <==> pf.Some? && pi.Some? && c.combiner(pf.value, pi.value).None?)
      && (r.Ok? ==> r.value.kind == Measurable && (r.value.valid <==> pf.Some? && pi.Some? && Parsed(b).Some?))
      && (r.Ok? ==> Holds(r.value, BindingWrite(b)))
      && (pf.Some? && pi.Some? && Parsed(b).None? && c.combiner(pf.value, pi.value).Some? ==>
            r.Ok? && !r.value.valid && c.validSlot in r.value.values
            && r.value.values[c.validSlot] == c.combiner(pf.value, pi.value).value)
  {
    var pf, pi := Parse(c.field, c.fieldParser), Parse(c.influence, c.influenceParser);
    var base := ApplyWrite(Empty(Measurable, pf.Some? && pi.Some? && Parsed(b).Some?), BindingWrite(b));
    var ws := CompoundAttribution(c);
    ApplyWritesKeepsVariant(base, ws);
    ApplyTwo(base, ws[0], ws[1]);
  }
}
