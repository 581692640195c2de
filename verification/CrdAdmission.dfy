/** Admission never rejects a legal value: what the source schema accepts, the converted node admits, on every
    schema whose conversion takes none of the narrowing branches. */
module CrdAdmission {
  import opened JsonSchema
  import opened CrdSchema
  import opened Wrappers

  // ---------------------------------------------------------------------------------------------
  // Object-shaped schemas
  // ---------------------------------------------------------------------------------------------

  /** By its own keywords, `s` leaves room for no null-free value other than an object. */
  ghost predicate ObjectShaped(fuel: nat, defs: Defs, s: Schema)
    decreases fuel
  {
    fuel > 0 && (
      || s.kind == Some(TObject)
      || s.kind == Some(TNull)
      || (s.constant.Some? && s.constant.value.JObj?)
      || (s.enum.Some? && forall i | 0 <= i < |s.enum.value| :: s.enum.value[i].JObj?)
      || (s.ref.Some? && ObjectShaped(fuel - 1, defs, Resolve(defs, s.ref.value)))
      || (s.anyOf.Alts? && forall i | 0 <= i < |s.anyOf.value| :: ObjectShaped(fuel - 1, defs, s.anyOf.value[i]))
      || (s.oneOf.Alts? && forall i | 0 <= i < |s.oneOf.value| :: ObjectShaped(fuel - 1, defs, s.oneOf.value[i])))
  }

  lemma {:induction false} ObjectShapedIsSound(fuel: nat, f: nat, w: World, s: Schema, v: Json)
    requires ObjectShaped(fuel, w.defs, s) && Holds(f, w, s, v) && NullFree(v)
    ensures v.JObj?
    decreases fuel, 0
  {
    if s.ref.Some? && ObjectShaped(fuel - 1, w.defs, Resolve(w.defs, s.ref.value)) {
      ObjectShapedIsSound(fuel - 1, f - 1, w, Resolve(w.defs, s.ref.value), v);
    } else if s.anyOf.Alts? && forall i | 0 <= i < |s.anyOf.value| :: ObjectShaped(fuel - 1, w.defs, s.anyOf.value[i]) {
      SomeObjectShaped(fuel - 1, f - 1, w, s.anyOf.value, v);
    } else if s.oneOf.Alts? && forall i | 0 <= i < |s.oneOf.value| :: ObjectShaped(fuel - 1, w.defs, s.oneOf.value[i]) {
      OneIsSome(f - 1, w, s.oneOf.value, v);
      SomeObjectShaped(fuel - 1, f - 1, w, s.oneOf.value, v);
    }
  }

  lemma OneIsSome(f: nat, w: World, alts: seq<Schema>, v: Json)
    requires OneHolds(f, w, alts, v)
    ensures SomeHolds(f, w, alts, v)
  {}

  lemma {:induction false} SomeObjectShaped(fuel: nat, f: nat, w: World, alts: seq<Schema>, v: Json)
    requires forall i | 0 <= i < |alts| :: ObjectShaped(fuel, w.defs, alts[i])
    requires SomeHolds(f, w, alts, v) && NullFree(v)
    ensures v.JObj?
    decreases fuel, 1
  {
    var i :| 0 <= i < |alts| && Holds(f, w, alts[i], v);
    ObjectShapedIsSound(fuel, f, w, alts[i], v);
  }

  // ---------------------------------------------------------------------------------------------
  // The fragment on which the conversion does not narrow
  // ---------------------------------------------------------------------------------------------

  /** A numeric exclusive bound beside an inclusive one is not below it. */
  predicate BoundsAgree(s: Schema) {
    && (s.minimum.Some? && s.exclusiveMinimum.Some? && s.exclusiveMinimum.value.Limit? ==>
          s.minimum.value <= s.exclusiveMinimum.value.n)
    && (s.maximum.Some? && s.exclusiveMaximum.Some? && s.exclusiveMaximum.value.Limit? ==>
          s.exclusiveMaximum.value.n <= s.maximum.value)
  }

  /** The node itself, whatever its subschemas, is converted without narrowing (last branch of `Convert`). */
  ghost predicate PlainNode(fuel: nat, defs: Defs, s: Schema) {
    && BoundsAgree(s)
    && ((s.kind.None? && !s.preserve) || (IsObjectNode(s) && s.kind != Some(TObject)) ==> ObjectShaped(fuel, defs, s))
  }

  /** The run `Convert(fuel, defs, s, depth)` takes no narrowing branch; under `strict`, neither does it meet a
      node that is silent about the extra fields it allows. */
  ghost predicate Wide(fuel: nat, strict: bool, defs: Defs, s: Schema, depth: nat)
    decreases fuel, 0
  {
    fuel > 0 && (
      if s == Blank then !strict
      else if MarkedPolymorphic(s) then true
      else if s.ref.Some? then Wide(fuel - 1, strict, defs, Resolve(defs, s.ref.value), depth)
      else if depth > MAX_DEPTH then ObjectShaped(fuel, defs, s)
      else if NullableReal(s).Some? then
        var inner := NullableReal(s).value;
        if s.preserve && inner == Blank then true
        else
          && Wide(fuel - 1, strict, defs, inner, depth)
          && (s.preserve ==>
                var n := Convert(fuel - 1, defs, inner, depth);
                (n.Some? && n.value.kind.Some?) || ObjectShaped(fuel, defs, inner))
      else if s.anyOf.Alts? then
        if IsScalarUnion(s.anyOf.value) then
          |s.anyOf.value| == 1 && Wide(fuel - 1, strict, defs, s.anyOf.value[0], depth)
        else WideUnion(fuel, defs, s.anyOf.value)
      else if s.oneOf.Alts? then WideUnion(fuel, defs, s.oneOf.value)
      else if s.extra.ExtraSchema? && s.extra.schema.discriminator.Some? then ObjectShaped(fuel, defs, s)
      else WideOrdinary(fuel - 1, strict, defs, s, depth))
  }

  ghost predicate WideOrdinary(fuel: nat, strict: bool, defs: Defs, s: Schema, depth: nat)
    decreases fuel, 1
  {
    && PlainNode(fuel, defs, s)
    && (IsObjectNode(s) ==>
          && (s.properties.Props? ==>
                forall i | 0 <= i < |s.properties.value| ::
                  Wide(fuel, strict, defs, s.properties.value[i].schema, depth + 1))
          && (s.extra.ExtraSchema? ==> Wide(fuel, strict, defs, s.extra.schema, depth + 1))
          && (strict ==> !s.extra.NoExtra?))
    && (s.kind == Some(TArray) && s.items.Some? ==> Wide(fuel, strict, defs, s.items.value, depth + 1))
  }

  ghost predicate WideUnion(fuel: nat, defs: Defs, alts: seq<Schema>) {
    HasNonObjectAlt(alts) || forall i | 0 <= i < |alts| :: ObjectShaped(fuel, defs, alts[i])
  }

  // ---------------------------------------------------------------------------------------------
  // Admission
  // ---------------------------------------------------------------------------------------------

  lemma PolymorphicAdmits(strict: bool, w: World, d: Option<string>, v: Json)
    ensures Admits(strict, w, Polymorphic.(description := d), v)
    ensures v.JObj? ==> Admits(strict, w, Opaque.(description := d), v)
  {}

  lemma OpenAdmits(strict: bool, w: World, v: Json)
    requires !strict
    ensures Admits(strict, w, Open, v)
  {}

  /** Annotations, a `preserve` marker and a kind the value has do not turn an admitted value away. */
  lemma DecorationAdmits(strict: bool, w: World, n: Node, m: Node, v: Json)
    requires Admits(strict, w, n, v)
    requires n.preserve ==> m.preserve
    requires m.kind.Some? && m.kind != n.kind ==> HasKind(v, m.kind.value)
    requires m == n.(kind := m.kind, preserve := m.preserve, sentinel := m.sentinel,
                     description := m.description, default := m.default)
    ensures Admits(strict, w, m, v)
  {}

  lemma LeafAdmits(fuel: nat, f: nat, w: World, s: Schema, v: Json)
    requires PlainNode(fuel, w.defs, s) && Holds(f, w, s, v) && NullFree(v)
    ensures NodeHolds(w, Leaf(s), v)
    ensures IsObjectNode(s) ==> v.JObj?
  {
    if (s.kind.None? && !s.preserve) || (IsObjectNode(s) && s.kind != Some(TObject)) {
      ObjectShapedIsSound(fuel, f, w, s, v);
    }
  }

  /** `ConvertProps` converts each property in place, keeping names and order. */
  lemma {:induction false} PropsPointwise(fuel: nat, defs: Defs, props: seq<Prop>, depth: nat)
    requires ConvertProps(fuel, defs, props, depth).Some?
    ensures var fields := ConvertProps(fuel, defs, props, depth).value;
      && |fields| == |props|
      && forall i | 0 <= i < |props| ::
           fields[i].name == props[i].name && Convert(fuel, defs, props[i].schema, depth) == Some(fields[i].node)
  {
    if props != [] {
      PropsPointwise(fuel, defs, props[1..], depth);
      var fields := ConvertProps(fuel, defs, props, depth).value;
      forall i | 0 <= i < |props|
        ensures fields[i].name == props[i].name && Convert(fuel, defs, props[i].schema, depth) == Some(fields[i].node)
      {
        if i > 0 {
          assert props[i] == props[1..][i - 1];
        }
      }
    }
  }

  lemma SameNames(props: seq<Prop>, fields: seq<Field>)
    requires |props| == |fields| && forall i | 0 <= i < |props| :: fields[i].name == props[i].name
    ensures PropNames(Props(props)) == FieldNames(Some(fields))
  {
    forall name ensures name in PropNames(Props(props)) <==> name in FieldNames(Some(fields)) {
      if name in PropNames(Props(props)) {
        var i :| 0 <= i < |props| && props[i].name == name;
        assert fields[i].name == name;
      }
      if name in FieldNames(Some(fields)) {
        var i :| 0 <= i < |fields| && fields[i].name == name;
        assert props[i].name == name;
      }
    }
  }

  /** The main result.  Every null-free value that the source schema accepts is admitted by the converted node,
      and under strict field validation no field of it is refused. */
  lemma {:induction false} Admission(g: nat, f: nat, strict: bool, w: World, s: Schema, depth: nat, v: Json)
    requires Convert(g, w.defs, s, depth).Some?
    requires Wide(g, strict, w.defs, s, depth)
    requires Holds(f, w, s, v) && NullFree(v)
    ensures Admits(strict, w, Convert(g, w.defs, s, depth).value, v)
    decreases g, 0
  {
    hide ConvertOrdinary, WideOrdinary, ObjectShaped, NullableReal, LeafHolds, FieldsHold, ItemsHold, Admits;
    if s == Blank {
      OpenAdmits(strict, w, v);
    } else if MarkedPolymorphic(s) {
      PolymorphicAdmits(strict, w, if NonEmpty(s.description) then s.description else None, v);
    } else if s.ref.Some? {
      var target := Resolve(w.defs, s.ref.value);
      Admission(g - 1, f - 1, strict, w, target, depth, v);
      var n := Convert(g - 1, w.defs, target, depth).value;
      DecorationAdmits(strict, w, n, AfterRef(s, n), v);
    } else if depth > MAX_DEPTH {
      ObjectShapedIsSound(g, f, w, s, v);
      PolymorphicAdmits(strict, w, s.description, v);
    } else if NullableReal(s).Some? {
      NullableAdmits(g, f, strict, w, s, depth, v);
    } else if s.anyOf.Alts? {
      if IsScalarUnion(s.anyOf.value) {
        Admission(g - 1, f - 1, strict, w, s.anyOf.value[0], depth, v);
        var n := Convert(g - 1, w.defs, s.anyOf.value[0], depth).value;
        DecorationAdmits(strict, w, n, AfterScalarUnion(s, n), v);
      } else {
        UnionAdmits(g, f, strict, w, s.anyOf.value, s.description, v);
      }
    } else if s.oneOf.Alts? {
      OneIsSome(f - 1, w, s.oneOf.value, v);
      UnionAdmits(g, f, strict, w, s.oneOf.value, s.description, v);
    } else if s.extra.ExtraSchema? && s.extra.schema.discriminator.Some? {
      ObjectShapedIsSound(g, f, w, s, v);
      PolymorphicAdmits(strict, w, s.description, v);
    } else {
      OrdinaryAdmits(g - 1, f, strict, w, s, depth, v);
    }
  }

  lemma UnionAdmits(fuel: nat, f: nat, strict: bool, w: World, alts: seq<Schema>, d: Option<string>, v: Json)
    requires f > 0 && WideUnion(fuel, w.defs, alts) && SomeHolds(f - 1, w, alts, v) && NullFree(v)
    ensures Admits(strict, w, MixedUnion(alts, d), v)
  {
    PolymorphicAdmits(strict, w, d, v);
    if !HasNonObjectAlt(alts) {
      SomeObjectShaped(fuel, f - 1, w, alts, v);
    }
  }

  /** A null-free value that satisfies a union with null satisfies the other alternative. */
  lemma NullFreeTakesReal(f: nat, w: World, s: Schema, v: Json)
    requires NullableReal(s).Some? && Holds(f, w, s, v) && NullFree(v)
    ensures f > 1 && Holds(f - 1, w, NullableReal(s).value, v)
  {
    var i :| 0 <= i < |s.anyOf.value| && Holds(f - 1, w, s.anyOf.value[i], v);
    assert s.anyOf.value[i].kind != Some(TNull);
  }

  lemma {:induction false} NullableAdmits(g: nat, f: nat, strict: bool, w: World, s: Schema, depth: nat, v: Json)
    requires g > 0 && Convert(g, w.defs, s, depth).Some? && Wide(g, strict, w.defs, s, depth)
    requires s != Blank && !MarkedPolymorphic(s) && s.ref.None? && depth <= MAX_DEPTH && NullableReal(s).Some?
    requires Holds(f, w, s, v) && NullFree(v)
    ensures Admits(strict, w, Convert(g, w.defs, s, depth).value, v)
    decreases g - 1, 1
  {
    var inner := NullableReal(s).value;
    var n := Convert(g - 1, w.defs, inner, depth).value;
    var m := AfterNullable(s, inner, n);
    if !(s.preserve && inner == Blank) {
      NullFreeTakesReal(f, w, s, v);
      Admission(g - 1, f - 1, strict, w, inner, depth, v);
      if s.preserve && n.kind.None? {
        ObjectShapedIsSound(g, f - 1, w, inner, v);
      }
      DecorationAdmits(strict, w, n, m, v);
    }
  }

  /** The fields of an object value are admitted by the object branch. */
  lemma {:induction false} ObjectAdmits(g: nat, f: nat, strict: bool, w: World, s: Schema, leaf: Node, depth: nat, v: Json)
    requires ConvertObject(g, w.defs, s, leaf, depth).Some?
    requires leaf.additional.None?
    requires s.properties.Props? ==>
               forall i | 0 <= i < |s.properties.value| ::
                 Wide(g, strict, w.defs, s.properties.value[i].schema, depth + 1)
    requires s.extra.ExtraSchema? ==> Wide(g, strict, w.defs, s.extra.schema, depth + 1)
    requires strict ==> !s.extra.NoExtra?
    requires v.JObj? && FieldsHold(f, w, s, v.fields) && NullFree(v)
    ensures FieldsAdmitted(strict, w, ConvertObject(g, w.defs, s, leaf, depth).value, v)
    decreases g, 1
  {
    hide Convert, Wide, Admits, Holds;
    var n := ConvertObject(g, w.defs, s, leaf, depth).value;
    if s.properties.Props? {
      var props := s.properties.value;
      PropsPointwise(g, w.defs, props, depth + 1);
      var fields := ConvertProps(g, w.defs, props, depth + 1).value;
      SameNames(props, fields);
      forall i | 0 <= i < |fields| && fields[i].name in v.fields
        ensures Admits(strict, w, fields[i].node, v.fields[fields[i].name])
      {
        Admission(g, f, strict, w, props[i].schema, depth + 1, v.fields[props[i].name]);
      }
    }
    assert FieldNames(n.properties) == PropNames(s.properties);
    if s.extra.ExtraSchema? {
      forall key | key in v.fields && key !in PropNames(s.properties)
        ensures Admits(strict, w, Convert(g, w.defs, s.extra.schema, depth + 1).value, v.fields[key])
      {
        Admission(g, f, strict, w, s.extra.schema, depth + 1, v.fields[key]);
      }
      if strict && n.additional.None? {
        NeverOpen(g, w, s.extra.schema, depth + 1);
      }
    }
  }

  /** Under `strict` a run that stays wide never ends in `{}`. */
  lemma {:induction false} NeverOpen(g: nat, w: World, s: Schema, depth: nat)
    requires Convert(g, w.defs, s, depth).Some? && Wide(g, true, w.defs, s, depth)
    ensures var n := Convert(g, w.defs, s, depth).value; n.kind.Some? || n.preserve
    decreases g
  {
    if s == Blank || MarkedPolymorphic(s) {
    } else if s.ref.Some? {
      NeverOpen(g - 1, w, Resolve(w.defs, s.ref.value), depth);
    } else if depth > MAX_DEPTH {
    } else if NullableReal(s).Some? {
      if !(s.preserve && NullableReal(s).value == Blank) {
        NeverOpen(g - 1, w, NullableReal(s).value, depth);
      }
    } else if s.anyOf.Alts? && IsScalarUnion(s.anyOf.value) {
      NeverOpen(g - 1, w, s.anyOf.value[0], depth);
    } else if s.anyOf.NoAlts? && s.oneOf.NoAlts? && !(s.extra.ExtraSchema? && s.extra.schema.discriminator.Some?) {
      OrdinaryHasKind(g - 1, w.defs, s, depth);
    }
  }

  lemma OrdinaryHasKind(g: nat, defs: Defs, s: Schema, depth: nat)
    requires ConvertOrdinary(g, defs, s, depth).Some?
    ensures var n := ConvertOrdinary(g, defs, s, depth).value; n.kind.Some? || n.preserve
  {}

  lemma ObjectNodeHolds(g: nat, w: World, s: Schema, leaf: Node, depth: nat, v: Json)
    requires ConvertObject(g, w.defs, s, leaf, depth).Some?
    requires NodeHolds(w, leaf, v) && LeafHolds(w, s, v) && v.JObj?
    ensures NodeHolds(w, ConvertObject(g, w.defs, s, leaf, depth).value, v)
  {}

  lemma {:induction false} ItemsAdmit(g: nat, f: nat, strict: bool, w: World, inner: Schema, depth: nat, v: Json)
    requires Convert(g, w.defs, inner, depth).Some? && Wide(g, strict, w.defs, inner, depth)
    requires v.JArr? && ItemsHold(f, w, inner, v.elems) && NullFree(v)
    ensures forall i | 0 <= i < |v.elems| :: Admits(strict, w, Convert(g, w.defs, inner, depth).value, v.elems[i])
    decreases g, 1
  {
    forall i | 0 <= i < |v.elems| ensures Admits(strict, w, Convert(g, w.defs, inner, depth).value, v.elems[i]) {
      Admission(g, f, strict, w, inner, depth, v.elems[i]);
    }
  }

  lemma {:induction false} OrdinaryAdmits(g: nat, f: nat, strict: bool, w: World, s: Schema, depth: nat, v: Json)
    requires ConvertOrdinary(g, w.defs, s, depth).Some? && WideOrdinary(g, strict, w.defs, s, depth)
    requires Holds(f, w, s, v) && NullFree(v)
    ensures Admits(strict, w, ConvertOrdinary(g, w.defs, s, depth).value, v)
    decreases g, 2
  {
    LeafAdmits(g, f, w, s, v);
    if IsObjectNode(s) {
      ObjectNodeHolds(g, w, s, Leaf(s), depth, v);
      ObjectAdmits(g, f - 1, strict, w, s, Leaf(s), depth, v);
    } else if s.kind == Some(TArray) && s.items.Some? {
      ItemsAdmit(g, f - 1, strict, w, s.items.value, depth + 1, v);
    } else {
      NoSubschemas(strict, w, s, v);
    }
  }

  lemma NoSubschemas(strict: bool, w: World, s: Schema, v: Json)
    requires NodeHolds(w, Leaf(s), v) && !IsObjectNode(s)
    ensures Admits(strict, w, Leaf(s), v)
  {}

  /** Admission for a whole field: `Convert` starts at depth 0 and its run returned. */
  lemma AdmissionNeverRejects(g: nat, strict: bool, w: World, s: Schema, v: Json)
    requires Convert(g, w.defs, s, 0).Some? && Wide(g, strict, w.defs, s, 0)
    requires Accepts(w, s, v) && NullFree(v)
    ensures Admits(strict, w, Convert(g, w.defs, s, 0).value, v)
  {
    var f: nat :| Settled(f, w, s, v) && Holds(f, w, s, v);
    Admission(g, f, strict, w, s, 0, v);
  }

  // ---------------------------------------------------------------------------------------------
  // Where it narrows: the exact condition in each branch
  // ---------------------------------------------------------------------------------------------

  /** `n` admits every null-free value that `s` accepts. */
  ghost predicate NeverRejects(w: World, s: Schema, n: Node) {
    forall v: Json :: Accepts(w, s, v) && NullFree(v) ==> Admits(false, w, n, v)
  }

  function Sample(kind: Kind): Json {
    match kind
    case TNull => JNull
    case TBoolean => JBool(true)
    case TInteger => JNum(0.0)
    case TNumber => JNum(0.5)
    case TString => JStr("a")
    case TArray => JArr([])
    case TObject => JObj(map[])
  }

  function OfKind(kind: Kind): Schema { Blank.(kind := Some(kind)) }

  lemma KindAccepts(w: World, kind: Kind, v: Json)
    ensures Accepts(w, OfKind(kind), v) <==> HasKind(v, kind)
  {
    assert Settled(1, w, OfKind(kind), v);
    AcceptsIsDecided(1, w, OfKind(kind), v);
  }

  lemma SampleHasKind(kind: Kind)
    ensures HasKind(Sample(kind), kind) && (NullFree(Sample(kind)) <==> kind != TNull)
  {
    assert 0.0.Floor as real == 0.0;
  }

  /** Past the depth limit a plain type survives exactly when it is `object` (or admits no null-free value). */
  lemma PastTheLimitExactly(w: World, kind: Kind, depth: nat)
    requires depth > MAX_DEPTH
    ensures Convert(1, w.defs, OfKind(kind), depth).Some?
    ensures NeverRejects(w, OfKind(kind), Convert(1, w.defs, OfKind(kind), depth).value) <==> kind in {TObject, TNull}
  {
    var n := Convert(1, w.defs, OfKind(kind), depth).value;
    forall v | Accepts(w, OfKind(kind), v) && NullFree(v) ensures kind in {TObject, TNull} ==> Admits(false, w, n, v) {
      KindAccepts(w, kind, v);
    }
    KindAccepts(w, kind, Sample(kind));
    SampleHasKind(kind);
  }

  /** Two kinds: every null-free value of the second is a value of the first. */
  predicate Covers(first: Kind, other: Kind) {
    other == first || other == TNull || (first == TNumber && other == TInteger)
  }

  /** A union of scalar types keeps its first alternative only, so it never rejects exactly when the first
      alternative covers all the others. */
  lemma ScalarUnionExactly(w: World, kinds: seq<Kind>)
    requires |kinds| > 0 && TObject !in kinds && TArray !in kinds
    requires NullableReal(UnionOf(kinds)).None?
    ensures Convert(2, w.defs, UnionOf(kinds), 0) == Some(Open.(kind := Some(kinds[0])))
    ensures NeverRejects(w, UnionOf(kinds), Open.(kind := Some(kinds[0]))) <==>
            forall i | 0 <= i < |kinds| :: Covers(kinds[0], kinds[i])
  {
    var s, n := UnionOf(kinds), Open.(kind := Some(kinds[0]));
    assert s.anyOf.value[0] == OfKind(kinds[0]);
    forall v | Accepts(w, s, v) && NullFree(v) && forall i | 0 <= i < |kinds| :: Covers(kinds[0], kinds[i])
      ensures Admits(false, w, n, v)
    {
      UnionOfAccepts(w, kinds, v);
    }
    if NeverRejects(w, s, n) {
      forall i | 0 <= i < |kinds| ensures Covers(kinds[0], kinds[i]) {
        SampleHasKind(kinds[i]);
        UnionOfAccepts(w, kinds, Sample(kinds[i]));
        assert kinds[i] != TNull ==> Admits(false, w, n, Sample(kinds[i]));
      }
    }
  }

  function UnionOf(kinds: seq<Kind>): Schema {
    Blank.(anyOf := Alts(seq(|kinds|, i requires 0 <= i < |kinds| => OfKind(kinds[i]))))
  }

  lemma UnionOfAccepts(w: World, kinds: seq<Kind>, v: Json)
    ensures Accepts(w, UnionOf(kinds), v) <==> exists i | 0 <= i < |kinds| :: HasKind(v, kinds[i])
  {
    var s := UnionOf(kinds);
    forall i | 0 <= i < |kinds| ensures Settled(1, w, s.anyOf.value[i], v) {}
    assert Settled(2, w, s, v);
    AcceptsIsDecided(2, w, s, v);
    if i :| 0 <= i < |kinds| && HasKind(v, kinds[i]) {
      assert Holds(1, w, s.anyOf.value[i], v);
    }
  }

  /** A numeric exclusive bound replaces no inclusive one, it only makes it strict: right exactly when the
      inclusive bound is not the larger of the two. */
  lemma TwoLowerBoundsExactly(w: World, minimum: real, limit: real)
    ensures var s := OfKind(TNumber).(minimum := Some(minimum), exclusiveMinimum := Some(Limit(limit)));
      Convert(1, w.defs, s, 0).Some? &&
      (NeverRejects(w, s, Convert(1, w.defs, s, 0).value) <==> minimum <= limit)
  {
    var s := OfKind(TNumber).(minimum := Some(minimum), exclusiveMinimum := Some(Limit(limit)));
    var n := Convert(1, w.defs, s, 0).value;
    forall v: Json ensures Accepts(w, s, v) <==> v.JNum? && minimum <= v.n && limit < v.n {
      assert Settled(1, w, s, v);
      AcceptsIsDecided(1, w, s, v);
    }
    assert limit < minimum ==> Accepts(w, s, JNum(minimum)) && !Admits(false, w, n, JNum(minimum));
  }

  /** The same for two upper bounds: right exactly when the inclusive one is not the smaller. */
  lemma TwoUpperBoundsExactly(w: World, maximum: real, limit: real)
    ensures var s := OfKind(TNumber).(maximum := Some(maximum), exclusiveMaximum := Some(Limit(limit)));
      Convert(1, w.defs, s, 0).Some? &&
      (NeverRejects(w, s, Convert(1, w.defs, s, 0).value) <==> limit <= maximum)
  {
    var s := OfKind(TNumber).(maximum := Some(maximum), exclusiveMaximum := Some(Limit(limit)));
    var n := Convert(1, w.defs, s, 0).value;
    forall v: Json ensures Accepts(w, s, v) <==> v.JNum? && v.n <= maximum && v.n < limit {
      assert Settled(1, w, s, v);
      AcceptsIsDecided(1, w, s, v);
    }
    assert maximum < limit ==> Accepts(w, s, JNum(maximum)) && !Admits(false, w, n, JNum(maximum));
  }

  /** An annotated node that is unmarked and typeless. */
  function Typeless(title: string, enum: Option<seq<Json>>): Schema { Blank.(title := Some(title), enum := enum) }

  lemma TypelessAccepts(w: World, title: string, enum: Option<seq<Json>>, v: Json)
    ensures Accepts(w, Typeless(title, enum), v) <==> (enum.Some? ==> v in enum.value)
  {
    assert Settled(1, w, Typeless(title, enum), v);
    AcceptsIsDecided(1, w, Typeless(title, enum), v);
  }

  /** Such a node becomes an object, so it never rejects exactly when an enumeration lists nothing but objects (and
      values with null in them). */
  lemma TypelessLeafExactly(w: World, title: string, enum: Option<seq<Json>>)
    ensures Convert(2, w.defs, Typeless(title, enum), 0) == Some(Opaque.(enum := enum))
    ensures NeverRejects(w, Typeless(title, enum), Opaque.(enum := enum)) <==>
            enum.Some? && forall v | v in enum.value :: v.JObj? || !NullFree(v)
  {
    var s, n := Typeless(title, enum), Opaque.(enum := enum);
    assert s != Blank;
    forall v: Json ensures Accepts(w, s, v) <==> (enum.Some? ==> v in enum.value) {
      TypelessAccepts(w, title, enum, v);
    }
    forall v: Json ensures Admits(false, w, n, v) <==> v.JObj? && (enum.Some? ==> v in enum.value) {}
    if enum.None? {
      assert Accepts(w, s, JBool(true)) && NullFree(JBool(true)) && !Admits(false, w, n, JBool(true));
    }
  }

  /** `T | None`, marked or not. */
  function Nullable(inner: Schema, marked: bool): Schema {
    Blank.(anyOf := Alts([inner, OfKind(TNull)]), preserve := marked)
  }

  /** Null is dropped: an unmarked `T | None` admits it exactly when `T` itself is null. */
  lemma NullIsDroppedExactly(w: World, kind: Kind)
    ensures var s := Nullable(OfKind(kind), false);
      && Accepts(w, s, JNull) && Convert(3, w.defs, s, 0).Some?
      && (Admits(false, w, Convert(3, w.defs, s, 0).value, JNull) <==> kind == TNull)
  {
    NullableTakesNull(w, kind);
    NullableConverts(w, kind);
    hide Accepts, Convert;
  }

  lemma NullableTakesNull(w: World, kind: Kind)
    ensures Accepts(w, Nullable(OfKind(kind), false), JNull)
  {
    var s := Nullable(OfKind(kind), false);
    assert Settled(1, w, s.anyOf.value[0], JNull) && Settled(1, w, s.anyOf.value[1], JNull);
    assert Holds(1, w, s.anyOf.value[1], JNull);
    BareUnion(1, w, s, JNull);
  }

  lemma NullableConverts(w: World, kind: Kind)
    ensures Convert(3, w.defs, Nullable(OfKind(kind), false), 0) == Some(Open.(kind := Some(kind)))
  {
    var s := Nullable(OfKind(kind), false);
    assert NullableReal(s) == Some(OfKind(kind));
    assert Convert(2, w.defs, OfKind(kind), 0) == Some(Open.(kind := Some(kind)));
  }

  lemma NullableAccepts(w: World, kinds: seq<Kind>, v: Json)
    requires NullFree(v)
    ensures Accepts(w, Nullable(UnionOf(kinds), true), v) <==> exists i | 0 <= i < |kinds| :: HasKind(v, kinds[i])
  {
    var inner, s := UnionOf(kinds), Nullable(UnionOf(kinds), true);
    UnionSettles(w, kinds, v);
    UnionOfAccepts(w, kinds, v);
    AcceptsIsDecided(2, w, inner, v);
    NullableHolds(2, w, inner, v);
    AcceptsIsDecided(3, w, s, v);
  }

  lemma UnionSettles(w: World, kinds: seq<Kind>, v: Json)
    ensures Settled(2, w, UnionOf(kinds), v)
  {
    forall i | 0 <= i < |kinds| ensures Settled(1, w, UnionOf(kinds).anyOf.value[i], v) {}
  }

  /** For a value without null a marked nullable union is its other alternative. */
  lemma NullableHolds(f: nat, w: World, inner: Schema, v: Json)
    requires f > 0 && NullFree(v) && Settled(f, w, inner, v)
    ensures Settled(f + 1, w, Nullable(inner, true), v)
    ensures Holds(f + 1, w, Nullable(inner, true), v) <==> Holds(f, w, inner, v)
  {
    var s := Nullable(inner, true);
    var alts := s.anyOf.value;
    assert alts == [inner, OfKind(TNull)];
    NullTakesOnlyNull(f, w, v);
    assert forall i | 0 <= i < 2 :: alts[i] == inner || alts[i] == OfKind(TNull);
    assert alts[0] == inner;
    hide Settled, Holds;
    BareUnion(f, w, s, v);
  }

  lemma NullTakesOnlyNull(f: nat, w: World, v: Json)
    requires f > 0 && v != JNull
    ensures Settled(f, w, OfKind(TNull), v) && !Holds(f, w, OfKind(TNull), v)
  {
    assert !HasKind(v, TNull);
    assert !LeafHolds(w, OfKind(TNull), v);
  }

  /** A node with nothing but a union is settled with its alternatives and holds if one of them does. */
  lemma BareUnion(f: nat, w: World, s: Schema, v: Json)
    requires s.anyOf.Alts? && s == Blank.(anyOf := s.anyOf, preserve := s.preserve) && AltsSettled(f, w, s.anyOf.value, v)
    ensures Settled(f + 1, w, s, v) && (Holds(f + 1, w, s, v) <==> SomeHolds(f, w, s.anyOf.value, v))
  {
    assert v.JObj? ==> FieldsSettled(f, w, s, v.fields) && FieldsHold(f, w, s, v.fields);
    hide AltsSettled, SomeHolds, FieldsSettled, FieldsHold;
    assert LeafHolds(w, s, v);
  }

  /** A marked `T | None` where `T` is itself a union of several kinds converts to a typeless node, which is then made
      an object: it never rejects exactly when `T` has no other kinds than object and null. */
  lemma MarkedNullableExactly(w: World, kinds: seq<Kind>)
    requires |kinds| > 0 && NullableReal(UnionOf(kinds)).None? && !IsScalarUnion(UnionOf(kinds).anyOf.value)
    ensures var s := Nullable(UnionOf(kinds), true);
      Convert(3, w.defs, s, 0).Some? && Convert(3, w.defs, s, 0).value.(sentinel := false) == Opaque &&
      (NeverRejects(w, s, Convert(3, w.defs, s, 0).value) <==> forall kind | kind in kinds :: kind in {TObject, TNull})
  {
    var inner, s := UnionOf(kinds), Nullable(UnionOf(kinds), true);
    assert NullableReal(s) == Some(inner) && inner != Blank;
    assert Convert(2, w.defs, inner, 0) == Some(MixedUnion(inner.anyOf.value, None));
    var n := Convert(3, w.defs, s, 0).value;
    forall v: Json ensures Admits(false, w, n, v) <==> v.JObj? {}
    forall v: Json | NullFree(v)
      ensures Accepts(w, s, v) <==> exists i | 0 <= i < |kinds| :: HasKind(v, kinds[i])
    {
      NullableAccepts(w, kinds, v);
    }
    OnlyObjects(w, s, n, kinds);
  }

  /** An object node fits a union of kinds exactly when the kinds leave room for nothing else. */
  lemma OnlyObjects(w: World, s: Schema, n: Node, kinds: seq<Kind>)
    requires forall v: Json :: Admits(false, w, n, v) <==> v.JObj?
    requires forall v: Json | NullFree(v) :: Accepts(w, s, v) <==> exists i | 0 <= i < |kinds| :: HasKind(v, kinds[i])
    ensures NeverRejects(w, s, n) <==> forall kind | kind in kinds :: kind in {TObject, TNull}
  {
    hide Admits, Accepts;
    if NeverRejects(w, s, n) {
      forall kind | kind in kinds ensures kind in {TObject, TNull} {
        SampleHasKind(kind);
        var i :| 0 <= i < |kinds| && kinds[i] == kind;
        assert kind != TNull ==> Accepts(w, s, Sample(kind)) && Admits(false, w, n, Sample(kind));
      }
    }
    forall v: Json | Accepts(w, s, v) && NullFree(v)
      ensures (forall kind | kind in kinds :: kind in {TObject, TNull}) ==> Admits(false, w, n, v)
    {
      var i :| 0 <= i < |kinds| && HasKind(v, kinds[i]);
      assert kinds[i] in kinds;
    }
  }

  function RefTo(name: string): Schema { Blank.(ref := Some(Ref(true, name))) }

  function RefUnion(names: seq<string>): Schema {
    Blank.(anyOf := Alts(seq(|names|, i requires 0 <= i < |names| => RefTo(names[i]))))
  }

  lemma RefUnionAccepts(w: World, names: seq<string>, kinds: seq<Kind>, v: Json)
    requires |kinds| == |names| && forall i | 0 <= i < |names| :: names[i] in w.defs && w.defs[names[i]] == OfKind(kinds[i])
    ensures Accepts(w, RefUnion(names), v) <==> exists i | 0 <= i < |kinds| :: HasKind(v, kinds[i])
  {
    var s := RefUnion(names);
    forall i | 0 <= i < |names|
      ensures Settled(2, w, s.anyOf.value[i], v) && (Holds(2, w, s.anyOf.value[i], v) <==> HasKind(v, kinds[i]))
    {
      assert Settled(1, w, OfKind(kinds[i]), v) && (Holds(1, w, OfKind(kinds[i]), v) <==> HasKind(v, kinds[i]));
    }
    hide Settled, Holds, LeafHolds;
    BareUnion(2, w, s, v);
    AcceptsIsDecided(3, w, s, v);
  }

  /** A union of references becomes an object whatever they refer to, so it never rejects exactly when every target
      is an object (or null). */
  lemma RefAlternativesExactly(w: World, names: seq<string>, kinds: seq<Kind>)
    requires |names| > 0 && |kinds| == |names|
    requires forall i | 0 <= i < |names| :: names[i] in w.defs && w.defs[names[i]] == OfKind(kinds[i])
    ensures Convert(1, w.defs, RefUnion(names), 0) == Some(Opaque)
    ensures NeverRejects(w, RefUnion(names), Opaque) <==> forall kind | kind in kinds :: kind in {TObject, TNull}
  {
    var s := RefUnion(names);
    assert s.anyOf.value[0] == RefTo(names[0]);
    forall v: Json ensures Admits(false, w, Opaque, v) <==> v.JObj? {}
    forall v: Json | NullFree(v)
      ensures Accepts(w, s, v) <==> exists i | 0 <= i < |kinds| :: HasKind(v, kinds[i])
    {
      RefUnionAccepts(w, names, kinds, v);
    }
    OnlyObjects(w, s, Opaque, kinds);
  }
}
