/** When rewriting a union of references is exact: if and only if no document fits two variants; for variants that share
    a document apart from the tag, if and only if the tags are distinct and at most one variant may leave its tag out. */
module UnionExactness {
  import opened JsonSchema
  import opened UnionRewrite
  import opened UnionMeaning
  import opened Wrappers

  // ---------------------------------------------------------------------------------------------
  // Documents that several alternatives accept
  // ---------------------------------------------------------------------------------------------

  lemma OneMeansOnlyOne(f: nat, w: World, alts: seq<Schema>, i: nat, j: nat, v: Json)
    requires i < |alts| && j < |alts| && i != j && Holds(f, w, alts[i], v) && Holds(f, w, alts[j], v)
    ensures !OneHolds(f, w, alts, v)
  {
    hide Holds;
  }

  /** A node with only `oneOf` is settled with its alternatives, and holds only if exactly one does. */
  lemma OneOfAlone(f: nat, w: World, alts: seq<Schema>, v: Json)
    requires AltsSettled(f, w, alts, v)
    ensures Settled(f + 1, w, Blank.(oneOf := Alts(alts)), v)
    ensures Holds(f + 1, w, Blank.(oneOf := Alts(alts)), v) ==> OneHolds(f, w, alts, v)
  {
    hide LeafHolds, OneHolds, AltsSettled, FieldsHold;
  }

  /** A document that two alternatives accept is refused by `oneOf`... */
  lemma TwoMatchesRefused(f: nat, w: World, alts: seq<Schema>, i: nat, j: nat, v: Json)
    requires i < |alts| && j < |alts| && i != j
    requires AltsSettled(f, w, alts, v) && Holds(f, w, alts[i], v) && Holds(f, w, alts[j], v)
    ensures !Accepts(w, Blank.(oneOf := Alts(alts)), v)
  {
    hide *;
    var s := Blank.(oneOf := Alts(alts));
    OneMeansOnlyOne(f, w, alts, i, j, v);
    OneOfAlone(f, w, alts, v);
    AcceptsIsDecided(f + 1, w, s, v);
  }

  /** ...and taken by `anyOf`, whatever the discriminator says. */
  lemma AnyMatchTaken(f: nat, w: World, s: Schema, i: nat, v: Json)
    requires s.anyOf.Alts? && s == Blank.(anyOf := s.anyOf, discriminator := s.discriminator)
    requires i < |s.anyOf.value| && AltsSettled(f, w, s.anyOf.value, v) && Holds(f, w, s.anyOf.value[i], v)
    ensures Accepts(w, s, v)
  {
    assert SomeHolds(f, w, s.anyOf.value, v);
    assert v.JObj? ==> FieldsHold(f, w, s, v.fields) && FieldsSettled(f, w, s, v.fields);
    hide SomeHolds, AltsSettled, FieldsHold, FieldsSettled;
    assert Settled(f + 1, w, s, v) && Holds(f + 1, w, s, v);
  }

  // ---------------------------------------------------------------------------------------------
  // Unions of references
  // ---------------------------------------------------------------------------------------------

  /** The alternatives are bare references to definitions tagged by one field. */
  ghost predicate RefUnion(defs: Defs, alts: seq<Schema>) {
    && (forall i | 0 <= i < |alts| :: alts[i] == Blank.(ref := alts[i].ref))
    && Convertible(defs, Blank.(oneOf := Alts(alts)))
  }

  /** The rewriting accepts the same documents. */
  ghost predicate SameDocuments(w: World, s: Schema) {
    forall v: Json :: Accepts(After(w), Fix(w.defs, s), v) <==> Accepts(w, s, v)
  }

  /** Both alternatives accept the document. */
  ghost predicate BothHold(f: nat, w: World, alts: seq<Schema>, i: nat, j: nat, v: Json) {
    i < |alts| && j < |alts| && Holds(f, w, alts[i], v) && Holds(f, w, alts[j], v)
  }

  /** No document fits two alternatives. */
  ghost predicate Exclusive(w: World, alts: seq<Schema>) {
    forall f: nat, i: nat, j: nat, v | AltsSettled(f, w, alts, v) && i != j :: !BothHold(f, w, alts, i, j, v)
  }

  lemma RefIsFixed(defs: Defs, alt: Schema)
    requires alt == Blank.(ref := alt.ref)
    ensures Fix(defs, alt) == alt
  {}

  lemma RefIsGood(defs: Defs, alt: Schema)
    requires alt == Blank.(ref := alt.ref)
    ensures EveryNode(alt, Good(true, defs))
  {}

  /** The rewritten union: the same references, now under `anyOf`. */
  lemma RewrittenUnion(defs: Defs, alts: seq<Schema>)
    requires RefUnion(defs, alts)
    ensures var t := Fix(defs, Blank.(oneOf := Alts(alts)));
      t.anyOf == Alts(alts) && t == Blank.(anyOf := t.anyOf, discriminator := t.discriminator)
  {
    hide AltTag, Mapping;
    var s := Blank.(oneOf := Alts(alts));
    forall i | 0 <= i < |alts| ensures Fix(defs, alts[i]) == alts[i] { RefIsFixed(defs, alts[i]); }
    assert FixUnion(defs, s, Alts(alts)).value == alts;
  }

  /** The references mean the same before and after. */
  lemma RefsKeep(f: nat, w: World, alts: seq<Schema>, v: Json)
    requires RefUnion(w.defs, alts) && EveryDef(w.defs, Good(true, w.defs))
    ensures forall i | 0 <= i < |alts| :: Holds(f, After(w), alts[i], v) <==> Holds(f, w, alts[i], v)
    ensures AltsSettled(f, After(w), alts, v) <==> AltsSettled(f, w, alts, v)
  {
    hide Holds, Settled, Fix, Convertible, EveryDef, After;
    forall i | 0 <= i < |alts|
      ensures Holds(f, After(w), alts[i], v) <==> Holds(f, w, alts[i], v)
      ensures Settled(f, After(w), alts[i], v) <==> Settled(f, w, alts[i], v)
    {
      RefIsFixed(w.defs, alts[i]);
      RefIsGood(w.defs, alts[i]);
      FixKeeps(true, f, w, alts[i], v);
    }
  }

  lemma AnyOfAlone(f: nat, w: World, s: Schema, v: Json)
    requires s.anyOf.Alts? && s == Blank.(anyOf := s.anyOf, discriminator := s.discriminator) && f > 0
    ensures Settled(f, w, s, v) <==> AltsSettled(f - 1, w, s.anyOf.value, v)
    ensures Holds(f, w, s, v) <==> SomeHolds(f - 1, w, s.anyOf.value, v)
  {
    hide SomeHolds, AltsSettled;
  }

  lemma OneOfExactly(f: nat, w: World, alts: seq<Schema>, v: Json)
    requires f > 0
    ensures var s := Blank.(oneOf := Alts(alts));
      && (Settled(f, w, s, v) <==> AltsSettled(f - 1, w, alts, v))
      && (Holds(f, w, s, v) <==> OneHolds(f - 1, w, alts, v))
  {
    hide OneHolds, AltsSettled;
  }

  /** A document that two alternatives accept is refused before the rewriting and accepted after it. */
  lemma TwoVariantsWiden(f: nat, w: World, alts: seq<Schema>, i: nat, j: nat, v: Json)
    requires RefUnion(w.defs, alts) && EveryDef(w.defs, Good(true, w.defs))
    requires i != j && AltsSettled(f, w, alts, v) && BothHold(f, w, alts, i, j, v)
    ensures var s := Blank.(oneOf := Alts(alts)); !Accepts(w, s, v) && Accepts(After(w), Fix(w.defs, s), v)
  {
    hide Holds, Settled, AltsSettled, Fix, Convertible, Accepts, EveryDef, After;
    TwoMatchesRefused(f, w, alts, i, j, v);
    RewrittenUnion(w.defs, alts);
    RefsKeep(f, w, alts, v);
    AnyMatchTaken(f, After(w), Fix(w.defs, Blank.(oneOf := Alts(alts))), i, v);
  }

  lemma ExclusiveSomeIsOne(f: nat, w: World, alts: seq<Schema>, v: Json)
    requires Exclusive(w, alts) && AltsSettled(f, w, alts, v)
    ensures SomeHolds(f, w, alts, v) <==> OneHolds(f, w, alts, v)
  {
    hide Holds, AltsSettled;
    if SomeHolds(f, w, alts, v) {
      var i: nat :| i < |alts| && Holds(f, w, alts[i], v);
      forall j: nat | j < |alts| && j != i ensures !Holds(f, w, alts[j], v) {
        assert !BothHold(f, w, alts, i, j, v);
      }
    }
  }

  /** Rewriting a union of references keeps the accepted documents if and only if no document fits two of them. */
  lemma RefUnionExactly(w: World, alts: seq<Schema>)
    requires RefUnion(w.defs, alts) && EveryDef(w.defs, Good(true, w.defs))
    ensures SameDocuments(w, Blank.(oneOf := Alts(alts))) <==> Exclusive(w, alts)
  {
    var s := Blank.(oneOf := Alts(alts));
    var t := Fix(w.defs, s);
    hide Holds, Settled, AltsSettled, SomeHolds, OneHolds, Fix, RefUnion, EveryDef, After, BothHold;
    if Exclusive(w, alts) {
      RewrittenUnion(w.defs, alts);
      forall v: Json ensures Accepts(After(w), t, v) <==> Accepts(w, s, v) { SameVerdict(w, alts, v); }
    } else {
      var f: nat, i: nat, j: nat, v :| AltsSettled(f, w, alts, v) && i != j && BothHold(f, w, alts, i, j, v);
      TwoVariantsWiden(f, w, alts, i, j, v);
    }
  }

  lemma SameVerdict(w: World, alts: seq<Schema>, v: Json)
    requires RefUnion(w.defs, alts) && EveryDef(w.defs, Good(true, w.defs)) && Exclusive(w, alts)
    ensures var s := Blank.(oneOf := Alts(alts)); Accepts(After(w), Fix(w.defs, s), v) <==> Accepts(w, s, v)
  {
    var s := Blank.(oneOf := Alts(alts));
    var t := Fix(w.defs, s);
    RewrittenUnion(w.defs, alts);
    hide Fix, EveryDef, After, Exclusive;
    if f: nat :| Settled(f, w, s, v) && Holds(f, w, s, v) {
      assert f > 0;
      SameVerdictAt(f, w, alts, t, v);
    }
    if f: nat :| Settled(f, After(w), t, v) && Holds(f, After(w), t, v) {
      assert f > 0;
      SameVerdictAt(f, w, alts, t, v);
    }
  }

  lemma SameVerdictAt(f: nat, w: World, alts: seq<Schema>, t: Schema, v: Json)
    requires RefUnion(w.defs, alts) && EveryDef(w.defs, Good(true, w.defs)) && Exclusive(w, alts) && f > 0
    requires t.anyOf == Alts(alts) && t == Blank.(anyOf := t.anyOf, discriminator := t.discriminator)
    ensures var s := Blank.(oneOf := Alts(alts));
      Settled(f, After(w), t, v) && Holds(f, After(w), t, v) <==> Settled(f, w, s, v) && Holds(f, w, s, v)
  {
    hide Holds, Settled, AltsSettled, OneHolds, RefUnion, EveryDef, After, Exclusive;
    RefsKeep(f - 1, w, alts, v);
    AnyOfAlone(f, After(w), t, v);
    OneOfExactly(f, w, alts, v);
    if AltsSettled(f - 1, w, alts, v) { ExclusiveSomeIsOne(f - 1, w, alts, v); }
  }

  // ---------------------------------------------------------------------------------------------
  // Unions of tagged objects
  // ---------------------------------------------------------------------------------------------

  ghost predicate TaggedUnion(defs: Defs, alts: seq<Schema>) {
    RefUnion(defs, alts) && forall i | 0 <= i < |alts| :: IsObject(defs, alts[i])
  }

  /** The fields with the tag, or without it. */
  function Tagged(fields: map<string, Json>, field: string, value: Option<Json>): Json {
    JObj(if value.Some? then fields[field := value.value] else fields - {field})
  }

  /** The variant has nothing against the fields: it accepts them with its own tag, and without one unless it requires
      one. */
  ghost predicate Fits(f: nat, w: World, alt: Schema, fields: map<string, Json>)
    requires AltTag(w.defs, alt).Some?
  {
    var tag := AltTag(w.defs, alt).value;
    && Holds(f, w, alt, Tagged(fields, tag.field, Some(tag.value)))
    && (!MustCarry(w.defs, alt) ==> Holds(f, w, alt, Tagged(fields, tag.field, None)))
  }

  /** The fields fit both variants, but for the tag. */
  ghost predicate SharedBy(f: nat, w: World, alts: seq<Schema>, i: nat, j: nat, fields: map<string, Json>)
    requires i < |alts| && j < |alts| && AltTag(w.defs, alts[i]).Some? && AltTag(w.defs, alts[j]).Some?
  {
    var tag := AltTag(w.defs, alts[i]).value;
    && Fits(f, w, alts[i], fields) && Fits(f, w, alts[j], fields)
    && AltsSettled(f, w, alts, Tagged(fields, tag.field, Some(tag.value)))
    && AltsSettled(f, w, alts, Tagged(fields, tag.field, None))
  }

  ghost predicate ShareDocument(w: World, alts: seq<Schema>, i: nat, j: nat)
    requires i < |alts| && j < |alts| && AltTag(w.defs, alts[i]).Some? && AltTag(w.defs, alts[j]).Some?
  {
    exists f: nat, fields :: SharedBy(f, w, alts, i, j, fields)
  }

  /** Any two variants share a document apart from the tag. */
  ghost predicate Sharing(w: World, alts: seq<Schema>)
    requires forall i | 0 <= i < |alts| :: AltTag(w.defs, alts[i]).Some?
  {
    forall i, j | 0 <= i < |alts| && 0 <= j < |alts| && i != j ::
      ShareDocument(w, alts, i, j)
  }

  /** Where the definitions' own unions are discriminated, rewriting a union of tagged objects that share documents
      apart from the tag keeps the accepted documents exactly when the union is discriminated too: distinct tags, at
      most one of them optional. */
  lemma TaggedUnionExactly(w: World, alts: seq<Schema>)
    requires TaggedUnion(w.defs, alts) && EveryDef(w.defs, Good(true, w.defs)) && Sharing(w, alts)
    ensures SameDocuments(w, Blank.(oneOf := Alts(alts))) <==> Discriminated(w.defs, alts)
  {
    hide AltTag, IsObject, SameDocuments, MustCarry, EveryDef, SharedBy, BothHold, AltsSettled;
    RefUnionExactly(w, alts);
    if Discriminated(w.defs, alts) {
      DiscriminatedIsExclusive(w, alts);
    } else {
      var i, j :| 0 <= i < |alts| && 0 <= j < |alts| && i != j &&
                  (AltTag(w.defs, alts[i]).value.value == AltTag(w.defs, alts[j]).value.value ||
                   (!MustCarry(w.defs, alts[i]) && !MustCarry(w.defs, alts[j])));
      assert ShareDocument(w, alts, i, j);
      var f: nat, fields :| SharedBy(f, w, alts, i, j, fields);
      var v := Confused(f, w, alts, i, j, fields);
    }
  }

  /** Discriminated variants exclude each other, whatever else they say. */
  lemma DiscriminatedIsExclusive(w: World, alts: seq<Schema>)
    requires RefUnion(w.defs, alts) && Discriminated(w.defs, alts)
    ensures Exclusive(w, alts)
  {
    hide AltTag, IsObject, MustCarry, Holds, AltsSettled;
    forall f: nat, i: nat, j: nat, v | AltsSettled(f, w, alts, v) && i != j ensures !BothHold(f, w, alts, i, j, v) {
      if BothHold(f, w, alts, i, j, v) {
        VariantCarriesTag(f, w, alts[i], v);
        VariantCarriesTag(f, w, alts[j], v);
      }
    }
  }

  /** Two variants with one tag, or without need of one, accept one document. */
  lemma Confused(f: nat, w: World, alts: seq<Schema>, i: nat, j: nat, fields: map<string, Json>) returns (v: Json)
    requires TaggedUnion(w.defs, alts) && i < |alts| && j < |alts| && i != j && SharedBy(f, w, alts, i, j, fields)
    requires AltTag(w.defs, alts[i]).value.value == AltTag(w.defs, alts[j]).value.value ||
             (!MustCarry(w.defs, alts[i]) && !MustCarry(w.defs, alts[j]))
    ensures AltsSettled(f, w, alts, v) && BothHold(f, w, alts, i, j, v)
  {
    hide AltTag, IsObject, MustCarry, Holds, AltsSettled, Tagged;
    var tag, other := AltTag(w.defs, alts[i]).value, AltTag(w.defs, alts[j]).value;
    assert tag.field == other.field;
    v := Tagged(fields, tag.field, if tag.value == other.value then Some(tag.value) else None);
  }

  lemma RequiredIsThere(f: nat, w: World, alt: Schema, name: string, v: Json)
    requires alt.ref.Some? && IsObject(w.defs, alt) && Holds(f, w, alt, v)
    requires var def := Resolve(w.defs, alt.ref.value); def.required.Some? && name in def.required.value
    ensures v.JObj? && name in v.fields
  {
    var def := Resolve(w.defs, alt.ref.value);
    assert Holds(f - 1, w, def, v) && LeafHolds(w, def, v);
    var r :| 0 <= r < |def.required.value| && def.required.value[r] == name;
    assert def.required.value[r] in v.fields;
  }

  lemma ClosedHasNoOther(f: nat, w: World, alt: Schema, name: string, v: Json)
    requires alt.ref.Some? && Holds(f, w, alt, v) && v.JObj?
    requires var def := Resolve(w.defs, alt.ref.value);
      def.extra == ExtraFlag(false) && name !in PropNames(def.properties)
    ensures name !in v.fields
  {
    hide PropNames;
    var def := Resolve(w.defs, alt.ref.value);
    assert Holds(f - 1, w, def, v) && FieldsHold(f - 2, w, def, v.fields);
  }

  /** A variant that is closed and one that requires a property the former does not have share no document: such unions
      are rewritten exactly even without tags that must be there. */
  lemma ClosedVariantsApart(f: nat, w: World, alt: Schema, other: Schema, name: string, v: Json)
    requires alt.ref.Some? && other.ref.Some? && IsObject(w.defs, alt)
    requires var def := Resolve(w.defs, alt.ref.value); def.required.Some? && name in def.required.value
    requires var def := Resolve(w.defs, other.ref.value);
      def.extra == ExtraFlag(false) && name !in PropNames(def.properties)
    ensures !(Holds(f, w, alt, v) && Holds(f, w, other, v))
  {
    hide Holds, Resolve;
    if Holds(f, w, alt, v) {
      RequiredIsThere(f, w, alt, name, v);
      if Holds(f, w, other, v) { ClosedHasNoOther(f, w, other, name, v); }
    }
  }

  // ---------------------------------------------------------------------------------------------
  // Variants that require nothing but their tag
  // ---------------------------------------------------------------------------------------------

  /** The tag's property: the constant and annotations. */
  predicate IsConstant(s: Schema, value: Json) {
    s == Blank.(constant := Some(value), default := s.default, title := s.title, description := s.description)
  }

  /** An object whose only required property, if any, is its tag.  Other properties and what additionalProperties says
      are arbitrary. */
  predicate IsPlain(def: Schema, tag: Tag) {
    && def == Blank.(kind := Some(TObject), properties := def.properties, required := def.required, extra := def.extra,
                     title := def.title, description := def.description)
    && def.properties.Props?
    && (exists i | 0 <= i < |def.properties.value| :: def.properties.value[i].name == tag.field)
    && (forall i | 0 <= i < |def.properties.value| ::
          def.properties.value[i].name == tag.field ==> IsConstant(def.properties.value[i].schema, tag.value))
    && (def.required.Some? ==> forall i | 0 <= i < |def.required.value| :: def.required.value[i] == tag.field)
  }

  lemma ConstantHolds(w: World, s: Schema, value: Json, v: Json)
    requires IsConstant(s, value)
    ensures Settled(1, w, s, v) && (v == value ==> Holds(1, w, s, v))
  {}

  /** A plain variant settles on a document with at most the tag, and accepts it if it has nothing against the tag. */
  lemma PlainOnProbe(w: World, def: Schema, tag: Tag, value: Option<Json>)
    requires IsPlain(def, tag)
    ensures var v := Tagged(map[], tag.field, value);
      && Settled(2, w, def, v)
      && ((if value.Some? then value.value == tag.value
           else def.required.None? || tag.field !in def.required.value) ==> Holds(2, w, def, v))
  {
    var v := Tagged(map[], tag.field, value);
    forall i | 0 <= i < |def.properties.value| && def.properties.value[i].name in v.fields
      ensures Settled(1, w, def.properties.value[i].schema, v.fields[def.properties.value[i].name])
      ensures v.fields[def.properties.value[i].name] == tag.value ==>
                Holds(1, w, def.properties.value[i].schema, v.fields[def.properties.value[i].name])
    {
      ConstantHolds(w, def.properties.value[i].schema, tag.value, v.fields[tag.field]);
    }
    assert tag.field in PropNames(def.properties);
    assert FieldsSettled(1, w, def, v.fields);
  }

  lemma RefOnProbe(w: World, alt: Schema, tag: Tag, value: Option<Json>)
    requires alt.ref.Some? && alt == Blank.(ref := alt.ref)
    requires IsPlain(Resolve(w.defs, alt.ref.value), tag)
    ensures var def, v := Resolve(w.defs, alt.ref.value), Tagged(map[], tag.field, value);
      && Settled(3, w, alt, v)
      && ((if value.Some? then value.value == tag.value
           else def.required.None? || tag.field !in def.required.value) ==> Holds(3, w, alt, v))
  {
    var v := Tagged(map[], tag.field, value);
    PlainOnProbe(w, Resolve(w.defs, alt.ref.value), tag, value);
    assert FieldsSettled(2, w, alt, v.fields) && FieldsHold(2, w, alt, v.fields);
    hide IsPlain, FieldsSettled, FieldsHold, Resolve, Tagged;
  }

  /** Plain variants share the empty document, so for them the exact condition is the discriminated form. */
  lemma PlainVariantsShare(w: World, alts: seq<Schema>)
    requires RefUnion(w.defs, alts)
    requires forall i | 0 <= i < |alts| :: IsPlain(Resolve(w.defs, alts[i].ref.value), AltTag(w.defs, alts[i]).value)
    ensures TaggedUnion(w.defs, alts) && Sharing(w, alts)
  {
    hide AltTag, IsPlain, Settled, Holds, Tagged, Resolve;
    forall i | 0 <= i < |alts| ensures IsObject(w.defs, alts[i]) { PlainIsObject(w.defs, alts[i]); }
    forall i, j | 0 <= i < |alts| && 0 <= j < |alts| && i != j ensures ShareDocument(w, alts, i, j) {
      var tag := AltTag(w.defs, alts[i]).value;
      forall k, value: Option<Json> | 0 <= k < |alts| ensures Settled(3, w, alts[k], Tagged(map[], tag.field, value)) {
        AltHasRef(w.defs, alts[k]);
        RefOnProbe(w, alts[k], AltTag(w.defs, alts[k]).value, value);
      }
      PlainFits(w, alts[i]);
      PlainFits(w, alts[j]);
      assert SharedBy(3, w, alts, i, j, map[]);
    }
  }

  lemma PlainFits(w: World, alt: Schema)
    requires AltTag(w.defs, alt).Some? && alt == Blank.(ref := alt.ref)
    requires IsPlain(Resolve(w.defs, alt.ref.value), AltTag(w.defs, alt).value)
    ensures Fits(3, w, alt, map[])
  {
    hide IsPlain, Holds, Settled, Tagged;
    var tag := AltTag(w.defs, alt).value;
    RefOnProbe(w, alt, tag, Some(tag.value));
    RefOnProbe(w, alt, tag, None);
  }

  lemma PlainIsObject(defs: Defs, alt: Schema)
    requires AltTag(defs, alt).Some? && IsPlain(Resolve(defs, alt.ref.value), AltTag(defs, alt).value)
    ensures IsObject(defs, alt)
  {}

  lemma ConstantIsFixed(defs: Defs, s: Schema, value: Json)
    requires IsConstant(s, value)
    ensures Fix(defs, s) == s
  {}

  /** Rewriting a plain variant leaves a plain variant of the same tag. */
  lemma VariantStays(defs: Defs, def: Schema, tag: Tag)
    requires IsPlain(def, tag)
    ensures IsPlain(Fix(defs, def), tag) && Fix(defs, def).required == def.required
  {
    var fixed := Fix(defs, def);
    forall i | 0 <= i < |def.properties.value| && def.properties.value[i].name == tag.field
      ensures fixed.properties.value[i] == def.properties.value[i]
    {
      ConstantIsFixed(defs, def.properties.value[i].schema, tag.value);
    }
    var i :| 0 <= i < |def.properties.value| && def.properties.value[i].name == tag.field;
    assert fixed.properties.value[i].name == tag.field;
  }

  lemma AltHasRef(defs: Defs, alt: Schema)
    requires AltTag(defs, alt).Some?
    ensures alt.ref.Some?
  {}
}
