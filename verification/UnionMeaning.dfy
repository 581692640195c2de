/** Union rewriting preserves meaning: exactly, when the unions are properly discriminated; by widening only,
    when every `oneOf` is convertible.  A second run changes nothing. */
module UnionMeaning {
  import opened JsonSchema
  import opened UnionRewrite
  import opened Wrappers

  /** Every variant is a tagged object, no two variants share a tag, and at most one may leave its tag out. */
  ghost predicate Discriminated(defs: Defs, alts: seq<Schema>) {
    && (forall i | 0 <= i < |alts| :: AltTag(defs, alts[i]).Some? && IsObject(defs, alts[i]))
    && (forall i, j | 0 <= i < |alts| && 0 <= j < |alts| && i != j ::
          && AltTag(defs, alts[i]).value.value != AltTag(defs, alts[j]).value.value
          && (MustCarry(defs, alts[i]) || MustCarry(defs, alts[j])))
  }

  predicate IsObject(defs: Defs, alt: Schema) {
    alt.ref.Some? && Resolve(defs, alt.ref.value).kind == Some(TObject)
  }

  /** The variant requires its tag field. */
  predicate MustCarry(defs: Defs, alt: Schema)
    requires AltTag(defs, alt).Some?
  {
    var def := Resolve(defs, alt.ref.value);
    def.required.Some? && AltTag(defs, alt).value.field in def.required.value
  }

  /** In the exact mode a converted union is discriminated and overwrites no `anyOf`; in the widening mode every
      `oneOf` is converted. */
  ghost predicate GoodNode(exact: bool, defs: Defs, s: Schema) {
    if exact then Convertible(defs, s) ==> s.anyOf.NoAlts? && Discriminated(defs, s.oneOf.value)
    else s.oneOf.Alts? ==> Convertible(defs, s)
  }

  ghost function Good(exact: bool, defs: Defs): Schema -> bool { s => GoodNode(exact, defs, s) }

  function After(w: World): World { w.(defs := FixDefs(w.defs)) }

  // ---------------------------------------------------------------------------------------------
  // Two discriminated variants exclude each other
  // ---------------------------------------------------------------------------------------------

  lemma {:induction false} TagIsAConstant(props: seq<Prop>, tag: Tag)
    requires FirstConstant(props) == Some(tag) ||
             (tag.field == PRIORITY_FIELD && FindProp(props, PRIORITY_FIELD).Some? &&
              FindProp(props, PRIORITY_FIELD).value.constant == Some(tag.value))
    ensures exists k :: 0 <= k < |props| && props[k].name == tag.field && props[k].schema.constant == Some(tag.value)
  {
    if props[0].name == tag.field && props[0].schema.constant == Some(tag.value) {
    } else {
      TagIsAConstant(props[1..], tag);
      var k :| 0 <= k < |props[1..]| && props[1..][k].name == tag.field && props[1..][k].schema.constant == Some(tag.value);
      assert props[k + 1] == props[1..][k];
    }
  }

  /** A document accepted by a variant is an object; if it has the tag field it has the variant's tag there, and it has
      the field if the variant requires it. */
  lemma VariantCarriesTag(f: nat, w: World, alt: Schema, v: Json)
    requires AltTag(w.defs, alt).Some? && IsObject(w.defs, alt) && Holds(f, w, alt, v)
    ensures var tag := AltTag(w.defs, alt).value;
      && v.JObj? && (MustCarry(w.defs, alt) ==> tag.field in v.fields)
      && (tag.field in v.fields ==> v.fields[tag.field] == tag.value)
  {
    var tag := AltTag(w.defs, alt).value;
    var def := Resolve(w.defs, alt.ref.value);
    var props := def.properties.value;
    TagIsAConstant(props, tag);
    var k :| 0 <= k < |props| && props[k].name == tag.field && props[k].schema.constant == Some(tag.value);
    assert Holds(f - 1, w, def, v) && FieldsHold(f - 2, w, def, v.fields);
    if MustCarry(w.defs, alt) {
      var r :| 0 <= r < |def.required.value| && def.required.value[r] == tag.field;
      assert def.required.value[r] in v.fields;
    }
    assert tag.field in v.fields ==> Holds(f - 2, w, props[k].schema, v.fields[props[k].name]);
  }

  /** For a discriminated union "some" and "exactly one" are the same, at every fuel. */
  lemma SomeIsOne(f: nat, w: World, alts: seq<Schema>, v: Json)
    requires Discriminated(w.defs, alts)
    requires forall i | 0 <= i < |alts| :: AltTag(w.defs, alts[i]).value.field == AltTag(w.defs, alts[0]).value.field
    ensures SomeHolds(f, w, alts, v) <==> OneHolds(f, w, alts, v)
  {
    if SomeHolds(f, w, alts, v) {
      var i :| 0 <= i < |alts| && Holds(f, w, alts[i], v);
      VariantCarriesTag(f, w, alts[i], v);
      forall j | 0 <= j < |alts| && j != i ensures !Holds(f, w, alts[j], v) {
        if Holds(f, w, alts[j], v) {
          hide Holds, TagOf;
          VariantCarriesTag(f, w, alts[j], v);
        }
      }
    }
  }

  // ---------------------------------------------------------------------------------------------
  // The whole pass
  // ---------------------------------------------------------------------------------------------

  /** What the rewriting of `s` to `t` keeps at a given fuel. */
  ghost predicate Keeps(exact: bool, f: nat, w: World, s: Schema, v: Json) {
    var t := Fix(w.defs, s);
    && (Settled(f, w, s, v) ==> Settled(f, After(w), t, v))
    && (Holds(f, w, s, v) ==> Holds(f, After(w), t, v))
    && (exact ==> (Settled(f, After(w), t, v) ==> Settled(f, w, s, v)))
    && (exact ==> (Holds(f, After(w), t, v) ==> Holds(f, w, s, v)))
  }

  ghost predicate AllGood(exact: bool, w: World, s: Schema) {
    EveryNode(s, Good(exact, w.defs)) && EveryDef(w.defs, Good(exact, w.defs))
  }

  lemma {:induction false} FixKeeps(exact: bool, f: nat, w: World, s: Schema, v: Json)
    requires AllGood(exact, w, s)
    ensures Keeps(exact, f, w, s, v)
    decreases f, 1
  {
    hide LeafHolds, SomeHolds, OneHolds, FieldsHold, ItemsHold, AltsSettled, FieldsSettled, ItemsSettled, FixUnion, FixProps;
    hide UnionsHold, UnionsSettled;
    FixByParts(w.defs, s);
    hide Fix, FixNode;
    NodeKeepsRef(w.defs, s);
    if f > 0 {
      if s.ref.Some? { RefKeeps(exact, f - 1, w, s.ref.value, v); }
      UnionsKeep(exact, f - 1, w, s, v);
      if v.JObj? { FieldsKeep(exact, f - 1, w, s, v.fields); }
      if v.JArr? && s.items.Some? { ItemsKeep(exact, f - 1, w, s.items.value, v.elems); }
      LeafKeeps(w, s, v);
      SettledByParts(f, w, s, v);
      SettledByParts(f, After(w), Fix(w.defs, s), v);
      HoldsByParts(f, w, s, v);
      HoldsByParts(f, After(w), Fix(w.defs, s), v);
    }
  }

  lemma NodeKeepsRef(defs: Defs, s: Schema)
    ensures FixNode(defs, s).ref == s.ref
  {}

  lemma LeafKeeps(w: World, s: Schema, v: Json)
    ensures LeafHolds(After(w), Fix(w.defs, s), v) == LeafHolds(w, s, v)
  {
    var t := Fix(w.defs, s);
    assert t == s.(anyOf := t.anyOf, oneOf := t.oneOf, discriminator := t.discriminator, properties := t.properties,
                   extra := t.extra, items := t.items);
    hide Fix;
  }

  lemma HoldsByParts(f: nat, w: World, s: Schema, v: Json)
    requires f > 0
    ensures Holds(f, w, s, v) <==>
            && LeafHolds(w, s, v)
            && (s.ref.Some? ==> Holds(f - 1, w, Resolve(w.defs, s.ref.value), v))
            && UnionsHold(f - 1, w, s, v)
            && (v.JObj? ==> FieldsHold(f - 1, w, s, v.fields))
            && (v.JArr? && s.items.Some? ==> ItemsHold(f - 1, w, s.items.value, v.elems))
  {}

  lemma SettledByParts(f: nat, w: World, s: Schema, v: Json)
    requires f > 0
    ensures Settled(f, w, s, v) <==>
            && (s.ref.Some? ==> Settled(f - 1, w, Resolve(w.defs, s.ref.value), v))
            && UnionsSettled(f - 1, w, s, v)
            && (v.JObj? ==> FieldsSettled(f - 1, w, s, v.fields))
            && (v.JArr? && s.items.Some? ==> ItemsSettled(f - 1, w, s.items.value, v.elems))
  {}

  lemma {:induction false} RefKeeps(exact: bool, f: nat, w: World, ref: Ref, v: Json)
    requires EveryDef(w.defs, Good(exact, w.defs))
    ensures Keeps(exact, f, w, Resolve(w.defs, ref), v)
    ensures Resolve(After(w).defs, ref) == Fix(w.defs, Resolve(w.defs, ref))
    decreases f, 2
  {
    BlankIsGood(exact, w.defs);
    FixKeeps(exact, f, w, Resolve(w.defs, ref), v);
  }

  lemma BlankIsGood(exact: bool, defs: Defs)
    ensures EveryNode(Blank, Good(exact, defs))
  {}

  ghost predicate UnionsHold(f: nat, w: World, s: Schema, v: Json) {
    && (s.anyOf.Alts? ==> SomeHolds(f, w, s.anyOf.value, v))
    && (s.oneOf.Alts? ==> OneHolds(f, w, s.oneOf.value, v))
  }

  ghost predicate UnionsSettled(f: nat, w: World, s: Schema, v: Json) {
    && (s.anyOf.Alts? ==> AltsSettled(f, w, s.anyOf.value, v))
    && (s.oneOf.Alts? ==> AltsSettled(f, w, s.oneOf.value, v))
  }

  lemma {:induction false} UnionsKeep(exact: bool, f: nat, w: World, s: Schema, v: Json)
    requires AllGood(exact, w, s)
    ensures var t := Fix(w.defs, s);
      && (UnionsSettled(f, w, s, v) ==> UnionsSettled(f, After(w), t, v))
      && (UnionsHold(f, w, s, v) ==> UnionsHold(f, After(w), t, v))
      && (exact ==> (UnionsSettled(f, After(w), t, v) ==> UnionsSettled(f, w, s, v)))
      && (exact ==> (UnionsHold(f, After(w), t, v) ==> UnionsHold(f, w, s, v)))
    decreases f, 3
  {
    hide Holds, Settled, SomeHolds, OneHolds, AltsSettled, Discriminated, After, EveryDef, TagOf, Mapping;
    assert GoodNode(exact, w.defs, s) by { assert Good(exact, w.defs)(s); }
    if s.anyOf.Alts? { AltsKeep(exact, f, w, s, s.anyOf, v); }
    if s.oneOf.Alts? { AltsKeep(exact, f, w, s, s.oneOf, v); }
    if Convertible(w.defs, s) && exact { SomeIsOne(f, w, s.oneOf.value, v); }
  }

  lemma {:induction false} AltsKeep(exact: bool, f: nat, w: World, parent: Schema, union: Union, v: Json)
    requires union.Alts? && (union == parent.anyOf || union == parent.oneOf)
    requires AllGood(exact, w, parent)
    ensures AltsAgree(exact, f, w, union.value, FixUnion(w.defs, parent, union).value, v)
    decreases f, 2
  {
    hide Holds, Settled, SomeHolds, OneHolds, AltsSettled, Fix, FixNode, After, GoodNode;
    var u, alts, fixed := After(w), union.value, FixUnion(w.defs, parent, union).value;
    assert forall i | 0 <= i < |alts| :: fixed[i] == Fix(w.defs, alts[i]);
    forall i | 0 <= i < |alts|
      ensures Holds(f, w, alts[i], v) ==> Holds(f, u, fixed[i], v)
      ensures Settled(f, w, alts[i], v) ==> Settled(f, u, fixed[i], v)
    {
      FixKeeps(exact, f, w, alts[i], v);
    }
    Transfers(f, w, u, alts, fixed, v);
    if exact {
      forall i | 0 <= i < |alts|
        ensures Holds(f, u, fixed[i], v) ==> Holds(f, w, alts[i], v)
        ensures Settled(f, u, fixed[i], v) ==> Settled(f, w, alts[i], v)
      {
        FixKeeps(exact, f, w, alts[i], v);
      }
      Transfers(f, u, w, fixed, alts, v);
      OneTransfers(f, w, u, alts, fixed, v);
      OneTransfers(f, u, w, fixed, alts, v);
    }
  }

  ghost predicate AltsAgree(exact: bool, f: nat, w: World, alts: seq<Schema>, fixed: seq<Schema>, v: Json) {
    && (AltsSettled(f, w, alts, v) ==> AltsSettled(f, After(w), fixed, v))
    && (SomeHolds(f, w, alts, v) ==> SomeHolds(f, After(w), fixed, v))
    && (OneHolds(f, w, alts, v) ==> SomeHolds(f, After(w), fixed, v))
    && (exact ==> (AltsSettled(f, After(w), fixed, v) ==> AltsSettled(f, w, alts, v)))
    && (exact ==> (SomeHolds(f, After(w), fixed, v) ==> SomeHolds(f, w, alts, v)))
    && (exact ==> (OneHolds(f, After(w), fixed, v) <==> OneHolds(f, w, alts, v)))
  }

  lemma Transfers(f: nat, w: World, u: World, alts: seq<Schema>, other: seq<Schema>, v: Json)
    requires |other| == |alts|
    requires forall i | 0 <= i < |alts| :: Holds(f, w, alts[i], v) ==> Holds(f, u, other[i], v)
    requires forall i | 0 <= i < |alts| :: Settled(f, w, alts[i], v) ==> Settled(f, u, other[i], v)
    ensures SomeHolds(f, w, alts, v) ==> SomeHolds(f, u, other, v)
    ensures OneHolds(f, w, alts, v) ==> SomeHolds(f, u, other, v)
    ensures AltsSettled(f, w, alts, v) ==> AltsSettled(f, u, other, v)
  {}

  lemma OneTransfers(f: nat, w: World, u: World, alts: seq<Schema>, other: seq<Schema>, v: Json)
    requires |other| == |alts|
    requires forall i | 0 <= i < |alts| :: Holds(f, w, alts[i], v) ==> Holds(f, u, other[i], v)
    requires forall i | 0 <= i < |alts| :: Holds(f, u, other[i], v) ==> Holds(f, w, alts[i], v)
    ensures OneHolds(f, w, alts, v) ==> OneHolds(f, u, other, v)
  {
    if OneHolds(f, w, alts, v) {
      var i :| 0 <= i < |alts| && Holds(f, w, alts[i], v) &&
               forall j | 0 <= j < |alts| && j != i :: !Holds(f, w, alts[j], v);
      forall j | 0 <= j < |other| && j != i ensures !Holds(f, u, other[j], v) {
        assert !Holds(f, w, alts[j], v);
      }
    }
  }

  lemma {:induction false} FieldsKeep(exact: bool, f: nat, w: World, s: Schema, fields: map<string, Json>)
    requires AllGood(exact, w, s)
    ensures var t := Fix(w.defs, s);
      && (FieldsSettled(f, w, s, fields) ==> FieldsSettled(f, After(w), t, fields))
      && (FieldsHold(f, w, s, fields) ==> FieldsHold(f, After(w), t, fields))
      && (exact ==> (FieldsSettled(f, After(w), t, fields) ==> FieldsSettled(f, w, s, fields)))
      && (exact ==> (FieldsHold(f, After(w), t, fields) ==> FieldsHold(f, w, s, fields)))
    decreases f, 2
  {
    var t := Fix(w.defs, s);
    if s.properties.Props? {
      forall i | 0 <= i < |s.properties.value| && s.properties.value[i].name in fields
        ensures Keeps(exact, f, w, s.properties.value[i].schema, fields[s.properties.value[i].name])
      {
        FixKeeps(exact, f, w, s.properties.value[i].schema, fields[s.properties.value[i].name]);
      }
      assert forall i | 0 <= i < |s.properties.value| :: t.properties.value[i].name == s.properties.value[i].name;
    }
    assert PropNames(t.properties) == PropNames(s.properties) by {
      if s.properties.Props? { SamePropNames(s.properties.value, t.properties.value); }
    }
    if s.extra.ExtraSchema? {
      forall key | key in fields ensures Keeps(exact, f, w, s.extra.schema, fields[key]) {
        FixKeeps(exact, f, w, s.extra.schema, fields[key]);
      }
    }
  }

  lemma SamePropNames(props: seq<Prop>, fixed: seq<Prop>)
    requires |props| == |fixed| && forall i | 0 <= i < |props| :: fixed[i].name == props[i].name
    ensures PropNames(Props(fixed)) == PropNames(Props(props))
  {
    assert forall i | 0 <= i < |props| :: props[i].name == fixed[i].name;
  }

  lemma {:induction false} ItemsKeep(exact: bool, f: nat, w: World, inner: Schema, elems: seq<Json>)
    requires AllGood(exact, w, inner)
    ensures var t := Fix(w.defs, inner);
      && (ItemsSettled(f, w, inner, elems) ==> ItemsSettled(f, After(w), t, elems))
      && (ItemsHold(f, w, inner, elems) ==> ItemsHold(f, After(w), t, elems))
      && (exact ==> (ItemsSettled(f, After(w), t, elems) ==> ItemsSettled(f, w, inner, elems)))
      && (exact ==> (ItemsHold(f, After(w), t, elems) ==> ItemsHold(f, w, inner, elems)))
    decreases f, 2
  {
    forall i | 0 <= i < |elems| ensures Keeps(exact, f, w, inner, elems[i]) {
      FixKeeps(exact, f, w, inner, elems[i]);
    }
  }

  /** Properly discriminated unions: the rewritten schema accepts exactly the same documents. */
  lemma RewritingIsExact(w: World, s: Schema, v: Json)
    requires AllGood(true, w, s)
    ensures Accepts(After(w), Fix(w.defs, s), v) <==> Accepts(w, s, v)
  {
    if Accepts(w, s, v) {
      var f: nat :| Settled(f, w, s, v) && Holds(f, w, s, v);
      FixKeeps(true, f, w, s, v);
    }
    if Accepts(After(w), Fix(w.defs, s), v) {
      var f: nat :| Settled(f, After(w), Fix(w.defs, s), v) && Holds(f, After(w), Fix(w.defs, s), v);
      FixKeeps(true, f, w, s, v);
    }
  }

  /** Every `oneOf` convertible: the pass only widens. */
  lemma RewritingOnlyWidens(w: World, s: Schema, v: Json)
    requires AllGood(false, w, s)
    requires Accepts(w, s, v)
    ensures Accepts(After(w), Fix(w.defs, s), v)
  {
    var f: nat :| Settled(f, w, s, v) && Holds(f, w, s, v);
    FixKeeps(false, f, w, s, v);
  }
}
