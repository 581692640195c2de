/** The converse of admission: on schemas without widening branches, what the API server admits under the converted
    node the source schema accepts.  Together the two make the conversion exact. */
module CrdExactness {
  import opened JsonSchema
  import opened CrdSchema
  import opened CrdAdmission
  import opened Wrappers

  // ---------------------------------------------------------------------------------------------
  // The fragment on which the conversion does not widen
  // ---------------------------------------------------------------------------------------------

  /** No keyword of the node looks into a subschema. */
  predicate Childless(s: Schema) {
    s.ref.None? && s.anyOf.NoAlts? && s.oneOf.NoAlts? && s.properties.NoProps? && !s.extra.ExtraSchema? && s.items.None?
  }

  /** A reference, or a union, without other assertions beside it; the conversion would drop them. */
  predicate OnlyRef(s: Schema) {
    s == Blank.(ref := s.ref, default := s.default, title := s.title, description := s.description)
  }

  predicate OnlyUnion(s: Schema) {
    s == Blank.(anyOf := s.anyOf, default := s.default, title := s.title, description := s.description)
  }

  /** An inclusive bound beside a numeric exclusive one is not the weaker of the two. */
  predicate BoundsKept(s: Schema) {
    && (s.minimum.Some? && s.exclusiveMinimum.Some? && s.exclusiveMinimum.value.Limit? ==>
          s.exclusiveMinimum.value.n <= s.minimum.value)
    && (s.maximum.Some? && s.exclusiveMaximum.Some? && s.exclusiveMaximum.value.Limit? ==>
          s.maximum.value <= s.exclusiveMaximum.value.n)
  }

  /** The run `Convert(fuel, defs, s, depth)` takes no widening branch. */
  ghost predicate Tight(fuel: nat, defs: Defs, s: Schema, depth: nat)
    decreases fuel, 0
  {
    fuel > 0 && (
      if s == Blank then true
      else if MarkedPolymorphic(s) then false
      else if s.ref.Some? then OnlyRef(s) && Tight(fuel - 1, defs, Resolve(defs, s.ref.value), depth)
      else if depth > MAX_DEPTH then false
      else if NullableReal(s).Some? then
        var inner := NullableReal(s).value;
        && OnlyUnion(s) && Tight(fuel - 1, defs, inner, depth)
        && forall i | 0 <= i < |s.anyOf.value| :: s.anyOf.value[i] == inner || Childless(s.anyOf.value[i])
      else if s.anyOf.Alts? then
        && OnlyUnion(s) && IsScalarUnion(s.anyOf.value) && Tight(fuel - 1, defs, s.anyOf.value[0], depth)
        && forall i | 0 < i < |s.anyOf.value| :: Childless(s.anyOf.value[i])
      else if s.oneOf.Alts? then false
      else if s.extra.ExtraSchema? && s.extra.schema.discriminator.Some? then false
      else TightOrdinary(fuel - 1, defs, s, depth))
  }

  ghost predicate TightOrdinary(fuel: nat, defs: Defs, s: Schema, depth: nat)
    decreases fuel, 1
  {
    && !s.preserve && s.kind.Some? && (s.constant.None? || s.enum.None?) && BoundsKept(s)
    && (s.properties.Props? ==> s.kind == Some(TObject))
    && (s.kind == Some(TObject) ==>
          && (s.properties.Props? ==>
                forall i | 0 <= i < |s.properties.value| :: Tight(fuel, defs, s.properties.value[i].schema, depth + 1))
          && (s.extra.ExtraSchema? ==> Tight(fuel, defs, s.extra.schema, depth + 1)))
    && (s.kind == Some(TArray) && s.items.Some? ==> Tight(fuel, defs, s.items.value, depth + 1))
  }

  // ---------------------------------------------------------------------------------------------
  // What is admitted is accepted
  // ---------------------------------------------------------------------------------------------

  /** Followed to its end within the budget, and accepted. */
  ghost predicate Taken(fuel: nat, w: World, s: Schema, v: Json) { Settled(fuel, w, s, v) && Holds(fuel, w, s, v) }

  lemma ChildlessSettles(f: nat, w: World, s: Schema, v: Json)
    requires Childless(s) && f > 0
    ensures Settled(f, w, s, v)
  {}

  lemma BlankTakesAll(f: nat, w: World, v: Json)
    requires f > 0
    ensures Taken(f, w, Blank, v)
  {}

  lemma RefTaken(f: nat, w: World, s: Schema, v: Json)
    requires s.ref.Some? && OnlyRef(s) && Taken(f, w, Resolve(w.defs, s.ref.value), v)
    ensures Taken(f + 1, w, s, v)
  {
    hide LeafHolds, Resolve;
    NoLeaf(w, s, v);
    assert v.JObj? ==> FieldsSettled(f, w, s, v.fields) && FieldsHold(f, w, s, v.fields);
    hide FieldsSettled, FieldsHold;
    assert Settled(f + 1, w, s, v);
    assert Holds(f + 1, w, s, v);
  }

  lemma NoLeaf(w: World, s: Schema, v: Json)
    requires OnlyRef(s) || OnlyUnion(s)
    ensures LeafHolds(w, s, v)
  {}

  lemma UnionTaken(f: nat, w: World, s: Schema, j: nat, v: Json)
    requires s.anyOf.Alts? && OnlyUnion(s) && j < |s.anyOf.value| && Taken(f, w, s.anyOf.value[j], v)
    requires forall i | 0 <= i < |s.anyOf.value| :: s.anyOf.value[i] == s.anyOf.value[j] || Childless(s.anyOf.value[i])
    ensures Taken(f + 1, w, s, v)
  {
    hide LeafHolds, Childless;
    NoLeaf(w, s, v);
    forall i | 0 <= i < |s.anyOf.value| ensures Settled(f, w, s.anyOf.value[i], v) {
      if s.anyOf.value[i] != s.anyOf.value[j] { ChildlessSettles(f, w, s.anyOf.value[i], v); }
    }
    assert AltsSettled(f, w, s.anyOf.value, v) && SomeHolds(f, w, s.anyOf.value, v);
    assert v.JObj? ==> FieldsSettled(f, w, s, v.fields) && FieldsHold(f, w, s, v.fields);
    hide AltsSettled, SomeHolds, FieldsSettled, FieldsHold;
    assert Settled(f + 1, w, s, v);
    assert Holds(f + 1, w, s, v);
  }

  lemma {:induction false} Tightness(g: nat, w: World, s: Schema, depth: nat, v: Json)
    requires Convert(g, w.defs, s, depth).Some? && Tight(g, w.defs, s, depth)
    requires Admits(true, w, Convert(g, w.defs, s, depth).value, v)
    ensures Taken(g, w, s, v)
    decreases g, 0
  {
    hide Taken, Admits, OnlyRef, OnlyUnion, Childless, ConvertOrdinary, TightOrdinary, Resolve;
    if s == Blank {
      BlankTakesAll(g, w, v);
    } else if s.ref.Some? {
      var target := Resolve(w.defs, s.ref.value);
      var n := Convert(g - 1, w.defs, target, depth).value;
      Undecorated(w, n, AfterRef(s, n), v);
      Tightness(g - 1, w, target, depth, v);
      RefTaken(g - 1, w, s, v);
    } else if NullableReal(s).Some? {
      var inner := NullableReal(s).value;
      var n := Convert(g - 1, w.defs, inner, depth).value;
      Unmarked(s);
      Undecorated(w, n, AfterNullable(s, inner, n), v);
      Tightness(g - 1, w, inner, depth, v);
      UnionTaken(g - 1, w, s, if s.anyOf.value[1].kind == Some(TNull) then 0 else 1, v);
    } else if s.anyOf.Alts? {
      var n := Convert(g - 1, w.defs, s.anyOf.value[0], depth).value;
      Undecorated(w, n, AfterScalarUnion(s, n), v);
      Tightness(g - 1, w, s.anyOf.value[0], depth, v);
      UnionTaken(g - 1, w, s, 0, v);
    } else {
      OrdinaryTight(g - 1, w, s, depth, v);
    }
  }

  lemma Unmarked(s: Schema)
    requires OnlyUnion(s)
    ensures !s.preserve
  {}

  /** Descriptions and defaults do not matter for admission. */
  lemma Undecorated(w: World, n: Node, m: Node, v: Json)
    requires m == n.(description := m.description, default := m.default) && Admits(true, w, m, v)
    ensures Admits(true, w, n, v)
  {}

  lemma {:induction false} OrdinaryTight(g: nat, w: World, s: Schema, depth: nat, v: Json)
    requires ConvertOrdinary(g, w.defs, s, depth).Some? && TightOrdinary(g, w.defs, s, depth)
    requires s.ref.None? && s.anyOf.NoAlts? && s.oneOf.NoAlts?
    requires Admits(true, w, ConvertOrdinary(g, w.defs, s, depth).value, v)
    ensures Taken(g + 1, w, s, v)
    decreases g, 2
  {
    LeafBack(g, w, s, depth, v);
    if s.kind == Some(TObject) {
      FieldsTight(g, w, s, depth, v);
    } else if s.kind == Some(TArray) && s.items.Some? {
      ItemsTight(g, w, s.items.value, depth + 1, v);
    }
    hide LeafHolds, ConvertOrdinary, TightOrdinary, Admits, FieldsSettled, FieldsHold, ItemsSettled, ItemsHold;
    assert Settled(g + 1, w, s, v) && Holds(g + 1, w, s, v);
  }

  /** The node's own keywords are all kept. */
  lemma LeafBack(g: nat, w: World, s: Schema, depth: nat, v: Json)
    requires ConvertOrdinary(g, w.defs, s, depth).Some? && TightOrdinary(g, w.defs, s, depth)
    requires Admits(true, w, ConvertOrdinary(g, w.defs, s, depth).value, v)
    ensures LeafHolds(w, s, v) && HasKind(v, s.kind.value)
  {
    hide FieldsAdmitted, Tight, ConvertProps, Convert;
    var n := ConvertOrdinary(g, w.defs, s, depth).value;
    assert NodeHolds(w, n, v);
    assert n.kind == s.kind;
    assert n.enum == if s.constant.Some? then Some([s.constant.value]) else s.enum;
  }

  lemma {:induction false} ItemsTight(g: nat, w: World, inner: Schema, depth: nat, v: Json)
    requires Convert(g, w.defs, inner, depth).Some? && Tight(g, w.defs, inner, depth) && v.JArr?
    requires forall i | 0 <= i < |v.elems| :: Admits(true, w, Convert(g, w.defs, inner, depth).value, v.elems[i])
    ensures ItemsSettled(g, w, inner, v.elems) && ItemsHold(g, w, inner, v.elems)
    decreases g, 1
  {
    hide Convert, Tight, Admits;
    forall i | 0 <= i < |v.elems| ensures Settled(g, w, inner, v.elems[i]) && Holds(g, w, inner, v.elems[i]) {
      Tightness(g, w, inner, depth, v.elems[i]);
    }
  }

  lemma {:induction false} FieldsTight(g: nat, w: World, s: Schema, depth: nat, v: Json)
    requires ConvertObject(g, w.defs, s, Leaf(s), depth).Some? && TightOrdinary(g, w.defs, s, depth)
    requires s.kind == Some(TObject) && v.JObj?
    requires FieldsAdmitted(true, w, ConvertObject(g, w.defs, s, Leaf(s), depth).value, v)
    ensures FieldsSettled(g, w, s, v.fields) && FieldsHold(g, w, s, v.fields)
    decreases g, 1
  {
    hide Convert, Tight, Admits;
    var n := ConvertObject(g, w.defs, s, Leaf(s), depth).value;
    if s.properties.Props? {
      var props := s.properties.value;
      PropsPointwise(g, w.defs, props, depth + 1);
      var fields := ConvertProps(g, w.defs, props, depth + 1).value;
      SameNames(props, fields);
      forall i | 0 <= i < |props| && props[i].name in v.fields
        ensures Settled(g, w, props[i].schema, v.fields[props[i].name])
        ensures Holds(g, w, props[i].schema, v.fields[props[i].name])
      {
        assert fields[i].name in v.fields;
        Tightness(g, w, props[i].schema, depth + 1, v.fields[props[i].name]);
      }
    }
    assert FieldNames(n.properties) == PropNames(s.properties);
    if s.extra.ExtraSchema? && n.additional.Some? {
      forall key | key in v.fields && key !in PropNames(s.properties)
        ensures Settled(g, w, s.extra.schema, v.fields[key]) && Holds(g, w, s.extra.schema, v.fields[key])
      {
        Tightness(g, w, s.extra.schema, depth + 1, v.fields[key]);
      }
    }
  }

  // ---------------------------------------------------------------------------------------------
  // Exactness
  // ---------------------------------------------------------------------------------------------

  /** What strict admission lets through, the source schema accepts. */
  lemma NothingIllegalIsAdmitted(g: nat, w: World, s: Schema, v: Json)
    requires Convert(g, w.defs, s, 0).Some? && Tight(g, w.defs, s, 0)
    requires Admits(true, w, Convert(g, w.defs, s, 0).value, v)
    ensures Accepts(w, s, v)
  {
    hide Convert, Tight, Admits, Settled, Holds;
    Tightness(g, w, s, 0, v);
  }

  /** Where no branch narrows or widens, the server under strict field validation admits exactly the null-free values
      that the source schema accepts. */
  lemma AdmissionIsExact(g: nat, w: World, s: Schema, v: Json)
    requires Convert(g, w.defs, s, 0).Some? && Wide(g, true, w.defs, s, 0) && Tight(g, w.defs, s, 0) && NullFree(v)
    ensures Admits(true, w, Convert(g, w.defs, s, 0).value, v) <==> Accepts(w, s, v)
  {
    hide *;
    if Admits(true, w, Convert(g, w.defs, s, 0).value, v) {
      NothingIllegalIsAdmitted(g, w, s, v);
    }
    if Accepts(w, s, v) {
      AdmissionNeverRejects(g, true, w, s, v);
    }
  }
}
