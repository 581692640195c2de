/** JSON values, the JSON Schema 2020-12 fragment that Pydantic emits, and when a schema accepts a value.

    A schema node is a record of its keywords.  Objects inside a schema keep the order of their keys (the
    generators iterate over them), so `properties` is a sequence of named schemas. */
module JsonSchema {
  import opened Wrappers

  /** Numbers are reals: JSON Schema calls 1.0 an integer, and so does `HasKind`. */
  datatype Json =
    | JNull
    | JBool(b: bool)
    | JNum(n: real)
    | JStr(s: string)
    | JArr(elems: seq<Json>)
    | JObj(fields: map<string, Json>)

  datatype Kind = TNull | TBoolean | TInteger | TNumber | TString | TArray | TObject

  /** A `$ref`: whether its text starts with "#/$defs/", and the definition name after its last slash. */
  datatype Ref = Ref(local: bool, name: string)

  /** `exclusiveMinimum` / `exclusiveMaximum`: a number in 2020-12, a flag on `minimum` in older drafts. */
  datatype Exclusive = Flag(b: bool) | Limit(n: real)

  /** `additionalProperties`: absent, a boolean, or a schema. */
  datatype Extra = NoExtra | ExtraFlag(allowed: bool) | ExtraSchema(schema: Schema)

  datatype Prop = Prop(name: string, schema: Schema)

  /** `anyOf` and `oneOf`. */
  datatype Union = NoAlts | Alts(value: seq<Schema>)

  datatype Properties = NoProps | Props(value: seq<Prop>)

  datatype Discriminator = Discriminator(field: string, mapping: map<Json, Ref>)

  datatype Schema = Schema(
    ref: Option<Ref>,
    kind: Option<Kind>,
    anyOf: Union,
    oneOf: Union,
    discriminator: Option<Discriminator>,
    properties: Properties,
    required: Option<seq<string>>,
    extra: Extra,
    items: Option<Schema>,
    enum: Option<seq<Json>>,
    constant: Option<Json>,
    default: Option<Json>,
    title: Option<string>,
    description: Option<string>,
    minimum: Option<real>,
    maximum: Option<real>,
    exclusiveMinimum: Option<Exclusive>,
    exclusiveMaximum: Option<Exclusive>,
    minLength: Option<nat>,
    maxLength: Option<nat>,
    pattern: Option<string>,
    format: Option<string>,
    minItems: Option<nat>,
    maxItems: Option<nat>,
    preserve: bool)

  /** The schema `{}`. */
  const Blank: Schema :=
    Schema(None, None, NoAlts, NoAlts, None, NoProps, None, NoExtra, None, None, None, None, None, None,
           None, None, None, None, None, None, None, None, None, None, false)

  type Defs = map<string, Schema>

  /** The definitions in scope and the two keyword oracles this model does not look into. */
  datatype World = World(defs: Defs, matches: (string, string) -> bool, conforms: (string, string) -> bool)

  /** A reference to a definition that does not exist resolves to `{}`. */
  function Resolve(defs: Defs, ref: Ref): Schema {
    if ref.name in defs then defs[ref.name] else Blank
  }

  predicate NullFree(v: Json) {
    match v
    case JNull => false
    case JArr(xs) => forall i | 0 <= i < |xs| :: NullFree(xs[i])
    case JObj(m) => forall k | k in m :: NullFree(m[k])
    case _ => true
  }

  predicate HasKind(v: Json, kind: Kind) {
    match kind
    case TNull => v.JNull?
    case TBoolean => v.JBool?
    case TInteger => v.JNum? && v.n.Floor as real == v.n
    case TNumber => v.JNum?
    case TString => v.JStr?
    case TArray => v.JArr?
    case TObject => v.JObj?
  }

  function PropNames(props: Properties): set<string> {
    if props.NoProps? then {} else set i | 0 <= i < |props.value| :: props.value[i].name
  }

  predicate AtLeast(minimum: Option<real>, exclusive: Option<Exclusive>, n: real) {
    && (minimum.Some? ==> minimum.value <= n)
    && (exclusive.Some? ==>
          match exclusive.value
          case Limit(limit) => limit < n
          case Flag(b) => b && minimum.Some? ==> minimum.value < n)
  }

  predicate AtMost(maximum: Option<real>, exclusive: Option<Exclusive>, n: real) {
    && (maximum.Some? ==> n <= maximum.value)
    && (exclusive.Some? ==>
          match exclusive.value
          case Limit(limit) => n < limit
          case Flag(b) => b && maximum.Some? ==> n < maximum.value)
  }

  predicate SizeBetween(lo: Option<nat>, hi: Option<nat>, size: nat) {
    (lo.Some? ==> lo.value <= size) && (hi.Some? ==> size <= hi.value)
  }

  /** String keywords; `format` asserts, except the `path` format, which no validator checks. */
  predicate StringHolds(w: World, s: Schema, text: string) {
    && SizeBetween(s.minLength, s.maxLength, |text|)
    && (s.pattern.Some? ==> w.matches(s.pattern.value, text))
    && (s.format.Some? && s.format.value != "path" ==> w.conforms(s.format.value, text))
  }

  /** The keywords of a node that do not look into a subschema. */
  predicate LeafHolds(w: World, s: Schema, v: Json) {
    && (s.kind.Some? ==> HasKind(v, s.kind.value))
    && (s.enum.Some? ==> v in s.enum.value)
    && (s.constant.Some? ==> v == s.constant.value)
    && (v.JNum? ==> AtLeast(s.minimum, s.exclusiveMinimum, v.n) && AtMost(s.maximum, s.exclusiveMaximum, v.n))
    && (v.JStr? ==> StringHolds(w, s, v.s))
    && (v.JArr? ==> SizeBetween(s.minItems, s.maxItems, |v.elems|))
    && (v.JObj? && s.required.Some? ==> forall i | 0 <= i < |s.required.value| :: s.required.value[i] in v.fields)
  }

  /** `s` accepts `v`, following at most `fuel` nested keywords.  See `Accepts` for the meaning without `fuel`. */
  ghost predicate Holds(fuel: nat, w: World, s: Schema, v: Json)
    decreases fuel, 1
  {
    && fuel > 0
    && LeafHolds(w, s, v)
    && (s.ref.Some? ==> Holds(fuel - 1, w, Resolve(w.defs, s.ref.value), v))
    && (s.anyOf.Alts? ==> SomeHolds(fuel - 1, w, s.anyOf.value, v))
    && (s.oneOf.Alts? ==> OneHolds(fuel - 1, w, s.oneOf.value, v))
    && (v.JObj? ==> FieldsHold(fuel - 1, w, s, v.fields))
    && (v.JArr? && s.items.Some? ==> ItemsHold(fuel - 1, w, s.items.value, v.elems))
  }

  /** `anyOf`, section 10.2.1.2 of JSON Schema Core 2020-12. */
  ghost predicate SomeHolds(fuel: nat, w: World, alts: seq<Schema>, v: Json)
    decreases fuel, 2
  {
    exists i | 0 <= i < |alts| :: Holds(fuel, w, alts[i], v)
  }

  /** `oneOf`, section 10.2.1.3 of JSON Schema Core 2020-12. */
  ghost predicate OneHolds(fuel: nat, w: World, alts: seq<Schema>, v: Json)
    decreases fuel, 2
  {
    exists i | 0 <= i < |alts| ::
      Holds(fuel, w, alts[i], v) && forall j | 0 <= j < |alts| && j != i :: !Holds(fuel, w, alts[j], v)
  }

  /** `properties` and `additionalProperties`. */
  ghost predicate FieldsHold(fuel: nat, w: World, s: Schema, fields: map<string, Json>)
    decreases fuel, 2
  {
    && (s.properties.Props? ==>
          forall i | 0 <= i < |s.properties.value| ::
            s.properties.value[i].name in fields ==>
              Holds(fuel, w, s.properties.value[i].schema, fields[s.properties.value[i].name]))
    && (s.extra == ExtraFlag(false) ==> forall key | key in fields :: key in PropNames(s.properties))
    && (s.extra.ExtraSchema? ==>
          forall key | key in fields && key !in PropNames(s.properties) :: Holds(fuel, w, s.extra.schema, fields[key]))
  }

  ghost predicate ItemsHold(fuel: nat, w: World, inner: Schema, elems: seq<Json>)
    decreases fuel, 2
  {
    forall i | 0 <= i < |elems| :: Holds(fuel, w, inner, elems[i])
  }

  /** `fuel` is enough to evaluate `s` on `v` completely: no nested keyword was cut off. */
  ghost predicate Settled(fuel: nat, w: World, s: Schema, v: Json)
    decreases fuel, 1
  {
    && fuel > 0
    && (s.ref.Some? ==> Settled(fuel - 1, w, Resolve(w.defs, s.ref.value), v))
    && (s.anyOf.Alts? ==> AltsSettled(fuel - 1, w, s.anyOf.value, v))
    && (s.oneOf.Alts? ==> AltsSettled(fuel - 1, w, s.oneOf.value, v))
    && (v.JObj? ==> FieldsSettled(fuel - 1, w, s, v.fields))
    && (v.JArr? && s.items.Some? ==> ItemsSettled(fuel - 1, w, s.items.value, v.elems))
  }

  ghost predicate AltsSettled(fuel: nat, w: World, alts: seq<Schema>, v: Json)
    decreases fuel, 2
  {
    forall i | 0 <= i < |alts| :: Settled(fuel, w, alts[i], v)
  }

  ghost predicate FieldsSettled(fuel: nat, w: World, s: Schema, fields: map<string, Json>)
    decreases fuel, 2
  {
    && (s.properties.Props? ==>
          forall i | 0 <= i < |s.properties.value| ::
            s.properties.value[i].name in fields ==>
              Settled(fuel, w, s.properties.value[i].schema, fields[s.properties.value[i].name]))
    && (s.extra.ExtraSchema? ==>
          forall key | key in fields && key !in PropNames(s.properties) :: Settled(fuel, w, s.extra.schema, fields[key]))
  }

  ghost predicate ItemsSettled(fuel: nat, w: World, inner: Schema, elems: seq<Json>)
    decreases fuel, 2
  {
    forall i | 0 <= i < |elems| :: Settled(fuel, w, inner, elems[i])
  }

  /** The schema accepts the value: evaluation comes to an end and says yes. */
  ghost predicate Accepts(w: World, s: Schema, v: Json) {
    exists fuel: nat :: Settled(fuel, w, s, v) && Holds(fuel, w, s, v)
  }

  lemma {:induction false} SettledGrows(f: nat, g: nat, w: World, s: Schema, v: Json)
    requires f <= g && Settled(f, w, s, v)
    ensures Settled(g, w, s, v)
    decreases f, 0
  {
    if s.ref.Some? { SettledGrows(f - 1, g - 1, w, Resolve(w.defs, s.ref.value), v); }
    if s.anyOf.Alts? { AltsAreStable(f - 1, g - 1, w, s.anyOf.value, v); }
    if s.oneOf.Alts? { AltsAreStable(f - 1, g - 1, w, s.oneOf.value, v); }
    if v.JObj? { FieldsAreStable(f - 1, g - 1, w, s, v.fields); }
    if v.JArr? && s.items.Some? { ItemsAreStable(f - 1, g - 1, w, s.items.value, v.elems); }
  }

  /** Once evaluation has settled, more fuel changes nothing, so `Accepts` does not depend on the witness. */
  lemma {:induction false} SettledIsStable(f: nat, g: nat, w: World, s: Schema, v: Json)
    requires f <= g && Settled(f, w, s, v)
    ensures Holds(g, w, s, v) <==> Holds(f, w, s, v)
    decreases f, 0
  {
    hide LeafHolds, SomeHolds, OneHolds, FieldsHold, ItemsHold, AltsSettled, FieldsSettled, ItemsSettled, Resolve;
    if s.ref.Some? { SettledIsStable(f - 1, g - 1, w, Resolve(w.defs, s.ref.value), v); }
    if s.anyOf.Alts? { AltsAreStable(f - 1, g - 1, w, s.anyOf.value, v); }
    if s.oneOf.Alts? { AltsAreStable(f - 1, g - 1, w, s.oneOf.value, v); }
    if v.JObj? { FieldsAreStable(f - 1, g - 1, w, s, v.fields); }
    if v.JArr? && s.items.Some? { ItemsAreStable(f - 1, g - 1, w, s.items.value, v.elems); }
  }

  lemma {:induction false} ItemsAreStable(f: nat, g: nat, w: World, inner: Schema, elems: seq<Json>)
    requires f <= g && ItemsSettled(f, w, inner, elems)
    ensures ItemsSettled(g, w, inner, elems) && (ItemsHold(g, w, inner, elems) <==> ItemsHold(f, w, inner, elems))
    decreases f, 1
  {
    forall i | 0 <= i < |elems|
      ensures Settled(g, w, inner, elems[i]) && (Holds(g, w, inner, elems[i]) <==> Holds(f, w, inner, elems[i]))
    {
      SettledGrows(f, g, w, inner, elems[i]);
      SettledIsStable(f, g, w, inner, elems[i]);
    }
  }

  lemma {:induction false} AltsAreStable(f: nat, g: nat, w: World, alts: seq<Schema>, v: Json)
    requires f <= g && AltsSettled(f, w, alts, v)
    ensures AltsSettled(g, w, alts, v)
    ensures SomeHolds(g, w, alts, v) <==> SomeHolds(f, w, alts, v)
    ensures OneHolds(g, w, alts, v) <==> OneHolds(f, w, alts, v)
    decreases f, 1
  {
    forall i | 0 <= i < |alts|
      ensures Settled(g, w, alts[i], v) && (Holds(g, w, alts[i], v) <==> Holds(f, w, alts[i], v))
    {
      SettledGrows(f, g, w, alts[i], v);
      SettledIsStable(f, g, w, alts[i], v);
    }
  }

  lemma {:induction false} FieldsAreStable(f: nat, g: nat, w: World, s: Schema, fields: map<string, Json>)
    requires f <= g && FieldsSettled(f, w, s, fields)
    ensures FieldsSettled(g, w, s, fields) && (FieldsHold(g, w, s, fields) <==> FieldsHold(f, w, s, fields))
    decreases f, 1
  {
    if s.properties.Props? {
      forall i | 0 <= i < |s.properties.value| && s.properties.value[i].name in fields
        ensures var p := s.properties.value[i];
          Settled(g, w, p.schema, fields[p.name]) &&
          (Holds(g, w, p.schema, fields[p.name]) <==> Holds(f, w, p.schema, fields[p.name]))
      {
        SettledGrows(f, g, w, s.properties.value[i].schema, fields[s.properties.value[i].name]);
        SettledIsStable(f, g, w, s.properties.value[i].schema, fields[s.properties.value[i].name]);
      }
    }
    if s.extra.ExtraSchema? {
      forall key | key in fields && key !in PropNames(s.properties)
        ensures Settled(g, w, s.extra.schema, fields[key])
        ensures Holds(g, w, s.extra.schema, fields[key]) <==> Holds(f, w, s.extra.schema, fields[key])
      {
        SettledGrows(f, g, w, s.extra.schema, fields[key]);
        SettledIsStable(f, g, w, s.extra.schema, fields[key]);
      }
    }
  }

  /** For a value whose evaluation settles, `Accepts` and one settled run agree: there is no second answer. */
  lemma AcceptsIsDecided(f: nat, w: World, s: Schema, v: Json)
    requires Settled(f, w, s, v)
    ensures Accepts(w, s, v) <==> Holds(f, w, s, v)
  {
    if Accepts(w, s, v) {
      var g: nat :| Settled(g, w, s, v) && Holds(g, w, s, v);
      if f <= g { SettledIsStable(f, g, w, s, v); } else { SettledIsStable(g, f, w, s, v); }
    }
  }
}
