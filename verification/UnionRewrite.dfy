/** `_fix_discriminated_unions`: rewriting discriminated `oneOf` unions to `anyOf`, and what that does to acceptance. */
module UnionRewrite {
  import opened JsonSchema
  import opened Wrappers

  /** `DISCRIMINATOR_FIELD_PRIORITY`. */
  const PRIORITY_FIELD := "type"

  datatype Tag = Tag(field: string, value: Json)

  /** The first property called `name`. */
  function FindProp(props: seq<Prop>, name: string): Option<Schema> {
    if props == [] then None
    else if props[0].name == name then Some(props[0].schema)
    else FindProp(props[1..], name)
  }

  /** The first property, other than the priority field, that is a constant. */
  function FirstConstant(props: seq<Prop>): Option<Tag> {
    if props == [] then None
    else if props[0].name != PRIORITY_FIELD && props[0].schema.constant.Some? then
      Some(Tag(props[0].name, props[0].schema.constant.value))
    else FirstConstant(props[1..])
  }

  /** `get_discriminator_value`. */
  function TagOf(defs: Defs, ref: Ref): Option<Tag> {
    if !ref.local then None
    else
      var def := Resolve(defs, ref);
      if def.properties.NoProps? then None
      else
        var preferred := FindProp(def.properties.value, PRIORITY_FIELD);
        if preferred.Some? && preferred.value.constant.Some? then
          Some(Tag(PRIORITY_FIELD, preferred.value.constant.value))
        else FirstConstant(def.properties.value)
  }

  function AltTag(defs: Defs, alt: Schema): Option<Tag> {
    if alt.ref.None? then None else TagOf(defs, alt.ref.value)
  }

  /** `fix_one_of` converts the node: at least two alternatives, all references, all tagged by the same field, which
      has a name. */
  predicate Convertible(defs: Defs, s: Schema) {
    && s.oneOf.Alts?
    && |s.oneOf.value| >= 2
    && (forall i | 0 <= i < |s.oneOf.value| :: AltTag(defs, s.oneOf.value[i]).Some?)
    && (forall i | 0 <= i < |s.oneOf.value| ::
          AltTag(defs, s.oneOf.value[i]).value.field == AltTag(defs, s.oneOf.value[0]).value.field)
    && AltTag(defs, s.oneOf.value[0]).value.field != ""
  }

  /** The tag table; of two alternatives with one tag the later is kept. */
  function Mapping(defs: Defs, alts: seq<Schema>): map<Json, Ref>
    requires forall i | 0 <= i < |alts| :: AltTag(defs, alts[i]).Some?
  {
    if alts == [] then map[]
    else
      var last := alts[|alts| - 1];
      Mapping(defs, alts[..|alts| - 1])[AltTag(defs, last).value.value := last.ref.value]
  }

  /** `fix_one_of`: an `anyOf` already on the node is overwritten. */
  function FixNode(defs: Defs, s: Schema): Schema {
    if Convertible(defs, s) then
      s.(anyOf := s.oneOf,
         oneOf := NoAlts,
         discriminator := Some(Discriminator(AltTag(defs, s.oneOf.value[0]).value.field, Mapping(defs, s.oneOf.value))))
    else s
  }

  /** `walk_schema`: fix the node, then everything below it. */
  function Fix(defs: Defs, s: Schema): Schema
    decreases s, 1
  {
    var fixed := FixNode(defs, s);
    fixed.(
      anyOf := FixUnion(defs, s, fixed.anyOf),
      oneOf := FixUnion(defs, s, fixed.oneOf),
      properties := if s.properties.NoProps? then NoProps else
                      Props(seq(|s.properties.value|, i requires 0 <= i < |s.properties.value| =>
                        Prop(s.properties.value[i].name, Fix(defs, s.properties.value[i].schema)))),
      extra := if s.extra.ExtraSchema? then ExtraSchema(Fix(defs, s.extra.schema)) else s.extra,
      items := if s.items.Some? then Some(Fix(defs, s.items.value)) else None)
  }

  function FixUnion(defs: Defs, ghost parent: Schema, alts: Union): Union
    requires alts.Alts? ==> forall i | 0 <= i < |alts.value| :: alts.value[i] < parent
    decreases parent, 0
  {
    if alts.NoAlts? then NoAlts
    else Alts(seq(|alts.value|, i requires 0 <= i < |alts.value| => Fix(defs, alts.value[i])))
  }

  function FixProps(defs: Defs, props: seq<Prop>): seq<Prop> {
    seq(|props|, i requires 0 <= i < |props| => Prop(props[i].name, Fix(defs, props[i].schema)))
  }

  function FixDefs(defs: Defs): Defs {
    map name | name in defs :: Fix(defs, defs[name])
  }

  // ---------------------------------------------------------------------------------------------
  // Rewriting does not disturb the lookups it is driven by
  // ---------------------------------------------------------------------------------------------

  /** The parts of a definition that `TagOf` looks at are the same in both tables. */
  ghost predicate SameTags(defs: Defs, other: Defs) {
    forall ref: Ref :: TagOf(defs, ref) == TagOf(other, ref)
  }

  lemma {:induction false} FixedPropsKeepTags(defs: Defs, props: seq<Prop>)
    ensures var fixed := FixProps(defs, props);
      && FirstConstant(fixed) == FirstConstant(props)
      && FindProp(fixed, PRIORITY_FIELD).Some? == FindProp(props, PRIORITY_FIELD).Some?
      && (FindProp(props, PRIORITY_FIELD).Some? ==>
            FindProp(fixed, PRIORITY_FIELD).value.constant == FindProp(props, PRIORITY_FIELD).value.constant)
  {
    if props != [] {
      FixedPropsKeepTags(defs, props[1..]);
      assert FixProps(defs, props)[1..] == FixProps(defs, props[1..]);
    }
  }

  /** Wherever the walk has got to, a mix of rewritten and original definitions yields the original tags. */
  lemma PartlyFixedKeepsTags(defs: Defs, partly: Defs)
    requires partly.Keys == defs.Keys
    requires forall name | name in defs :: partly[name] == defs[name] || partly[name] == Fix(defs, defs[name])
    ensures SameTags(defs, partly)
  {
    forall ref: Ref ensures TagOf(defs, ref) == TagOf(partly, ref) {
      if ref.name in defs && defs[ref.name].properties.Props? {
        FixedPropsKeepTags(defs, defs[ref.name].properties.value);
        assert Fix(defs, defs[ref.name]).properties.value == FixProps(defs, defs[ref.name].properties.value);
      }
    }
  }

  lemma {:induction false} SameMapping(defs: Defs, other: Defs, alts: seq<Schema>)
    requires SameTags(defs, other) && forall i | 0 <= i < |alts| :: AltTag(defs, alts[i]).Some?
    ensures forall i | 0 <= i < |alts| :: AltTag(other, alts[i]) == AltTag(defs, alts[i])
    ensures Mapping(other, alts) == Mapping(defs, alts)
  {
    if alts != [] { SameMapping(defs, other, alts[..|alts| - 1]); }
  }

  lemma SameFixNode(defs: Defs, other: Defs, s: Schema)
    requires SameTags(defs, other)
    ensures Convertible(other, s) == Convertible(defs, s) && FixNode(other, s) == FixNode(defs, s)
  {
    if s.oneOf.Alts? {
      assert forall i | 0 <= i < |s.oneOf.value| :: AltTag(other, s.oneOf.value[i]) == AltTag(defs, s.oneOf.value[i]);
      if Convertible(defs, s) { SameMapping(defs, other, s.oneOf.value); }
    }
  }

  /** The alternatives of a rewritten node are those it had. */
  lemma NodeParts(defs: Defs, s: Schema)
    ensures var fixed := FixNode(defs, s);
      && (fixed.anyOf.Alts? ==> forall i | 0 <= i < |fixed.anyOf.value| :: fixed.anyOf.value[i] < s)
      && (fixed.oneOf.Alts? ==> forall i | 0 <= i < |fixed.oneOf.value| :: fixed.oneOf.value[i] < s)
  {
    hide Convertible, Mapping, AltTag;
  }

  lemma FixByParts(defs: Defs, s: Schema)
    ensures var fixed := FixNode(defs, s);
      Fix(defs, s) == fixed.(
        anyOf := FixUnion(defs, s, fixed.anyOf),
        oneOf := FixUnion(defs, s, fixed.oneOf),
        properties := if s.properties.NoProps? then NoProps else Props(FixProps(defs, s.properties.value)),
        extra := if s.extra.ExtraSchema? then ExtraSchema(Fix(defs, s.extra.schema)) else s.extra,
        items := if s.items.Some? then Some(Fix(defs, s.items.value)) else None)
  {
    if s.properties.Props? {
      assert Fix(defs, s).properties.value == FixProps(defs, s.properties.value);
    }
  }

  /** Rewriting against a partly rewritten table gives the same result as against the original one. */
  lemma {:induction false} SameFix(defs: Defs, other: Defs, s: Schema)
    requires SameTags(defs, other)
    ensures Fix(other, s) == Fix(defs, s)
    decreases s, 1
  {
    hide Fix, SameTags, Convertible, AltTag, TagOf, Mapping, FixUnion, FixNode;
    NodeParts(defs, s);
    FixByParts(defs, s);
    FixByParts(other, s);
    SameFixNode(defs, other, s);
    var fixed := FixNode(defs, s);
    SameFixUnion(defs, other, s, fixed.anyOf);
    SameFixUnion(defs, other, s, fixed.oneOf);
    if s.properties.Props? {
      forall i | 0 <= i < |s.properties.value|
        ensures Fix(other, s.properties.value[i].schema) == Fix(defs, s.properties.value[i].schema)
      {
        SameFix(defs, other, s.properties.value[i].schema);
      }
      assert FixProps(other, s.properties.value) == FixProps(defs, s.properties.value);
    }
    if s.extra.ExtraSchema? { SameFix(defs, other, s.extra.schema); }
    if s.items.Some? { SameFix(defs, other, s.items.value); }
  }

  lemma {:induction false} SameFixUnion(defs: Defs, other: Defs, parent: Schema, alts: Union)
    requires SameTags(defs, other)
    requires alts.Alts? ==> forall i | 0 <= i < |alts.value| :: alts.value[i] < parent
    ensures FixUnion(other, parent, alts) == FixUnion(defs, parent, alts)
    decreases parent, 0
  {
    if alts.Alts? {
      forall i | 0 <= i < |alts.value| ensures Fix(other, alts.value[i]) == Fix(defs, alts.value[i]) {
        SameFix(defs, other, alts.value[i]);
      }
    }
  }

  // ---------------------------------------------------------------------------------------------
  // A property of every node of a schema
  // ---------------------------------------------------------------------------------------------

  ghost predicate EveryNode(s: Schema, good: Schema -> bool)
    decreases s
  {
    && good(s)
    && (s.anyOf.Alts? ==> forall i | 0 <= i < |s.anyOf.value| :: EveryNode(s.anyOf.value[i], good))
    && (s.oneOf.Alts? ==> forall i | 0 <= i < |s.oneOf.value| :: EveryNode(s.oneOf.value[i], good))
    && (s.properties.Props? ==> forall i | 0 <= i < |s.properties.value| :: EveryNode(s.properties.value[i].schema, good))
    && (s.extra.ExtraSchema? ==> EveryNode(s.extra.schema, good))
    && (s.items.Some? ==> EveryNode(s.items.value, good))
  }

  ghost predicate EveryDef(defs: Defs, good: Schema -> bool) {
    forall name | name in defs :: EveryNode(defs[name], good)
  }
}
