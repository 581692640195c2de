/** The pass as it runs: in place over the document, looking up tags in the table it is rewriting. */
module UnionPass {
  import opened JsonSchema
  import opened UnionRewrite
  import opened UnionMeaning
  import opened UnionKeywords
  import opened Wrappers

  /** How many nodes `walk_schema` converts below and including `s`. */
  function Fixes(defs: Defs, s: Schema): nat
    decreases s, 1
  {
    (if Convertible(defs, s) then 1 else 0)
    + UnionFixes(defs, s, FixNode(defs, s).anyOf)
    + UnionFixes(defs, s, FixNode(defs, s).oneOf)
    + (if s.properties.NoProps? then 0 else PropFixes(defs, s, s.properties.value, |s.properties.value|))
    + (if s.extra.ExtraSchema? then Fixes(defs, s.extra.schema) else 0)
    + (if s.items.Some? then Fixes(defs, s.items.value) else 0)
  }

  function UnionFixes(defs: Defs, ghost parent: Schema, union: Union): nat
    requires union.Alts? ==> forall i | 0 <= i < |union.value| :: union.value[i] < parent
    decreases parent, 0, 1
  {
    if union.NoAlts? then 0 else AltFixes(defs, parent, union.value, |union.value|)
  }

  function AltFixes(defs: Defs, ghost parent: Schema, alts: seq<Schema>, n: nat): nat
    requires n <= |alts| && forall i | 0 <= i < |alts| :: alts[i] < parent
    decreases parent, 0, 0, n
  {
    if n == 0 then 0 else AltFixes(defs, parent, alts, n - 1) + Fixes(defs, alts[n - 1])
  }

  function PropFixes(defs: Defs, ghost parent: Schema, props: seq<Prop>, n: nat): nat
    requires n <= |props| && forall i | 0 <= i < |props| :: props[i].schema < parent
    decreases parent, 0, 0, n
  {
    if n == 0 then 0 else PropFixes(defs, parent, props, n - 1) + Fixes(defs, props[n - 1].schema)
  }

  /** The conversions in the first `n` definitions of the given order. */
  function DefFixes(defs: Defs, order: seq<string>, n: nat): nat
    requires n <= |order| && forall i | 0 <= i < |order| :: order[i] in defs
  {
    if n == 0 then 0 else DefFixes(defs, order, n - 1) + Fixes(defs, defs[order[n - 1]])
  }

  function TopFixes(defs: Defs, props: seq<Prop>): nat {
    if props == [] then 0 else TopFixes(defs, props[..|props| - 1]) + Fixes(defs, props[|props| - 1].schema)
  }

  // ---------------------------------------------------------------------------------------------
  // The count
  // ---------------------------------------------------------------------------------------------

  /** The nodes the walk visits below and including `s`; the `anyOf` that a converted node had is overwritten first. */
  ghost function Nodes(defs: Defs, s: Schema): seq<Schema>
    decreases s, 1
  {
    [s]
    + (if IsSomeUnion(defs, s) then [] else UnionNodes(defs, s, s.anyOf))
    + UnionNodes(defs, s, s.oneOf)
    + (if s.properties.NoProps? then [] else PropNodes(defs, s, s.properties.value, |s.properties.value|))
    + (if s.extra.ExtraSchema? then Nodes(defs, s.extra.schema) else [])
    + (if s.items.Some? then Nodes(defs, s.items.value) else [])
  }

  ghost function UnionNodes(defs: Defs, parent: Schema, union: Union): seq<Schema>
    requires union.Alts? ==> forall i | 0 <= i < |union.value| :: union.value[i] < parent
    decreases parent, 0, 1
  {
    if union.NoAlts? then [] else AltNodes(defs, parent, union.value, |union.value|)
  }

  ghost function AltNodes(defs: Defs, parent: Schema, alts: seq<Schema>, n: nat): seq<Schema>
    requires n <= |alts| && forall i | 0 <= i < |alts| :: alts[i] < parent
    decreases parent, 0, 0, n
  {
    if n == 0 then [] else AltNodes(defs, parent, alts, n - 1) + Nodes(defs, alts[n - 1])
  }

  ghost function PropNodes(defs: Defs, parent: Schema, props: seq<Prop>, n: nat): seq<Schema>
    requires n <= |props| && forall i | 0 <= i < |props| :: props[i].schema < parent
    decreases parent, 0, 0, n
  {
    if n == 0 then [] else PropNodes(defs, parent, props, n - 1) + Nodes(defs, props[n - 1].schema)
  }

  /** How many of the nodes are unions to be converted. */
  ghost function Unions(defs: Defs, nodes: seq<Schema>): nat {
    if nodes == [] then 0
    else Unions(defs, nodes[..|nodes| - 1]) + if IsSomeUnion(defs, nodes[|nodes| - 1]) then 1 else 0
  }

  lemma {:induction false} UnionsConcat(defs: Defs, a: seq<Schema>, b: seq<Schema>)
    ensures Unions(defs, a + b) == Unions(defs, a) + Unions(defs, b)
  {
    if b == [] {
      assert a + b == a;
    } else {
      assert (a + b)[..|a + b| - 1] == a + b[..|b| - 1];
      UnionsConcat(defs, a, b[..|b| - 1]);
    }
  }

  lemma UnionsOfParts(defs: Defs, s: Schema, b: seq<Schema>, c: seq<Schema>, d: seq<Schema>, e: seq<Schema>,
                      f: seq<Schema>)
    ensures Unions(defs, [s] + b + c + d + e + f) ==
            (if IsSomeUnion(defs, s) then 1 else 0) +
            Unions(defs, b) + Unions(defs, c) + Unions(defs, d) + Unions(defs, e) + Unions(defs, f)
  {
    assert [s][..0] == [];
    UnionsConcat(defs, [s] + b + c + d + e, f);
    UnionsConcat(defs, [s] + b + c + d, e);
    UnionsConcat(defs, [s] + b + c, d);
    UnionsConcat(defs, [s] + b, c);
    UnionsConcat(defs, [s], b);
  }

  /** The count of a schema is the number of unions among the nodes visited. */
  lemma {:induction false} FixesExactly(defs: Defs, s: Schema)
    ensures Fixes(defs, s) == Unions(defs, Nodes(defs, s))
    decreases s, 1
  {
    hide Fixes, UnionFixes, UnionNodes, AltNodes, PropNodes, PropFixes, Convertible, Unions, IsSomeUnion, FixNode;
    FixesByParts(defs, s);
    NodeParts(defs, s);
    FixNodeByParts(defs, s);
    ConvertedDiscriminator(defs, s);
    var b := if IsSomeUnion(defs, s) then [] else UnionNodes(defs, s, s.anyOf);
    var c := UnionNodes(defs, s, s.oneOf);
    var d := if s.properties.NoProps? then [] else PropNodes(defs, s, s.properties.value, |s.properties.value|);
    var e := if s.extra.ExtraSchema? then Nodes(defs, s.extra.schema) else [];
    var f := if s.items.Some? then Nodes(defs, s.items.value) else [];
    UnionsOfParts(defs, s, b, c, d, e, f);
    NoUnions(defs, s);
    UnionFixesExactly(defs, s, s.anyOf);
    UnionFixesExactly(defs, s, s.oneOf);
    if s.properties.Props? { PropFixesExactly(defs, s, s.properties.value, |s.properties.value|); }
    if s.extra.ExtraSchema? { FixesExactly(defs, s.extra.schema); }
    if s.items.Some? { FixesExactly(defs, s.items.value); }
  }

  lemma NoUnions(defs: Defs, s: Schema)
    ensures Unions(defs, []) == 0 && UnionFixes(defs, s, NoAlts) == 0
  {}

  lemma {:induction false} UnionFixesExactly(defs: Defs, parent: Schema, union: Union)
    requires union.Alts? ==> forall i | 0 <= i < |union.value| :: union.value[i] < parent
    ensures UnionFixes(defs, parent, union) == Unions(defs, UnionNodes(defs, parent, union))
    decreases parent, 0, 1
  {
    if union.Alts? { AltFixesExactly(defs, parent, union.value, |union.value|); }
  }

  lemma {:induction false} AltFixesExactly(defs: Defs, parent: Schema, alts: seq<Schema>, n: nat)
    requires n <= |alts| && forall i | 0 <= i < |alts| :: alts[i] < parent
    ensures AltFixes(defs, parent, alts, n) == Unions(defs, AltNodes(defs, parent, alts, n))
    decreases parent, 0, 0, n
  {
    hide Fixes, Nodes, IsSomeUnion;
    if n > 0 {
      AltFixesExactly(defs, parent, alts, n - 1);
      FixesExactly(defs, alts[n - 1]);
      UnionsConcat(defs, AltNodes(defs, parent, alts, n - 1), Nodes(defs, alts[n - 1]));
    }
  }

  lemma {:induction false} PropFixesExactly(defs: Defs, parent: Schema, props: seq<Prop>, n: nat)
    requires n <= |props| && forall i | 0 <= i < |props| :: props[i].schema < parent
    ensures PropFixes(defs, parent, props, n) == Unions(defs, PropNodes(defs, parent, props, n))
    decreases parent, 0, 0, n
  {
    hide Fixes, Nodes, IsSomeUnion;
    if n > 0 {
      PropFixesExactly(defs, parent, props, n - 1);
      FixesExactly(defs, props[n - 1].schema);
      UnionsConcat(defs, PropNodes(defs, parent, props, n - 1), Nodes(defs, props[n - 1].schema));
    }
  }

  /** The nodes of the definitions in order, and of the top-level properties. */
  ghost function DocumentNodes(defs: Defs, order: seq<string>, props: seq<Prop>): seq<Schema>
    requires forall i | 0 <= i < |order| :: order[i] in defs
  {
    DefNodes(defs, order, |order|) + TopNodes(defs, props)
  }

  ghost function DefNodes(defs: Defs, order: seq<string>, n: nat): seq<Schema>
    requires n <= |order| && forall i | 0 <= i < |order| :: order[i] in defs
  {
    if n == 0 then [] else DefNodes(defs, order, n - 1) + Nodes(defs, defs[order[n - 1]])
  }

  ghost function TopNodes(defs: Defs, props: seq<Prop>): seq<Schema> {
    if props == [] then [] else TopNodes(defs, props[..|props| - 1]) + Nodes(defs, props[|props| - 1].schema)
  }

  lemma {:induction false} DefFixesExactly(defs: Defs, order: seq<string>, n: nat)
    requires n <= |order| && forall i | 0 <= i < |order| :: order[i] in defs
    ensures DefFixes(defs, order, n) == Unions(defs, DefNodes(defs, order, n))
  {
    hide Fixes, Nodes, IsSomeUnion;
    if n > 0 {
      DefFixesExactly(defs, order, n - 1);
      FixesExactly(defs, defs[order[n - 1]]);
      UnionsConcat(defs, DefNodes(defs, order, n - 1), Nodes(defs, defs[order[n - 1]]));
    }
  }

  lemma {:induction false} TopFixesExactly(defs: Defs, props: seq<Prop>)
    ensures TopFixes(defs, props) == Unions(defs, TopNodes(defs, props))
  {
    hide Fixes, Nodes, IsSomeUnion;
    if props != [] {
      TopFixesExactly(defs, props[..|props| - 1]);
      FixesExactly(defs, props[|props| - 1].schema);
      UnionsConcat(defs, TopNodes(defs, props[..|props| - 1]), Nodes(defs, props[|props| - 1].schema));
    }
  }

  lemma FixesByParts(defs: Defs, s: Schema)
    ensures Fixes(defs, s) ==
      (if Convertible(defs, s) then 1 else 0)
      + UnionFixes(defs, s, FixNode(defs, s).anyOf)
      + UnionFixes(defs, s, FixNode(defs, s).oneOf)
      + (if s.properties.NoProps? then 0 else PropFixes(defs, s, s.properties.value, |s.properties.value|))
      + (if s.extra.ExtraSchema? then Fixes(defs, s.extra.schema) else 0)
      + (if s.items.Some? then Fixes(defs, s.items.value) else 0)
  {
    hide Convertible, UnionFixes, PropFixes, FixNode;
  }

  lemma {:induction false} SameFixes(defs: Defs, other: Defs, s: Schema)
    requires SameTags(defs, other)
    ensures Fixes(other, s) == Fixes(defs, s)
    decreases s, 1
  {
    hide SameTags, Convertible, AltTag, TagOf, Mapping, Fix, Fixes, FixNode, UnionFixes, AltFixes, PropFixes, FixUnion, FixProps;
    NodeParts(defs, s);
    FixesByParts(defs, s);
    FixesByParts(other, s);
    SameFixNode(defs, other, s);
    SameUnionFixes(defs, other, s, FixNode(defs, s).anyOf);
    SameUnionFixes(defs, other, s, FixNode(defs, s).oneOf);
    if s.properties.Props? { SamePropFixes(defs, other, s, s.properties.value, |s.properties.value|); }
    if s.extra.ExtraSchema? { SameFixes(defs, other, s.extra.schema); }
    if s.items.Some? { SameFixes(defs, other, s.items.value); }
  }

  lemma {:induction false} SameUnionFixes(defs: Defs, other: Defs, parent: Schema, union: Union)
    requires SameTags(defs, other)
    requires union.Alts? ==> forall i | 0 <= i < |union.value| :: union.value[i] < parent
    ensures UnionFixes(other, parent, union) == UnionFixes(defs, parent, union)
    decreases parent, 0, 1
  {
    if union.Alts? { SameAltFixes(defs, other, parent, union.value, |union.value|); }
  }

  lemma {:induction false} SameAltFixes(defs: Defs, other: Defs, parent: Schema, alts: seq<Schema>, n: nat)
    requires SameTags(defs, other)
    requires n <= |alts| && forall i | 0 <= i < |alts| :: alts[i] < parent
    ensures AltFixes(other, parent, alts, n) == AltFixes(defs, parent, alts, n)
    decreases parent, 0, 0, n
  {
    if n > 0 {
      SameAltFixes(defs, other, parent, alts, n - 1);
      SameFixes(defs, other, alts[n - 1]);
    }
  }

  lemma {:induction false} SamePropFixes(defs: Defs, other: Defs, parent: Schema, props: seq<Prop>, n: nat)
    requires SameTags(defs, other)
    requires n <= |props| && forall i | 0 <= i < |props| :: props[i].schema < parent
    ensures PropFixes(other, parent, props, n) == PropFixes(defs, parent, props, n)
    decreases parent, 0, 0, n
  {
    if n > 0 {
      SamePropFixes(defs, other, parent, props, n - 1);
      SameFixes(defs, other, props[n - 1].schema);
    }
  }

  // ---------------------------------------------------------------------------------------------
  // A second run
  // ---------------------------------------------------------------------------------------------

  /** Nothing that was rewritten, or was not convertible, is convertible afterwards. */
  lemma FixedIsNotConvertible(defs: Defs, s: Schema)
    ensures !Convertible(defs, Fix(defs, s))
  {
    var t := Fix(defs, s);
    if Convertible(defs, t) {
      assert s.oneOf.Alts? && !Convertible(defs, s) && t.oneOf == FixUnion(defs, s, s.oneOf);
      forall i | 0 <= i < |s.oneOf.value| ensures AltTag(defs, s.oneOf.value[i]) == AltTag(defs, t.oneOf.value[i]) {
        assert t.oneOf.value[i] == Fix(defs, s.oneOf.value[i]);
      }
    }
  }

  lemma {:induction false} FixTwice(defs: Defs, s: Schema)
    ensures Fix(defs, Fix(defs, s)) == Fix(defs, s)
    ensures Fixes(defs, Fix(defs, s)) == 0
    decreases s, 1
  {
    var fixed, t := FixNode(defs, s), Fix(defs, s);
    FixedIsNotConvertible(defs, s);
    FixByParts(defs, s);
    NodeParts(defs, s);
    hide Fix, Fixes, FixNode, Convertible, FixUnion, UnionFixes, PropFixes;
    FixUnionTwice(defs, s, fixed.anyOf, t);
    FixUnionTwice(defs, s, fixed.oneOf, t);
    if s.properties.Props? {
      FixPropsTwice(defs, s, s.properties.value, t, |s.properties.value|);
    }
    if s.extra.ExtraSchema? { FixTwice(defs, s.extra.schema); }
    if s.items.Some? { FixTwice(defs, s.items.value); }
    StableByParts(defs, t);
  }

  /** A node whose parts are stable is stable. */
  lemma StableByParts(defs: Defs, t: Schema)
    requires !Convertible(defs, t)
    requires FixUnion(defs, t, t.anyOf) == t.anyOf && UnionFixes(defs, t, t.anyOf) == 0
    requires FixUnion(defs, t, t.oneOf) == t.oneOf && UnionFixes(defs, t, t.oneOf) == 0
    requires t.properties.Props? ==>
               && (forall i | 0 <= i < |t.properties.value| ::
                     Fix(defs, t.properties.value[i].schema) == t.properties.value[i].schema)
               && PropFixes(defs, t, t.properties.value, |t.properties.value|) == 0
    requires t.extra.ExtraSchema? ==> Fix(defs, t.extra.schema) == t.extra.schema && Fixes(defs, t.extra.schema) == 0
    requires t.items.Some? ==> Fix(defs, t.items.value) == t.items.value && Fixes(defs, t.items.value) == 0
    ensures Fix(defs, t) == t && Fixes(defs, t) == 0
  {
    if t.properties.Props? {
      assert FixProps(defs, t.properties.value) == t.properties.value;
    }
    assert Fix(defs, t).properties == t.properties;
  }

  lemma {:induction false} FixUnionTwice(defs: Defs, parent: Schema, union: Union, t: Schema)
    requires union.Alts? ==> forall i | 0 <= i < |union.value| :: union.value[i] < parent
    requires var fixed := FixUnion(defs, parent, union);
      fixed.Alts? ==> forall i | 0 <= i < |fixed.value| :: fixed.value[i] < t
    ensures var fixed := FixUnion(defs, parent, union);
      FixUnion(defs, t, fixed) == fixed && UnionFixes(defs, t, fixed) == 0
    decreases parent, 0, 1
  {
    if union.Alts? { FixAltsTwice(defs, parent, union, t, |union.value|); }
  }

  lemma {:induction false} FixAltsTwice(defs: Defs, parent: Schema, union: Union, t: Schema, n: nat)
    requires union.Alts? && n <= |union.value| && forall i | 0 <= i < |union.value| :: union.value[i] < parent
    requires var fixed := FixUnion(defs, parent, union).value; forall i | 0 <= i < |fixed| :: fixed[i] < t
    ensures var fixed := FixUnion(defs, parent, union).value;
      (forall i | 0 <= i < n :: Fix(defs, fixed[i]) == fixed[i]) && AltFixes(defs, t, fixed, n) == 0
    decreases parent, 0, 0, n
  {
    hide Fix, Fixes, FixNode;
    if n > 0 {
      FixAltsTwice(defs, parent, union, t, n - 1);
      FixTwice(defs, union.value[n - 1]);
    }
  }

  lemma {:induction false} FixPropsTwice(defs: Defs, parent: Schema, props: seq<Prop>, t: Schema, n: nat)
    requires n <= |props| && forall i | 0 <= i < |props| :: props[i].schema < parent
    requires var fixed := FixProps(defs, props); forall i | 0 <= i < |fixed| :: fixed[i].schema < t
    ensures var fixed := FixProps(defs, props);
      (forall i | 0 <= i < n :: Fix(defs, fixed[i].schema) == fixed[i].schema) && PropFixes(defs, t, fixed, n) == 0
    decreases parent, 0, 0, n
  {
    hide Fix, Fixes, FixNode;
    if n > 0 {
      FixPropsTwice(defs, parent, props, t, n - 1);
      FixTwice(defs, props[n - 1].schema);
    }
  }

  /** A second run over the rewritten document converts nothing and changes nothing. */
  lemma SecondRunChangesNothing(defs: Defs, s: Schema)
    ensures Fix(FixDefs(defs), Fix(defs, s)) == Fix(defs, s)
    ensures Fixes(FixDefs(defs), Fix(defs, s)) == 0
    ensures FixDefs(FixDefs(defs)) == FixDefs(defs)
  {
    var after := FixDefs(defs);
    PartlyFixedKeepsTags(defs, after);
    SameFix(defs, after, Fix(defs, s));
    SameFixes(defs, after, Fix(defs, s));
    FixTwice(defs, s);
    forall name | name in defs ensures Fix(after, after[name]) == after[name] {
      SameFix(defs, after, after[name]);
      FixTwice(defs, defs[name]);
    }
  }

  // ---------------------------------------------------------------------------------------------
  // The document
  // ---------------------------------------------------------------------------------------------

  class SchemaDocument {
    var defs: Defs
    var properties: seq<Prop>

    constructor (defs: Defs, properties: seq<Prop>)
      ensures this.defs == defs && this.properties == properties
    {
      this.defs := defs;
      this.properties := properties;
    }

    /** `_fix_discriminated_unions`; `order` is the order in which the definitions are iterated. */
    method FixDiscriminatedUnions(order: seq<string>) returns (fixedCount: nat)
      requires IsOrderOf(order, defs)
      modifies this
      ensures defs == FixDefs(old(defs))
      ensures properties == FixProps(old(defs), old(properties))
      ensures defs.Keys == old(defs.Keys) && |properties| == |old(properties)|
      ensures forall name | name in defs :: Rewritten(old(defs), old(defs)[name], defs[name])
      ensures forall i | 0 <= i < |properties| ::
                && properties[i].name == old(properties)[i].name
                && Rewritten(old(defs), old(properties)[i].schema, properties[i].schema)
      ensures fixedCount == Unions(old(defs), DocumentNodes(old(defs), order, old(properties)))
    {
      DefFixesExactly(defs, order, |order|);
      TopFixesExactly(defs, properties);
      UnionsConcat(defs, DefNodes(defs, order, |order|), TopNodes(defs, properties));
      var inDefs := WalkDefinitions(order);
      var inProperties := WalkProperties(old(defs));
      fixedCount := inDefs + inProperties;
      hide Rewritten, Fix;
      forall s: Schema ensures Rewritten(old(defs), s, Fix(old(defs), s)) { FixRewrites(old(defs), s); }
    }

    method WalkDefinitions(order: seq<string>) returns (fixedCount: nat)
      requires IsOrderOf(order, defs)
      modifies this
      ensures defs == FixDefs(old(defs)) && SameTags(old(defs), defs)
      ensures properties == old(properties)
      ensures fixedCount == DefFixes(old(defs), order, |order|)
    {
      hide Fix, Fixes, SameTags;
      ghost var before := defs;
      fixedCount := 0;
      for n := 0 to |order|
        invariant properties == old(properties)
        invariant WalkedTo(before, defs, order, n)
        invariant fixedCount == DefFixes(before, order, n)
      {
        WalkStep(before, defs, order, n);
        fixedCount := fixedCount + Fixes(defs, defs[order[n]]);
        defs := defs[order[n] := Fix(defs, defs[order[n]])];
      }
      KeepsTagsMidway(before, defs, order, |order|);
      WalkedAll(before, defs, order);
    }

    method WalkProperties(ghost before: Defs) returns (fixedCount: nat)
      requires SameTags(before, defs)
      modifies this`properties
      ensures properties == FixProps(before, old(properties))
      ensures fixedCount == TopFixes(before, old(properties))
    {
      hide Fix, Fixes, SameTags;
      ghost var top := properties;
      fixedCount := 0;
      for n := 0 to |properties|
        invariant |properties| == |top|
        invariant forall i | 0 <= i < n :: properties[i] == Prop(top[i].name, Fix(before, top[i].schema))
        invariant forall i | n <= i < |top| :: properties[i] == top[i]
        invariant fixedCount == TopFixes(before, top[..n])
      {
        assert top[..n + 1][..n] == top[..n];
        SameFix(before, defs, top[n].schema);
        SameFixes(before, defs, top[n].schema);
        fixedCount := fixedCount + Fixes(defs, properties[n].schema);
        properties := properties[n := Prop(properties[n].name, Fix(defs, properties[n].schema))];
      }
      assert top[..|top|] == top;
    }
  }

  predicate IsOrderOf(order: seq<string>, defs: Defs) {
    && (forall i | 0 <= i < |order| :: order[i] in defs)
    && (forall name | name in defs :: name in order)
    && (forall i, j | 0 <= i < j < |order| :: order[i] != order[j])
  }

  /** The first `n` definitions in order are rewritten, the others are as before. */
  ghost predicate WalkedTo(before: Defs, defs: Defs, order: seq<string>, n: nat) {
    && IsOrderOf(order, before)
    && n <= |order|
    && defs.Keys == before.Keys
    && (forall i | 0 <= i < n :: defs[order[i]] == Fix(before, before[order[i]]))
    && (forall i | n <= i < |order| :: defs[order[i]] == before[order[i]])
  }

  lemma WalkStep(before: Defs, defs: Defs, order: seq<string>, n: nat)
    requires WalkedTo(before, defs, order, n) && n < |order|
    ensures WalkedTo(before, defs[order[n] := Fix(defs, defs[order[n]])], order, n + 1)
    ensures Fixes(defs, defs[order[n]]) == Fixes(before, before[order[n]])
  {
    hide Fix, Fixes, SameTags;
    KeepsTagsMidway(before, defs, order, n);
    SameFix(before, defs, defs[order[n]]);
    SameFixes(before, defs, defs[order[n]]);
  }

  lemma WalkedAll(before: Defs, defs: Defs, order: seq<string>)
    requires WalkedTo(before, defs, order, |order|)
    ensures defs == FixDefs(before)
  {
    forall name | name in defs ensures defs[name] == Fix(before, before[name]) {
      assert name in before && name in order;
    }
  }

  lemma KeepsTagsMidway(before: Defs, defs: Defs, order: seq<string>, n: nat)
    requires WalkedTo(before, defs, order, n)
    ensures SameTags(before, defs)
  {
    forall name | name in before ensures defs[name] == before[name] || defs[name] == Fix(before, before[name]) {
      assert name in order;
    }
    PartlyFixedKeepsTags(before, defs);
  }
}
