/** The rewriting node by node: what a rewritten schema carries, the discriminator with its table, and how many nodes
    were converted, described without the functions that rewrite. */
module UnionKeywords {
  import opened JsonSchema
  import opened UnionRewrite
  import opened Wrappers

  // ---------------------------------------------------------------------------------------------
  // Tags
  // ---------------------------------------------------------------------------------------------

  /** The first property called `name`. */
  predicate IsFirstCalled(props: seq<Prop>, i: nat, name: string) {
    i < |props| && props[i].name == name && forall j | 0 <= j < i :: props[j].name != name
  }

  /** A property other than the type that is a constant, and the first such. */
  predicate IsFirstOther(props: seq<Prop>, i: nat) {
    && i < |props| && props[i].name != "type" && props[i].schema.constant.Some?
    && forall j | 0 <= j < i :: props[j].name == "type" || props[j].schema.constant.None?
  }

  /** The `type` property is a constant. */
  predicate TypeIsConstant(props: seq<Prop>) {
    exists i :: 0 <= i < |props| && IsFirstCalled(props, i, "type") && props[i].schema.constant.Some?
  }

  /** The alternative is a local reference to a definition with this tag: the constant type if it has one, else the
      first constant property. */
  ghost predicate IsTagged(defs: Defs, alt: Schema, field: string, value: Json) {
    && alt.ref.Some? && alt.ref.value.local && alt.ref.value.name in defs
    && defs[alt.ref.value.name].properties.Props?
    && var props := defs[alt.ref.value.name].properties.value;
       exists i :: 0 <= i < |props| && props[i].name == field && props[i].schema.constant == Some(value) &&
         if TypeIsConstant(props) then IsFirstCalled(props, i, "type") else IsFirstOther(props, i)
  }

  lemma {:induction false} FoundIsFirst(props: seq<Prop>, name: string) returns (i: nat)
    ensures FindProp(props, name).None? ==> forall j | 0 <= j < |props| :: props[j].name != name
    ensures FindProp(props, name).Some? ==> IsFirstCalled(props, i, name) && props[i].schema == FindProp(props, name).value
  {
    i := 0;
    if props != [] && props[0].name != name {
      var k := FoundIsFirst(props[1..], name);
      i := k + 1;
      assert forall j | 0 < j < |props| :: props[j] == props[1..][j - 1];
    }
  }

  lemma {:induction false} OtherIsFirst(props: seq<Prop>) returns (i: nat)
    ensures FirstConstant(props).None? ==> forall j :: !IsFirstOther(props, j)
    ensures FirstConstant(props).Some? ==>
              IsFirstOther(props, i) && FirstConstant(props) == Some(Tag(props[i].name, props[i].schema.constant.value))
  {
    i := 0;
    if props != [] && (props[0].name == "type" || props[0].schema.constant.None?) {
      var k := OtherIsFirst(props[1..]);
      i := k + 1;
      assert forall j | 0 < j < |props| :: props[j] == props[1..][j - 1];
      forall j: nat | IsFirstOther(props, j) ensures j > 0 && IsFirstOther(props[1..], j - 1) {
        assert forall l | 0 <= l < j - 1 :: props[1..][l] == props[l + 1];
      }
    }
  }

  /** The tag that the pass reads off an alternative. */
  lemma TagExactly(defs: Defs, alt: Schema, field: string, value: Json)
    ensures AltTag(defs, alt) == Some(Tag(field, value)) <==> IsTagged(defs, alt, field, value)
  {
    if alt.ref.Some? && alt.ref.value.local && alt.ref.value.name in defs &&
       defs[alt.ref.value.name].properties.Props? {
      var props := defs[alt.ref.value.name].properties.value;
      var t := FoundIsFirst(props, "type");
      var c := OtherIsFirst(props);
      forall i, j | IsFirstCalled(props, i, "type") && IsFirstCalled(props, j, "type") ensures i == j {}
      forall i, j | IsFirstOther(props, i) && IsFirstOther(props, j) ensures i == j {}
    }
  }

// ---------------------------------------------------------------------------------------------
  // The tag table
  // ---------------------------------------------------------------------------------------------

  /** Alternative `i` is the last one with its tag. */
  ghost predicate IsLast(defs: Defs, alts: seq<Schema>, i: nat)
    requires forall k | 0 <= k < |alts| :: AltTag(defs, alts[k]).Some?
  {
    i < |alts| && forall j | i < j < |alts| :: AltTag(defs, alts[j]).value.value != AltTag(defs, alts[i]).value.value
  }

  /** The table has an entry for a value exactly if some alternative has that tag. */
  lemma {:induction false} MappingHasTag(defs: Defs, alts: seq<Schema>, c: Json)
    requires forall i | 0 <= i < |alts| :: AltTag(defs, alts[i]).Some?
    ensures c in Mapping(defs, alts) <==> exists i | 0 <= i < |alts| :: AltTag(defs, alts[i]).value.value == c
  {
    hide TagOf, AltTag;
    if alts != [] {
      var front, last := alts[..|alts| - 1], |alts| - 1;
      MappingHasTag(defs, front, c);
      if i :| 0 <= i < |alts| && AltTag(defs, alts[i]).value.value == c {
        assert i < last ==> front[i] == alts[i];
      }
    }
  }

  /** And the entry is the last alternative with the tag. */
  lemma {:induction false} MappingIsSound(defs: Defs, alts: seq<Schema>, i: nat)
    requires (forall k | 0 <= k < |alts| :: AltTag(defs, alts[k]).Some?) && IsLast(defs, alts, i)
    ensures var c := AltTag(defs, alts[i]).value.value;
      c in Mapping(defs, alts) && Mapping(defs, alts)[c] == alts[i].ref.value
  {
    hide TagOf, AltTag;
    var front, last := alts[..|alts| - 1], |alts| - 1;
    if i < last {
      assert IsLast(defs, front, i);
      MappingIsSound(defs, front, i);
    }
  }

  /** Every tag has a last alternative. */
  lemma {:induction false} LastOfTag(defs: Defs, alts: seq<Schema>, i: nat) returns (j: nat)
    requires (forall k | 0 <= k < |alts| :: AltTag(defs, alts[k]).Some?) && i < |alts|
    ensures i <= j && IsLast(defs, alts, j) && AltTag(defs, alts[j]).value.value == AltTag(defs, alts[i]).value.value
    decreases |alts| - i
  {
    j := i;
    if k :| i < k < |alts| && AltTag(defs, alts[k]).value.value == AltTag(defs, alts[i]).value.value {
      j := LastOfTag(defs, alts, k);
    }
  }

  /** The table leads from every alternative's tag back to it exactly when alternatives of one tag are one reference. */
  lemma MappingIsFaithfulExactly(defs: Defs, alts: seq<Schema>)
    requires forall i | 0 <= i < |alts| :: AltTag(defs, alts[i]).Some?
    ensures (forall i | 0 <= i < |alts| ::
               var c := AltTag(defs, alts[i]).value.value;
               c in Mapping(defs, alts) && Mapping(defs, alts)[c] == alts[i].ref.value) <==>
            (forall i, j | 0 <= i < |alts| && 0 <= j < |alts| ::
               AltTag(defs, alts[i]).value.value == AltTag(defs, alts[j]).value.value ==> alts[i].ref == alts[j].ref)
  {
    hide Mapping, TagOf;
    if forall i, j | 0 <= i < |alts| && 0 <= j < |alts| ::
         AltTag(defs, alts[i]).value.value == AltTag(defs, alts[j]).value.value ==> alts[i].ref == alts[j].ref {
      forall i | 0 <= i < |alts|
        ensures var c := AltTag(defs, alts[i]).value.value;
          c in Mapping(defs, alts) && Mapping(defs, alts)[c] == alts[i].ref.value
      {
        var j := LastOfTag(defs, alts, i);
        MappingIsSound(defs, alts, j);
      }
    }
  }

  // ---------------------------------------------------------------------------------------------
  // A rewritten node
  // ---------------------------------------------------------------------------------------------

  /** At least two alternatives, all tagged by one field that has a name. */
  ghost predicate IsUnion(defs: Defs, s: Schema, field: string) {
    && s.oneOf.Alts? && |s.oneOf.value| >= 2 && field != ""
    && forall i | 0 <= i < |s.oneOf.value| :: IsTaggedBy(defs, s.oneOf.value[i], field)
  }

  ghost predicate IsSomeUnion(defs: Defs, s: Schema) { exists field :: IsUnion(defs, s, field) }

  ghost predicate IsTaggedBy(defs: Defs, alt: Schema, field: string) {
    exists value :: IsTagged(defs, alt, field, value)
  }

  /** The last alternative with the tag. */
  ghost predicate IsLastTagged(defs: Defs, alts: seq<Schema>, i: nat, field: string, value: Json) {
    && i < |alts| && IsTagged(defs, alts[i], field, value)
    && forall j | i < j < |alts| :: !IsTagged(defs, alts[j], field, value)
  }

  /** The discriminator names the tag field, and its table leads from each tag to the last alternative that has it. */
  ghost predicate IsDiscriminator(defs: Defs, alts: seq<Schema>, field: string, d: Discriminator) {
    && d.field == field
    && forall value: Json, ref: Ref ::
         (value in d.mapping && d.mapping[value] == ref) <==> LeadsTo(defs, alts, field, value, ref)
  }

  ghost predicate LeadsTo(defs: Defs, alts: seq<Schema>, field: string, value: Json, ref: Ref) {
    exists i: nat :: IsLastTagged(defs, alts, i, field, value) && alts[i].ref == Some(ref)
  }

  /** `t` is `s` with its unions converted: the node and everything below it. */
  ghost predicate Rewritten(defs: Defs, s: Schema, t: Schema)
    decreases s, 1
  {
    && t == s.(anyOf := t.anyOf, oneOf := t.oneOf, discriminator := t.discriminator, properties := t.properties,
               extra := t.extra, items := t.items)
    && (if IsSomeUnion(defs, s) then
          && t.oneOf.NoAlts? && AltsRewritten(defs, s, s.oneOf, t.anyOf)
          && t.discriminator.Some?
          && forall field :: IsUnion(defs, s, field) ==>
               IsDiscriminator(defs, s.oneOf.value, field, t.discriminator.value)
        else
          && AltsRewritten(defs, s, s.anyOf, t.anyOf) && AltsRewritten(defs, s, s.oneOf, t.oneOf)
          && t.discriminator == s.discriminator)
    && (if s.properties.NoProps? then t.properties.NoProps?
        else
          && t.properties.Props? && |t.properties.value| == |s.properties.value|
          && forall i | 0 <= i < |s.properties.value| ::
               && t.properties.value[i].name == s.properties.value[i].name
               && Rewritten(defs, s.properties.value[i].schema, t.properties.value[i].schema))
    && (if s.extra.ExtraSchema? then t.extra.ExtraSchema? && Rewritten(defs, s.extra.schema, t.extra.schema)
        else t.extra == s.extra)
    && (if s.items.Some? then t.items.Some? && Rewritten(defs, s.items.value, t.items.value) else t.items.None?)
  }

  ghost predicate AltsRewritten(defs: Defs, parent: Schema, union: Union, new': Union)
    requires union.Alts? ==> forall i | 0 <= i < |union.value| :: union.value[i] < parent
    decreases parent, 0
  {
    if union.NoAlts? then new'.NoAlts?
    else
      && new'.Alts? && |new'.value| == |union.value|
      && forall i | 0 <= i < |union.value| :: Rewritten(defs, union.value[i], new'.value[i])
  }

  lemma UnionIsConvertible(defs: Defs, s: Schema)
    ensures Convertible(defs, s) ==> IsUnion(defs, s, AltTag(defs, s.oneOf.value[0]).value.field)
    ensures forall field :: IsUnion(defs, s, field) ==>
              Convertible(defs, s) && AltTag(defs, s.oneOf.value[0]).value.field == field
  {
    hide AltTag;
    if Convertible(defs, s) {
      var field := AltTag(defs, s.oneOf.value[0]).value.field;
      forall i | 0 <= i < |s.oneOf.value| ensures IsTaggedBy(defs, s.oneOf.value[i], field) {
        var value := AltTag(defs, s.oneOf.value[i]).value.value;
        TagExactly(defs, s.oneOf.value[i], field, value);
        assert AltTag(defs, s.oneOf.value[i]) == Some(Tag(field, value));
      }
    }
    forall field | IsUnion(defs, s, field)
      ensures Convertible(defs, s) && AltTag(defs, s.oneOf.value[0]).value.field == field
    {
      forall i | 0 <= i < |s.oneOf.value|
        ensures AltTag(defs, s.oneOf.value[i]).Some? && AltTag(defs, s.oneOf.value[i]).value.field == field
      {
        var value :| IsTagged(defs, s.oneOf.value[i], field, value);
        TagExactly(defs, s.oneOf.value[i], field, value);
      }
    }
  }

  /** The table of a convertible union. */
  lemma MappingIsDiscriminator(defs: Defs, s: Schema, field: string)
    requires Convertible(defs, s) && AltTag(defs, s.oneOf.value[0]).value.field == field
    ensures IsDiscriminator(defs, s.oneOf.value, field, Discriminator(field, Mapping(defs, s.oneOf.value)))
  {
    hide AltTag, Mapping;
    var alts := s.oneOf.value;
    forall i: nat, value: Json | i < |alts|
      ensures IsTagged(defs, alts[i], field, value) <==> AltTag(defs, alts[i]).value.value == value
    {
      TagExactly(defs, alts[i], field, value);
      assert AltTag(defs, alts[i]) == Some(Tag(field, AltTag(defs, alts[i]).value.value));
    }
    forall value: Json, ref: Ref
      ensures (value in Mapping(defs, alts) && Mapping(defs, alts)[value] == ref) <==>
              LeadsTo(defs, alts, field, value, ref)
    {
      MappingEntry(defs, alts, field, value, ref);
    }
  }

  lemma MappingEntry(defs: Defs, alts: seq<Schema>, field: string, value: Json, ref: Ref)
    requires forall i | 0 <= i < |alts| :: AltTag(defs, alts[i]).Some?
    requires forall i: nat | i < |alts| ::
               IsTagged(defs, alts[i], field, value) <==> AltTag(defs, alts[i]).value.value == value
    ensures (value in Mapping(defs, alts) && Mapping(defs, alts)[value] == ref) <==>
            LeadsTo(defs, alts, field, value, ref)
  {
    hide IsTagged, TagOf, Mapping;
    MappingHasTag(defs, alts, value);
    if value in Mapping(defs, alts) {
      var i :| 0 <= i < |alts| && AltTag(defs, alts[i]).value.value == value;
      var j := LastOfTag(defs, alts, i);
      MappingIsSound(defs, alts, j);
      assert IsLastTagged(defs, alts, j, field, value);
      forall i: nat | IsLastTagged(defs, alts, i, field, value) ensures i == j {}
    }
  }

  /** The rewriting converts the unions, with their tables, and touches nothing else, at every depth. */
  lemma {:induction false} FixRewrites(defs: Defs, s: Schema)
    ensures Rewritten(defs, s, Fix(defs, s))
    decreases s, 1
  {
    hide Fix, FixUnion, Mapping, AltTag, IsTagged, IsUnion, IsDiscriminator, Convertible;
    FixByParts(defs, s);
    NodeParts(defs, s);
    FixNodeByParts(defs, s);
    ConvertedDiscriminator(defs, s);
    var fixed := FixNode(defs, s);
    hide FixNode;
    AltsAreRewritten(defs, s, fixed.anyOf);
    AltsAreRewritten(defs, s, fixed.oneOf);
    if s.properties.Props? {
      forall i | 0 <= i < |s.properties.value|
        ensures Rewritten(defs, s.properties.value[i].schema, Fix(defs, s.properties.value[i].schema))
      {
        FixRewrites(defs, s.properties.value[i].schema);
      }
    }
    if s.extra.ExtraSchema? { FixRewrites(defs, s.extra.schema); }
    if s.items.Some? { FixRewrites(defs, s.items.value); }
  }

  lemma ConvertedDiscriminator(defs: Defs, s: Schema)
    ensures IsSomeUnion(defs, s) <==> Convertible(defs, s)
    ensures var d := FixNode(defs, s).discriminator;
      Convertible(defs, s) ==>
        d.Some? && forall field | IsUnion(defs, s, field) :: IsDiscriminator(defs, s.oneOf.value, field, d.value)
  {
    hide IsUnion, IsDiscriminator, Mapping;
    UnionIsConvertible(defs, s);
    if Convertible(defs, s) { MappingIsDiscriminator(defs, s, AltTag(defs, s.oneOf.value[0]).value.field); }
  }

  lemma FixNodeByParts(defs: Defs, s: Schema)
    ensures var fixed := FixNode(defs, s);
      && fixed == s.(anyOf := fixed.anyOf, oneOf := fixed.oneOf, discriminator := fixed.discriminator)
      && (Convertible(defs, s) ==>
            s.oneOf.Alts? && fixed.anyOf == s.oneOf && fixed.oneOf.NoAlts?)
      && (!Convertible(defs, s) ==> fixed == s)
  {}

  lemma {:induction false} AltsAreRewritten(defs: Defs, parent: Schema, union: Union)
    requires union.Alts? ==> forall i | 0 <= i < |union.value| :: union.value[i] < parent
    ensures AltsRewritten(defs, parent, union, FixUnion(defs, parent, union))
    decreases parent, 0
  {
    hide Fix, Rewritten;
    if union.Alts? {
      forall i | 0 <= i < |union.value| ensures Rewritten(defs, union.value[i], Fix(defs, union.value[i])) {
        FixRewrites(defs, union.value[i]);
      }
    }
  }
}
