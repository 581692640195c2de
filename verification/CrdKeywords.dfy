/** The conversion keyword by keyword: a node for every branch of `_convert_schema`, described without the functions that
    build it, and at every depth. */
module CrdKeywords {
  import opened JsonSchema
  import opened CrdSchema
  import opened CrdAdmission
  import opened Wrappers

  // ---------------------------------------------------------------------------------------------
  // The branches
  // ---------------------------------------------------------------------------------------------

  /** A union with null: its other alternative, the first one if both are null. */
  predicate IsNullable(s: Schema, inner: Schema) {
    && s.anyOf.Alts? && |s.anyOf.value| == 2
    && ((s.anyOf.value[1].kind == Some(TNull) && inner == s.anyOf.value[0]) ||
        (s.anyOf.value[1].kind != Some(TNull) && s.anyOf.value[0].kind == Some(TNull) && inner == s.anyOf.value[1]))
  }

  predicate HasNull(s: Schema) {
    s.anyOf.Alts? && |s.anyOf.value| == 2 && (s.anyOf.value[0].kind == Some(TNull) || s.anyOf.value[1].kind == Some(TNull))
  }

  /** Alternatives that are all of a scalar type or constant. */
  predicate AllScalar(alts: seq<Schema>) {
    alts != [] && forall alt | alt in alts ::
      alt.constant.Some? || alt.kind in {Some(TNull), Some(TBoolean), Some(TInteger), Some(TNumber), Some(TString)}
  }

  /** Some alternative names a type other than object, or a constant that is no dictionary. */
  predicate SomeNoObject(alts: seq<Schema>) {
    exists alt | alt in alts ::
      || alt.kind in {Some(TNull), Some(TBoolean), Some(TInteger), Some(TNumber), Some(TString), Some(TArray)}
      || (alt.constant.Some? && !alt.constant.value.JObj?)
  }

  datatype Branch =
    | Empty | Marked | Reference | TooDeep | Nullable | FirstAlternative | MixedAnyOf | MixedOneOf | OpenMap | Ordinary

  /** The first branch whose test succeeds. */
  function BranchOf(s: Schema, depth: nat): Branch {
    if s == Blank then Empty
    else if s.preserve && (s.ref.Some? || s.kind.Some? || s.properties.Props?) then Marked
    else if s.ref.Some? then Reference
    else if depth > 16 then TooDeep
    else if HasNull(s) then Nullable
    else if s.anyOf.Alts? && AllScalar(s.anyOf.value) then FirstAlternative
    else if s.anyOf.Alts? then MixedAnyOf
    else if s.oneOf.Alts? then MixedOneOf
    else if s.extra.ExtraSchema? && s.extra.schema.discriminator.Some? then OpenMap
    else Ordinary
  }

  // ---------------------------------------------------------------------------------------------
  // What a node carries
  // ---------------------------------------------------------------------------------------------

  /** `theirs` if there is one, else `ours` unless it is null. */
  ghost predicate TheirsOrOurs(n: Option<Json>, theirs: Option<Json>, ours: Option<Json>) {
    forall d :: n == Some(d) <==> theirs == Some(d) || (theirs.None? && ours == Some(d) && d != JNull)
  }

  /** A node with only these keywords. */
  predicate Bare(n: Node, kind: Option<Kind>, preserve: bool, sentinel: bool, description: Option<string>) {
    n == Node(kind, preserve, sentinel, None, None, None, None, None, None, description,
              None, None, None, None, None, None, None, None, None, None)
  }

  /** The nodes agree but for these keywords. */
  predicate AgreeBut(n: Node, m: Node) {
    n == m.(kind := n.kind, preserve := n.preserve, sentinel := n.sentinel, default := n.default,
            description := n.description)
  }

  predicate ForMixed(alts: seq<Schema>, description: Option<string>, n: Node) {
    if SomeNoObject(alts) then Bare(n, None, true, true, description)
    else Bare(n, Some(TObject), true, false, description)
  }

  /** A reference keeps its target's node, but for its own text and default. */
  ghost predicate ForReference(s: Schema, m: Node, n: Node) {
    && AgreeBut(n, m) && n.kind == m.kind && n.preserve == m.preserve && n.sentinel == m.sentinel
    && (n.description == if s.description.Some? && s.description.value != "" then s.description else m.description)
    && TheirsOrOurs(n.default, m.default, s.default)
  }

  /** So does a nullable union, whose own text comes last; marked, it preserves, and is typeless if anything goes. */
  ghost predicate ForNullable(s: Schema, inner: Schema, m: Node, n: Node) {
    && AgreeBut(n, m)
    && (n.description == if m.description.Some? then m.description else s.description)
    && TheirsOrOurs(n.default, m.default, s.default)
    && n.preserve == (m.preserve || s.preserve)
    && n.sentinel == (m.sentinel || (s.preserve && inner == Blank))
    && (!s.preserve ==> n.kind == m.kind)
    && (s.preserve ==> n.kind == if inner == Blank then None else if m.kind.Some? then m.kind else Some(TObject))
  }

  /** A union of scalars keeps its first alternative's node, and its own text and default win. */
  predicate ForFirst(s: Schema, m: Node, n: Node) {
    && AgreeBut(n, m) && n.kind == m.kind && n.preserve == m.preserve && n.sentinel == m.sentinel
    && (n.description == if s.description.Some? then s.description else m.description)
    && (n.default == if s.default.Some? then s.default else m.default)
  }

  predicate ObjectBranch(s: Schema) { s.kind == Some(TObject) || s.properties.Props? }

  /** An ordinary node's type: its own, object for want of one, or that of its constant if it is marked. */
  predicate OwnType(s: Schema, n: Node) {
    && (ObjectBranch(s) ==> n.kind == Some(TObject))
    && (!ObjectBranch(s) && s.kind.Some? ==> n.kind == s.kind)
    && (!ObjectBranch(s) && s.kind.None? && !s.preserve ==> n.kind == Some(TObject))
    && (!ObjectBranch(s) && s.kind.None? && s.preserve ==>
          match s.constant
          case Some(JStr(_)) => n.kind == Some(TString)
          case Some(JBool(_)) => n.kind == Some(TBoolean)
          case Some(JNum(x)) => n.kind == if x == x.Floor as real then Some(TInteger) else None
          case _ => n.kind == None)
    && (n.preserve <==> s.kind.None? || (ObjectBranch(s) && s.extra == ExtraFlag(true)))
    && (n.sentinel <==> s.kind.None? && s.preserve)
  }

  /** A bound, the exclusive limit if there is no other, and whether it is exclusive. */
  predicate OwnBound(bound: Option<real>, exclusive: Option<Exclusive>, n: Option<real>, flag: Option<bool>) {
    match exclusive
    case None => n == bound && flag == None
    case Some(Flag(b)) => n == bound && flag == Some(b)
    case Some(Limit(x)) => n == (if bound.Some? then bound else Some(x)) && flag == Some(true)
  }

  /** Its other keywords are its own, but for a null default and the `path` format. */
  ghost predicate OwnRest(s: Schema, n: Node) {
    && n.description == s.description
    && (forall d :: n.default == Some(d) <==> s.default == Some(d) && d != JNull)
    && (s.constant.Some? ==> n.enum == Some([s.constant.value]))
    && (s.constant.None? ==> n.enum == s.enum)
    && OwnBound(s.minimum, s.exclusiveMinimum, n.minimum, n.exclusiveMinimum)
    && OwnBound(s.maximum, s.exclusiveMaximum, n.maximum, n.exclusiveMaximum)
    && n.minLength == s.minLength && n.maxLength == s.maxLength && n.pattern == s.pattern
    && (forall f :: n.format == Some(f) <==> s.format == Some(f) && f != "path")
    && n.minItems == s.minItems && n.maxItems == s.maxItems
  }

  ghost predicate OwnKeywords(s: Schema, n: Node) {
    OwnType(s, n) && OwnRest(s, n) && n.required == if ObjectBranch(s) then s.required else None
  }

  /** The node for other fields; that of a reference or a typed schema is left out if it is empty. */
  predicate ForExtra(extra: Schema, m: Node, n: Node) {
    n.additional == if (extra.ref.Some? || extra.kind.Some?) && Bare(m, None, false, false, None) then None else Some(m)
  }

  /** The node that each branch calls for, at every depth. */
  ghost predicate Mirrors(fuel: nat, defs: Defs, s: Schema, depth: nat, n: Node)
    decreases fuel, 0
  {
    fuel > 0 &&
    match BranchOf(s, depth)
    case Empty => Bare(n, None, false, false, None)
    case Marked => Bare(n, None, true, true, if s.description == Some("") then None else s.description)
    case Reference =>
      exists m :: Mirrors(fuel - 1, defs, Resolve(defs, s.ref.value), depth, m) && ForReference(s, m, n)
    case TooDeep => Bare(n, Some(TObject), true, false, s.description)
    case Nullable =>
      exists inner, m :: IsNullable(s, inner) && Mirrors(fuel - 1, defs, inner, depth, m) && ForNullable(s, inner, m, n)
    case FirstAlternative =>
      exists m :: Mirrors(fuel - 1, defs, s.anyOf.value[0], depth, m) && ForFirst(s, m, n)
    case MixedAnyOf => ForMixed(s.anyOf.value, s.description, n)
    case MixedOneOf => ForMixed(s.oneOf.value, s.description, n)
    case OpenMap => Bare(n, Some(TObject), true, false, s.description)
    case Ordinary => MirrorsOrdinary(fuel - 1, defs, s, depth, n)
  }

  ghost predicate MirrorsOrdinary(fuel: nat, defs: Defs, s: Schema, depth: nat, n: Node)
    decreases fuel, 1
  {
    && OwnKeywords(s, n)
    && (if ObjectBranch(s) && s.properties.Props? && s.properties.value != [] then
          && n.properties.Some? && |n.properties.value| == |s.properties.value|
          && forall i | 0 <= i < |s.properties.value| ::
               && n.properties.value[i].name == s.properties.value[i].name
               && Mirrors(fuel, defs, s.properties.value[i].schema, depth + 1, n.properties.value[i].node)
        else n.properties.None?)
    && (if ObjectBranch(s) && s.extra.ExtraSchema? then
          exists m :: Mirrors(fuel, defs, s.extra.schema, depth + 1, m) && ForExtra(s.extra.schema, m, n)
        else n.additional.None?)
    && (if s.kind == Some(TArray) && s.items.Some? then
          n.items.Some? && Mirrors(fuel, defs, s.items.value, depth + 1, n.items.value)
        else n.items.None?)
  }

  // ---------------------------------------------------------------------------------------------
  // The conversion follows it
  // ---------------------------------------------------------------------------------------------

  lemma UnionTests(s: Schema)
    ensures HasNull(s) <==> NullableReal(s).Some?
    ensures NullableReal(s).Some? ==> IsNullable(s, NullableReal(s).value)
    ensures s.anyOf.Alts? ==> (AllScalar(s.anyOf.value) <==> IsScalarUnion(s.anyOf.value))
    ensures s.anyOf.Alts? && AllScalar(s.anyOf.value) ==> s.anyOf.value != []
  {
    if s.anyOf.Alts? { ScalarTests(s.anyOf.value); }
  }

  lemma ScalarTests(alts: seq<Schema>)
    ensures AllScalar(alts) <==> IsScalarUnion(alts)
    ensures SomeNoObject(alts) <==> HasNonObjectAlt(alts)
  {
    forall alt: Schema ensures IsScalarAlt(alt) <==>
      alt.constant.Some? || alt.kind in {Some(TNull), Some(TBoolean), Some(TInteger), Some(TNumber), Some(TString)}
    {
      if alt.kind.Some? { EveryKind(alt.kind.value); }
    }
    if AllScalar(alts) { assert forall i | 0 <= i < |alts| :: alts[i] in alts; }
    if alt :| alt in alts && (alt.kind in {Some(TNull), Some(TBoolean), Some(TInteger), Some(TNumber), Some(TString),
                                           Some(TArray)} || (alt.constant.Some? && !alt.constant.value.JObj?)) {
      var i :| 0 <= i < |alts| && alts[i] == alt;
    }
    if i :| 0 <= i < |alts| && ((alts[i].kind.Some? && alts[i].kind.value != TObject) ||
                                (alts[i].constant.Some? && !alts[i].constant.value.JObj?)) {
      assert alts[i] in alts;
      if alts[i].kind.Some? { EveryKind(alts[i].kind.value); }
    }
  }

  lemma EveryKind(kind: Kind)
    ensures kind in {TNull, TBoolean, TInteger, TNumber, TString, TArray, TObject}
  {}

  lemma MixedFollows(alts: seq<Schema>, description: Option<string>)
    ensures ForMixed(alts, description, MixedUnion(alts, description))
  {
    hide AllScalar, SomeNoObject, HasNonObjectAlt;
    ScalarTests(alts);
  }

  /** Every node that the conversion returns mirrors its schema, branch by branch and keyword by keyword. */
  lemma {:induction false} ConversionMirrors(fuel: nat, defs: Defs, s: Schema, depth: nat)
    requires Convert(fuel, defs, s, depth).Some?
    ensures Mirrors(fuel, defs, s, depth, Convert(fuel, defs, s, depth).value)
    decreases fuel, 0
  {
    hide AllScalar, SomeNoObject, HasNonObjectAlt, IsScalarUnion, NullableReal, HasNull, IsNullable, ConvertOrdinary;
    hide ForMixed, MirrorsOrdinary;
    UnionTests(s);
    var n := Convert(fuel, defs, s, depth).value;
    match BranchOf(s, depth) {
      case Reference =>
        ConversionMirrors(fuel - 1, defs, Resolve(defs, s.ref.value), depth);
        var m := Convert(fuel - 1, defs, Resolve(defs, s.ref.value), depth).value;
        assert ForReference(s, m, n);
      case Nullable =>
        var inner := NullableReal(s).value;
        ConversionMirrors(fuel - 1, defs, inner, depth);
        var m := Convert(fuel - 1, defs, inner, depth).value;
        assert IsNullable(s, inner) && ForNullable(s, inner, m, n);
      case FirstAlternative =>
        ConversionMirrors(fuel - 1, defs, s.anyOf.value[0], depth);
        var m := Convert(fuel - 1, defs, s.anyOf.value[0], depth).value;
        assert ForFirst(s, m, n);
      case MixedAnyOf => MixedFollows(s.anyOf.value, s.description);
      case MixedOneOf => MixedFollows(s.oneOf.value, s.description);
      case Ordinary => OrdinaryMirrors(fuel - 1, defs, s, depth);
      case _ =>
    }
  }

  lemma {:induction false} OrdinaryMirrors(fuel: nat, defs: Defs, s: Schema, depth: nat)
    requires BranchOf(s, depth) == Ordinary && ConvertOrdinary(fuel, defs, s, depth).Some?
    ensures MirrorsOrdinary(fuel, defs, s, depth, ConvertOrdinary(fuel, defs, s, depth).value)
    decreases fuel, 2
  {
    hide AllScalar, HasNull, BranchOf, Convert, ConvertProps, OwnKeywords, Leaf;
    var n := ConvertOrdinary(fuel, defs, s, depth).value;
    OrdinaryKeywords(fuel, defs, s, depth);
    LeafIsChildless(s);
    if ObjectBranch(s) {
      if s.properties.Props? { PropsMirror(fuel, defs, s.properties.value, depth + 1); }
      if s.extra.ExtraSchema? {
        ConversionMirrors(fuel, defs, s.extra.schema, depth + 1);
        assert ForExtra(s.extra.schema, Convert(fuel, defs, s.extra.schema, depth + 1).value, n);
      }
    }
    if s.kind == Some(TArray) && s.items.Some? { ConversionMirrors(fuel, defs, s.items.value, depth + 1); }
  }

  lemma LeafIsChildless(s: Schema)
    ensures Leaf(s).properties.None? && Leaf(s).additional.None? && Leaf(s).items.None?
  {}

  lemma OrdinaryKeywords(fuel: nat, defs: Defs, s: Schema, depth: nat)
    requires BranchOf(s, depth) == Ordinary && ConvertOrdinary(fuel, defs, s, depth).Some?
    ensures OwnKeywords(s, ConvertOrdinary(fuel, defs, s, depth).value)
  {
    hide OwnType, OwnRest, ConvertOrdinary, Leaf, AllScalar, HasNull;
    TypeOfOrdinary(fuel, defs, s, depth);
    LeafKeywords(s);
    OrdinaryKeepsRest(fuel, defs, s, depth);
  }

  lemma OrdinaryKeepsRest(fuel: nat, defs: Defs, s: Schema, depth: nat)
    requires ConvertOrdinary(fuel, defs, s, depth).Some? && OwnRest(s, Leaf(s))
    ensures OwnRest(s, ConvertOrdinary(fuel, defs, s, depth).value)
  {
    hide Leaf, Convert, ConvertProps, OwnRest;
    var leaf, n := Leaf(s), ConvertOrdinary(fuel, defs, s, depth).value;
    RestStays(s, leaf, n);
  }

  lemma RestStays(s: Schema, leaf: Node, n: Node)
    requires OwnRest(s, leaf)
    requires n == leaf.(kind := n.kind, preserve := n.preserve, properties := n.properties, required := n.required,
                        additional := n.additional, items := n.items)
    ensures OwnRest(s, n)
  {}

  lemma TypeOfOrdinary(fuel: nat, defs: Defs, s: Schema, depth: nat)
    requires BranchOf(s, depth) == Ordinary && ConvertOrdinary(fuel, defs, s, depth).Some?
    ensures var n := ConvertOrdinary(fuel, defs, s, depth).value;
      OwnType(s, n) && n.required == if ObjectBranch(s) then s.required else None
  {
    hide AllScalar, HasNull, Convert, ConvertProps;
  }

  lemma LeafKeywords(s: Schema)
    ensures OwnRest(s, Leaf(s))
  {}

  lemma {:induction false} PropsMirror(fuel: nat, defs: Defs, props: seq<Prop>, depth: nat)
    requires ConvertProps(fuel, defs, props, depth).Some?
    ensures var fields := ConvertProps(fuel, defs, props, depth).value;
      && |fields| == |props|
      && forall i | 0 <= i < |props| ::
           fields[i].name == props[i].name && Mirrors(fuel, defs, props[i].schema, depth, fields[i].node)
    decreases fuel, 1
  {
    PropsPointwise(fuel, defs, props, depth);
    forall i | 0 <= i < |props|
      ensures Mirrors(fuel, defs, props[i].schema, depth, ConvertProps(fuel, defs, props, depth).value[i].node)
    {
      ConversionMirrors(fuel, defs, props[i].schema, depth);
    }
  }
}
