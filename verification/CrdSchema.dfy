/** `_convert_schema`: JSON Schema nodes to Kubernetes structural OpenAPI nodes, and what admission makes of them. */
module CrdSchema {
  import opened JsonSchema
  import opened Wrappers

  const MAX_DEPTH: nat := 16

  datatype Field = Field(name: string, node: Node)

  /** A structural schema node.  `sentinel` is the generator's internal mixed-union marker. */
  datatype Node = Node(
    kind: Option<Kind>,
    preserve: bool,
    sentinel: bool,
    properties: Option<seq<Field>>,
    required: Option<seq<string>>,
    additional: Option<Node>,
    items: Option<Node>,
    enum: Option<seq<Json>>,
    default: Option<Json>,
    description: Option<string>,
    minimum: Option<real>,
    maximum: Option<real>,
    exclusiveMinimum: Option<bool>,
    exclusiveMaximum: Option<bool>,
    minLength: Option<nat>,
    maxLength: Option<nat>,
    pattern: Option<string>,
    format: Option<string>,
    minItems: Option<nat>,
    maxItems: Option<nat>)

  /** The node `{}`. */
  const Open: Node :=
    Node(None, false, false, None, None, None, None, None, None, None,
         None, None, None, None, None, None, None, None, None, None)

  /** The polymorphic node: anything goes, and the later passes leave it typeless. */
  const Polymorphic: Node := Open.(preserve := true, sentinel := true)

  /** An object of unknown shape. */
  const Opaque: Node := Open.(kind := Some(TObject), preserve := true)

  // ---------------------------------------------------------------------------------------------
  // The conversion
  // ---------------------------------------------------------------------------------------------

  function Present(default: Option<Json>): Option<Json> {
    if default.Some? && default.value != JNull then default else None
  }

  predicate NonEmpty(text: Option<string>) {
    text.Some? && text.value != ""
  }

  /** `_anyof_has_non_object_alt`. */
  predicate HasNonObjectAlt(alts: seq<Schema>) {
    exists i | 0 <= i < |alts| ::
      || (alts[i].kind.Some? && alts[i].kind.value != TObject)
      || (alts[i].constant.Some? && !alts[i].constant.value.JObj?)
  }

  /** `_is_nullable_anyof`: the other alternative of a two-way union with null; the last null wins. */
  function NullableReal(s: Schema): Option<Schema> {
    if s.anyOf.NoAlts? || |s.anyOf.value| != 2 then None
    else if s.anyOf.value[1].kind == Some(TNull) then Some(s.anyOf.value[0])
    else if s.anyOf.value[0].kind == Some(TNull) then Some(s.anyOf.value[1])
    else None
  }

  predicate IsScalarAlt(alt: Schema) {
    || (alt.kind.Some? && alt.kind.value != TObject && alt.kind.value != TArray)
    || alt.constant.Some?
  }

  predicate IsScalarUnion(alts: seq<Schema>) {
    |alts| > 0 && forall i | 0 <= i < |alts| :: IsScalarAlt(alts[i])
  }

  /** The author-side marker that makes a node polymorphic whatever its annotation says. */
  predicate MarkedPolymorphic(s: Schema) {
    s.preserve && (s.ref.Some? || s.kind.Some? || s.properties.Props?)
  }

  function ConstKind(c: Json): Option<Kind> {
    match c
    case JStr(_) => Some(TString)
    case JBool(_) => Some(TBoolean)
    case JNum(n) => if n.Floor as real == n then Some(TInteger) else None
    case _ => None
  }

  /** The value a bound takes when a numeric exclusive bound is moved onto it. */
  function MovedBound(bound: Option<real>, exclusive: Option<Exclusive>): Option<real> {
    if bound.None? && exclusive.Some? && exclusive.value.Limit? then Some(exclusive.value.n) else bound
  }

  function MovedFlag(exclusive: Option<Exclusive>): Option<bool> {
    if exclusive.None? then None else if exclusive.value.Flag? then Some(exclusive.value.b) else Some(true)
  }

  /** The keywords of an ordinary node, before its subschemas are attached. */
  function Leaf(s: Schema): Node {
    var base := if s.kind.Some? then Open.(kind := s.kind) else if s.preserve then Polymorphic else Opaque;
    base.(
      kind := if s.constant.Some? && base.kind.None? then ConstKind(s.constant.value) else base.kind,
      description := s.description,
      enum := if s.constant.Some? then Some([s.constant.value]) else s.enum,
      default := Present(s.default),
      minimum := MovedBound(s.minimum, s.exclusiveMinimum),
      maximum := MovedBound(s.maximum, s.exclusiveMaximum),
      exclusiveMinimum := MovedFlag(s.exclusiveMinimum),
      exclusiveMaximum := MovedFlag(s.exclusiveMaximum),
      minLength := s.minLength,
      maxLength := s.maxLength,
      pattern := s.pattern,
      format := if s.format == Some("path") then None else s.format,
      minItems := s.minItems,
      maxItems := s.maxItems)
  }

  predicate IsObjectNode(s: Schema) {
    s.kind == Some(TObject) || s.properties.Props?
  }

  /** A union that cannot be narrowed to one alternative. */
  function MixedUnion(alts: seq<Schema>, description: Option<string>): Node {
    (if HasNonObjectAlt(alts) then Polymorphic else Opaque).(description := description)
  }

  function AfterRef(s: Schema, n: Node): Node {
    n.(description := if NonEmpty(s.description) then s.description else n.description,
       default := if n.default.None? then Present(s.default) else n.default)
  }

  function AfterNullable(s: Schema, real': Schema, n: Node): Node {
    var named := n.(description := if n.description.None? then s.description else n.description,
                    default := if n.default.None? then Present(s.default) else n.default);
    if !s.preserve then named
    else if real' == Blank then named.(preserve := true, sentinel := true, kind := None)
    else named.(preserve := true, kind := if named.kind.None? then Some(TObject) else named.kind)
  }

  function AfterScalarUnion(s: Schema, n: Node): Node {
    n.(description := if s.description.Some? then s.description else n.description,
       default := if s.default.Some? then s.default else n.default)
  }

  /** `_convert_schema`.  `fuel` is the call depth the interpreter grants; `None` means it ran out. */
  function Convert(fuel: nat, defs: Defs, s: Schema, depth: nat): Option<Node>
    decreases fuel, 0
  {
    if fuel == 0 then None
    else if s == Blank then Some(Open)
    else if MarkedPolymorphic(s) then
      Some(Polymorphic.(description := if NonEmpty(s.description) then s.description else None))
    else if s.ref.Some? then
      var n := Convert(fuel - 1, defs, Resolve(defs, s.ref.value), depth);
      if n.None? then None else Some(AfterRef(s, n.value))
    else if depth > MAX_DEPTH then Some(Opaque.(description := s.description))
    else if NullableReal(s).Some? then
      var n := Convert(fuel - 1, defs, NullableReal(s).value, depth);
      if n.None? then None else Some(AfterNullable(s, NullableReal(s).value, n.value))
    else if s.anyOf.Alts? then
      if IsScalarUnion(s.anyOf.value) then
        var n := Convert(fuel - 1, defs, s.anyOf.value[0], depth);
        if n.None? then None else Some(AfterScalarUnion(s, n.value))
      else Some(MixedUnion(s.anyOf.value, s.description))
    else if s.oneOf.Alts? then Some(MixedUnion(s.oneOf.value, s.description))
    else if s.extra.ExtraSchema? && s.extra.schema.discriminator.Some? then
      Some(Opaque.(description := s.description))
    else ConvertOrdinary(fuel - 1, defs, s, depth)
  }

  /** The last branch: the node's own keywords, then its subschemas. */
  function ConvertOrdinary(fuel: nat, defs: Defs, s: Schema, depth: nat): Option<Node>
    decreases fuel, 3
  {
    var own := if IsObjectNode(s) then ConvertObject(fuel, defs, s, Leaf(s), depth) else Some(Leaf(s));
    if own.None? || s.kind != Some(TArray) || s.items.None? then own
    else
      var items := Convert(fuel, defs, s.items.value, depth + 1);
      if items.None? then None else Some(own.value.(items := items))
  }

  /** The object branch: properties, required and additionalProperties. */
  function ConvertObject(fuel: nat, defs: Defs, s: Schema, leaf: Node, depth: nat): Option<Node>
    decreases fuel, 2, 0
  {
    var props := if s.properties.Props? then ConvertProps(fuel, defs, s.properties.value, depth + 1) else Some([]);
    if props.None? then None
    else
      var node := leaf.(kind := Some(TObject),
                        properties := if props.value == [] then None else props,
                        required := s.required);
      match s.extra
      case NoExtra => Some(node)
      case ExtraFlag(allowed) => Some(if allowed then node.(preserve := true) else node)
      case ExtraSchema(inner) =>
        var converted := Convert(fuel, defs, inner, depth + 1);
        if converted.None? then None
        else if (inner.ref.Some? || inner.kind.Some?) && converted.value == Open then Some(node)
        else Some(node.(additional := converted))
  }

  function ConvertProps(fuel: nat, defs: Defs, props: seq<Prop>, depth: nat): Option<seq<Field>>
    decreases fuel, 1, |props|
  {
    if props == [] then Some([])
    else
      var head := Convert(fuel, defs, props[0].schema, depth);
      var tail := ConvertProps(fuel, defs, props[1..], depth);
      if head.None? || tail.None? then None else Some([Field(props[0].name, head.value)] + tail.value)
  }

  // ---------------------------------------------------------------------------------------------
  // Admission by the API server
  // ---------------------------------------------------------------------------------------------

  function FieldNames(fields: Option<seq<Field>>): set<string> {
    if fields.None? then {} else set i | 0 <= i < |fields.value| :: fields.value[i].name
  }

  predicate NodeHolds(w: World, n: Node, v: Json) {
    && (n.kind.Some? ==> HasKind(v, n.kind.value))
    && (n.enum.Some? ==> v in n.enum.value)
    && (v.JNum? && n.minimum.Some? ==>
          if n.exclusiveMinimum == Some(true) then n.minimum.value < v.n else n.minimum.value <= v.n)
    && (v.JNum? && n.maximum.Some? ==>
          if n.exclusiveMaximum == Some(true) then v.n < n.maximum.value else v.n <= n.maximum.value)
    && (v.JStr? ==> SizeBetween(n.minLength, n.maxLength, |v.s|))
    && (v.JStr? && n.pattern.Some? ==> w.matches(n.pattern.value, v.s))
    && (v.JStr? && n.format.Some? ==> w.conforms(n.format.value, v.s))
    && (v.JArr? ==> SizeBetween(n.minItems, n.maxItems, |v.elems|))
    && (v.JObj? && n.required.Some? ==> forall i | 0 <= i < |n.required.value| :: n.required.value[i] in v.fields)
  }

  /** The server admits `v` under `n`.  Under `strict` field validation it also refuses a field the schema does
      not declare and does not preserve; otherwise it silently prunes such a field. */
  predicate Admits(strict: bool, w: World, n: Node, v: Json)
    decreases v, 1
  {
    && NodeHolds(w, n, v)
    && (v.JObj? ==> FieldsAdmitted(strict, w, n, v))
    && (v.JArr? && n.items.Some? ==> forall i | 0 <= i < |v.elems| :: Admits(strict, w, n.items.value, v.elems[i]))
  }

  predicate FieldsAdmitted(strict: bool, w: World, n: Node, v: Json)
    requires v.JObj?
    decreases v, 0
  {
    && (n.properties.Some? ==>
          forall i | 0 <= i < |n.properties.value| ::
            n.properties.value[i].name in v.fields ==>
              Admits(strict, w, n.properties.value[i].node, v.fields[n.properties.value[i].name]))
    && (n.additional.Some? ==>
          forall key | key in v.fields && key !in FieldNames(n.properties) ::
            Admits(strict, w, n.additional.value, v.fields[key]))
    && (strict && n.additional.None? && !n.preserve ==>
          forall key | key in v.fields :: key in FieldNames(n.properties))
  }
}
