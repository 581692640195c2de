/** The decorating walk: rules attached to nodes recognised by the names of their properties.  It is the one walk that
    changes the shape of the graph: rule dictionaries are new nodes, and a `default` is dropped. */
module CrdDecoration {
  import opened Wrappers
  import opened CrdWalks

  /** A rule to attach. */
  datatype Rule = Rule(text: string, message: string)

  const RULE := "rule"
  const MESSAGE := "message"

  // ---------------------------------------------------------------------------------------------
  // The shapes and their rules
  // ---------------------------------------------------------------------------------------------

  const CONFIG: seq<string> := ["model", "dataset", "warmup", "profiling"]
  const ENDPOINT: seq<string> := ["urls", "apiKey", "connectionReuse"]
  const RUNTIME_SECTION: seq<string> := ["apiPort", "apiHost", "workersPerPod"]
  const MULTIRUN: seq<string> := ["numRuns", "convergence"]
  const RELAXABLE: seq<string> := ["models", "datasets", "phases"]

  /** The rules of the three shapes that have any; their texts do not matter here. */
  datatype RuleBook = RuleBook(endpoint: seq<Rule>, runtime: seq<Rule>, multirun: seq<Rule>)

  predicate HasAll(d: Dict, keys: seq<string>) { forall i | 0 <= i < |keys| :: Has(d, keys[i]) }

  /** The node's `properties` dictionary has all the keys. */
  predicate Shaped(g: Graph, id: nat, keys: seq<string>)
    requires id in g
  {
    var p := Child(g[id], PROPERTIES);
    p.Some? && p.value in g && HasAll(g[p.value], keys)
  }

  // ---------------------------------------------------------------------------------------------
  // Changes to the graph
  // ---------------------------------------------------------------------------------------------

  /** The lowest number from `i` on that no node has. */
  function Unused(g: Graph, i: nat): (spare: nat)
    ensures spare !in g
    decreases set k | k in g && k >= i
  {
    if i !in g then i
    else
      assert (set k | k in g && k >= i) == (set k | k in g && k >= i + 1) + {i};
      assert i !in (set k | k in g && k >= i + 1);
      Unused(g, i + 1)
  }

  /** The node has a validation with that text. */
  predicate HasRule(g: Graph, id: nat, text: string)
    requires id in g
  {
    exists i | 0 <= i < |g[id].children| :: IsRule(g, g[id].children[i], text)
  }

  predicate IsRule(g: Graph, e: Edge, text: string) {
    e.key == VALIDATIONS && e.target in g && RULE in g[e.target].scalars && g[e.target].scalars[RULE] == Text(text)
  }

  function RuleNode(rule: Rule): Dict { Dict(map[RULE := Text(rule.text), MESSAGE := Text(rule.message)], []) }

  function AddRule(g: Graph, id: nat, rule: Rule): Graph
    requires id in g
  {
    if HasRule(g, id, rule.text) then g
    else
      var spare := Unused(g, 0);
      g[spare := RuleNode(rule)][id := g[id].(children := g[id].children + [Edge(VALIDATIONS, spare)])]
  }

  function AddRules(g: Graph, id: nat, rules: seq<Rule>): (h: Graph)
    requires id in g
    ensures id in h
  {
    if rules == [] then g else AddRule(AddRules(g, id, rules[..|rules| - 1]), id, rules[|rules| - 1])
  }

  /** `setdefault` on the list of validations. */
  function WithBag(d: Dict): Dict {
    if Has(d, VALIDATIONS) then d else d.(scalars := d.scalars[VALIDATIONS := Names([])])
  }

  /** `_add_validation_rules`. */
  function Validated(g: Graph, id: nat, rules: seq<Rule>): Graph
    requires id in g
  {
    AddRules(g[id := WithBag(g[id])], id, rules)
  }

  function Without(names: seq<string>, drop: seq<string>): seq<string> {
    if names == [] then []
    else Without(names[..|names| - 1], drop) + if names[|names| - 1] in drop then [] else [names[|names| - 1]]
  }

  /** `required` without the relaxable names; an empty list is dropped. */
  function Relaxed(d: Dict): Dict {
    if REQUIRED in d.scalars && d.scalars[REQUIRED].Names? then
      var left := Without(d.scalars[REQUIRED].names, RELAXABLE);
      d.(scalars := if left == [] then d.scalars - {REQUIRED} else d.scalars[REQUIRED := Names(left)])
    else d
  }

  function NoEdge(edges: seq<Edge>, key: string): seq<Edge> {
    if edges == [] then []
    else NoEdge(edges[..|edges| - 1], key) + if edges[|edges| - 1].key == key then [] else [edges[|edges| - 1]]
  }

  function NoDefault(d: Dict): Dict { Dict(d.scalars - {DEFAULT}, NoEdge(d.children, DEFAULT)) }

  /** The dictionary of the property called `type`. */
  function TypeField(g: Graph, id: nat): Option<nat>
    requires id in g
  {
    var p := Child(g[id], PROPERTIES);
    if p.None? || p.value !in g then None
    else
      var t := Child(g[p.value], TYPE);
      if t.Some? && t.value in g then t else None
  }

  /** `_decorate_aiperf_config_node`. */
  function DecorateConfig(g: Graph, id: nat): Graph
    requires id in g
  {
    if Shaped(g, id, CONFIG) then Validated(g[id := Relaxed(g[id])], id, []) else g
  }

  /** `_decorate_endpoint_node`. */
  function DecorateEndpoint(g: Graph, id: nat, rules: seq<Rule>): Graph
    requires id in g
  {
    if Shaped(g, id, ENDPOINT) then
      var t := TypeField(g, id);
      Validated(if t.Some? then g[t.value := NoDefault(g[t.value])] else g, id, rules)
    else g
  }

  /** `_decorate_runtime_node` and `_decorate_multirun_node`. */
  function DecorateShape(g: Graph, id: nat, keys: seq<string>, rules: seq<Rule>): Graph
    requires id in g
  {
    if Shaped(g, id, keys) then Validated(g, id, rules) else g
  }

  // ---------------------------------------------------------------------------------------------
  // What decoration keeps
  // ---------------------------------------------------------------------------------------------

  const CHANGED: set<string> := {REQUIRED, DEFAULT, VALIDATIONS}

  predicate SameEntry(before: Dict, after: Dict, key: string) {
    && (key in before.scalars <==> key in after.scalars)
    && (key in before.scalars ==> after.scalars[key] == before.scalars[key])
  }

  /** All other entries are as before. */
  ghost predicate ScalarsKept(before: Dict, after: Dict) {
    forall key | key !in CHANGED :: SameEntry(before, after, key)
  }

  /** The old edges, perhaps without `default`, come first; behind them are rules that `g` does not have. */
  ghost predicate EdgesKept(g: Graph, before: seq<Edge>, after: seq<Edge>, k: nat) {
    && k <= |after|
    && (after[..k] == before || after[..k] == NoEdge(before, DEFAULT))
    && forall i | k <= i < |after| :: after[i].key == VALIDATIONS && after[i].target !in g
  }

  ghost predicate NodeKept(g: Graph, before: Dict, after: Dict) {
    ScalarsKept(before, after) && exists k: nat :: EdgesKept(g, before.children, after.children, k)
  }

  ghost predicate IsRuleNode(d: Dict) { d.children == [] && d.scalars.Keys == {RULE, MESSAGE} }

  ghost predicate Closed(g: Graph) {
    forall id, i | id in g && 0 <= i < |g[id].children| :: g[id].children[i].target in g
  }

  /** `h` is `g` decorated. */
  ghost predicate Kept(g: Graph, h: Graph) {
    && g.Keys <= h.Keys && Closed(h)
    && (forall id | id in g :: NodeKept(g, g[id], h[id]))
    && (forall id | id in h && id !in g :: IsRuleNode(h[id]))
  }

  // ---------------------------------------------------------------------------------------------
  // One visit
  // ---------------------------------------------------------------------------------------------

  /** `_decorate_all`. */
  function Decorated(g: Graph, book: RuleBook, id: nat): Graph
    requires id in g
  {
    var config := DecorateConfig(g, id);
    assert id in config;
    var endpoint := DecorateEndpoint(config, id, book.endpoint);
    assert id in endpoint;
    var runtime := DecorateShape(endpoint, id, RUNTIME_SECTION, book.runtime);
    assert id in runtime;
    DecorateShape(runtime, id, MULTIRUN, book.multirun)
  }

  // ---------------------------------------------------------------------------------------------
  // The rules a node should have
  // ---------------------------------------------------------------------------------------------

  /** The rules of the shapes that the node has. */
  function RulesFor(g: Graph, book: RuleBook, id: nat): seq<Rule>
    requires id in g
  {
    (if Shaped(g, id, ENDPOINT) then book.endpoint else []) +
    (if Shaped(g, id, RUNTIME_SECTION) then book.runtime else []) +
    (if Shaped(g, id, MULTIRUN) then book.multirun else [])
  }

  ghost predicate HasRules(g: Graph, id: nat, rules: seq<Rule>)
    requires id in g
  {
    forall i | 0 <= i < |rules| :: HasRule(g, id, rules[i].text)
  }

  // ---------------------------------------------------------------------------------------------
  // What decoration changes, and for which nodes
  // ---------------------------------------------------------------------------------------------

  predicate AnyShape(g: Graph, id: nat)
    requires id in g
  {
    Shaped(g, id, CONFIG) || Shaped(g, id, ENDPOINT) || Shaped(g, id, RUNTIME_SECTION) || Shaped(g, id, MULTIRUN)
  }

  /** The node is the `type` field of an endpoint. */
  ghost predicate IsTypeField(g: Graph, t: nat) {
    exists id | id in g :: Shaped(g, id, ENDPOINT) && TypeField(g, id) == Some(t)
  }

  predicate IsEmptyBag(d: Dict) { VALIDATIONS in d.scalars && d.scalars[VALIDATIONS] == Names([]) }

  /** `required` changes on configurations only, `default` is dropped from the type of an endpoint only, and a list of
      validations is made only for a node with a shape. */
  ghost predicate EntriesLawful(base: Graph, id: nat, before: Dict, after: Dict)
    requires id in base
  {
    && (SameEntry(before, after, REQUIRED) || (Shaped(base, id, CONFIG) && SameEntry(Relaxed(before), after, REQUIRED)))
    && (SameEntry(before, after, DEFAULT) || (IsTypeField(base, id) && !Has(after, DEFAULT)))
    && (SameEntry(before, after, VALIDATIONS) || (AnyShape(base, id) && VALIDATIONS !in before.scalars && IsEmptyBag(after)))
  }

  /** A new edge leads to a new node, which is one of the rules of the shapes that the edge's node has. */
  ghost predicate IsNewRule(base: Graph, book: RuleBook, h: Graph, id: nat, e: Edge)
    requires id in base
  {
    && e.key == VALIDATIONS && e.target !in base && e.target in h
    && exists rule | rule in RulesFor(base, book, id) :: h[e.target] == RuleNode(rule)
  }

  /** Nothing but that happens to the node between `g` and `h`. */
  ghost predicate LawfulAt(base: Graph, book: RuleBook, g: Graph, h: Graph, id: nat)
    requires id in base
  {
    && id in g && id in h && EntriesLawful(base, id, g[id], h[id])
    && (forall e | e in g[id].children && e !in h[id].children ::
          e.key == DEFAULT && IsTypeField(base, id) && !Has(h[id], DEFAULT))
    && (forall e | e in h[id].children && e !in g[id].children :: IsNewRule(base, book, h, id, e))
  }

  ghost predicate Lawful(base: Graph, book: RuleBook, g: Graph, h: Graph) {
    && base.Keys <= g.Keys <= h.Keys
    && (forall id | id in base :: LawfulAt(base, book, g, h, id))
    && (forall id | id in g && id !in base :: h[id] == g[id])
  }

  /** The names that a dictionary requires: some, and none that is relaxable. */
  predicate RequiresLittle(d: Dict) {
    REQUIRED in d.scalars && d.scalars[REQUIRED].Names? ==>
      d.scalars[REQUIRED].names != [] && forall name | name in RELAXABLE :: name !in d.scalars[REQUIRED].names
  }

  predicate TypeIsOpen(base: Graph, g: Graph, id: nat)
    requires id in base
  {
    TypeField(base, id).Some? ==> TypeField(base, id).value in g && !Has(g[TypeField(base, id).value], DEFAULT)
  }

  /** A configuration requires no relaxable name, and the type of an endpoint has no default. */
  predicate Trimmed(base: Graph, g: Graph, id: nat)
    requires id in base && id in g
  {
    (Shaped(base, id, CONFIG) ==> RequiresLittle(g[id])) && (Shaped(base, id, ENDPOINT) ==> TypeIsOpen(base, g, id))
  }

  /** A node of the undecorated graph has all the rules it should have, and is trimmed. */
  ghost predicate Complete(base: Graph, book: RuleBook, g: Graph, id: nat) {
    id in g && (id in base ==> HasRules(g, id, RulesFor(base, book, id)) && Trimmed(base, g, id))
  }
}
