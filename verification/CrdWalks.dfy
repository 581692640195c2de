/** The walks that finish the sweep CRD: every dictionary node of the converted schema is visited and changed in
    place.  Nodes are addressed by number, so that a node may be shared. */
module CrdWalks {
  import opened Wrappers

  /** A value that is no dictionary; `Names` is a list of strings. */
  datatype Scalar = True | Text(text: string) | Names(names: seq<string>) | Other

  /** A dictionary-valued entry, or a dictionary inside a list-valued one. */
  datatype Edge = Edge(key: string, target: nat)

  datatype Dict = Dict(scalars: map<string, Scalar>, children: seq<Edge>)

  type Graph = map<nat, Dict>

  const TYPE := "type"
  const PRESERVE := "x-kubernetes-preserve-unknown-fields"
  const SENTINEL := "_aiperf_mixed_union"
  const INT_OR_STRING := "x-kubernetes-int-or-string"
  const PROPERTIES := "properties"
  const REQUIRED := "required"
  const DEFAULT := "default"
  const VALIDATIONS := "x-kubernetes-validations"
  const BOUNDS: set<string> := {TYPE, "format", "minimum", "maximum", "exclusiveMinimum", "exclusiveMaximum"}

  predicate Has(d: Dict, key: string) { key in d.scalars || exists i | 0 <= i < |d.children| :: d.children[i].key == key }

  predicate IsTrue(d: Dict, key: string) { key in d.scalars && d.scalars[key] == True }

  /** `_ensure_type_on_preserve_unknown`. */
  function EnsureType(d: Dict): Dict {
    if IsTrue(d, PRESERVE) && !Has(d, TYPE) && !IsTrue(d, SENTINEL)
    then d.(scalars := d.scalars[TYPE := Text("object")]) else d
  }

  /** `_strip_mixed_union_sentinels`. */
  function Strip(d: Dict): Dict { d.(scalars := d.scalars - {SENTINEL}) }

  /** `_allow_int_or_string`. */
  function AllowIntOrString(d: Dict): Dict {
    d.(scalars := (d.scalars - BOUNDS)[INT_OR_STRING := True])
  }

  function Child(d: Dict, key: string): Option<nat> { ChildFrom(d.children, key) }

  function ChildFrom(edges: seq<Edge>, key: string): Option<nat> {
    if edges == [] then None else if edges[0].key == key then Some(edges[0].target) else ChildFrom(edges[1..], key)
  }

  // ---------------------------------------------------------------------------------------------
  // Reachability
  // ---------------------------------------------------------------------------------------------

  /** The graph is closed and acyclic: every child is a node of smaller rank. */
  ghost predicate IsTree(g: Graph, rank: nat -> nat) {
    forall id, i | id in g && 0 <= i < |g[id].children| ::
      g[id].children[i].target in g && rank(g[id].children[i].target) < rank(id)
  }

  ghost function Reach(g: Graph, rank: nat -> nat, root: nat): (reach: set<nat>)
    requires IsTree(g, rank) && root in g
    ensures root in reach && reach <= g.Keys
    decreases rank(root), 1, 0
  {
    {root} + ReachBelow(g, rank, root, |g[root].children|)
  }

  ghost function ReachBelow(g: Graph, rank: nat -> nat, root: nat, k: nat): (reach: set<nat>)
    requires IsTree(g, rank) && root in g && k <= |g[root].children|
    ensures reach <= g.Keys
    decreases rank(root), 0, k
  {
    if k == 0 then {} else ReachBelow(g, rank, root, k - 1) + Reach(g, rank, g[root].children[k - 1].target)
  }

  /** The two graphs have the same nodes and edges. */
  ghost predicate SameShape(g: Graph, h: Graph) {
    h.Keys == g.Keys && forall id | id in g :: h[id].children == g[id].children
  }

  lemma {:induction false} SameReach(g: Graph, h: Graph, rank: nat -> nat, root: nat)
    requires IsTree(g, rank) && SameShape(g, h) && root in g
    ensures IsTree(h, rank) && Reach(h, rank, root) == Reach(g, rank, root)
    decreases rank(root), 1, 0
  {
    SameReachBelow(g, h, rank, root, |g[root].children|);
  }

  lemma {:induction false} SameReachBelow(g: Graph, h: Graph, rank: nat -> nat, root: nat, k: nat)
    requires IsTree(g, rank) && SameShape(g, h) && root in g && k <= |g[root].children|
    ensures IsTree(h, rank) && ReachBelow(h, rank, root, k) == ReachBelow(g, rank, root, k)
    decreases rank(root), 0, k
  {
    if k > 0 {
      SameReachBelow(g, h, rank, root, k - 1);
      SameReach(g, h, rank, g[root].children[k - 1].target);
    }
  }

  /** A change to one dictionary that keeps its edges, and that a second visit does not repeat. */
  ghost predicate IsVisit(f: Dict -> Dict) {
    forall d :: f(d).children == d.children && f(f(d)) == f(d)
  }

  lemma EnsureTypeIsVisit()
    ensures IsVisit(EnsureType)
  {}

  lemma StripIsVisit()
    ensures IsVisit(Strip)
  {
    forall d ensures Strip(Strip(d)) == Strip(d) {
      assert d.scalars - {SENTINEL} - {SENTINEL} == d.scalars - {SENTINEL};
    }
  }

  /** The graph with `f` applied to the nodes in `visited`. */
  ghost function Visited(base: Graph, visited: set<nat>, f: Dict -> Dict): Graph {
    map id | id in base :: if id in visited then f(base[id]) else base[id]
  }

  lemma ReachParts(g: Graph, rank: nat -> nat, root: nat, done: set<nat>)
    requires IsTree(g, rank) && root in g
    ensures done + {root} + ReachBelow(g, rank, root, 0) == done + {root}
    ensures done + {root} + ReachBelow(g, rank, root, |g[root].children|) == done + Reach(g, rank, root)
  {}

  lemma ReachNext(g: Graph, rank: nat -> nat, root: nat, k: nat, seen: set<nat>)
    requires IsTree(g, rank) && root in g && k < |g[root].children|
    ensures seen + ReachBelow(g, rank, root, k) + Reach(g, rank, g[root].children[k].target) ==
            seen + ReachBelow(g, rank, root, k + 1)
  {}

  lemma VisitOne(base: Graph, visited: set<nat>, f: Dict -> Dict, id: nat)
    requires id in base && IsVisit(f)
    ensures var nodes := Visited(base, visited, f);
      && nodes.Keys == base.Keys && f(nodes[id]).children == base[id].children
      && nodes[id := f(nodes[id])] == Visited(base, visited + {id}, f)
  {}

  class Schema {
    var nodes: Graph

    constructor (nodes: Graph)
      ensures this.nodes == nodes
    {
      this.nodes := nodes;
    }

    /** `_walk_dict_apply` with a change to the visited node itself. */
    method WalkApply(root: nat, f: Dict -> Dict, ghost base: Graph, ghost done: set<nat>, ghost rank: nat -> nat)
      requires IsTree(base, rank) && root in base && IsVisit(f) && nodes == Visited(base, done, f)
      modifies this
      ensures nodes == Visited(base, done + Reach(base, rank, root), f)
      decreases rank(root)
    {
      hide Visited, IsVisit, Reach, ReachBelow;
      VisitOne(base, done, f, root);
      nodes := nodes[root := f(nodes[root])];
      var edges := nodes[root].children;
      ghost var seen := done + {root};
      ReachParts(base, rank, root, done);
      for k := 0 to |edges|
        invariant nodes == Visited(base, seen + ReachBelow(base, rank, root, k), f)
      {
        WalkApply(edges[k].target, f, base, seen + ReachBelow(base, rank, root, k), rank);
        ReachNext(base, rank, root, k, seen);
      }
    }

    /** `_loosen_runtime_scalar_coercion_node`: changes up to three grandchildren of the node. */
    method LoosenRuntime(id: nat, ghost base: Graph, ghost done: set<nat>, ghost rank: nat -> nat)
      requires IsTree(base, rank) && id in base && nodes == Visited(base, done, AllowIntOrString)
      modifies this
      ensures nodes == Visited(base, done + RuntimeFields(base, id), AllowIntOrString)
    {
      AllowIsVisit();
      var properties := Child(nodes[id], PROPERTIES);
      if properties.None? {
        assert done + RuntimeFields(base, id) == done;
        return;
      }
      ChildIsTarget(base[id].children, PROPERTIES);
      var p := nodes[properties.value];
      AllowKeepsKeys(base[properties.value]);
      if !Has(p, "workers") || !Has(p, "apiPort") {
        assert done + RuntimeFields(base, id) == done;
        return;
      }
      LoosenTargets(p.children, properties.value, base, done, rank);
    }

    /** Its loop over the three keys of a `properties` dictionary. */
    method LoosenTargets(edges: seq<Edge>, p: nat, ghost base: Graph, ghost done: set<nat>, ghost rank: nat -> nat)
      requires IsTree(base, rank) && p in base && edges == base[p].children
      requires nodes == Visited(base, done, AllowIntOrString)
      modifies this
      ensures nodes == Visited(base, done + Targets(edges, RUNTIME), AllowIntOrString)
    {
      hide Visited, AllowIntOrString, IsVisit;
      AllowIsVisit();
      assert done + Targets(edges, RUNTIME[..0]) == done;
      for k := 0 to |RUNTIME|
        invariant nodes == Visited(base, done + Targets(edges, RUNTIME[..k]), AllowIntOrString)
      {
        assert RUNTIME[..k + 1][..k] == RUNTIME[..k];
        var field := ChildFrom(edges, RUNTIME[k]);
        ghost var seen := done + Targets(edges, RUNTIME[..k]);
        ghost var next := done + Targets(edges, RUNTIME[..k + 1]);
        if field.Some? {
          ChildIsTarget(edges, RUNTIME[k]);
          VisitOne(base, seen, AllowIntOrString, field.value);
          nodes := nodes[field.value := AllowIntOrString(nodes[field.value])];
          assert seen + {field.value} == next;
        } else {
          assert seen == next;
        }
      }
      assert RUNTIME[..|RUNTIME|] == RUNTIME;
    }

    /** The walk with that change: the runtime fields of every reachable node are made int-or-string, and nothing else. */
    method WalkLoosen(root: nat, ghost base: Graph, ghost done: set<nat>, ghost rank: nat -> nat)
      requires IsTree(base, rank) && root in base && nodes == Visited(base, done, AllowIntOrString)
      modifies this
      ensures nodes == Visited(base, done + AllRuntimeFields(base, Reach(base, rank, root)), AllowIntOrString)
      decreases rank(root)
    {
      hide Visited, AllowIntOrString, Reach, ReachBelow, RuntimeFields, AllRuntimeFields;
      LoosenRuntime(root, base, done, rank);
      SameEdges(base, done + RuntimeFields(base, root), root);
      var edges := nodes[root].children;
      LoosenParts(base, rank, root, done);
      for k := 0 to |edges|
        invariant nodes == Visited(base, done + AllRuntimeFields(base, {root} + ReachBelow(base, rank, root, k)),
                                   AllowIntOrString)
      {
        WalkLoosen(edges[k].target, base, done + AllRuntimeFields(base, {root} + ReachBelow(base, rank, root, k)), rank);
        LoosenNext(base, rank, root, k, done);
      }
    }
  }

  // ---------------------------------------------------------------------------------------------
  // Runtime fields
  // ---------------------------------------------------------------------------------------------

  const RUNTIME := ["workers", "workersMin", "apiPort"]

  /** The dictionaries that the keys lead to. */
  function Targets(edges: seq<Edge>, keys: seq<string>): set<nat> {
    if keys == [] then {}
    else
      var last := ChildFrom(edges, keys[|keys| - 1]);
      Targets(edges, keys[..|keys| - 1]) + if last.Some? then {last.value} else {}
  }

  /** The scalar fields of a node that looks like the runtime section: it has workers and an API port. */
  function RuntimeFields(g: Graph, id: nat): set<nat>
    requires id in g
  {
    var p := Child(g[id], PROPERTIES);
    if p.None? || p.value !in g || !Has(g[p.value], "workers") || !Has(g[p.value], "apiPort") then {}
    else Targets(g[p.value].children, RUNTIME)
  }

  ghost function AllRuntimeFields(g: Graph, ids: set<nat>): set<nat>
    requires ids <= g.Keys
  {
    set id, field | id in ids && field in RuntimeFields(g, id) :: field
  }

  lemma AllowIsVisit()
    ensures IsVisit(AllowIntOrString)
  {
    forall d ensures AllowIntOrString(AllowIntOrString(d)) == AllowIntOrString(d) { AllowTwice(d); }
  }

  /** Loosening does not touch the keys that the runtime section is recognised by. */
  lemma AllowKeepsKeys(d: Dict)
    ensures Has(AllowIntOrString(d), "workers") == Has(d, "workers")
    ensures Has(AllowIntOrString(d), "apiPort") == Has(d, "apiPort")
  {
    assert |"workers"| == 7 && |"apiPort"| == 7 && "workers" != INT_OR_STRING && "apiPort" != INT_OR_STRING;
    assert "workers"[0] == 'w' && "apiPort"[0] == 'a' && "maximum"[0] == 'm' && "minimum"[0] == 'm';
    assert "workers" !in BOUNDS && "apiPort" !in BOUNDS;
  }

  lemma SameEdges(base: Graph, done: set<nat>, id: nat)
    requires id in base
    ensures id in Visited(base, done, AllowIntOrString) && Visited(base, done, AllowIntOrString)[id].children == base[id].children
  {}

  lemma VisitedNone(g: Graph, f: Dict -> Dict)
    ensures Visited(g, {}, f) == g
  {}

  lemma LoosenParts(g: Graph, rank: nat -> nat, root: nat, done: set<nat>)
    requires IsTree(g, rank) && root in g
    ensures done + RuntimeFields(g, root) == done + AllRuntimeFields(g, {root} + ReachBelow(g, rank, root, 0))
    ensures {root} + ReachBelow(g, rank, root, |g[root].children|) == Reach(g, rank, root)
  {
    hide RuntimeFields;
    assert {root} + ReachBelow(g, rank, root, 0) == {root};
    assert AllRuntimeFields(g, {root}) == RuntimeFields(g, root);
  }

  lemma LoosenNext(g: Graph, rank: nat -> nat, root: nat, k: nat, done: set<nat>)
    requires IsTree(g, rank) && root in g && k < |g[root].children|
    ensures done + AllRuntimeFields(g, {root} + ReachBelow(g, rank, root, k)) +
            AllRuntimeFields(g, Reach(g, rank, g[root].children[k].target)) ==
            done + AllRuntimeFields(g, {root} + ReachBelow(g, rank, root, k + 1))
  {
    hide RuntimeFields;
    var a, b := {root} + ReachBelow(g, rank, root, k), Reach(g, rank, g[root].children[k].target);
    assert a + b == {root} + ReachBelow(g, rank, root, k + 1);
    FieldsOfUnion(g, a, b);
  }

  lemma FieldsOfUnion(g: Graph, a: set<nat>, b: set<nat>)
    requires a <= g.Keys && b <= g.Keys
    ensures AllRuntimeFields(g, a + b) == AllRuntimeFields(g, a) + AllRuntimeFields(g, b)
  {
    hide RuntimeFields;
  }

  lemma KeysDiffer()
    ensures TYPE != PRESERVE && TYPE != SENTINEL && TYPE != INT_OR_STRING
    ensures PRESERVE != SENTINEL && PRESERVE !in BOUNDS && SENTINEL != INT_OR_STRING && PRESERVE != INT_OR_STRING
    ensures INT_OR_STRING !in BOUNDS
  {
    assert |TYPE| == 4 && |PRESERVE| == 36 && |SENTINEL| == 19 && |INT_OR_STRING| == 26;
    assert |"exclusiveMinimum"| == 16 && |"exclusiveMaximum"| == 16 && |"format"| == 6;
  }

  lemma AllowTwice(d: Dict)
    ensures AllowIntOrString(AllowIntOrString(d)) == AllowIntOrString(d)
  {
    assert ((d.scalars - BOUNDS)[INT_OR_STRING := True] - BOUNDS)[INT_OR_STRING := True] ==
           (d.scalars - BOUNDS)[INT_OR_STRING := True];
  }

  lemma {:induction false} ChildIsTarget(edges: seq<Edge>, key: string)
    requires ChildFrom(edges, key).Some?
    ensures exists i | 0 <= i < |edges| :: edges[i].target == ChildFrom(edges, key).value && edges[i].key == key
  {
    if edges[0].key != key {
      ChildIsTarget(edges[1..], key);
      var i :| 0 <= i < |edges[1..]| && edges[1..][i].target == ChildFrom(edges, key).value && edges[1..][i].key == key;
      assert edges[i + 1] == edges[1..][i];
    }
  }

  // ---------------------------------------------------------------------------------------------
  // The answers spelled out
  // ---------------------------------------------------------------------------------------------

  /** The key of a properties dictionary `p` that has workers and an API port leads to the field. */
  predicate IsRuntimeField(g: Graph, id: nat, p: nat, key: string, field: nat)
    requires id in g
  {
    && key in {"workers", "workersMin", "apiPort"} && Child(g[id], "properties") == Some(p) && p in g
    && Has(g[p], "workers") && Has(g[p], "apiPort") && Child(g[p], key) == Some(field)
  }

  lemma RuntimeFieldsExactly(g: Graph, id: nat, field: nat)
    requires id in g
    ensures field in RuntimeFields(g, id) <==> exists p, key :: IsRuntimeField(g, id, p, key, field)
  {
    hide Has;
    forall key ensures key in RUNTIME <==> key in {"workers", "workersMin", "apiPort"} {}
    var p := Child(g[id], PROPERTIES);
    if p.Some? && p.value in g { TargetsExactly(g[p.value].children, RUNTIME, field); }
    forall q, key | IsRuntimeField(g, id, q, key, field) ensures field in RuntimeFields(g, id) {
      assert key in RUNTIME;
    }
    if field in RuntimeFields(g, id) {
      var key :| key in RUNTIME && ChildFrom(g[p.value].children, key) == Some(field);
      assert IsRuntimeField(g, id, p.value, key, field);
    }
  }

  lemma {:induction false} TargetsExactly(edges: seq<Edge>, keys: seq<string>, target: nat)
    ensures target in Targets(edges, keys) <==> exists key :: key in keys && ChildFrom(edges, key) == Some(target)
  {
    if keys != [] {
      var front, last := keys[..|keys| - 1], keys[|keys| - 1];
      TargetsExactly(edges, front, target);
      assert last in keys && forall key :: key in keys <==> key in front || key == last by {
        assert keys == front + [last];
      }
    }
  }

  predicate IsFirstEdge(edges: seq<Edge>, i: nat, key: string, target: nat) {
    i < |edges| && edges[i] == Edge(key, target) && forall j | 0 <= j < i :: edges[j].key != key
  }

  /** A key leads along the first edge that has it. */
  lemma {:induction false} ChildExactly(edges: seq<Edge>, key: string, target: nat)
    ensures ChildFrom(edges, key) == Some(target) <==> exists i: nat :: IsFirstEdge(edges, i, key, target)
  {
    if edges != [] {
      var rest := edges[1..];
      ChildExactly(rest, key, target);
      assert forall i | 0 < i < |edges| :: edges[i] == rest[i - 1];
      if edges[0].key == key {
        assert edges[0] == Edge(key, target) ==> IsFirstEdge(edges, 0, key, target);
      } else {
        if i: nat :| IsFirstEdge(rest, i, key, target) { assert IsFirstEdge(edges, i + 1, key, target); }
        if i: nat :| IsFirstEdge(edges, i, key, target) {
          assert forall j | 0 <= j < i - 1 :: rest[j] == edges[j + 1];
          assert IsFirstEdge(rest, i - 1, key, target);
        }
      }
    }
  }

  /** The keywords that do not go with int-or-string, and the generator's own key. */
  lemma KeysExactly(key: string)
    ensures key in BOUNDS <==>
            key in {"type", "format", "minimum", "maximum", "exclusiveMinimum", "exclusiveMaximum"}
    ensures SENTINEL == "_aiperf_mixed_union" && INT_OR_STRING == "x-kubernetes-int-or-string"
    ensures PRESERVE == "x-kubernetes-preserve-unknown-fields" && PROPERTIES == "properties"
    ensures REQUIRED == "required" && DEFAULT == "default" && VALIDATIONS == "x-kubernetes-validations"
  {}
}
