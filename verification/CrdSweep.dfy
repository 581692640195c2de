/** The four walks that finish the sweep CRD, in order: typing, decorating, loosening, stripping. */
module CrdSweep {
  import opened Wrappers
  import opened CrdWalks
  import opened CrdDecoration
  import opened CrdDecorationProof
  import opened CrdDecorationLimits

  // ---------------------------------------------------------------------------------------------
  // The decorating walk
  // ---------------------------------------------------------------------------------------------

  /** `_add_validation_rules`. */
  method AddValidationRules(schema: Schema, id: nat, rules: seq<Rule>)
    requires id in schema.nodes
    modifies schema
    ensures schema.nodes == Validated(old(schema.nodes), id, rules)
  {
    hide HasRule, Has;
    schema.nodes := schema.nodes[id := WithBag(schema.nodes[id])];
    ghost var start := schema.nodes;
    for n := 0 to |rules|
      invariant schema.nodes == AddRules(start, id, rules[..n])
    {
      assert rules[..n + 1][..n] == rules[..n];
      if !HasRule(schema.nodes, id, rules[n].text) {
        var spare := Unused(schema.nodes, 0);
        var node := schema.nodes[id];
        schema.nodes := schema.nodes[spare := RuleNode(rules[n])];
        schema.nodes := schema.nodes[id := node.(children := node.children + [Edge(VALIDATIONS, spare)])];
      }
    }
    assert rules[..|rules|] == rules;
  }

  /** `_decorate_all`. */
  method DecorateAll(schema: Schema, book: RuleBook, id: nat)
    requires id in schema.nodes
    modifies schema
    ensures schema.nodes == Decorated(old(schema.nodes), book, id)
  {
    hide Shaped, Validated, Has, NoDefault, Relaxed;
    if Shaped(schema.nodes, id, CONFIG) {
      schema.nodes := schema.nodes[id := Relaxed(schema.nodes[id])];
      AddValidationRules(schema, id, []);
    }
    StaysThere(old(schema.nodes), book, id);
    if Shaped(schema.nodes, id, ENDPOINT) {
      var t := TypeField(schema.nodes, id);
      if t.Some? {
        schema.nodes := schema.nodes[t.value := NoDefault(schema.nodes[t.value])];
      }
      AddValidationRules(schema, id, book.endpoint);
    }
    if Shaped(schema.nodes, id, RUNTIME_SECTION) {
      AddValidationRules(schema, id, book.runtime);
    }
    if Shaped(schema.nodes, id, MULTIRUN) {
      AddValidationRules(schema, id, book.multirun);
    }
  }

  lemma StaysThere(g: Graph, book: RuleBook, id: nat)
    requires id in g
    ensures var config := DecorateConfig(g, id);
      && id in config
      && id in DecorateEndpoint(config, id, book.endpoint)
      && id in DecorateShape(DecorateEndpoint(config, id, book.endpoint), id, RUNTIME_SECTION, book.runtime)
  {}

  ghost predicate ClosedUnder(g: Graph, ids: set<nat>) {
    forall id | id in ids :: id in g && forall e | e in g[id].children :: e.target in ids
  }

  ghost predicate AllComplete(base: Graph, book: RuleBook, g: Graph, ids: set<nat>) {
    forall id | id in ids :: Complete(base, book, g, id)
  }

  /** All changes are lawful, and complete nodes stay complete and gain no edges. */
  ghost predicate Progress(base: Graph, book: RuleBook, g: Graph, h: Graph) {
    Lawful(base, book, g, h) && forall id | id in g && Complete(base, book, g, id) ::
      Complete(base, book, h, id) && forall e | e in h[id].children :: e in g[id].children
  }

  lemma ProgressThrough(base: Graph, book: RuleBook, g: Graph, h: Graph, k: Graph)
    requires Progress(base, book, g, h) && Progress(base, book, h, k)
    ensures Progress(base, book, g, k)
  {
    hide Complete, Lawful;
    LawfulKeys(base, book, g, h);
    LawfulKeys(base, book, h, k);
    LawfulThrough(base, book, g, h, k);
  }

  lemma StillClosed(base: Graph, book: RuleBook, g: Graph, h: Graph, ids: set<nat>)
    requires Progress(base, book, g, h) && ClosedUnder(g, ids) && AllComplete(base, book, g, ids)
    ensures ClosedUnder(h, ids) && AllComplete(base, book, h, ids)
  {
    hide Complete, Lawful;
    LawfulKeys(base, book, g, h);
  }

  lemma VisitProgress(base: Graph, book: RuleBook, g: Graph, id: nat)
    requires Kept(base, g) && Closed(base) && id in g
    ensures var h := Decorated(g, book, id); Progress(base, book, g, h) && Complete(base, book, h, id)
  {
    hide Kept, Closed, HasRule, RulesFor, Decorated, Lawful, Trimmed;
    var h := Decorated(g, book, id);
    VisitIsLawful(base, book, g, id);
    LawfulKeys(base, book, g, h);
    if id in base {
      VisitAttaches(base, g, book, id);
      forall v | v in g && Complete(base, book, g, v)
        ensures Complete(base, book, h, v) && forall e | e in h[v].children :: e in g[v].children
      {
        if v in base {
          RulesStay(g, h, {id}, v, RulesFor(base, book, v));
          TrimmedStays(base, book, g, h, v);
        }
      }
    } else {
      RuleNodeIsLeaf(base, g, id);
      RuleNodesStay(g, book, id);
    }
  }

  /** The rank of the original nodes; rules are leaves below everything. */
  function Below(base: Graph, rank: nat -> nat): nat -> nat {
    id => if id in base then rank(id) + 1 else 0
  }

  /** The decorated graph is closed and acyclic like the original. */
  lemma KeptIsTree(base: Graph, rank: nat -> nat, g: Graph)
    requires IsTree(base, rank) && Kept(base, g)
    ensures IsTree(g, Below(base, rank))
  {
    var below := Below(base, rank);
    forall id, i | id in g && 0 <= i < |g[id].children|
      ensures g[id].children[i].target in g && below(g[id].children[i].target) < below(id)
    {
      if id in base {
        assert NodeKept(base, base[id], g[id]);
        var k: nat :| EdgesKept(base, base[id].children, g[id].children, k);
        OldEdges(base, base[id].children, g[id].children, k);
        var e := g[id].children[i];
        assert e in g[id].children;
        if e.target in base { var j :| 0 <= j < |base[id].children| && base[id].children[j] == e; }
      }
    }
  }

  lemma TreeIsClosed(g: Graph, rank: nat -> nat)
    requires IsTree(g, rank)
    ensures Closed(g)
  {}

  lemma CompleteIsThere(base: Graph, book: RuleBook, g: Graph, id: nat)
    requires Complete(base, book, g, id)
    ensures id in g
  {}

  lemma NothingVisited(base: Graph, book: RuleBook, g: Graph)
    requires Kept(base, g)
    ensures ClosedUnder(g, {}) && AllComplete(base, book, g, {}) && Progress(base, book, g, g)
  {
    hide Complete, Lawful;
    LawfulSelf(base, book, g);
  }

  lemma EdgesDescend(g: Graph, rank: nat -> nat, id: nat)
    requires IsTree(g, rank) && id in g
    ensures forall i | 0 <= i < |g[id].children| ::
              g[id].children[i].target in g && rank(g[id].children[i].target) < rank(id)
  {}

  lemma StillThere(base: Graph, book: RuleBook, g: Graph, h: Graph)
    requires Progress(base, book, g, h)
    ensures g.Keys <= h.Keys && Lawful(base, book, g, h)
  {}

  lemma BothVisited(base: Graph, book: RuleBook, g: Graph, a: set<nat>, b: set<nat>)
    requires ClosedUnder(g, a) && ClosedUnder(g, b) && AllComplete(base, book, g, a) && AllComplete(base, book, g, b)
    ensures ClosedUnder(g, a + b) && AllComplete(base, book, g, a + b)
  {
    hide Complete;
  }

  lemma VisitedRoot(base: Graph, book: RuleBook, g: Graph, h: Graph, id: nat, visited: set<nat>)
    requires Progress(base, book, g, h) && Complete(base, book, g, id)
    requires ClosedUnder(h, visited) && AllComplete(base, book, h, visited)
    requires id in g && forall i | 0 <= i < |g[id].children| :: g[id].children[i].target in visited
    ensures ClosedUnder(h, visited + {id}) && AllComplete(base, book, h, visited + {id})
  {
    hide HasRules, RulesFor, Lawful, Trimmed;
    assert Complete(base, book, h, id);
    forall e | e in h[id].children ensures e.target in visited {
      assert e in g[id].children;
      var i :| 0 <= i < |g[id].children| && g[id].children[i] == e;
    }
  }

  /** `_walk_dict_apply` with `_decorate_all`.  It returns the nodes it has been at: they are closed under edges, and
      each has all its rules. */
  method WalkDecorate(schema: Schema, book: RuleBook, id: nat, ghost base: Graph, ghost rank: nat -> nat)
    returns (ghost visited: set<nat>)
    requires IsTree(base, rank) && Kept(base, schema.nodes) && id in schema.nodes
    modifies schema
    ensures Kept(base, schema.nodes) && Progress(base, book, old(schema.nodes), schema.nodes)
    ensures Lawful(base, book, old(schema.nodes), schema.nodes)
    ensures id in visited && ClosedUnder(schema.nodes, visited) && AllComplete(base, book, schema.nodes, visited)
    decreases Below(base, rank)(id)
  {
    hide Kept, Progress, ClosedUnder, AllComplete, Decorated, Complete, Below, IsTree;
    TreeIsClosed(base, rank);
    VisitProgress(base, book, schema.nodes, id);
    KeptDecorated(base, schema.nodes, book, id);
    ghost var start := schema.nodes;
    DecorateAll(schema, book, id);
    ghost var here := schema.nodes;
    CompleteIsThere(base, book, here, id);
    var edges := schema.nodes[id].children;
    visited := {};
    NothingVisited(base, book, here);
    KeptIsTree(base, rank, here);
    EdgesDescend(here, Below(base, rank), id);
    for k := 0 to |edges|
      invariant Kept(base, schema.nodes) && Progress(base, book, here, schema.nodes)
      invariant ClosedUnder(schema.nodes, visited) && AllComplete(base, book, schema.nodes, visited)
      invariant forall i | 0 <= i < k :: edges[i].target in visited
      invariant forall i | 0 <= i < |edges| :: edges[i].target in schema.nodes
    {
      ghost var before := schema.nodes;
      ghost var more := WalkDecorate(schema, book, edges[k].target, base, rank);
      StillThere(base, book, before, schema.nodes);
      StillClosed(base, book, before, schema.nodes, visited);
      ProgressThrough(base, book, here, before, schema.nodes);
      BothVisited(base, book, schema.nodes, visited, more);
      visited := visited + more;
    }
    VisitedRoot(base, book, here, schema.nodes, id, visited);
    visited := visited + {id};
    ProgressThrough(base, book, start, here, schema.nodes);
    StillThere(base, book, start, schema.nodes);
  }

  // ---------------------------------------------------------------------------------------------
  // What is reached afterwards
  // ---------------------------------------------------------------------------------------------

  lemma {:induction false} ReachIsClosed(g: Graph, rank: nat -> nat, root: nat)
    requires IsTree(g, rank) && root in g
    ensures ClosedUnder(g, Reach(g, rank, root))
    decreases rank(root), 1, 0
  {
    var n := |g[root].children|;
    ReachBelowIsClosed(g, rank, root, n);
    forall e | e in g[root].children ensures e.target in Reach(g, rank, root) {
      var i :| 0 <= i < n && g[root].children[i] == e;
    }
  }

  lemma {:induction false} ReachBelowIsClosed(g: Graph, rank: nat -> nat, root: nat, k: nat)
    requires IsTree(g, rank) && root in g && k <= |g[root].children|
    ensures ClosedUnder(g, ReachBelow(g, rank, root, k))
    ensures forall i | 0 <= i < k :: g[root].children[i].target in ReachBelow(g, rank, root, k)
    decreases rank(root), 0, k
  {
    if k > 0 {
      ReachBelowIsClosed(g, rank, root, k - 1);
      ReachIsClosed(g, rank, g[root].children[k - 1].target);
    }
  }

  lemma {:induction false} ReachInClosed(g: Graph, rank: nat -> nat, root: nat, ids: set<nat>)
    requires IsTree(g, rank) && root in g && root in ids && ClosedUnder(g, ids)
    ensures Reach(g, rank, root) <= ids
    decreases rank(root), 1, 0
  {
    ReachBelowInClosed(g, rank, root, |g[root].children|, ids);
  }

  lemma {:induction false} ReachBelowInClosed(g: Graph, rank: nat -> nat, root: nat, k: nat, ids: set<nat>)
    requires IsTree(g, rank) && root in g && root in ids && ClosedUnder(g, ids) && k <= |g[root].children|
    ensures ReachBelow(g, rank, root, k) <= ids
    decreases rank(root), 0, k
  {
    if k > 0 {
      ReachBelowInClosed(g, rank, root, k - 1, ids);
      assert g[root].children[k - 1] in g[root].children;
      ReachInClosed(g, rank, g[root].children[k - 1].target, ids);
    }
  }

  /** Of the original nodes decoration reaches no more than could be reached before. */
  lemma ReachKept(g: Graph, rank: nat -> nat, h: Graph, root: nat)
    requires IsTree(g, rank) && Kept(g, h) && root in g
    ensures IsTree(h, Below(g, rank)) && root in h
    ensures forall id | id in Reach(h, Below(g, rank), root) && id in g :: id in Reach(g, rank, root)
  {
    KeptIsTree(g, rank, h);
    ReachIsClosed(g, rank, root);
    var ids := Reach(g, rank, root) + (h.Keys - g.Keys);
    forall id | id in ids ensures forall e | e in h[id].children :: e.target in ids {
      if id in g {
        assert NodeKept(g, g[id], h[id]);
        var k: nat :| EdgesKept(g, g[id].children, h[id].children, k);
        OldEdges(g, g[id].children, h[id].children, k);
        forall e | e in h[id].children ensures e.target in ids {
          var i :| 0 <= i < |h[id].children| && h[id].children[i] == e;
        }
      }
    }
    ReachInClosed(h, Below(g, rank), root, ids);
  }

  // ---------------------------------------------------------------------------------------------
  // The four walks
  // ---------------------------------------------------------------------------------------------

  /** What the walks make of a node that was there before: a runtime field is int-or-string without bounds; any other
      node preserves unknown fields without a type exactly if it did so before and carried the sentinel. */
  ghost predicate Settled(before: Dict, after: Dict, loosened: bool) {
    && (IsTrue(after, PRESERVE) <==> IsTrue(before, PRESERVE))
    && (loosened ==> IsTrue(after, INT_OR_STRING) && forall key | key in BOUNDS :: key !in after.scalars)
    && (!loosened ==>
          (IsTrue(after, PRESERVE) && !Has(after, TYPE) <==>
           IsTrue(before, PRESERVE) && !Has(before, TYPE) && IsTrue(before, SENTINEL)))
  }

  /** The walks' own entries apart, every entry is as it was; a node that is not loosened keeps its type, and a type that
      is added is object. */
  ghost predicate EntriesSurvive(before: Dict, after: Dict, loosened: bool) {
    && (forall key | key !in CHANGED + {SENTINEL, TYPE, INT_OR_STRING} && (loosened ==> key !in BOUNDS) ::
          SameEntry(before, after, key))
    && (!loosened ==> SameEntry(before, after, INT_OR_STRING))
    && (!loosened && TYPE in before.scalars ==> SameEntry(before, after, TYPE))
    && (TYPE !in before.scalars && TYPE in after.scalars ==> after.scalars[TYPE] == Text("object"))
  }

  /** No node carries the sentinel.  A node that was there is settled, keeps its entries, has the rules of its shapes
      and no others, and is trimmed; a new one is a rule. */
  ghost predicate Finished(g: Graph, book: RuleBook, h: Graph, fields: set<nat>, id: nat) {
    && id in h && SENTINEL !in h[id].scalars
    && if id in g then
         && Settled(g[id], h[id], id in fields) && EntriesSurvive(g[id], h[id], id in fields)
         && LawfulAt(g, book, g, h, id)
         && HasRules(h, id, RulesFor(g, book, id)) && Trimmed(g, h, id)
       else IsRuleNode(h[id])
  }

  /** The old edges survive, but for dropped defaults, in order and before the rules that were added. */
  ghost predicate EdgesSurvive(g: Graph, h: Graph) {
    g.Keys <= h.Keys && forall id | id in g :: exists k: nat :: EdgesKept(g, g[id].children, h[id].children, k)
  }

  /** The walks of `_build_aiperfsweep_crd_from_schema`, in order.  `depth` is a rank of the finished graph. */
  method FinishSweep(schema: Schema, book: RuleBook, root: nat, ghost rank: nat -> nat) returns (ghost depth: nat -> nat)
    requires IsTree(schema.nodes, rank) && root in schema.nodes
    modifies schema
    ensures EdgesSurvive(old(schema.nodes), schema.nodes)
    ensures root in schema.nodes && IsTree(schema.nodes, depth)
    ensures var reach := Reach(schema.nodes, depth, root);
      forall id | id in reach :: Finished(old(schema.nodes), book, schema.nodes, AllRuntimeFields(schema.nodes, reach), id)
  {
    hide *;
    ghost var start := schema.nodes;
    VisitedNone(start, EnsureType);
    EnsureTypeIsVisit();
    schema.WalkApply(root, EnsureType, start, {}, rank);
    ghost var typed := schema.nodes;
    NoneAnd(Reach(start, rank, root));
    VisitedIsTree(start, rank, Reach(start, rank, root), EnsureType, root);
    TreeIsClosed(typed, rank);
    KeptSelf(typed);
    ghost var visited := WalkDecorate(schema, book, root, typed, rank);
    ghost var decorated := schema.nodes;
    depth := Below(typed, rank);
    ReachKept(typed, rank, decorated, root);
    ReachInClosed(decorated, depth, root, visited);
    ghost var reach := Reach(decorated, depth, root);
    VisitedNone(decorated, AllowIntOrString);
    schema.WalkLoosen(root, decorated, {}, depth);
    ghost var loosened := schema.nodes;
    ghost var fields := AllRuntimeFields(decorated, reach);
    NoneAnd(fields);
    AllowIsVisit();
    VisitedIsTree(decorated, depth, fields, AllowIntOrString, root);
    VisitedNone(loosened, Strip);
    StripIsVisit();
    schema.WalkApply(root, Strip, loosened, {}, depth);
    NoneAnd(reach);
    VisitedIsTree(loosened, depth, reach, Strip, root);
    Conclude(start, typed, decorated, loosened, schema.nodes, book, rank, root, visited);
  }

  lemma NoneAnd(ids: set<nat>)
    ensures {} + ids == ids
  {}

  /** A visit that keeps edges keeps the shape. */
  lemma VisitedIsTree(g: Graph, rank: nat -> nat, ids: set<nat>, f: Dict -> Dict, root: nat)
    requires IsTree(g, rank) && IsVisit(f) && root in g
    ensures var h := Visited(g, ids, f);
      SameShape(g, h) && root in h && IsTree(h, rank) && Reach(h, rank, root) == Reach(g, rank, root)
  {
    SameReach(g, Visited(g, ids, f), rank, root);
  }

  lemma Conclude(start: Graph, typed: Graph, decorated: Graph, loosened: Graph, end: Graph, book: RuleBook,
                 rank: nat -> nat, root: nat, visited: set<nat>)
    requires IsTree(start, rank) && root in start && IsTree(typed, rank) && root in typed
    requires typed == Visited(start, Reach(start, rank, root), EnsureType)
    requires Reach(typed, rank, root) == Reach(start, rank, root)
    requires Kept(typed, decorated) && root in decorated && IsTree(decorated, Below(typed, rank))
    requires Lawful(typed, book, typed, decorated)
    requires var reach := Reach(decorated, Below(typed, rank), root);
      && reach <= visited && AllComplete(typed, book, decorated, visited)
      && (forall id | id in reach && id in typed :: id in Reach(typed, rank, root))
      && loosened == Visited(decorated, AllRuntimeFields(decorated, reach), AllowIntOrString)
      && end == Visited(loosened, reach, Strip)
    requires root in end && IsTree(end, Below(typed, rank))
    requires Reach(end, Below(typed, rank), root) == Reach(decorated, Below(typed, rank), root)
    ensures EdgesSurvive(start, end)
    ensures var reach := Reach(end, Below(typed, rank), root);
      forall id | id in reach :: Finished(start, book, end, AllRuntimeFields(end, reach), id)
  {
    hide *;
    var reach := Reach(decorated, Below(typed, rank), root);
    var fields := AllRuntimeFields(decorated, reach);
    SurvivesAll(start, typed, decorated, loosened, end, Reach(start, rank, root), fields, reach);
    FieldsUnchanged(decorated, loosened, end, fields, reach);
    TreeIsClosed(typed, rank);
    FieldsAreOld(typed, decorated, reach);
    forall id | id in reach ensures Finished(start, book, end, fields, id) {
      CompleteAt(typed, book, decorated, visited, id);
      FinishedAt(start, typed, decorated, loosened, end, book, Reach(start, rank, root), fields, reach, id);
    }
  }

  // ---------------------------------------------------------------------------------------------
  // Node by node
  // ---------------------------------------------------------------------------------------------

  lemma CompleteAt(base: Graph, book: RuleBook, g: Graph, ids: set<nat>, id: nat)
    requires AllComplete(base, book, g, ids) && id in ids
    ensures Complete(base, book, g, id)
  {}

  /** The last two walks keep edges, and so the whole chain keeps what decoration keeps. */
  lemma SurvivesAll(start: Graph, typed: Graph, decorated: Graph, loosened: Graph, end: Graph,
                    reach0: set<nat>, fields: set<nat>, reach: set<nat>)
    requires typed == Visited(start, reach0, EnsureType) && Kept(typed, decorated)
    requires loosened == Visited(decorated, fields, AllowIntOrString) && end == Visited(loosened, reach, Strip)
    ensures EdgesSurvive(start, end)
  {
    hide EnsureType, AllowIntOrString, Strip, IsVisit;
    EnsureTypeIsVisit();
    AllowIsVisit();
    StripIsVisit();
    SameEdges3(start, typed, decorated, loosened, end, reach0, fields, reach);
    forall id | id in start ensures exists k: nat :: EdgesKept(start, start[id].children, end[id].children, k) {
      assert NodeKept(typed, typed[id], decorated[id]);
      var k: nat :| EdgesKept(typed, typed[id].children, decorated[id].children, k);
      assert EdgesKept(start, start[id].children, end[id].children, k);
    }
  }

  lemma SameEdges3(start: Graph, typed: Graph, decorated: Graph, loosened: Graph, end: Graph,
                   reach0: set<nat>, fields: set<nat>, reach: set<nat>)
    requires typed == Visited(start, reach0, EnsureType)
    requires loosened == Visited(decorated, fields, AllowIntOrString) && end == Visited(loosened, reach, Strip)
    ensures typed.Keys == start.Keys && end.Keys == loosened.Keys == decorated.Keys
    ensures forall id | id in start :: typed[id].children == start[id].children
    ensures forall id | id in decorated :: end[id].children == decorated[id].children
  {}

  /** Loosening and stripping one dictionary. */
  function Ended(d: Dict, loosened: bool): Dict { Strip(if loosened then AllowIntOrString(d) else d) }

  lemma EndAt(decorated: Graph, loosened: Graph, end: Graph, fields: set<nat>, reach: set<nat>, id: nat)
    requires loosened == Visited(decorated, fields, AllowIntOrString) && end == Visited(loosened, reach, Strip)
    requires id in decorated
    ensures id in end && (id in reach ==> end[id] == Ended(decorated[id], id in fields))
    ensures id !in fields && IsRuleNode(decorated[id]) ==> end[id] == decorated[id]
    ensures SameKeys(decorated[id], end[id])
  {
    AllowKeepsKeys(decorated[id]);
    StripKeepsKeys(decorated[id]);
    StripKeepsKeys(AllowIntOrString(decorated[id]));
    if IsRuleNode(decorated[id]) { RuleNodeEnds(decorated[id]); }
  }

  /** The keys and the rule text by which nodes are recognised. */
  ghost predicate SameKeys(d: Dict, e: Dict) {
    && e.children == d.children
    && (Has(e, "workers") <==> Has(d, "workers")) && (Has(e, "apiPort") <==> Has(d, "apiPort"))
    && SameEntry(d, e, RULE) && forall key | key in CHANGED :: SameEntry(d, e, key)
  }

  lemma StripKeepsKeys(d: Dict)
    ensures Has(Strip(d), "workers") == Has(d, "workers") && Has(Strip(d), "apiPort") == Has(d, "apiPort")
    ensures forall key | key in CHANGED + {RULE} :: key != SENTINEL && key != INT_OR_STRING && key !in BOUNDS
  {
    assert REQUIRED[0] == 'r' && DEFAULT[0] == 'd' && VALIDATIONS[0] == 'x' && VALIDATIONS[13] == 'v';
    assert SENTINEL[0] == '_' && INT_OR_STRING[13] == 'i' && "exclusiveMinimum"[0] == "exclusiveMaximum"[0] == 'e';
    assert "format"[0] == 'f' && "minimum"[0] == "maximum"[0] == 'm';
    assert |"workers"| == 7 && |"apiPort"| == 7 && |SENTINEL| == 19 && |RULE| == 4 && |INT_OR_STRING| == 26;
    assert RULE[0] == 'r' && TYPE[0] == 't';
    assert |"format"| == 6 && |"minimum"| == 7 && |"maximum"| == 7;
    assert |"exclusiveMinimum"| == 16 && |"exclusiveMaximum"| == 16;
  }

  /** The last two walks do not change which nodes are runtime fields. */
  lemma FieldsUnchanged(decorated: Graph, loosened: Graph, end: Graph, fields: set<nat>, reach: set<nat>)
    requires loosened == Visited(decorated, fields, AllowIntOrString) && end == Visited(loosened, reach, Strip)
    requires reach <= decorated.Keys
    ensures reach <= end.Keys && AllRuntimeFields(end, reach) == AllRuntimeFields(decorated, reach)
  {
    assert end.Keys == decorated.Keys;
    forall id | id in decorated ensures SameKeys(decorated[id], end[id]) {
      EndAt(decorated, loosened, end, fields, reach, id);
    }
    hide Visited, Has;
    forall id | id in reach ensures RuntimeFields(end, id) == RuntimeFields(decorated, id) {
      assert SameKeys(decorated[id], end[id]);
      var p := Child(decorated[id], PROPERTIES);
      assert p.Some? && p.value in decorated ==> SameKeys(decorated[p.value], end[p.value]);
    }
  }

  /** Runtime fields are original nodes, not rules. */
  lemma FieldsAreOld(base: Graph, g: Graph, reach: set<nat>)
    requires Kept(base, g) && Closed(base) && reach <= g.Keys
    ensures forall id | id in AllRuntimeFields(g, reach) :: id in base
  {
    forall id, field | id in reach && field in RuntimeFields(g, id) ensures field in base {
      if id in base {
        KeysApart();
        ChildKept(base, g, id, PROPERTIES);
        ChildIsTarget(base[id].children, PROPERTIES);
        var p := Child(base[id], PROPERTIES).value;
        var key := TargetHasKey(g[p].children, RUNTIME, field);
        assert key != DEFAULT && key != VALIDATIONS by { RuntimeKeysPlain(); }
        ChildKept(base, g, p, key);
        ChildIsTarget(base[p].children, key);
      } else {
        RuleNodeIsLeaf(base, g, id);
      }
    }
  }

  lemma RuntimeKeysPlain()
    ensures forall i | 0 <= i < |RUNTIME| :: RUNTIME[i] != DEFAULT && RUNTIME[i] != VALIDATIONS
  {
    assert RUNTIME == ["workers", "workersMin", "apiPort"];
    assert DEFAULT[0] == 'd' && VALIDATIONS[0] == 'x' && "workers"[0] == 'w' && "workersMin"[0] == 'w' && "apiPort"[0] == 'a';
  }

  lemma {:induction false} TargetHasKey(edges: seq<Edge>, keys: seq<string>, target: nat) returns (key: string)
    requires target in Targets(edges, keys)
    ensures key in keys && ChildFrom(edges, key) == Some(target)
  {
    if ChildFrom(edges, keys[|keys| - 1]) == Some(target) {
      key := keys[|keys| - 1];
    } else {
      key := TargetHasKey(edges, keys[..|keys| - 1], target);
    }
  }

  lemma SettledNode(before: Dict, decorated: Dict, loosened: bool)
    requires ScalarsKept(EnsureType(before), decorated)
    requires Has(decorated, TYPE) <==> Has(EnsureType(before), TYPE)
    ensures Settled(before, Ended(decorated, loosened), loosened) && SENTINEL !in Ended(decorated, loosened).scalars
  {
    KeysDiffer();
    KeysApart();
    var typed := EnsureType(before);
    assert Has(typed, TYPE) <==> Has(before, TYPE) || (IsTrue(before, PRESERVE) && !IsTrue(before, SENTINEL));
    assert !loosened ==> (Has(Ended(decorated, loosened), TYPE) <==> Has(decorated, TYPE));
  }

  lemma RuleNodeEnds(d: Dict)
    requires IsRuleNode(d)
    ensures Ended(d, false) == d && SENTINEL !in d.scalars
  {
    assert |SENTINEL| == 19 && |RULE| == 4 && |MESSAGE| == 7;
    assert d.scalars - {SENTINEL} == d.scalars;
  }

  lemma EntriesAtEnd(before: Dict, decorated: Dict, loosened: bool)
    requires ScalarsKept(EnsureType(before), decorated)
    ensures EntriesSurvive(before, Ended(decorated, loosened), loosened)
  {
    KeysDiffer();
    KeysApart();
    var typed, end := EnsureType(before), Ended(decorated, loosened);
    forall key | key !in CHANGED && key != SENTINEL && key != INT_OR_STRING && (loosened ==> key !in BOUNDS)
      ensures SameEntry(typed, end, key)
    {
      assert SameEntry(typed, decorated, key);
    }
    assert INT_OR_STRING !in CHANGED by { assert |INT_OR_STRING| == 26 && |VALIDATIONS| == 24 && |REQUIRED| == 8; }
    assert SameEntry(typed, decorated, INT_OR_STRING);
  }

  /** The other walks do not touch the entries that decorating changes. */
  lemma EntriesLawfulAtEnd(start: Graph, typed: Graph, reach0: set<nat>, id: nat, decorated: Dict, end: Dict)
    requires typed == Visited(start, reach0, EnsureType) && id in start && id in typed
    requires EntriesLawful(typed, id, typed[id], decorated) && SameKeys(decorated, end)
    ensures EntriesLawful(start, id, start[id], end)
  {
    SameShapes(start, typed, reach0, id);
    if IsTypeField(typed, id) { SameTypeFields(start, typed, reach0, id); }
    KeysApart();
    assert forall key | key in CHANGED :: SameEntry(start[id], typed[id], key);
    assert !Has(decorated, DEFAULT) ==> !Has(end, DEFAULT) by { assert SameEntry(decorated, end, DEFAULT); }
    RelaxedAlike(start[id], typed[id]);
    hide EnsureType, Shaped, Has, IsTypeField, Relaxed, Visited;
    assert SameEntry(decorated, end, REQUIRED) && SameEntry(decorated, end, VALIDATIONS);
    assert SameEntry(decorated, end, DEFAULT);
  }

  lemma LawfulAtEnd(start: Graph, typed: Graph, decorated: Graph, end: Graph, book: RuleBook, reach0: set<nat>, id: nat)
    requires typed == Visited(start, reach0, EnsureType) && id in start
    requires Lawful(typed, book, typed, decorated) && end.Keys == decorated.Keys
    requires forall v | v in decorated :: SameKeys(decorated[v], end[v])
    requires forall v | v in decorated && v !in typed && IsRuleNode(decorated[v]) :: end[v] == decorated[v]
    ensures LawfulAt(start, book, start, end, id)
  {
    hide EnsureType, Shaped, IsTypeField, EntriesLawful, IsRuleNode, Has;
    EnsureTypeIsVisit();
    SameShapes(start, typed, reach0, id);
    assert LawfulAt(typed, book, typed, decorated, id);
    EntriesLawfulAtEnd(start, typed, reach0, id, decorated[id], end[id]);
    assert start[id].children == typed[id].children && end[id].children == decorated[id].children;
    forall e | e in start[id].children && e !in end[id].children
      ensures e.key == DEFAULT && IsTypeField(start, id) && !Has(end[id], DEFAULT)
    {
      SameTypeFields(start, typed, reach0, id);
      SameDefault(decorated[id], end[id]);
    }
    forall e | e in end[id].children && e !in start[id].children ensures IsNewRule(start, book, end, id, e) {
      assert IsNewRule(typed, book, decorated, id, e);
      var rule :| rule in RulesFor(typed, book, id) && decorated[e.target] == RuleNode(rule);
      RuleNodeIsRule(rule);
    }
  }

  lemma RuleNodeIsRule(rule: Rule)
    ensures IsRuleNode(RuleNode(rule))
  {}

  lemma SameDefault(d: Dict, e: Dict)
    requires SameKeys(d, e)
    ensures Has(e, DEFAULT) <==> Has(d, DEFAULT)
  {
    assert SameEntry(d, e, DEFAULT);
  }

  lemma TrimmedAtEnd(start: Graph, typed: Graph, decorated: Graph, end: Graph, reach0: set<nat>, id: nat)
    requires typed == Visited(start, reach0, EnsureType) && id in start && id in typed && id in decorated
    requires Trimmed(typed, decorated, id) && end.Keys == decorated.Keys
    requires forall v | v in decorated :: SameKeys(decorated[v], end[v])
    ensures Trimmed(start, end, id)
  {
    hide EnsureType, Shaped, Has, TypeField, Visited;
    SameShapes(start, typed, reach0, id);
    assert SameEntry(decorated[id], end[id], REQUIRED);
    var t := TypeField(typed, id);
    if t.Some? && t.value in decorated { SameDefault(decorated[t.value], end[t.value]); }
  }

  /** Typing adds no key but the type, so it changes no shape. */
  lemma SameShapes(start: Graph, typed: Graph, reach0: set<nat>, id: nat)
    requires typed == Visited(start, reach0, EnsureType) && id in start
    ensures id in typed
    ensures forall keys | keys in {CONFIG, ENDPOINT, RUNTIME_SECTION, MULTIRUN} ::
              Shaped(typed, id, keys) <==> Shaped(start, id, keys)
    ensures TypeField(typed, id) == TypeField(start, id)
  {
    forall d: Dict, key: string | key != TYPE ensures Has(EnsureType(d), key) <==> Has(d, key) {}
    assert |TYPE| == 4 && TYPE[0] == 't' && "urls"[0] == 'u';
    EnsureTypeIsVisit();
    forall keys | keys in {CONFIG, ENDPOINT, RUNTIME_SECTION, MULTIRUN}
      ensures Shaped(typed, id, keys) <==> Shaped(start, id, keys)
    {
      assert forall i | 0 <= i < |keys| :: keys[i] != TYPE;
      hide EnsureType, Has;
    }
  }

  lemma SameTypeFields(start: Graph, typed: Graph, reach0: set<nat>, t: nat)
    requires typed == Visited(start, reach0, EnsureType) && IsTypeField(typed, t)
    ensures IsTypeField(start, t)
  {
    hide Visited, Shaped, TypeField;
    var id :| id in typed && Shaped(typed, id, ENDPOINT) && TypeField(typed, id) == Some(t);
    assert id in start by { SameNodes(start, reach0); }
    SameShapes(start, typed, reach0, id);
  }

  lemma SameNodes(start: Graph, reach0: set<nat>)
    ensures Visited(start, reach0, EnsureType).Keys == start.Keys
  {}

  lemma SameRulesFor(start: Graph, typed: Graph, reach0: set<nat>, book: RuleBook, id: nat)
    requires typed == Visited(start, reach0, EnsureType) && id in start
    ensures id in typed && RulesFor(typed, book, id) == RulesFor(start, book, id)
  {
    SameShapes(start, typed, reach0, id);
  }

  lemma RulesAtEnd(decorated: Graph, end: Graph, id: nat, rules: seq<Rule>)
    requires decorated.Keys == end.Keys && forall v | v in decorated :: SameKeys(decorated[v], end[v])
    requires id in decorated && HasRules(decorated, id, rules)
    ensures HasRules(end, id, rules)
  {
    hide Has;
    forall i | 0 <= i < |rules| ensures HasRule(end, id, rules[i].text) {
      assert HasRule(decorated, id, rules[i].text);
      var j :| 0 <= j < |decorated[id].children| && IsRule(decorated, decorated[id].children[j], rules[i].text);
      assert IsRule(end, end[id].children[j], rules[i].text);
    }
  }

  lemma FinishedAt(start: Graph, typed: Graph, decorated: Graph, loosened: Graph, end: Graph, book: RuleBook,
                   reach0: set<nat>, fields: set<nat>, reach: set<nat>, id: nat)
    requires typed == Visited(start, reach0, EnsureType) && Kept(typed, decorated) && id in decorated && id in reach
    requires loosened == Visited(decorated, fields, AllowIntOrString) && end == Visited(loosened, reach, Strip)
    requires (id in typed ==> id in reach0) && forall field | field in fields :: field in typed
    requires Lawful(typed, book, typed, decorated)
    requires Complete(typed, book, decorated, id)
    ensures Finished(start, book, end, fields, id)
  {
    hide HasRule, RulesFor, EnsureType, Ended, Settled, EntriesSurvive, Has, IsRuleNode, SameKeys, IsVisit, Shaped, Lawful,
      LawfulAt, Trimmed;
    EndAt(decorated, loosened, end, fields, reach, id);
    if id in start {
      EnsureTypeIsVisit();
      assert typed[id] == EnsureType(start[id]);
      assert NodeKept(typed, typed[id], decorated[id]);
      KeysApart();
      HasKept(typed, decorated, id, TYPE);
      SettledNode(start[id], decorated[id], id in fields);
      EntriesAtEnd(start[id], decorated[id], id in fields);
      SameRulesFor(start, typed, reach0, book, id);
      assert end.Keys == decorated.Keys;
      forall v | v in decorated ensures SameKeys(decorated[v], end[v]) {
        EndAt(decorated, loosened, end, fields, reach, v);
      }
      RulesAtEnd(decorated, end, id, RulesFor(start, book, id));
      TrimmedAtEnd(start, typed, decorated, end, reach0, id);
      forall v | v in decorated && v !in typed && IsRuleNode(decorated[v]) ensures end[v] == decorated[v] {
        EndAt(decorated, loosened, end, fields, reach, v);
      }
      LawfulAtEnd(start, typed, decorated, end, book, reach0, id);
    } else {
      RuleNodeEnds(decorated[id]);
    }
  }
}
