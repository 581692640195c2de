/** What the decorating walk keeps, and that it attaches every rule. */
module CrdDecorationProof {
  import opened Wrappers
  import opened CrdWalks
  import opened CrdDecoration

  // ---------------------------------------------------------------------------------------------
  // Each change keeps the graph decorated
  // ---------------------------------------------------------------------------------------------

  lemma KeptSelf(g: Graph)
    requires Closed(g)
    ensures Kept(g, g)
  {
    forall id | id in g ensures NodeKept(g, g[id], g[id]) {
      assert EdgesKept(g, g[id].children, g[id].children, |g[id].children|);
    }
  }

  /** Changing entries that may change. */
  lemma KeptScalars(g: Graph, h: Graph, id: nat, d: Dict)
    requires Kept(g, h) && id in g && ScalarsKept(h[id], d) && d.children == h[id].children
    ensures Kept(g, h[id := d])
  {
    var h' := h[id := d];
    forall x | x in g ensures NodeKept(g, g[x], h'[x]) {
      assert NodeKept(g, g[x], h[x]);
    }
  }

  lemma {:induction false} NoEdgeConcat(a: seq<Edge>, b: seq<Edge>, key: string)
    ensures NoEdge(a + b, key) == NoEdge(a, key) + NoEdge(b, key)
  {
    if b == [] {
      assert a + b == a;
    } else {
      assert (a + b)[..|a + b| - 1] == a + b[..|b| - 1];
      NoEdgeConcat(a, b[..|b| - 1], key);
    }
  }

  lemma {:induction false} NoEdgeAbsent(a: seq<Edge>, key: string)
    requires forall i | 0 <= i < |a| :: a[i].key != key
    ensures NoEdge(a, key) == a
  {
    if a != [] { NoEdgeAbsent(a[..|a| - 1], key); }
  }

  lemma {:induction false} NoEdgeHas(a: seq<Edge>, key: string, e: Edge)
    ensures e in NoEdge(a, key) <==> e in a && e.key != key
  {
    if a != [] {
      NoEdgeHas(a[..|a| - 1], key, e);
      assert a == a[..|a| - 1] + [a[|a| - 1]];
    }
  }

  lemma NoEdgeTwice(a: seq<Edge>, key: string)
    ensures NoEdge(NoEdge(a, key), key) == NoEdge(a, key)
  {
    var b := NoEdge(a, key);
    forall i | 0 <= i < |b| ensures b[i].key != key {
      NoEdgeHas(a, key, b[i]);
      assert b[i] in b;
    }
    NoEdgeAbsent(b, key);
  }

  /** Edges without defaults, then rules. */
  lemma WithRules(g: Graph, before: seq<Edge>, rules: seq<Edge>)
    requires forall i | 0 <= i < |rules| :: rules[i].key == VALIDATIONS && rules[i].target !in g
    ensures EdgesKept(g, before, NoEdge(before, DEFAULT) + rules, |NoEdge(before, DEFAULT)|)
  {
    hide NoEdge;
    var front := NoEdge(before, DEFAULT);
    assert (front + rules)[..|front|] == front;
  }

  lemma DroppedEdges(g: Graph, before: seq<Edge>, after: seq<Edge>, k: nat)
    requires EdgesKept(g, before, after, k)
    ensures EdgesKept(g, before, NoEdge(after, DEFAULT), |NoEdge(before, DEFAULT)|)
  {
    hide NoEdge;
    var rules := after[k..];
    assert after == after[..k] + rules;
    assert VALIDATIONS != DEFAULT by { assert |VALIDATIONS| == 24 && |DEFAULT| == 7; }
    NoEdgeConcat(after[..k], rules, DEFAULT);
    NoEdgeAbsent(rules, DEFAULT);
    NoEdgeTwice(before, DEFAULT);
    WithRules(g, before, rules);
  }

  /** Dropping a default. */
  lemma KeptNoDefault(g: Graph, h: Graph, id: nat)
    requires Kept(g, h) && id in g
    ensures Kept(g, h[id := NoDefault(h[id])])
  {
    var h' := h[id := NoDefault(h[id])];
    forall x | x in g ensures NodeKept(g, g[x], h'[x]) {
      assert NodeKept(g, g[x], h[x]);
      if x == id {
        var k: nat :| EdgesKept(g, g[x].children, h[x].children, k);
        DroppedEdges(g, g[x].children, h[x].children, k);
      }
    }
    forall x, i | x in h' && 0 <= i < |h'[x].children| ensures h'[x].children[i].target in h' {
      if x == id {
        NoEdgeHas(h[x].children, DEFAULT, h'[x].children[i]);
        assert h'[x].children[i] in h'[x].children;
        var j :| 0 <= j < |h[x].children| && h[x].children[j] == h'[x].children[i];
      }
    }
  }

  lemma EdgesWithRule(g: Graph, before: seq<Edge>, after: seq<Edge>, k: nat, e: Edge)
    requires EdgesKept(g, before, after, k) && e.key == VALIDATIONS && e.target !in g
    ensures EdgesKept(g, before, after + [e], k)
  {
    assert (after + [e])[..k] == after[..k];
  }

  /** Appending a rule. */
  lemma KeptRule(g: Graph, h: Graph, id: nat, rule: Rule)
    requires Kept(g, h) && id in g
    ensures Kept(g, AddRule(h, id, rule))
  {
    hide HasRule, Unused;
    if !HasRule(h, id, rule.text) {
      var spare, h' := Unused(h, 0), AddRule(h, id, rule);
      var edges := h[id].children + [Edge(VALIDATIONS, spare)];
      forall x | x in g ensures NodeKept(g, g[x], h'[x]) {
        assert NodeKept(g, g[x], h[x]);
        if x == id {
          var k: nat :| EdgesKept(g, g[x].children, h[x].children, k);
          EdgesWithRule(g, g[x].children, h[x].children, k, Edge(VALIDATIONS, spare));
        }
      }
    }
  }

  lemma {:induction false} KeptRules(g: Graph, h: Graph, id: nat, rules: seq<Rule>)
    requires Kept(g, h) && id in g
    ensures Kept(g, AddRules(h, id, rules))
  {
    if rules != [] {
      KeptRules(g, h, id, rules[..|rules| - 1]);
      KeptRule(g, AddRules(h, id, rules[..|rules| - 1]), id, rules[|rules| - 1]);
    }
  }

  lemma KeptValidated(g: Graph, h: Graph, id: nat, rules: seq<Rule>)
    requires Kept(g, h) && id in g
    ensures Kept(g, Validated(h, id, rules))
  {
    hide NodeKept, Has;
    KeptScalars(g, h, id, WithBag(h[id]));
    KeptRules(g, h[id := WithBag(h[id])], id, rules);
  }

  // ---------------------------------------------------------------------------------------------
  // Shapes survive decoration
  // ---------------------------------------------------------------------------------------------

  lemma {:induction false} ChildOfConcat(a: seq<Edge>, b: seq<Edge>, key: string)
    ensures ChildFrom(a + b, key) == if ChildFrom(a, key).Some? then ChildFrom(a, key) else ChildFrom(b, key)
  {
    if a == [] {
      assert a + b == b;
    } else {
      assert (a + b)[1..] == a[1..] + b;
      ChildOfConcat(a[1..], b, key);
    }
  }

  lemma {:induction false} ChildOfNoEdge(a: seq<Edge>, drop: string, key: string)
    requires key != drop
    ensures ChildFrom(NoEdge(a, drop), key) == ChildFrom(a, key)
  {
    if a != [] {
      var front, last := a[..|a| - 1], a[|a| - 1];
      ChildOfNoEdge(front, drop, key);
      assert a == front + [last];
      ChildOfConcat(front, [last], key);
      ChildOfConcat(NoEdge(front, drop), if last.key == drop then [] else [last], key);
    }
  }

  lemma {:induction false} NoChild(a: seq<Edge>, key: string)
    requires forall i | 0 <= i < |a| :: a[i].key != key
    ensures ChildFrom(a, key) == None
  {
    if a != [] { NoChild(a[1..], key); }
  }

  /** Apart from defaults and validations, a key leads where it led. */
  lemma ChildKept(g: Graph, h: Graph, id: nat, key: string)
    requires Kept(g, h) && id in g && key != DEFAULT && key != VALIDATIONS
    ensures Child(h[id], key) == Child(g[id], key)
  {
    assert NodeKept(g, g[id], h[id]);
    var k: nat :| EdgesKept(g, g[id].children, h[id].children, k);
    var after := h[id].children;
    assert after == after[..k] + after[k..];
    ChildOfConcat(after[..k], after[k..], key);
    NoChild(after[k..], key);
    ChildOfNoEdge(g[id].children, DEFAULT, key);
  }

  lemma HasMeans(d: Dict, key: string)
    ensures Has(d, key) <==> key in d.scalars || exists e :: e in d.children && e.key == key
  {
    if e :| e in d.children && e.key == key {
      var i :| 0 <= i < |d.children| && d.children[i] == e;
    }
  }

  lemma HasKept(g: Graph, h: Graph, id: nat, key: string)
    requires Kept(g, h) && id in g && key !in CHANGED
    ensures Has(h[id], key) <==> Has(g[id], key)
  {
    assert NodeKept(g, g[id], h[id]);
    var k: nat :| EdgesKept(g, g[id].children, h[id].children, k);
    OldEdges(g, g[id].children, h[id].children, k);
    HasMeans(g[id], key);
    HasMeans(h[id], key);
  }

  /** An edge that is no rule and no default is there afterwards exactly if it was there before. */
  lemma OldEdges(g: Graph, before: seq<Edge>, after: seq<Edge>, k: nat)
    requires EdgesKept(g, before, after, k)
    ensures forall e: Edge | e.key != VALIDATIONS && e.key != DEFAULT :: e in after <==> e in before
    ensures forall e | e in after && e.target in g :: e in before
  {
    forall e: Edge ensures e in NoEdge(before, DEFAULT) <==> e in before && e.key != DEFAULT {
      NoEdgeHas(before, DEFAULT, e);
    }
    assert after == after[..k] + after[k..];
    forall e | e in after[k..] ensures e.key == VALIDATIONS && e.target !in g {
      var i :| 0 <= i < |after[k..]| && after[k..][i] == e;
      assert after[k + i] == e;
    }
  }

  lemma PlainKeys(keys: seq<string>)
    requires keys in {CONFIG, ENDPOINT, RUNTIME_SECTION, MULTIRUN}
    ensures forall i | 0 <= i < |keys| :: keys[i] !in CHANGED
  {
    assert |REQUIRED| == 8 && |DEFAULT| == 7 && |VALIDATIONS| == 24;
    assert REQUIRED[0] == 'r' && DEFAULT[0] == 'd' && DEFAULT[1] == 'e' && VALIDATIONS[0] == 'x';
    assert CONFIG == ["model", "dataset", "warmup", "profiling"] && "dataset"[1] == 'a';
  }

  lemma ShapeKept(g: Graph, h: Graph, id: nat, keys: seq<string>)
    requires Kept(g, h) && Closed(g) && id in g && keys in {CONFIG, ENDPOINT, RUNTIME_SECTION, MULTIRUN}
    ensures Shaped(h, id, keys) <==> Shaped(g, id, keys)
  {
    KeysApart();
    ChildKept(g, h, id, PROPERTIES);
    PlainKeys(keys);
    var p := Child(g[id], PROPERTIES);
    if p.Some? {
      ChildIsTarget(g[id].children, PROPERTIES);
      forall i | 0 <= i < |keys| ensures Has(h[p.value], keys[i]) <==> Has(g[p.value], keys[i]) {
        HasKept(g, h, p.value, keys[i]);
      }
    }
  }

  lemma KeysApart()
    ensures PROPERTIES != DEFAULT && PROPERTIES != VALIDATIONS && TYPE != DEFAULT && TYPE != VALIDATIONS
    ensures TYPE !in CHANGED && PRESERVE !in CHANGED && SENTINEL !in CHANGED && RULE !in CHANGED
  {
    assert |PROPERTIES| == 10 && |DEFAULT| == 7 && |VALIDATIONS| == 24 && |TYPE| == 4 && |REQUIRED| == 8;
    assert |PRESERVE| == 36 && |SENTINEL| == 19 && |RULE| == 4;
  }

  lemma KeptConfig(g: Graph, h: Graph, id: nat)
    requires Kept(g, h) && id in g
    ensures Kept(g, DecorateConfig(h, id))
  {
    hide NodeKept, Has, Shaped, Validated;
    if Shaped(h, id, CONFIG) {
      KeptScalars(g, h, id, Relaxed(h[id]));
      KeptValidated(g, h[id := Relaxed(h[id])], id, []);
    }
  }

  lemma KeptEndpoint(g: Graph, h: Graph, id: nat, rules: seq<Rule>)
    requires Kept(g, h) && Closed(g) && id in g
    ensures Kept(g, DecorateEndpoint(h, id, rules))
  {
    hide NodeKept, Has, Shaped, Validated, NoDefault;
    if Shaped(h, id, ENDPOINT) {
      var t := TypeField(h, id);
      if t.Some? {
        TypeFieldIsOld(g, h, id);
        KeptNoDefault(g, h, t.value);
        KeptValidated(g, h[t.value := NoDefault(h[t.value])], id, rules);
      } else {
        KeptValidated(g, h, id, rules);
      }
    }
  }

  lemma TypeFieldIsOld(g: Graph, h: Graph, id: nat)
    requires Kept(g, h) && Closed(g) && id in g
    ensures TypeField(h, id).Some? ==> TypeField(h, id).value in g
  {
    if TypeField(h, id).Some? {
      KeysApart();
      ChildKept(g, h, id, PROPERTIES);
      var p := Child(g[id], PROPERTIES);
      ChildIsTarget(g[id].children, PROPERTIES);
      ChildKept(g, h, p.value, TYPE);
      ChildIsTarget(g[p.value].children, TYPE);
    }
  }

  lemma KeptShape(g: Graph, h: Graph, id: nat, keys: seq<string>, rules: seq<Rule>)
    requires Kept(g, h) && id in g
    ensures Kept(g, DecorateShape(h, id, keys, rules))
  {
    hide NodeKept, Has, Shaped, Validated;
    if Shaped(h, id, keys) { KeptValidated(g, h, id, rules); }
  }

  /** A visit keeps the graph decorated. */
  lemma KeptDecorated(g: Graph, h: Graph, book: RuleBook, id: nat)
    requires Kept(g, h) && Closed(g) && id in h
    ensures Kept(g, Decorated(h, book, id))
  {
    if id in g {
      hide Kept, DecorateConfig, DecorateEndpoint, DecorateShape;
      KeptConfig(g, h, id);
      KeptEndpoint(g, DecorateConfig(h, id), id, book.endpoint);
      var endpoint := DecorateEndpoint(DecorateConfig(h, id), id, book.endpoint);
      KeptShape(g, endpoint, id, RUNTIME_SECTION, book.runtime);
      KeptShape(g, DecorateShape(endpoint, id, RUNTIME_SECTION, book.runtime), id, MULTIRUN, book.multirun);
    } else {
      RuleNodesStay(h, book, id);
    }
  }

  lemma RuleNodeIsLeaf(base: Graph, g: Graph, id: nat)
    requires Kept(base, g) && id in g && id !in base
    ensures g[id].children == []
  {}

  lemma RuleNodesStay(h: Graph, book: RuleBook, id: nat)
    requires id in h && h[id].children == []
    ensures Decorated(h, book, id) == h
  {}

  // ---------------------------------------------------------------------------------------------
  // Rules are attached and stay
  // ---------------------------------------------------------------------------------------------

  /** Rules stay, and only nodes of `open` gain edges. */
  ghost predicate Grows(g: Graph, h: Graph, open: set<nat>) {
    && g.Keys <= h.Keys
    && (forall id, text | id in g && HasRule(g, id, text) :: HasRule(h, id, text))
    && (forall id, e | id in g && id !in open && e in h[id].children :: e in g[id].children)
  }

  lemma GrowsThrough(g: Graph, h: Graph, k: Graph, open: set<nat>)
    requires Grows(g, h, open) && Grows(h, k, open)
    ensures Grows(g, k, open)
  {
    hide HasRule;
  }

  lemma GrowsByScalars(g: Graph, id: nat, d: Dict)
    requires id in g && d.children == g[id].children
    requires RULE in d.scalars <==> RULE in g[id].scalars
    requires RULE in d.scalars ==> d.scalars[RULE] == g[id].scalars[RULE]
    ensures Grows(g, g[id := d], {})
  {
    var h := g[id := d];
    forall v, text | v in g && HasRule(g, v, text) ensures HasRule(h, v, text) {
      var i :| 0 <= i < |g[v].children| && IsRule(g, g[v].children[i], text);
      assert IsRule(h, h[v].children[i], text);
    }
  }

  lemma GrowsByNoDefault(g: Graph, id: nat)
    requires id in g
    ensures Grows(g, g[id := NoDefault(g[id])], {})
  {
    KeysApart();
    assert VALIDATIONS != DEFAULT && RULE != DEFAULT by { assert |VALIDATIONS| == 24 && |DEFAULT| == 7 && |RULE| == 4; }
    var h := g[id := NoDefault(g[id])];
    forall e: Edge ensures e in h[id].children <==> e in g[id].children && e.key != DEFAULT {
      NoEdgeHas(g[id].children, DEFAULT, e);
    }
    forall v, text | v in g && HasRule(g, v, text) ensures HasRule(h, v, text) {
      var i :| 0 <= i < |g[v].children| && IsRule(g, g[v].children[i], text);
      var e := g[v].children[i];
      assert e in h[v].children && IsRule(h, e, text);
      var j :| 0 <= j < |h[v].children| && h[v].children[j] == e;
    }
  }

  lemma GrowsByRule(g: Graph, id: nat, rule: Rule)
    requires id in g
    ensures Grows(g, AddRule(g, id, rule), {id}) && HasRule(AddRule(g, id, rule), id, rule.text)
  {
    var h := AddRule(g, id, rule);
    forall v, text | v in g && HasRule(g, v, text) ensures HasRule(h, v, text) {
      var i :| 0 <= i < |g[v].children| && IsRule(g, g[v].children[i], text);
      assert IsRule(h, h[v].children[i], text);
    }
    if !HasRule(g, id, rule.text) {
      assert IsRule(h, h[id].children[|g[id].children|], rule.text);
    }
  }

  lemma {:induction false} GrowsByRules(g: Graph, id: nat, rules: seq<Rule>)
    requires id in g
    ensures var h := AddRules(g, id, rules); Grows(g, h, {id}) && HasRules(h, id, rules)
  {
    hide HasRule, AddRule, Grows;
    if rules == [] {
      GrowsNot(g, {id});
    } else {
      var front, last := rules[..|rules| - 1], rules[|rules| - 1];
      GrowsByRules(g, id, front);
      var middle := AddRules(g, id, front);
      GrowsByRule(middle, id, last);
      GrowsThrough(g, middle, AddRule(middle, id, last), {id});
      RulesStay(middle, AddRule(middle, id, last), {id}, id, front);
    }
  }

  lemma GrowsNot(g: Graph, open: set<nat>)
    ensures Grows(g, g, open)
  {}

  lemma RulesStay(g: Graph, h: Graph, open: set<nat>, id: nat, rules: seq<Rule>)
    requires Grows(g, h, open) && id in g && HasRules(g, id, rules)
    ensures HasRules(h, id, rules)
  {
    hide HasRule;
  }

  lemma {:induction false} NothingToAdd(g: Graph, id: nat, rules: seq<Rule>)
    requires id in g && HasRules(g, id, rules)
    ensures AddRules(g, id, rules) == g
  {
    hide HasRule;
    if rules != [] { NothingToAdd(g, id, rules[..|rules| - 1]); }
  }

  /** Fewer open nodes say more. */
  lemma GrowsMore(g: Graph, h: Graph, less: set<nat>, more: set<nat>)
    requires Grows(g, h, less) && less <= more
    ensures Grows(g, h, more)
  {
    hide HasRule;
  }

  /** Attaching rules leaves them there; if they were there already, no node gains an edge. */
  lemma GrowsByValidated(g: Graph, id: nat, rules: seq<Rule>)
    requires id in g
    ensures var h := Validated(g, id, rules);
      && id in h && HasRules(h, id, rules) && Grows(g, h, {id}) && (HasRules(g, id, rules) ==> Grows(g, h, {}))
  {
    hide HasRule, Grows, Has, AddRules;
    assert RULE != VALIDATIONS by { assert |RULE| == 4 && |VALIDATIONS| == 24; }
    var middle := g[id := WithBag(g[id])];
    GrowsByScalars(g, id, WithBag(g[id]));
    GrowsMore(g, middle, {}, {id});
    GrowsByRules(middle, id, rules);
    GrowsThrough(g, middle, AddRules(middle, id, rules), {id});
    if HasRules(g, id, rules) {
      RulesStay(g, middle, {}, id, rules);
      NothingToAdd(middle, id, rules);
    }
  }

  /** What a step of a visit does: the rules are attached, and if they were there already no node gains an edge. */
  ghost predicate Attaches(g: Graph, h: Graph, id: nat, rules: seq<Rule>) {
    id in g && id in h && HasRules(h, id, rules) && Grows(g, h, {id}) && (HasRules(g, id, rules) ==> Grows(g, h, {}))
  }

  lemma ConfigAttaches(g: Graph, id: nat)
    requires id in g
    ensures Attaches(g, DecorateConfig(g, id), id, [])
  {
    hide HasRule, Grows, Shaped, Validated, Has;
    if Shaped(g, id, CONFIG) {
      assert RULE != REQUIRED by { assert |RULE| == 4 && |REQUIRED| == 8; }
      var middle := g[id := Relaxed(g[id])];
      GrowsByScalars(g, id, Relaxed(g[id]));
      GrowsByValidated(middle, id, []);
      GrowsThrough(g, middle, Validated(middle, id, []), {});
      GrowsMore(g, Validated(middle, id, []), {}, {id});
    } else {
      GrowsNot(g, {});
      GrowsNot(g, {id});
    }
  }

  lemma EndpointAttaches(g: Graph, id: nat, rules: seq<Rule>)
    requires id in g
    ensures Attaches(g, DecorateEndpoint(g, id, rules), id, if Shaped(g, id, ENDPOINT) then rules else [])
  {
    hide HasRule, Grows, Shaped, Validated, Has, NoDefault;
    if Shaped(g, id, ENDPOINT) {
      var t := TypeField(g, id);
      var middle := if t.Some? then g[t.value := NoDefault(g[t.value])] else g;
      if t.Some? {
        TypeFieldIsThere(g, id);
        GrowsByNoDefault(g, t.value);
      } else {
        GrowsNot(g, {});
      }
      GrowsMore(g, middle, {}, {id});
      GrowsByValidated(middle, id, rules);
      GrowsThrough(g, middle, Validated(middle, id, rules), {id});
      if HasRules(g, id, rules) {
        RulesStay(g, middle, {}, id, rules);
        GrowsThrough(g, middle, Validated(middle, id, rules), {});
      }
    } else {
      GrowsNot(g, {});
      GrowsNot(g, {id});
    }
  }

  lemma TypeFieldIsThere(g: Graph, id: nat)
    requires id in g
    ensures TypeField(g, id).Some? ==> TypeField(g, id).value in g
  {}

  lemma ShapeAttaches(g: Graph, id: nat, keys: seq<string>, rules: seq<Rule>)
    requires id in g
    ensures Attaches(g, DecorateShape(g, id, keys, rules), id, if Shaped(g, id, keys) then rules else [])
  {
    hide HasRule, Grows, Shaped, Validated;
    if Shaped(g, id, keys) {
      GrowsByValidated(g, id, rules);
    } else {
      GrowsNot(g, {});
      GrowsNot(g, {id});
    }
  }

  lemma AttachBoth(g: Graph, h: Graph, k: Graph, id: nat, a: seq<Rule>, b: seq<Rule>)
    requires Attaches(g, h, id, a) && Attaches(h, k, id, b)
    ensures Attaches(g, k, id, a + b)
  {
    hide HasRule, Grows;
    GrowsThrough(g, h, k, {id});
    RulesStay(h, k, {id}, id, a);
    if HasRules(g, id, a + b) {
      forall i | 0 <= i < |a| ensures HasRule(g, id, a[i].text) { assert (a + b)[i] == a[i]; }
      forall i | 0 <= i < |b| ensures HasRule(g, id, b[i].text) { assert (a + b)[|a| + i] == b[i]; }
      RulesStay(g, h, {}, id, b);
      GrowsThrough(g, h, k, {});
    }
  }

  /** A visit attaches the rules of the node's shapes. */
  lemma VisitAttaches(base: Graph, g: Graph, book: RuleBook, id: nat)
    requires Kept(base, g) && Closed(base) && id in base
    ensures Attaches(g, Decorated(g, book, id), id, RulesFor(base, book, id))
  {
    hide Kept, HasRule, Grows, Shaped, DecorateConfig, DecorateEndpoint, DecorateShape, Closed;
    assert id in g by { KeptHas(base, g, id); }
    var config := DecorateConfig(g, id);
    ConfigAttaches(g, id);
    KeptConfig(base, g, id);
    var endpoint := DecorateEndpoint(config, id, book.endpoint);
    EndpointAttaches(config, id, book.endpoint);
    ShapeKept(base, config, id, ENDPOINT);
    KeptEndpoint(base, config, id, book.endpoint);
    var runtime := DecorateShape(endpoint, id, RUNTIME_SECTION, book.runtime);
    ShapeAttaches(endpoint, id, RUNTIME_SECTION, book.runtime);
    ShapeKept(base, endpoint, id, RUNTIME_SECTION);
    KeptShape(base, endpoint, id, RUNTIME_SECTION, book.runtime);
    ShapeAttaches(runtime, id, MULTIRUN, book.multirun);
    ShapeKept(base, runtime, id, MULTIRUN);
    var a := if Shaped(base, id, ENDPOINT) then book.endpoint else [];
    var b := if Shaped(base, id, RUNTIME_SECTION) then book.runtime else [];
    var c := if Shaped(base, id, MULTIRUN) then book.multirun else [];
    AttachBoth(g, config, endpoint, id, [], a);
    assert [] + a == a;
    AttachBoth(g, endpoint, runtime, id, a, b);
    AttachBoth(g, runtime, Decorated(g, book, id), id, a + b, c);
  }

  lemma KeptHas(base: Graph, g: Graph, id: nat)
    requires Kept(base, g) && id in base
    ensures id in g
  {}
}
