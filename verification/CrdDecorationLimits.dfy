/** What the decorating walk does not do: every change is one that the shapes of the undecorated graph call for. */
module CrdDecorationLimits {
  import opened Wrappers
  import opened CrdWalks
  import opened CrdDecoration
  import opened CrdDecorationProof

  lemma NamesApart()
    ensures REQUIRED != DEFAULT && REQUIRED != VALIDATIONS && DEFAULT != VALIDATIONS
  {
    assert |REQUIRED| == 8 && |DEFAULT| == 7 && |VALIDATIONS| == 24;
  }

  lemma LawfulSelf(base: Graph, book: RuleBook, g: Graph)
    requires base.Keys <= g.Keys
    ensures Lawful(base, book, g, g)
  {}

  lemma {:induction false} WithoutHas(names: seq<string>, drop: seq<string>, name: string)
    ensures name in Without(names, drop) <==> name in names && name !in drop
  {
    if names != [] {
      WithoutHas(names[..|names| - 1], drop, name);
      assert names == names[..|names| - 1] + [names[|names| - 1]];
    }
  }

  lemma {:induction false} WithoutNothing(names: seq<string>, drop: seq<string>)
    requires forall name | name in names :: name !in drop
    ensures Without(names, drop) == names
  {
    if names != [] {
      var front, last := names[..|names| - 1], names[|names| - 1];
      assert names == front + [last] && last in names;
      forall name | name in front ensures name !in drop { assert name in names; }
      WithoutNothing(front, drop);
    }
  }

  /** Relaxing a second time changes nothing. */
  lemma RelaxedTwice(d: Dict)
    ensures SameEntry(Relaxed(d), Relaxed(Relaxed(d)), REQUIRED)
  {
    if REQUIRED in d.scalars && d.scalars[REQUIRED].Names? {
      var left := Without(d.scalars[REQUIRED].names, RELAXABLE);
      forall name | name in left ensures name !in RELAXABLE {
        WithoutHas(d.scalars[REQUIRED].names, RELAXABLE, name);
      }
      WithoutNothing(left, RELAXABLE);
    }
  }

  lemma RelaxedAlike(d: Dict, e: Dict)
    requires SameEntry(d, e, REQUIRED)
    ensures SameEntry(Relaxed(d), Relaxed(e), REQUIRED)
  {}

  // ---------------------------------------------------------------------------------------------
  // One lawful change after another
  // ---------------------------------------------------------------------------------------------

  lemma DefaultStaysAway(base: Graph, book: RuleBook, g: Graph, h: Graph, id: nat)
    requires id in base && LawfulAt(base, book, g, h, id) && !Has(g[id], DEFAULT)
    ensures !Has(h[id], DEFAULT)
  {
    NamesApart();
    HasMeans(g[id], DEFAULT);
    HasMeans(h[id], DEFAULT);
  }

  lemma EntriesThrough(base: Graph, id: nat, d: Dict, e: Dict, f: Dict)
    requires id in base && EntriesLawful(base, id, d, e) && EntriesLawful(base, id, e, f)
    requires !Has(e, DEFAULT) ==> !Has(f, DEFAULT)
    ensures EntriesLawful(base, id, d, f)
  {
    hide Relaxed, Has, Shaped, IsTypeField, AnyShape;
    if SameEntry(Relaxed(e), f, REQUIRED) {
      if SameEntry(d, e, REQUIRED) {
        RelaxedAlike(d, e);
      } else {
        RelaxedAlike(Relaxed(d), e);
        RelaxedTwice(d);
      }
    }
  }

  lemma LawfulAtThrough(base: Graph, book: RuleBook, g: Graph, h: Graph, k: Graph, id: nat)
    requires id in base && Lawful(base, book, g, h) && Lawful(base, book, h, k)
    ensures LawfulAt(base, book, g, k, id)
  {
    hide EntriesLawful, Has, IsTypeField, RulesFor;
    assert LawfulAt(base, book, g, h, id) && LawfulAt(base, book, h, k, id);
    if !Has(h[id], DEFAULT) { DefaultStaysAway(base, book, h, k, id); }
    EntriesThrough(base, id, g[id], h[id], k[id]);
    forall e | e in k[id].children && e !in g[id].children ensures IsNewRule(base, book, k, id, e) {
      if e in h[id].children { assert IsNewRule(base, book, h, id, e) && k[e.target] == h[e.target]; }
    }
  }

  lemma LawfulThrough(base: Graph, book: RuleBook, g: Graph, h: Graph, k: Graph)
    requires Lawful(base, book, g, h) && Lawful(base, book, h, k)
    ensures Lawful(base, book, g, k)
  {
    hide LawfulAt;
    forall id | id in base ensures LawfulAt(base, book, g, k, id) { LawfulAtThrough(base, book, g, h, k, id); }
  }

  /** Changing one original node. */
  lemma LawfulOne(base: Graph, book: RuleBook, g: Graph, id: nat, d: Dict)
    requires base.Keys <= g.Keys && id in base && LawfulAt(base, book, g, g[id := d], id)
    ensures Lawful(base, book, g, g[id := d])
  {
    hide Has;
    forall x | x in base ensures LawfulAt(base, book, g, g[id := d], x) {}
  }

  // ---------------------------------------------------------------------------------------------
  // The changes of one visit
  // ---------------------------------------------------------------------------------------------

  lemma LawfulRelaxed(base: Graph, book: RuleBook, g: Graph, id: nat)
    requires base.Keys <= g.Keys && id in base && Shaped(base, id, CONFIG)
    ensures Lawful(base, book, g, g[id := Relaxed(g[id])])
  {
    NamesApart();
    LawfulOne(base, book, g, id, Relaxed(g[id]));
  }

  lemma LawfulBag(base: Graph, book: RuleBook, g: Graph, id: nat)
    requires base.Keys <= g.Keys && id in base && AnyShape(base, id)
    ensures Lawful(base, book, g, g[id := WithBag(g[id])])
  {
    NamesApart();
    hide Shaped;
    LawfulOne(base, book, g, id, WithBag(g[id]));
  }

  lemma LawfulNoDefault(base: Graph, book: RuleBook, g: Graph, t: nat)
    requires base.Keys <= g.Keys && t in base && IsTypeField(base, t)
    ensures Lawful(base, book, g, g[t := NoDefault(g[t])])
  {
    NamesApart();
    hide IsTypeField, NoDefault, Has;
    var d := NoDefault(g[t]);
    NoDefaultHas(g[t]);
    LawfulOne(base, book, g, t, d);
  }

  lemma NoDefaultHas(d: Dict)
    ensures !Has(NoDefault(d), DEFAULT) && NoDefault(d).scalars == d.scalars - {DEFAULT}
    ensures forall e: Edge :: e in NoDefault(d).children <==> e in d.children && e.key != DEFAULT
  {
    forall e: Edge ensures e in NoDefault(d).children <==> e in d.children && e.key != DEFAULT {
      NoEdgeHas(d.children, DEFAULT, e);
    }
    HasMeans(NoDefault(d), DEFAULT);
  }

  lemma LawfulRule(base: Graph, book: RuleBook, g: Graph, id: nat, rule: Rule)
    requires base.Keys <= g.Keys && id in base && rule in RulesFor(base, book, id)
    ensures Lawful(base, book, g, AddRule(g, id, rule))
  {
    hide HasRule, RulesFor, Has, Shaped;
    var h := AddRule(g, id, rule);
    if HasRule(g, id, rule.text) {
      LawfulSelf(base, book, g);
    } else {
      var spare := Unused(g, 0);
      assert h[spare] == RuleNode(rule);
      forall e | e in h[id].children && e !in g[id].children ensures IsNewRule(base, book, h, id, e) {
        assert e == Edge(VALIDATIONS, spare);
      }
    }
  }

  lemma {:induction false} LawfulRules(base: Graph, book: RuleBook, g: Graph, id: nat, rules: seq<Rule>)
    requires base.Keys <= g.Keys && id in base && forall rule | rule in rules :: rule in RulesFor(base, book, id)
    ensures Lawful(base, book, g, AddRules(g, id, rules))
  {
    hide Lawful, RulesFor, AddRule;
    if rules == [] {
      LawfulSelf(base, book, g);
    } else {
      var front := rules[..|rules| - 1];
      LawfulRules(base, book, g, id, front);
      var middle := AddRules(g, id, front);
      LawfulKeys(base, book, g, middle);
      LawfulRule(base, book, middle, id, rules[|rules| - 1]);
      LawfulThrough(base, book, g, middle, AddRules(g, id, rules));
    }
  }

  lemma LawfulKeys(base: Graph, book: RuleBook, g: Graph, h: Graph)
    requires Lawful(base, book, g, h)
    ensures base.Keys <= g.Keys <= h.Keys
  {}

  lemma LawfulValidated(base: Graph, book: RuleBook, g: Graph, id: nat, rules: seq<Rule>)
    requires base.Keys <= g.Keys && id in base && AnyShape(base, id)
    requires forall rule | rule in rules :: rule in RulesFor(base, book, id)
    ensures var h := Validated(g, id, rules); Lawful(base, book, g, h) && id in h
  {
    hide Lawful, RulesFor, AddRules, WithBag, AnyShape;
    LawfulBag(base, book, g, id);
    LawfulRules(base, book, g[id := WithBag(g[id])], id, rules);
    LawfulThrough(base, book, g, g[id := WithBag(g[id])], Validated(g, id, rules));
  }

  lemma RelaxedIsTrimmed(d: Dict)
    ensures RequiresLittle(Relaxed(d))
  {
    if REQUIRED in d.scalars && d.scalars[REQUIRED].Names? {
      forall name | name in RELAXABLE ensures name !in Without(d.scalars[REQUIRED].names, RELAXABLE) {
        WithoutHas(d.scalars[REQUIRED].names, RELAXABLE, name);
      }
    }
  }

  lemma LittleStays(base: Graph, book: RuleBook, g: Graph, h: Graph, id: nat)
    requires id in base && Lawful(base, book, g, h) && RequiresLittle(g[id])
    ensures id in h && RequiresLittle(h[id])
  {
    hide Has, Shaped, Relaxed, IsTypeField;
    assert LawfulAt(base, book, g, h, id);
    RelaxedIsTrimmed(g[id]);
  }

  lemma OpenStays(base: Graph, book: RuleBook, g: Graph, h: Graph, id: nat)
    requires id in base && Lawful(base, book, g, h) && TypeIsOpen(base, g, id)
    requires TypeField(base, id).Some? ==> TypeField(base, id).value in base
    ensures TypeIsOpen(base, h, id)
  {
    hide TypeField, Has, LawfulAt;
    if TypeField(base, id).Some? {
      var t := TypeField(base, id).value;
      assert LawfulAt(base, book, g, h, t);
      DefaultStaysAway(base, book, g, h, t);
    }
  }

  /** What is trimmed stays trimmed. */
  lemma TrimmedStays(base: Graph, book: RuleBook, g: Graph, h: Graph, id: nat)
    requires id in base && Lawful(base, book, g, h) && Closed(base) && Trimmed(base, g, id)
    ensures id in h && Trimmed(base, h, id)
  {
    hide TypeIsOpen, RequiresLittle, Shaped, LawfulAt;
    TypeFieldIsClosed(base, id);
    if Shaped(base, id, CONFIG) { LittleStays(base, book, g, h, id); }
    if Shaped(base, id, ENDPOINT) { OpenStays(base, book, g, h, id); }
  }

  lemma TypeFieldIsClosed(base: Graph, id: nat)
    requires Closed(base) && id in base
    ensures TypeField(base, id).Some? ==> TypeField(base, id).value in base
  {}

  // ---------------------------------------------------------------------------------------------
  // One visit
  // ---------------------------------------------------------------------------------------------

  lemma SameTypeField(base: Graph, g: Graph, id: nat)
    requires Kept(base, g) && Closed(base) && id in base
    ensures id in g && TypeField(g, id) == TypeField(base, id)
  {
    KeysApart();
    ChildKept(base, g, id, PROPERTIES);
    var p := Child(base[id], PROPERTIES);
    if p.Some? {
      ChildIsTarget(base[id].children, PROPERTIES);
      ChildKept(base, g, p.value, TYPE);
      if Child(base[p.value], TYPE).Some? { ChildIsTarget(base[p.value].children, TYPE); }
    }
  }

  lemma LawfulConfig(base: Graph, book: RuleBook, g: Graph, id: nat)
    requires Kept(base, g) && Closed(base) && id in base
    ensures var h := DecorateConfig(g, id);
      Lawful(base, book, g, h) && id in h && (Shaped(base, id, CONFIG) ==> RequiresLittle(h[id]))
  {
    hide Kept, Closed, Lawful, Shaped, Relaxed, Validated;
    KeptKeys(base, g);
    ShapeKept(base, g, id, CONFIG);
    if Shaped(g, id, CONFIG) {
      LawfulRelaxed(base, book, g, id);
      var middle := g[id := Relaxed(g[id])];
      LawfulValidated(base, book, middle, id, []);
      LawfulThrough(base, book, g, middle, Validated(middle, id, []));
      RelaxedIsTrimmed(g[id]);
      LittleStays(base, book, middle, Validated(middle, id, []), id);
    } else {
      LawfulSelf(base, book, g);
    }
  }

  lemma KeptKeys(base: Graph, g: Graph)
    requires Kept(base, g)
    ensures base.Keys <= g.Keys
  {}

  lemma LawfulEndpoint(base: Graph, book: RuleBook, g: Graph, id: nat)
    requires Kept(base, g) && Closed(base) && id in base
    ensures var h := DecorateEndpoint(g, id, book.endpoint);
      Lawful(base, book, g, h) && id in h && (Shaped(base, id, ENDPOINT) ==> TypeIsOpen(base, h, id))
  {
    hide Kept, Closed, Lawful, Shaped, NoDefault, Validated, TypeField;
    KeptKeys(base, g);
    ShapeKept(base, g, id, ENDPOINT);
    LawfulSelf(base, book, g);
    if Shaped(g, id, ENDPOINT) {
      SameTypeField(base, g, id);
      TypeFieldIsClosed(base, id);
      var t := TypeField(g, id);
      var middle := if t.Some? then g[t.value := NoDefault(g[t.value])] else g;
      if t.Some? {
        LawfulNoDefault(base, book, g, t.value);
        NoDefaultHas(g[t.value]);
      }
      LawfulValidated(base, book, middle, id, book.endpoint);
      LawfulThrough(base, book, g, middle, Validated(middle, id, book.endpoint));
      OpenStays(base, book, middle, Validated(middle, id, book.endpoint), id);
    }
  }

  lemma LawfulShape(base: Graph, book: RuleBook, g: Graph, id: nat, keys: seq<string>, rules: seq<Rule>)
    requires Kept(base, g) && Closed(base) && id in base
    requires (keys == RUNTIME_SECTION && rules == book.runtime) || (keys == MULTIRUN && rules == book.multirun)
    ensures var h := DecorateShape(g, id, keys, rules); Lawful(base, book, g, h) && id in h
  {
    hide Kept, Closed, Lawful, Shaped, Validated;
    KeptKeys(base, g);
    ShapeKept(base, g, id, keys);
    LawfulSelf(base, book, g);
    if Shaped(g, id, keys) { LawfulValidated(base, book, g, id, rules); }
  }

  /** A visit changes only what the shapes of the undecorated graph call for, and leaves the node trimmed. */
  lemma VisitIsLawful(base: Graph, book: RuleBook, g: Graph, id: nat)
    requires Kept(base, g) && Closed(base) && id in g
    ensures var h := Decorated(g, book, id);
      Lawful(base, book, g, h) && (id in base ==> id in h && Trimmed(base, h, id))
  {
    hide Kept, Closed, Lawful, Shaped, TypeIsOpen, RequiresLittle, DecorateConfig, DecorateEndpoint, DecorateShape;
    KeptKeys(base, g);
    if id in base {
      var config := DecorateConfig(g, id);
      LawfulConfig(base, book, g, id);
      KeptConfig(base, g, id);
      var endpoint := DecorateEndpoint(config, id, book.endpoint);
      LawfulEndpoint(base, book, config, id);
      KeptEndpoint(base, config, id, book.endpoint);
      var runtime := DecorateShape(endpoint, id, RUNTIME_SECTION, book.runtime);
      LawfulShape(base, book, endpoint, id, RUNTIME_SECTION, book.runtime);
      KeptShape(base, endpoint, id, RUNTIME_SECTION, book.runtime);
      LawfulShape(base, book, runtime, id, MULTIRUN, book.multirun);
      LawfulThrough(base, book, g, config, endpoint);
      LawfulThrough(base, book, g, endpoint, runtime);
      LawfulThrough(base, book, g, runtime, Decorated(g, book, id));
      if Shaped(base, id, CONFIG) { LittleStays(base, book, config, endpoint, id); }
      assert Trimmed(base, endpoint, id);
      TrimmedStays(base, book, endpoint, runtime, id);
      TrimmedStays(base, book, runtime, Decorated(g, book, id), id);
    } else {
      RuleNodeIsLeaf(base, g, id);
      RuleNodesStay(g, book, id);
      LawfulSelf(base, book, g);
    }
  }

  // ---------------------------------------------------------------------------------------------
  // The answers spelled out
  // ---------------------------------------------------------------------------------------------

  /** The node's properties have the key. */
  predicate HasProperty(g: Graph, id: nat, key: string)
    requires id in g
  {
    var p := Child(g[id], "properties"); p.Some? && p.value in g && Has(g[p.value], key)
  }

  /** By which properties the four shapes are recognised. */
  lemma ShapesExactly(g: Graph, id: nat)
    requires id in g
    ensures Shaped(g, id, CONFIG) <==>
            HasProperty(g, id, "model") && HasProperty(g, id, "dataset") && HasProperty(g, id, "warmup") &&
            HasProperty(g, id, "profiling")
    ensures Shaped(g, id, ENDPOINT) <==>
            HasProperty(g, id, "urls") && HasProperty(g, id, "apiKey") && HasProperty(g, id, "connectionReuse")
    ensures Shaped(g, id, RUNTIME_SECTION) <==>
            HasProperty(g, id, "apiPort") && HasProperty(g, id, "apiHost") && HasProperty(g, id, "workersPerPod")
    ensures Shaped(g, id, MULTIRUN) <==> HasProperty(g, id, "numRuns") && HasProperty(g, id, "convergence")
  {
    hide Has;
    var p := Child(g[id], PROPERTIES);
    if p.Some? && p.value in g {
      var d := g[p.value];
      AllOf4(d, "model", "dataset", "warmup", "profiling");
      AllOf3(d, "urls", "apiKey", "connectionReuse");
      AllOf3(d, "apiPort", "apiHost", "workersPerPod");
      AllOf2(d, "numRuns", "convergence");
    }
  }

  lemma AllOf2(d: Dict, a: string, b: string)
    ensures HasAll(d, [a, b]) <==> Has(d, a) && Has(d, b)
  {
    hide Has;
    assert [a, b][0] == a && [a, b][1] == b;
  }

  lemma AllOf3(d: Dict, a: string, b: string, c: string)
    ensures HasAll(d, [a, b, c]) <==> Has(d, a) && Has(d, b) && Has(d, c)
  {
    hide Has;
    assert [a, b, c][0] == a && [a, b, c][1] == b && [a, b, c][2] == c;
  }

  lemma AllOf4(d: Dict, a: string, b: string, c: string, e: string)
    ensures HasAll(d, [a, b, c, e]) <==> Has(d, a) && Has(d, b) && Has(d, c) && Has(d, e)
  {
    hide Has;
    assert [a, b, c, e][0] == a && [a, b, c, e][1] == b && [a, b, c, e][2] == c && [a, b, c, e][3] == e;
  }

  /** The rules of an endpoint, a runtime section and a multi-run node, in this order. */
  lemma RulesExactly(g: Graph, book: RuleBook, id: nat, rule: Rule)
    requires id in g
    ensures rule in RulesFor(g, book, id) <==>
            || (Shaped(g, id, ENDPOINT) && rule in book.endpoint)
            || (Shaped(g, id, RUNTIME_SECTION) && rule in book.runtime)
            || (Shaped(g, id, MULTIRUN) && rule in book.multirun)
  {
    hide Shaped;
  }

  /** A rule is attached, in a new node with its text and message behind the others, unless its text is there. */
  lemma AddRuleExactly(g: Graph, id: nat, rule: Rule)
    requires id in g
    ensures var h := AddRule(g, id, rule);
      && (HasRule(g, id, rule.text) ==> h == g)
      && (!HasRule(g, id, rule.text) ==>
            exists spare :: spare !in g &&
              h == g[spare := Dict(map["rule" := Text(rule.text), "message" := Text(rule.message)], [])]
                    [id := g[id].(children := g[id].children + [Edge("x-kubernetes-validations", spare)])])
  {
    hide HasRule;
    assert Unused(g, 0) !in g;
  }

  lemma AddRulesInOrder(g: Graph, id: nat, rules: seq<Rule>, rule: Rule)
    requires id in g
    ensures AddRules(g, id, []) == g && AddRules(g, id, rules + [rule]) == AddRule(AddRules(g, id, rules), id, rule)
  {
    hide AddRule;
    assert (rules + [rule])[..|rules|] == rules;
  }

  /** A configuration requires what it required, but for the three names that have a shorthand, in order; nothing at all
      if that is all it required. */
  lemma RelaxedExactly(d: Dict)
    ensures REQUIRED !in d.scalars || !d.scalars[REQUIRED].Names? ==> Relaxed(d) == d
    ensures REQUIRED in d.scalars && d.scalars[REQUIRED].Names? ==>
              var left := Without(d.scalars[REQUIRED].names, ["models", "datasets", "phases"]);
              Relaxed(d) == d.(scalars := if left == [] then d.scalars - {"required"}
                                          else d.scalars["required" := Names(left)])
  {}

  lemma {:induction false} WithoutExactly(a: seq<string>, b: seq<string>, drop: seq<string>)
    ensures Without([], drop) == [] && Without(a + b, drop) == Without(a, drop) + Without(b, drop)
  {
    if b == [] {
      assert a + b == a;
    } else {
      assert (a + b)[..|a + b| - 1] == a + b[..|b| - 1];
      WithoutExactly(a, b[..|b| - 1], drop);
    }
  }

  lemma WithoutOne(name: string, drop: seq<string>)
    ensures Without([name], drop) == if name in drop then [] else [name]
  {
    assert [name][..0] == [];
  }
}
