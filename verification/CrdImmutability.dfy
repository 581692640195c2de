/** Freezing workload spec fields: transition rules per field, de-duplicated by their text. */
module CrdImmutability {
  import opened Wrappers


  type Spec<V> = map<string, V>

  /** A CEL rule: its text and message. */
  datatype Rule = Rule(text: string, message: string)

  // ---------------------------------------------------------------------------------------------
  // Rules
  // ---------------------------------------------------------------------------------------------

  /** The part of CEL the rules are written in. `earlier` says which of the two objects is meant. */
  datatype Cel =
    | Has(earlier: bool, field: string)
    | SameField(field: string)
    | SamePresence(left: Cel, right: Cel)
    | Not(expr: Cel)
    | And(left: Cel, right: Cel)
    | Or(left: Cel, right: Cel)

  function Object(earlier: bool): string { if earlier then "oldSelf." else "self." }

  function Render(e: Cel): string {
    match e
    case Has(earlier, f) => "has(" + Object(earlier) + f + ")"
    case SameField(f) => Object(true) + f + " == " + Object(false) + f
    case SamePresence(l, r) => Render(l) + " == " + Render(r)
    case Not(x) => "!" + Render(x)
    case And(l, r) => Render(l) + " && (" + Render(r) + ")"
    case Or(l, r) => Render(l) + " || " + Render(r)
  }

  /** The value of a rule on an update; `None` is the evaluation error of selecting an absent field. */
  ghost function Eval<V>(e: Cel, before: Spec<V>, after: Spec<V>): Option<bool> {
    match e
    case Has(earlier, f) => Some(if earlier then f in before else f in after)
    case SameField(f) => if f in before && f in after then Some(before[f] == after[f]) else None
    case SamePresence(l, r) =>
      (match (Eval(l, before, after), Eval(r, before, after))
       case (Some(x), Some(y)) => Some(x == y)
       case _ => None)
    case Not(x) => (match Eval(x, before, after) case Some(v) => Some(!v) case None => None)
    case And(l, r) => if Eval(l, before, after) == Some(true) then Eval(r, before, after) else Eval(l, before, after)
    case Or(l, r) => if Eval(l, before, after) == Some(false) then Eval(r, before, after) else Eval(l, before, after)
  }

  /** The rule for one field. */
  function FieldCel(field: string): Cel {
    And(SamePresence(Has(true, field), Has(false, field)), Or(Not(Has(false, field)), SameField(field)))
  }

  /** `_immutable_spec_field_rule`. */
  function FieldRule(field: string): string { Render(FieldCel(field)) }

  /** The field keeps its presence, and its value if present. */
  ghost predicate Keeps<V>(field: string, before: Spec<V>, after: Spec<V>) {
    (field in before <==> field in after) && (field in after ==> field in before && before[field] == after[field])
  }

  /** The rule never errors, and holds exactly of the updates that keep the field. */
  lemma FieldRuleMeans<V>(field: string, before: Spec<V>, after: Spec<V>)
    ensures Eval(FieldCel(field), before, after) == Some(Keeps(field, before, after))
  {
    assert Eval(Has(true, field), before, after) == Some(field in before);
    assert Eval(Has(false, field), before, after) == Some(field in after);
    assert Eval(SamePresence(Has(true, field), Has(false, field)), before, after)
        == Some((field in before) == (field in after));
    assert Eval(Not(Has(false, field)), before, after) == Some(field !in after);
    assert Eval(SameField(field), before, after) ==
           if field in before && field in after then Some(before[field] == after[field]) else None;
    assert Eval(Or(Not(Has(false, field)), SameField(field)), before, after) ==
           if field in after then Eval(SameField(field), before, after) else Some(true);
  }

  const HEAD := "has(oldSelf."

  /** The rule starts by spelling the name out, and its length tells the name's length. */
  lemma FieldRuleText(field: string) returns (rest: string)
    ensures FieldRule(field) == HEAD + field + rest
    ensures |FieldRule(field)| == |HEAD| + |") == has(self.) && (!has(self.) || oldSelf. == self.)"| + 5 * |field|
  {
    hide *;
    var rhs := Or(Not(Has(false, field)), SameField(field));
    rest := PresenceText(field);
    RhsLength(field);
    RuleParts(field);
    rest := rest + " && (" + Render(rhs) + ")";
  }

  lemma RuleParts(field: string)
    ensures FieldRule(field) == Render(SamePresence(Has(true, field), Has(false, field))) +
                                " && (" + Render(Or(Not(Has(false, field)), SameField(field))) + ")"
  {}

  lemma PresenceText(field: string) returns (rest: string)
    ensures Render(SamePresence(Has(true, field), Has(false, field))) == HEAD + field + rest
    ensures |rest| == |") == has(self.)"| + |field|
  {
    assert Render(Has(true, field)) == HEAD + field + ")";
    assert Render(Has(false, field)) == "has(self." + field + ")";
    rest := ") == " + "has(self." + field + ")";
  }

  lemma RhsLength(field: string)
    ensures |Render(Or(Not(Has(false, field)), SameField(field)))| == |"!has(self.) || oldSelf. == self."| + 3 * |field|
  {
    assert Render(Has(false, field)) == "has(self." + field + ")";
    assert Render(Not(Has(false, field))) == "!" + Render(Has(false, field));
    assert Render(SameField(field)) == "oldSelf." + field + " == " + "self." + field;
  }

  /** Different fields have different rules: a longer name has a longer rule, and the rule spells the name out. */
  lemma FieldRuleIsInjective(f: string, g: string)
    requires FieldRule(f) == FieldRule(g)
    ensures f == g
  {
    var restF := FieldRuleText(f);
    var restG := FieldRuleText(g);
    assert |f| == |g|;
    assert (HEAD + f + restF)[|HEAD|..|HEAD| + |f|] == f;
    assert (HEAD + g + restG)[|HEAD|..|HEAD| + |g|] == g;
  }

  predicate HasText(bag: seq<Rule>, text: string) { exists i | 0 <= i < |bag| :: bag[i].text == text }

  /** The rules of `rules` that `bag` does not have yet, each text once, appended in order. */
  function Added(bag: seq<Rule>, rules: seq<Rule>): seq<Rule> {
    if rules == [] then bag
    else
      var before := Added(bag, rules[..|rules| - 1]);
      if HasText(before, rules[|rules| - 1].text) then before else before + [rules[|rules| - 1]]
  }

  datatype Result<+T> = Ok(value: T) | ValueError(missing: set<string>) | NoProperties

  function Names(fields: seq<string>): set<string> { set f | f in fields }

  class SpecNode {
    /** The declared fields in order, if there is a `properties` dictionary. */
    const properties: Option<seq<string>>
    var validations: seq<Rule>

    constructor (properties: Option<seq<string>>, validations: seq<Rule>)
      ensures this.properties == properties && this.validations == validations
    {
      this.properties := properties;
      this.validations := validations;
    }

    /** `_add_validation_rules`. */
    method AddValidationRules(rules: seq<Rule>)
      modifies this
      ensures validations == Added(old(validations), rules)
    {
      var existing := set i | 0 <= i < |validations| :: validations[i].text;
      for n := 0 to |rules|
        invariant validations == Added(old(validations), rules[..n])
        invariant forall text :: text in existing <==> HasText(validations, text)
      {
        assert rules[..n + 1][..n] == rules[..n];
        if rules[n].text !in existing {
          AppendText(validations, rules[n]);
          validations := validations + [rules[n]];
          existing := existing + {rules[n].text};
        }
      }
      assert rules[..|rules|] == rules;
    }

    /** `_apply_workload_spec_immutability`. */
    method Freeze(kind: string, mutable: set<string>) returns (result: Result<()>)
      modifies this
      ensures properties.None? ==> result == NoProperties
      ensures properties.Some? && mutable <= Names(properties.value) ==> result == Ok(())
      ensures properties.Some? && !(mutable <= Names(properties.value)) ==>
                result == ValueError(mutable - Names(properties.value))
      ensures !result.Ok? ==> validations == old(validations)
      ensures result.Ok? ==> validations == Added(old(validations), FieldRules(properties.value, mutable, kind))
    {
      if properties.None? {
        return NoProperties;
      }
      var unknown := mutable - Names(properties.value);
      if unknown != {} {
        return ValueError(unknown);
      }
      forall f | f in mutable ensures f in Names(properties.value) {
        assert f !in Names(properties.value) ==> f in unknown;
      }
      AddValidationRules(FieldRules(properties.value, mutable, kind));
      result := Ok(());
    }
  }

  lemma AppendText(bag: seq<Rule>, r: Rule)
    ensures forall text :: HasText(bag + [r], text) <==> HasText(bag, text) || text == r.text
  {
    forall text ensures HasText(bag + [r], text) <==> HasText(bag, text) || text == r.text {
      if HasText(bag, text) {
        var i :| 0 <= i < |bag| && bag[i].text == text;
        assert (bag + [r])[i].text == text;
      }
      if text == r.text { assert (bag + [r])[|bag|].text == text; }
    }
  }

  function Message(field: string, kind: string): string {
    "spec." + field + " is immutable after creation; create a new " + kind + " to change it"
  }

  /** One rule per declared field outside the mutable set, in order. */
  function FieldRules(properties: seq<string>, mutable: set<string>, kind: string): seq<Rule> {
    if properties == [] then []
    else
      var last := properties[|properties| - 1];
      var before := FieldRules(properties[..|properties| - 1], mutable, kind);
      if last in mutable then before else before + [Rule(FieldRule(last), Message(last, kind))]
  }

  // ---------------------------------------------------------------------------------------------
  // De-duplication loses nothing
  // ---------------------------------------------------------------------------------------------

  lemma {:induction false} AddedHas(bag: seq<Rule>, rules: seq<Rule>, text: string)
    ensures HasText(Added(bag, rules), text) <==> HasText(bag, text) || HasText(rules, text)
  {
    if rules != [] {
      var front, last := rules[..|rules| - 1], rules[|rules| - 1];
      AddedHas(bag, front, text);
      AppendText(front, last);
      AppendText(Added(bag, front), last);
      assert rules == front + [last];
    }
  }

  lemma {:induction false} FieldRulesHave(properties: seq<string>, mutable: set<string>, kind: string, field: string)
    ensures HasText(FieldRules(properties, mutable, kind), FieldRule(field)) <==> field in properties && field !in mutable
  {
    if properties == [] {
    } else {
      var front, last := properties[..|properties| - 1], properties[|properties| - 1];
      FieldRulesHave(front, mutable, kind, field);
      AppendText(FieldRules(front, mutable, kind), Rule(FieldRule(last), Message(last, kind)));
      assert properties == front + [last];
      if FieldRule(last) == FieldRule(field) { FieldRuleIsInjective(last, field); }
    }
  }

  // ---------------------------------------------------------------------------------------------
  // Updates
  // ---------------------------------------------------------------------------------------------

  /** What the rules of other passes say about an update, by their text. */
  type Others<!V> = (string, Spec<V>, Spec<V>) -> bool

  predicate IsFieldRule(text: string, field: string) { text == FieldRule(field) }

  /** A rule holds of an update: a field rule by its own meaning, any other by the oracle. */
  ghost predicate RuleHolds<V>(others: Others<V>, text: string, before: Spec<V>, after: Spec<V>) {
    && (forall field: string | IsFieldRule(text, field) :: Eval(FieldCel(field), before, after) == Some(true))
    && ((forall field: string :: !IsFieldRule(text, field)) ==> others(text, before, after))
  }

  /** All rules of the node admit the update. */
  ghost predicate Admits<V>(others: Others<V>, validations: seq<Rule>, before: Spec<V>, after: Spec<V>) {
    forall text: string | HasText(validations, text) :: RuleHolds(others, text, before, after)
  }

  /** The update keeps every declared field outside the mutable set. */
  ghost predicate KeepsFrozen<V>(properties: seq<string>, mutable: set<string>, before: Spec<V>, after: Spec<V>) {
    forall field | field in properties && field !in mutable :: Keeps(field, before, after)
  }

  lemma FieldRuleHolds<V>(others: Others<V>, field: string, before: Spec<V>, after: Spec<V>)
    ensures RuleHolds(others, FieldRule(field), before, after) <==> Keeps(field, before, after)
  {
    hide FieldRule, FieldCel, Keeps, Eval;
    assert IsFieldRule(FieldRule(field), field);
    forall other: string | IsFieldRule(FieldRule(field), other) ensures other == field {
      FieldRuleIsInjective(field, other);
    }
    FieldRuleMeans(field, before, after);
  }

  /** The generated rules are field rules. */
  lemma {:induction false} OnlyFieldRules(properties: seq<string>, mutable: set<string>, kind: string, text: string)
    returns (field: string)
    requires HasText(FieldRules(properties, mutable, kind), text)
    ensures text == FieldRule(field) && field in properties && field !in mutable
  {
    var front, last := properties[..|properties| - 1], properties[|properties| - 1];
    assert properties == front + [last];
    if last !in mutable {
      AppendText(FieldRules(front, mutable, kind), Rule(FieldRule(last), Message(last, kind)));
    }
    if last !in mutable && text == FieldRule(last) {
      field := last;
    } else {
      field := OnlyFieldRules(front, mutable, kind, text);
    }
  }

  /** Freezing a node makes it admit exactly the updates it admitted before, by all its rules, that also agree on every
      declared field outside the mutable set. */
  lemma AdmitsExactly<V>(others: Others<V>, bag: seq<Rule>, properties: seq<string>, mutable: set<string>, kind: string,
                         before: Spec<V>, after: Spec<V>)
    ensures Admits(others, Added(bag, FieldRules(properties, mutable, kind)), before, after) <==>
            Admits(others, bag, before, after) && KeepsFrozen(properties, mutable, before, after)
  {
    hide HasText, RuleHolds, FieldRule, Keeps, Added, FieldRules;
    var rules := FieldRules(properties, mutable, kind);
    forall text: string ensures HasText(Added(bag, rules), text) <==> HasText(bag, text) || HasText(rules, text) {
      AddedHas(bag, rules, text);
    }
    forall field | field in properties && field !in mutable
      ensures HasText(rules, FieldRule(field))
      ensures RuleHolds(others, FieldRule(field), before, after) <==> Keeps(field, before, after)
    {
      FieldRulesHave(properties, mutable, kind, field);
      FieldRuleHolds(others, field, before, after);
    }
    forall text: string | HasText(rules, text) && KeepsFrozen(properties, mutable, before, after)
      ensures RuleHolds(others, text, before, after)
    {
      var field := OnlyFieldRules(properties, mutable, kind, text);
    }
  }

  /** Every step of the history was admitted. */
  ghost predicate Admitted<V>(others: Others<V>, validations: seq<Rule>, history: seq<Spec<V>>) {
    forall i | 0 <= i < |history| - 1 :: Admits(others, validations, history[i], history[i + 1])
  }

  /** Over every run of admitted updates a frozen field keeps the presence and value it had at creation. */
  lemma {:induction false} FrozenForever<V>(others: Others<V>, bag: seq<Rule>, properties: seq<string>,
                                            mutable: set<string>, kind: string, history: seq<Spec<V>>, n: nat,
                                            field: string)
    requires Admitted(others, Added(bag, FieldRules(properties, mutable, kind)), history)
    requires n < |history| && field in properties && field !in mutable
    ensures Keeps(field, history[0], history[n])
  {
    if n > 0 {
      FrozenForever(others, bag, properties, mutable, kind, history, n - 1, field);
      assert Admits(others, Added(bag, FieldRules(properties, mutable, kind)), history[n - 1], history[n - 1 + 1]);
      AdmitsExactly(others, bag, properties, mutable, kind, history[n - 1], history[n]);
    }
  }

  // ---------------------------------------------------------------------------------------------
  // The answers spelled out
  // ---------------------------------------------------------------------------------------------

  /** The text of the rule for one field. */
  lemma FieldRuleExactly(field: string)
    ensures FieldRule(field) ==
            "has(oldSelf." + field + ") == has(self." + field + ") && (!has(self." + field + ") || oldSelf." + field +
            " == self." + field + ")"
  {
    hide *;
    RuleParts(field);
    LeftText(field);
    RightText(field);
    Glue(field, "has(oldSelf.", ") == has(self.", ")", " && (", "!has(self.", ") || oldSelf.", " == self.", ")");
    assert ")" + " && (" + "!has(self." == ") && (!has(self.";
  }

  lemma Glue(f: string, a: string, b: string, c: string, and': string, d: string, e: string, g: string, h: string)
    ensures (a + f + b + f + c) + and' + (d + f + e + f + g + f) + h ==
            a + f + b + f + (c + and' + d) + f + e + f + g + f + h
  {}

  lemma LeftText(field: string)
    ensures Render(SamePresence(Has(true, field), Has(false, field))) ==
            "has(oldSelf." + field + ") == has(self." + field + ")"
  {
    assert Render(Has(true, field)) == "has(" + "oldSelf." + field + ")";
    assert Render(Has(false, field)) == "has(" + "self." + field + ")";
    assert "has(" + "oldSelf." == "has(oldSelf." && "has(" + "self." == "has(self.";
    assert ")" + " == " + "has(self." == ") == has(self.";
  }

  lemma RightText(field: string)
    ensures Render(Or(Not(Has(false, field)), SameField(field))) ==
            "!has(self." + field + ") || oldSelf." + field + " == self." + field
  {
    assert Render(Not(Has(false, field))) == "!" + ("has(" + "self." + field + ")");
    assert Render(SameField(field)) == "oldSelf." + field + " == " + "self." + field;
    hide *;
    GlueRight(field, "!", "has(", "self.", ")", " || ", "oldSelf.", " == ");
    assert "!" + "has(" + "self." == "!has(self.";
    assert ")" + " || " + "oldSelf." == ") || oldSelf.";
    assert " == " + "self." == " == self.";
    RightByParts(field);
  }

  lemma RightByParts(field: string)
    ensures Render(Or(Not(Has(false, field)), SameField(field))) ==
            Render(Not(Has(false, field))) + " || " + Render(SameField(field))
  {}

  lemma GlueRight(f: string, a: string, b: string, c: string, d: string, e: string, g: string, h: string)
    ensures a + (b + c + f + d) + e + (g + f + h + c + f) == (a + b + c) + f + (d + e + g) + f + (h + c) + f
  {}

  /** There is a rule, with its message, for each field outside the mutable set, in the order of the fields. */
  lemma {:induction false} FieldRulesExactly(a: seq<string>, b: seq<string>, mutable: set<string>, kind: string)
    ensures FieldRules([], mutable, kind) == []
    ensures FieldRules(a + b, mutable, kind) == FieldRules(a, mutable, kind) + FieldRules(b, mutable, kind)
  {
    hide FieldRule;
    if b == [] {
      assert a + b == a;
    } else {
      assert (a + b)[..|a + b| - 1] == a + b[..|b| - 1];
      FieldRulesExactly(a, b[..|b| - 1], mutable, kind);
    }
  }

  lemma RuleOfOne(field: string, mutable: set<string>, kind: string)
    ensures FieldRules([field], mutable, kind) ==
            if field in mutable then []
            else [Rule(FieldRule(field), "spec." + field + " is immutable after creation; create a new " + kind +
                                         " to change it")]
  {
    hide FieldRule;
    assert [field][..0] == [];
  }

  /** The rules added are those whose text neither the bag nor an earlier rule has, in order, behind the old ones. */
  lemma {:induction false} AddedExactly(bag: seq<Rule>, rules: seq<Rule>) returns (places: seq<nat>)
    ensures |Added(bag, rules)| == |bag| + |places| && bag <= Added(bag, rules)
    ensures forall p | 0 <= p < |places| :: places[p] < |rules| && Added(bag, rules)[|bag| + p] == rules[places[p]]
    ensures forall p, q | 0 <= p < q < |places| :: places[p] < places[q]
    ensures forall i: nat | i < |rules| ::
              i in places <==> !HasText(bag, rules[i].text) && !HasText(rules[..i], rules[i].text)
  {
    hide HasText;
    places := [];
    if rules != [] {
      var front, last := rules[..|rules| - 1], |rules| - 1;
      var before := AddedExactly(bag, front);
      AddedHas(bag, front, rules[last].text);
      var taken := !HasText(bag, rules[last].text) && !HasText(front, rules[last].text);
      places := before + if taken then [last] else [];
      assert last !in before by { assert forall p | 0 <= p < |before| :: before[p] < |front|; }
      forall i: nat | i < |rules|
        ensures i in places <==> !HasText(bag, rules[i].text) && !HasText(rules[..i], rules[i].text)
      {
        if i < last { assert rules[..i] == front[..i] && rules[i] == front[i]; }
      }
    }
  }
}
