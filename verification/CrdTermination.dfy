/** When `_convert_schema` returns at all, and how deep its result can be. */
module CrdTermination {
  import opened JsonSchema
  import opened CrdSchema
  import opened Wrappers

  // ---------------------------------------------------------------------------------------------
  // Fuel is only a budget
  // ---------------------------------------------------------------------------------------------

  /** A run that returned returns the same node under every larger budget. */
  lemma {:induction false} MoreFuel(f: nat, g: nat, defs: Defs, s: Schema, depth: nat)
    requires f <= g && Convert(f, defs, s, depth).Some?
    ensures Convert(g, defs, s, depth) == Convert(f, defs, s, depth)
    decreases f, 0
  {
    if s == Blank || MarkedPolymorphic(s) {
    } else if s.ref.Some? {
      MoreFuel(f - 1, g - 1, defs, Resolve(defs, s.ref.value), depth);
    } else if depth > MAX_DEPTH {
    } else if NullableReal(s).Some? {
      MoreFuel(f - 1, g - 1, defs, NullableReal(s).value, depth);
    } else if s.anyOf.Alts? {
      if IsScalarUnion(s.anyOf.value) {
        MoreFuel(f - 1, g - 1, defs, s.anyOf.value[0], depth);
      }
    } else if s.oneOf.NoAlts? && !(s.extra.ExtraSchema? && s.extra.schema.discriminator.Some?) {
      MoreFuelOrdinary(f - 1, g - 1, defs, s, depth);
    }
  }

  lemma {:induction false} MoreFuelOrdinary(f: nat, g: nat, defs: Defs, s: Schema, depth: nat)
    requires f <= g && ConvertOrdinary(f, defs, s, depth).Some?
    ensures ConvertOrdinary(g, defs, s, depth) == ConvertOrdinary(f, defs, s, depth)
    decreases f, 3
  {
    if IsObjectNode(s) { MoreFuelObject(f, g, defs, s, Leaf(s), depth); }
    if s.kind == Some(TArray) && s.items.Some? { MoreFuel(f, g, defs, s.items.value, depth + 1); }
  }

  lemma {:induction false} MoreFuelObject(f: nat, g: nat, defs: Defs, s: Schema, leaf: Node, depth: nat)
    requires f <= g && ConvertObject(f, defs, s, leaf, depth).Some?
    ensures ConvertObject(g, defs, s, leaf, depth) == ConvertObject(f, defs, s, leaf, depth)
    decreases f, 2
  {
    if s.properties.Props? { MoreFuelProps(f, g, defs, s.properties.value, depth + 1); }
    if s.extra.ExtraSchema? { MoreFuel(f, g, defs, s.extra.schema, depth + 1); }
  }

  lemma {:induction false} MoreFuelProps(f: nat, g: nat, defs: Defs, props: seq<Prop>, depth: nat)
    requires f <= g && ConvertProps(f, defs, props, depth).Some?
    ensures ConvertProps(g, defs, props, depth) == ConvertProps(f, defs, props, depth)
    decreases f, 1, |props|
  {
    if props != [] {
      MoreFuel(f, g, defs, props[0].schema, depth);
      MoreFuelProps(f, g, defs, props[1..], depth);
    }
  }

  // ---------------------------------------------------------------------------------------------
  // Hops: the definition a conversion moves to without going one level deeper
  // ---------------------------------------------------------------------------------------------

  /** The `$ref` that converting `s` reaches through nullable and first-alternative hops. */
  function HopRef(s: Schema): Option<Ref>
    decreases s
  {
    if s == Blank || MarkedPolymorphic(s) then None
    else if s.ref.Some? then s.ref
    else if s.anyOf.NoAlts? then None
    else if NullableReal(s).Some? then
      if s.anyOf.value[1].kind == Some(TNull) then HopRef(s.anyOf.value[0]) else HopRef(s.anyOf.value[1])
    else if IsScalarUnion(s.anyOf.value) then HopRef(s.anyOf.value[0])
    else None
  }

  /** The chain of hops that starts at `s` ends within `hops` references. */
  predicate EndsWithin(defs: Defs, s: Schema, hops: nat)
    decreases hops
  {
    HopRef(s).Some? ==> hops > 0 && EndsWithin(defs, Resolve(defs, HopRef(s).value), hops - 1)
  }

  /** From every definition the hops come to an end. */
  ghost predicate HopsEnd(defs: Defs) {
    forall name | name in defs :: exists hops: nat :: EndsWithin(defs, defs[name], hops)
  }

  lemma HopsOf(defs: Defs, s: Schema) returns (hops: nat)
    requires HopsEnd(defs)
    ensures EndsWithin(defs, s, hops)
  {
    hops := 0;
    if HopRef(s).Some? {
      var name := HopRef(s).value.name;
      if name in defs {
        var rest: nat :| EndsWithin(defs, defs[name], rest);
        hops := rest + 1;
      } else {
        hops := 1;
      }
    }
  }

  function Levels(depth: nat): nat {
    if depth > MAX_DEPTH then 0 else MAX_DEPTH + 1 - depth
  }

  /** Termination, by remaining depth, then remaining hops, then node size: some budget is enough. */
  lemma {:induction false} Returns(defs: Defs, s: Schema, depth: nat, hops: nat) returns (fuel: nat)
    requires HopsEnd(defs) && EndsWithin(defs, s, hops)
    ensures Convert(fuel, defs, s, depth).Some?
    decreases Levels(depth), 1, hops, s
  {
    fuel := 1;
    if s == Blank || MarkedPolymorphic(s) {
    } else if s.ref.Some? {
      var f := Returns(defs, Resolve(defs, s.ref.value), depth, hops - 1);
      fuel := f + 1;
    } else if depth > MAX_DEPTH {
    } else if NullableReal(s).Some? {
      var i := if s.anyOf.value[1].kind == Some(TNull) then 0 else 1;
      var f := Returns(defs, s.anyOf.value[i], depth, hops);
      fuel := f + 1;
    } else if s.anyOf.Alts? {
      if IsScalarUnion(s.anyOf.value) {
        var f := Returns(defs, s.anyOf.value[0], depth, hops);
        fuel := f + 1;
      }
    } else if s.oneOf.NoAlts? && !(s.extra.ExtraSchema? && s.extra.schema.discriminator.Some?) {
      var f := ReturnsOrdinary(defs, s, depth);
      fuel := f + 1;
    }
  }

  function Max(a: nat, b: nat): nat { if a < b then b else a }

  lemma {:induction false} ReturnsOrdinary(defs: Defs, s: Schema, depth: nat) returns (fuel: nat)
    requires HopsEnd(defs) && depth <= MAX_DEPTH
    ensures ConvertOrdinary(fuel, defs, s, depth).Some?
    decreases Levels(depth), 0, 0, s
  {
    var p, e, i := 0, 0, 0;
    if s.properties.Props? {
      p := ReturnsProps(defs, s.properties.value, depth + 1);
    }
    if s.extra.ExtraSchema? {
      var hops := HopsOf(defs, s.extra.schema);
      e := Returns(defs, s.extra.schema, depth + 1, hops);
    }
    if s.items.Some? {
      var hops := HopsOf(defs, s.items.value);
      i := Returns(defs, s.items.value, depth + 1, hops);
    }
    fuel := Max(p, Max(e, i));
    if s.properties.Props? { MoreFuelProps(p, fuel, defs, s.properties.value, depth + 1); }
    if s.extra.ExtraSchema? { MoreFuel(e, fuel, defs, s.extra.schema, depth + 1); }
    if s.items.Some? { MoreFuel(i, fuel, defs, s.items.value, depth + 1); }
    EnoughForParts(fuel, defs, s, depth);
  }

  lemma EnoughForParts(fuel: nat, defs: Defs, s: Schema, depth: nat)
    requires s.properties.Props? ==> ConvertProps(fuel, defs, s.properties.value, depth + 1).Some?
    requires s.extra.ExtraSchema? ==> Convert(fuel, defs, s.extra.schema, depth + 1).Some?
    requires s.items.Some? ==> Convert(fuel, defs, s.items.value, depth + 1).Some?
    ensures ConvertOrdinary(fuel, defs, s, depth).Some?
  {
    assert ConvertObject(fuel, defs, s, Leaf(s), depth).Some?;
  }

  lemma {:induction false} ReturnsProps(defs: Defs, props: seq<Prop>, depth: nat) returns (fuel: nat)
    requires HopsEnd(defs) && depth > 0
    ensures ConvertProps(fuel, defs, props, depth).Some?
    decreases Levels(depth), 2, |props|, Blank
  {
    fuel := 0;
    if props != [] {
      var hops := HopsOf(defs, props[0].schema);
      var f := Returns(defs, props[0].schema, depth, hops);
      var g := ReturnsProps(defs, props[1..], depth);
      fuel := Max(f, g);
      MoreFuel(f, fuel, defs, props[0].schema, depth);
      MoreFuelProps(g, fuel, defs, props[1..], depth);
    }
  }

  // ---------------------------------------------------------------------------------------------
  // Exactly when
  // ---------------------------------------------------------------------------------------------

  /** A returned run followed a chain of hops that ended. */
  lemma {:induction false} ReturnedMeansEnded(fuel: nat, defs: Defs, s: Schema, depth: nat)
    requires depth <= MAX_DEPTH && Convert(fuel, defs, s, depth).Some?
    ensures EndsWithin(defs, s, fuel)
    decreases fuel
  {
    if s == Blank || MarkedPolymorphic(s) {
    } else if s.ref.Some? {
      ReturnedMeansEnded(fuel - 1, defs, Resolve(defs, s.ref.value), depth);
    } else if NullableReal(s).Some? {
      ReturnedMeansEnded(fuel - 1, defs, NullableReal(s).value, depth);
      MoreHops(defs, NullableReal(s).value, fuel - 1, fuel);
    } else if s.anyOf.Alts? && IsScalarUnion(s.anyOf.value) {
      ReturnedMeansEnded(fuel - 1, defs, s.anyOf.value[0], depth);
      MoreHops(defs, s.anyOf.value[0], fuel - 1, fuel);
    }
  }

  lemma {:induction false} MoreHops(defs: Defs, s: Schema, m: nat, n: nat)
    requires m <= n && EndsWithin(defs, s, m)
    ensures EndsWithin(defs, s, n)
    decreases m
  {
    if HopRef(s).Some? { MoreHops(defs, Resolve(defs, HopRef(s).value), m - 1, n - 1); }
  }

  ghost predicate Terminates(defs: Defs, s: Schema) {
    exists fuel: nat :: Convert(fuel, defs, s, 0).Some?
  }

  /** Conversion returns for every schema exactly when every chain of hops ends... */
  lemma TerminatesWhenHopsEnd(defs: Defs)
    ensures (forall s: Schema :: Terminates(defs, s)) <==> HopsEnd(defs)
  {
    if HopsEnd(defs) {
      forall s: Schema ensures Terminates(defs, s) {
        var hops := HopsOf(defs, s);
        var fuel := Returns(defs, s, 0, hops);
      }
    }
    if forall s: Schema :: Terminates(defs, s) {
      forall name | name in defs ensures exists hops: nat :: EndsWithin(defs, defs[name], hops) {
        assert Terminates(defs, defs[name]);
        var fuel: nat :| Convert(fuel, defs, defs[name], 0).Some?;
        ReturnedMeansEnded(fuel, defs, defs[name], 0);
      }
    }
  }

  // ---------------------------------------------------------------------------------------------
  // Hop cycles
  // ---------------------------------------------------------------------------------------------

  /** The definition that the hops from a definition lead to. */
  function Next(defs: Defs, name: string): Option<string>
    requires name in defs
  {
    var ref := HopRef(defs[name]);
    if ref.Some? && ref.value.name in defs then Some(ref.value.name) else None
  }

  /** After `n` references. */
  function Hop(defs: Defs, name: string, n: nat): (end: Option<string>)
    requires name in defs
    ensures end.Some? ==> end.value in defs
  {
    if n == 0 then Some(name)
    else
      var before := Hop(defs, name, n - 1);
      if before.None? then None else Next(defs, before.value)
  }

  /** No definition reaches itself by hops alone. */
  ghost predicate NoHopCycle(defs: Defs) {
    forall name, n: nat | name in defs && n > 0 :: Hop(defs, name, n) != Some(name)
  }

  /** What a caller can compute: every chain ends within as many references as there are definitions. */
  predicate EndsInTime(defs: Defs) { forall name | name in defs :: EndsWithin(defs, defs[name], |defs|) }

  lemma {:induction false} HopFirst(defs: Defs, name: string, n: nat)
    requires name in defs && n > 0
    ensures Hop(defs, name, n) == if Next(defs, name).None? then None else Hop(defs, Next(defs, name).value, n - 1)
  {
    if n > 1 { HopFirst(defs, name, n - 1); }
  }

  /** A chain that ends within `h` references has no definition `h + 1` references on. */
  lemma {:induction false} EndedChain(defs: Defs, name: string, h: nat)
    requires name in defs && EndsWithin(defs, defs[name], h)
    ensures Hop(defs, name, h + 1) == None
    decreases h
  {
    HopFirst(defs, name, h + 1);
    if Next(defs, name).Some? { EndedChain(defs, Next(defs, name).value, h - 1); }
  }

  lemma {:induction false} EarlierHop(defs: Defs, name: string, m: nat, n: nat)
    requires name in defs && m <= n && Hop(defs, name, n).Some?
    ensures Hop(defs, name, m).Some?
    decreases n - m
  {
    if m < n { EarlierHop(defs, name, m + 1, n); }
  }

  lemma {:induction false} HopAgain(defs: Defs, name: string, m: nat, n: nat)
    requires name in defs && Hop(defs, name, m).Some?
    ensures Hop(defs, name, m + n) == Hop(defs, Hop(defs, name, m).value, n)
  {
    if n > 0 { HopAgain(defs, name, m, n - 1); }
  }

  /** A cycle can be gone round as often as one likes. */
  lemma {:induction false} RoundAndRound(defs: Defs, name: string, n: nat, times: nat)
    requires name in defs && n > 0 && Hop(defs, name, n) == Some(name)
    ensures exists far: nat :: far >= times && Hop(defs, name, far) == Some(name)
  {
    if times == 0 {
      assert Hop(defs, name, 0) == Some(name);
    } else {
      RoundAndRound(defs, name, n, times - 1);
      var far: nat :| far >= times - 1 && Hop(defs, name, far) == Some(name);
      HopAgain(defs, name, far, n);
      assert far + n >= times;
    }
  }

  /** A definition on a cycle of hops ends within no number of references... */
  lemma CycleNeverEnds(defs: Defs, name: string, n: nat, h: nat)
    requires name in defs && n > 0 && Hop(defs, name, n) == Some(name)
    ensures !EndsWithin(defs, defs[name], h)
  {
    if EndsWithin(defs, defs[name], h) {
      EndedChain(defs, name, h);
      RoundAndRound(defs, name, n, h + 1);
      var far: nat :| far >= h + 1 && Hop(defs, name, far) == Some(name);
      EarlierHop(defs, name, h + 1, far);
    }
  }

  /** ...so its conversion returns under no budget. */
  lemma CycleNeverReturns(defs: Defs, name: string, n: nat, fuel: nat, depth: nat)
    requires name in defs && n > 0 && Hop(defs, name, n) == Some(name) && depth <= MAX_DEPTH
    ensures Convert(fuel, defs, defs[name], depth) == None
  {
    if Convert(fuel, defs, defs[name], depth).Some? {
      ReturnedMeansEnded(fuel, defs, defs[name], depth);
      CycleNeverEnds(defs, name, n, fuel);
    }
  }

  /** The smallest case: a definition that is a reference to itself. */
  lemma SelfReferenceNeverReturns(defs: Defs, name: string, fuel: nat)
    requires name in defs && defs[name] == Blank.(ref := Some(Ref(true, name)))
    ensures Convert(fuel, defs, defs[name], 0) == None
  {
    assert Hop(defs, name, 0) == Some(name);
    assert Hop(defs, name, 1) == Some(name);
    CycleNeverReturns(defs, name, 1, fuel, 0);
  }

  ghost predicate LeadsTo(defs: Defs, p: string, name: string) {
    p in defs && exists k: nat :: k > 0 && Hop(defs, p, k) == Some(name)
  }

  /** Without cycles a chain meets each definition at most once, so it ends in time. */
  lemma {:induction false} EndsByCounting(defs: Defs, name: string, path: set<string>)
    requires NoHopCycle(defs) && name in defs && path <= defs.Keys
    requires forall p | p in path :: LeadsTo(defs, p, name)
    ensures |path| < |defs| && EndsWithin(defs, defs[name], |defs| - |path|)
    decreases |defs| - |path|
  {
    assert name in path ==> LeadsTo(defs, name, name);
    Fewer(path, name, defs.Keys);
    assert |defs.Keys| == |defs|;
    var next := Next(defs, name);
    if next.Some? {
      forall p | p in path + {name} ensures LeadsTo(defs, p, next.value) {
        if p == name {
          assert Hop(defs, name, 0) == Some(name);
          assert Hop(defs, name, 1) == next;
        } else {
          var k: nat :| k > 0 && Hop(defs, p, k) == Some(name);
          assert Hop(defs, p, k + 1) == next;
        }
      }
      EndsByCounting(defs, next.value, path + {name});
    }
  }

  lemma Fewer(path: set<string>, name: string, all: set<string>)
    requires path <= all && name in all && name !in path
    ensures |path| < |all| && |path + {name}| == |path| + 1 <= |all|
  {
    var more := path + {name};
    SmallerSet(more, all);
  }

  lemma {:induction false} SmallerSet(a: set<string>, b: set<string>)
    requires a <= b
    ensures |a| <= |b|
  {
    if a != {} {
      var x :| x in a;
      SmallerSet(a - {x}, b - {x});
    }
  }

  /** The three conditions are one. */
  lemma HopsEndExactly(defs: Defs)
    ensures HopsEnd(defs) <==> NoHopCycle(defs)
    ensures HopsEnd(defs) <==> EndsInTime(defs)
  {
    if HopsEnd(defs) {
      forall name, n: nat | name in defs && n > 0 ensures Hop(defs, name, n) != Some(name) {
        if Hop(defs, name, n) == Some(name) {
          var h: nat :| EndsWithin(defs, defs[name], h);
          CycleNeverEnds(defs, name, n, h);
        }
      }
    }
    if NoHopCycle(defs) {
      forall name | name in defs ensures EndsWithin(defs, defs[name], |defs|) { EndsByCounting(defs, name, {}); }
    }
  }

  /** Conversion returns for every schema exactly when no definition reaches itself by hops alone, and exactly when every
      chain ends within as many references as there are definitions. */
  lemma TerminatesExactly(defs: Defs)
    ensures (forall s: Schema :: Terminates(defs, s)) <==> NoHopCycle(defs)
    ensures (forall s: Schema :: Terminates(defs, s)) <==> EndsInTime(defs)
  {
    hide NoHopCycle, EndsInTime, HopsEnd, Terminates;
    TerminatesWhenHopsEnd(defs);
    HopsEndExactly(defs);
  }

  // ---------------------------------------------------------------------------------------------
  // Nesting
  // ---------------------------------------------------------------------------------------------

  /** `n` nests subschemas at most `h` levels deep. */
  predicate NestsWithin(n: Node, h: nat)
    decreases h
  {
    if h == 0 then n.properties.None? && n.additional.None? && n.items.None?
    else
      && (n.properties.Some? ==>
            forall i | 0 <= i < |n.properties.value| :: NestsWithin(n.properties.value[i].node, h - 1))
      && (n.additional.Some? ==> NestsWithin(n.additional.value, h - 1))
      && (n.items.Some? ==> NestsWithin(n.items.value, h - 1))
  }

  /** Even for self-recursive models the result nests at most `MAX_DEPTH + 1` levels below the starting depth. */
  lemma {:induction false} NestingIsBounded(fuel: nat, defs: Defs, s: Schema, depth: nat)
    requires Convert(fuel, defs, s, depth).Some?
    ensures NestsWithin(Convert(fuel, defs, s, depth).value, Levels(depth))
    decreases fuel, 0
  {
    if s == Blank || MarkedPolymorphic(s) {
    } else if s.ref.Some? {
      NestingIsBounded(fuel - 1, defs, Resolve(defs, s.ref.value), depth);
    } else if depth > MAX_DEPTH {
    } else if NullableReal(s).Some? {
      NestingIsBounded(fuel - 1, defs, NullableReal(s).value, depth);
    } else if s.anyOf.Alts? {
      if IsScalarUnion(s.anyOf.value) {
        NestingIsBounded(fuel - 1, defs, s.anyOf.value[0], depth);
      }
    } else if s.oneOf.NoAlts? && !(s.extra.ExtraSchema? && s.extra.schema.discriminator.Some?) {
      OrdinaryNesting(fuel - 1, defs, s, depth);
    }
  }

  lemma {:induction false} OrdinaryNesting(fuel: nat, defs: Defs, s: Schema, depth: nat)
    requires depth <= MAX_DEPTH && ConvertOrdinary(fuel, defs, s, depth).Some?
    ensures NestsWithin(ConvertOrdinary(fuel, defs, s, depth).value, Levels(depth))
    decreases fuel, 3
  {
    if IsObjectNode(s) { ObjectNesting(fuel, defs, s, Leaf(s), depth); }
    if s.kind == Some(TArray) && s.items.Some? { NestingIsBounded(fuel, defs, s.items.value, depth + 1); }
  }

  lemma {:induction false} ObjectNesting(fuel: nat, defs: Defs, s: Schema, leaf: Node, depth: nat)
    requires depth <= MAX_DEPTH && ConvertObject(fuel, defs, s, leaf, depth).Some?
    requires leaf.additional.None? && leaf.items.None?
    ensures NestsWithin(ConvertObject(fuel, defs, s, leaf, depth).value, Levels(depth))
    decreases fuel, 2
  {
    if s.properties.Props? { PropsNesting(fuel, defs, s.properties.value, depth + 1); }
    if s.extra.ExtraSchema? { NestingIsBounded(fuel, defs, s.extra.schema, depth + 1); }
  }

  lemma {:induction false} PropsNesting(fuel: nat, defs: Defs, props: seq<Prop>, depth: nat)
    requires ConvertProps(fuel, defs, props, depth).Some?
    ensures var fields := ConvertProps(fuel, defs, props, depth).value;
      forall i | 0 <= i < |fields| :: NestsWithin(fields[i].node, Levels(depth))
    decreases fuel, 1, |props|
  {
    if props != [] {
      NestingIsBounded(fuel, defs, props[0].schema, depth);
      PropsNesting(fuel, defs, props[1..], depth);
    }
  }
}
