/** Collecting the fields of a settings class from its bases and itself, with cycle detection along the path. */
module SettingsInheritance {

  datatype Field = Field(name: string, default: string, documentation: string)

  /** An expression in a class header's base list: a plain name, or anything else. */
  datatype Base = Named(id: string) | Expression

  /** An annotated assignment in a class body, parsed; a factory-defaulted or odd one parses to nothing. */
  datatype Item = Parsed(field: Field) | Unparsed

  datatype ClassDef = ClassDef(name: string, bases: seq<Base>, body: seq<Item>)

  datatype Result<+T> = Ok(value: T) | ParseError(cls: string)

  type Table = map<string, ClassDef>

  /** The table is keyed by class name. */
  predicate IsTable(classes: Table) { forall id | id in classes :: classes[id].name == id }

  predicate Contains(text: string, what: string) {
    exists i | 0 <= i <= |text| :: what <= text[i..]
  }

  predicate Documented(item: Item) {
    && item.Parsed?
    && !("_" <= item.field.name)
    && !Contains(item.field.default, "default_factory")
  }

  /** `_declared_fields`. */
  function Declared(node: ClassDef): seq<Field> { DeclaredIn(node.body) }

  function DeclaredIn(body: seq<Item>): seq<Field> {
    if body == [] then []
    else DeclaredIn(body[..|body| - 1]) + if Documented(body[|body| - 1]) then [body[|body| - 1].field] else []
  }

  // ---------------------------------------------------------------------------------------------
  // An insertion-ordered dictionary of fields by name
  // ---------------------------------------------------------------------------------------------

  /** `fields[field.name] = field`: a known name keeps its place, a new one goes last. */
  function Put(fields: seq<Field>, f: Field): seq<Field> {
    if fields == [] then [f]
    else if fields[0].name == f.name then [f] + fields[1..]
    else [fields[0]] + Put(fields[1..], f)
  }

  function PutAll(fields: seq<Field>, more: seq<Field>): seq<Field> {
    if more == [] then fields else Put(PutAll(fields, more[..|more| - 1]), more[|more| - 1])
  }

  // ---------------------------------------------------------------------------------------------
  // Resolution
  // ---------------------------------------------------------------------------------------------

  /** The bases that are plain names of known classes, in order. */
  predicate IsKnown(base: Base, classes: Table) { base.Named? && base.id in classes }

  /** `_fields_with_bases`: `seen` holds the names on the path from the class that was asked for. */
  function Resolve(node: ClassDef, classes: Table, seen: set<string>): Result<seq<Field>>
    requires IsTable(classes)
    decreases classes.Keys - seen, if node.name in classes then 0 else 1, |node.bases| + 1
  {
    if node.name in seen then ParseError(node.name)
    else
      assert node.name !in classes ==> classes.Keys - (seen + {node.name}) == classes.Keys - seen;
      assert node.name in classes ==> node.name in classes.Keys - seen;
      var inherited := ResolveBases(node, |node.bases|, classes, seen + {node.name});
      if inherited.ParseError? then inherited else Ok(PutAll(inherited.value, Declared(node)))
  }

  /** The fields of the first `k` bases, later bases overriding earlier ones. */
  function ResolveBases(node: ClassDef, k: nat, classes: Table, path: set<string>): Result<seq<Field>>
    requires IsTable(classes) && k <= |node.bases| && node.name in path
    decreases classes.Keys - path, 1, k
  {
    if k == 0 then Ok([])
    else
      var earlier := ResolveBases(node, k - 1, classes, path);
      var base := node.bases[k - 1];
      if earlier.ParseError? || !IsKnown(base, classes) then earlier
      else
        var more := Resolve(classes[base.id], classes, path);
        if more.ParseError? then more else Ok(PutAll(earlier.value, more.value))
  }

  /** `_fields_with_bases` as it runs: a set that grows along the path, a dictionary filled in two loops. */
  method FieldsWithBases(node: ClassDef, classes: Table, seen: set<string>) returns (result: Result<seq<Field>>)
    requires IsTable(classes)
    ensures result == Resolve(node, classes, seen)
    decreases classes.Keys - seen, if node.name in classes then 0 else 1
  {
    if node.name in seen {
      return ParseError(node.name);
    }
    var path := seen + {node.name};
    assert node.name !in classes ==> classes.Keys - path == classes.Keys - seen;
    assert node.name in classes ==> node.name in classes.Keys - seen;
    var fields: seq<Field> := [];
    for k := 0 to |node.bases|
      invariant ResolveBases(node, k, classes, path) == Ok(fields)
    {
      var base := node.bases[k];
      if IsKnown(base, classes) {
        var more := FieldsWithBases(classes[base.id], classes, path);
        if more.ParseError? {
          ErrorsStay(node, k + 1, |node.bases|, classes, path);
          return more;
        }
        for i := 0 to |more.value|
          invariant fields == PutAll(ResolveBases(node, k, classes, path).value, more.value[..i])
        {
          assert more.value[..i + 1][..i] == more.value[..i];
          fields := Put(fields, more.value[i]);
        }
        assert more.value[..|more.value|] == more.value;
      }
    }
    ghost var inherited := fields;
    var declared := Declared(node);
    for i := 0 to |declared|
      invariant fields == PutAll(inherited, declared[..i])
    {
      assert declared[..i + 1][..i] == declared[..i];
      fields := Put(fields, declared[i]);
    }
    assert declared[..|declared|] == declared;
    result := Ok(fields);
  }

  lemma {:induction false} ErrorsStay(node: ClassDef, j: nat, k: nat, classes: Table, path: set<string>)
    requires IsTable(classes) && j <= k <= |node.bases| && node.name in path
    requires ResolveBases(node, j, classes, path).ParseError?
    ensures ResolveBases(node, k, classes, path) == ResolveBases(node, j, classes, path)
  {
    if j < k { ErrorsStay(node, j, k - 1, classes, path); }
  }

  // ---------------------------------------------------------------------------------------------
  // Cycles
  // ---------------------------------------------------------------------------------------------

  predicate IsBaseOf(node: ClassDef, id: string) {
    exists i | 0 <= i < |node.bases| :: node.bases[i] == Named(id)
  }

  /** A walk up the inheritance graph: the names met, from `node` on. */
  predicate IsWalk(node: ClassDef, classes: Table, walk: seq<string>)
    decreases |walk|
  {
    && walk != []
    && walk[0] == node.name
    && (|walk| > 1 ==>
          walk[1] in classes && IsBaseOf(node, walk[1]) && IsWalk(classes[walk[1]], classes, walk[1..]))
  }

  /** The walk comes back to a name it has met, or meets one in `seen`. */
  predicate ComesBack(walk: seq<string>, seen: set<string>) {
    || (exists i | 0 <= i < |walk| :: walk[i] in seen)
    || (exists i, j | 0 <= i < j < |walk| :: walk[i] == walk[j])
  }

  ghost predicate CycleReachable(node: ClassDef, classes: Table, seen: set<string>) {
    exists walk :: IsWalk(node, classes, walk) && ComesBack(walk, seen)
  }

  /** An error has a walk that comes back. */
  lemma {:induction false} ErrorMeansCycle(node: ClassDef, classes: Table, seen: set<string>) returns (walk: seq<string>)
    requires IsTable(classes) && Resolve(node, classes, seen).ParseError?
    ensures IsWalk(node, classes, walk) && ComesBack(walk, seen)
    decreases classes.Keys - seen, if node.name in classes then 0 else 1, |node.bases| + 1
  {
    if node.name in seen {
      walk := [node.name];
      assert walk[0] in seen;
    } else {
      assert node.name !in classes ==> classes.Keys - (seen + {node.name}) == classes.Keys - seen;
      assert node.name in classes ==> node.name in classes.Keys - seen;
      var up := BasesErrorMeansCycle(node, |node.bases|, classes, seen + {node.name});
      walk := [node.name] + up;
      assert walk[1..] == up;
      if i :| 0 <= i < |up| && up[i] in seen + {node.name} {
        assert walk[i + 1] == up[i] && walk[0] == node.name;
      } else {
        var i, j :| 0 <= i < j < |up| && up[i] == up[j];
        assert walk[i + 1] == walk[j + 1];
      }
    }
  }

  lemma {:induction false} BasesErrorMeansCycle(node: ClassDef, k: nat, classes: Table, path: set<string>)
    returns (up: seq<string>)
    requires IsTable(classes) && k <= |node.bases| && node.name in path
    requires ResolveBases(node, k, classes, path).ParseError?
    ensures up != [] && up[0] in classes && IsBaseOf(node, up[0])
    ensures IsWalk(classes[up[0]], classes, up) && ComesBack(up, path)
    decreases classes.Keys - path, 1, k
  {
    if ResolveBases(node, k - 1, classes, path).ParseError? {
      up := BasesErrorMeansCycle(node, k - 1, classes, path);
    } else {
      assert node.bases[k - 1] == Named(node.bases[k - 1].id);
      up := ErrorMeansCycle(classes[node.bases[k - 1].id], classes, path);
    }
  }

  /** A walk that comes back means an error. */
  lemma {:induction false} CycleMeansError(node: ClassDef, classes: Table, seen: set<string>, walk: seq<string>)
    requires IsTable(classes) && IsWalk(node, classes, walk) && ComesBack(walk, seen)
    ensures Resolve(node, classes, seen).ParseError?
    decreases |walk|
  {
    if node.name !in seen {
      var path, up := seen + {node.name}, walk[1..];
      assert |walk| > 1;
      assert ComesBack(up, path) by {
        if i :| 0 <= i < |walk| && walk[i] in seen {
          assert up[i - 1] == walk[i];
        } else {
          var i, j :| 0 <= i < j < |walk| && walk[i] == walk[j];
          assert up[j - 1] == walk[j];
          if i > 0 { assert up[i - 1] == walk[i]; }
        }
      }
      CycleMeansError(classes[walk[1]], classes, path, up);
      var b :| 0 <= b < |node.bases| && node.bases[b] == Named(walk[1]);
      if ResolveBases(node, b, classes, path).Ok? {
        assert ResolveBases(node, b + 1, classes, path).ParseError?;
        ErrorsStay(node, b + 1, |node.bases|, classes, path);
      } else {
        ErrorsStay(node, b, |node.bases|, classes, path);
      }
    }
  }

  /** Resolution fails exactly when some chain of bases comes back to a class it has met; diamonds do not. */
  lemma FailsExactlyOnCycles(node: ClassDef, classes: Table)
    requires IsTable(classes)
    ensures Resolve(node, classes, {}).ParseError? <==> CycleReachable(node, classes, {})
  {
    if Resolve(node, classes, {}).ParseError? {
      var walk := ErrorMeansCycle(node, classes, {});
    }
    if walk :| IsWalk(node, classes, walk) && ComesBack(walk, {}) {
      CycleMeansError(node, classes, {}, walk);
    }
  }

  // ---------------------------------------------------------------------------------------------
  // The fields
  // ---------------------------------------------------------------------------------------------

  predicate UniqueNames(fields: seq<Field>) {
    forall i, j | 0 <= i < j < |fields| :: fields[i].name != fields[j].name
  }

  /** The value the dictionary holds under a name. */
  datatype Found = Missing | Hit(field: Field)

  function Lookup(fields: seq<Field>, name: string): Found {
    if fields == [] then Missing else if fields[0].name == name then Hit(fields[0]) else Lookup(fields[1..], name)
  }

  /** The last of a list under a name. */
  function LastOf(fields: seq<Field>, name: string): Found {
    if fields == [] then Missing
    else if fields[|fields| - 1].name == name then Hit(fields[|fields| - 1])
    else LastOf(fields[..|fields| - 1], name)
  }

  lemma {:induction false} LookupMissing(fields: seq<Field>, name: string)
    ensures Lookup(fields, name).Missing? <==> forall i | 0 <= i < |fields| :: fields[i].name != name
  {
    if fields != [] {
      LookupMissing(fields[1..], name);
      assert forall i | 0 < i < |fields| :: fields[i] == fields[1..][i - 1];
    }
  }

  lemma {:induction false} PutSpec(fields: seq<Field>, f: Field)
    requires UniqueNames(fields)
    ensures UniqueNames(Put(fields, f))
    ensures forall name :: Lookup(Put(fields, f), name) == if name == f.name then Hit(f) else Lookup(fields, name)
  {
    if fields != [] && fields[0].name != f.name {
      PutSpec(fields[1..], f);
      var put := Put(fields, f);
      assert put[1..] == Put(fields[1..], f);
      LookupMissing(fields[1..], fields[0].name);
      LookupMissing(put[1..], fields[0].name);
      assert forall i | 0 < i < |fields| :: fields[i] == fields[1..][i - 1];
      assert forall i | 0 < i < |put| :: put[i] == put[1..][i - 1];
    } else if fields != [] {
      assert Put(fields, f)[1..] == fields[1..];
    }
  }

  /** Overwriting keeps the place of the name. */
  lemma {:induction false} PutKeepsPlaces(fields: seq<Field>, f: Field, i: nat)
    requires i < |fields|
    ensures i < |Put(fields, f)| && Put(fields, f)[i].name == fields[i].name
  {
    if fields[0].name != f.name && i > 0 {
      PutKeepsPlaces(fields[1..], f, i - 1);
      assert Put(fields, f)[1..] == Put(fields[1..], f);
    }
  }

  lemma {:induction false} PutAllSpec(fields: seq<Field>, more: seq<Field>, name: string)
    requires UniqueNames(fields)
    ensures UniqueNames(PutAll(fields, more))
    ensures Lookup(PutAll(fields, more), name) ==
            if LastOf(more, name).Hit? then LastOf(more, name) else Lookup(fields, name)
  {
    if more != [] {
      PutAllSpec(fields, more[..|more| - 1], name);
      PutSpec(PutAll(fields, more[..|more| - 1]), more[|more| - 1]);
    }
  }

  /** The class, or one that a chain of bases leads to, declares the name. */
  ghost predicate Offers(node: ClassDef, classes: Table, name: string) {
    exists walk :: IsWalk(node, classes, walk) && LastOf(Declared(At(node, classes, walk)), name).Hit?
  }

  /** The class a walk ends at. */
  function At(node: ClassDef, classes: Table, walk: seq<string>): ClassDef {
    if |walk| <= 1 || walk[|walk| - 1] !in classes then node else classes[walk[|walk| - 1]]
  }

  /** Each name appears once, and a class's own (last) declaration wins over everything inherited. */
  lemma OwnDeclarationsWin(node: ClassDef, classes: Table, seen: set<string>, name: string)
    requires IsTable(classes) && Resolve(node, classes, seen).Ok?
    ensures var fields := Resolve(node, classes, seen).value;
      && UniqueNames(fields)
      && (LastOf(Declared(node), name).Hit? ==> Lookup(fields, name) == LastOf(Declared(node), name))
      && (LastOf(Declared(node), name).Missing? ==>
            Lookup(fields, name) == Lookup(ResolveBases(node, |node.bases|, classes, seen + {node.name}).value, name))
  {
    BasesAreUnique(node, |node.bases|, classes, seen + {node.name});
    PutAllSpec(ResolveBases(node, |node.bases|, classes, seen + {node.name}).value, Declared(node), name);
  }

  lemma {:induction false} ResolvedIsUnique(node: ClassDef, classes: Table, seen: set<string>)
    requires IsTable(classes) && Resolve(node, classes, seen).Ok?
    ensures UniqueNames(Resolve(node, classes, seen).value)
  {
    OwnDeclarationsWin(node, classes, seen, "");
  }

  lemma {:induction false} BasesAreUnique(node: ClassDef, k: nat, classes: Table, path: set<string>)
    requires IsTable(classes) && k <= |node.bases| && node.name in path && ResolveBases(node, k, classes, path).Ok?
    ensures UniqueNames(ResolveBases(node, k, classes, path).value)
  {
    if k > 0 {
      BasesAreUnique(node, k - 1, classes, path);
      if IsKnown(node.bases[k - 1], classes) {
        PutAllSpec(ResolveBases(node, k - 1, classes, path).value,
                   Resolve(classes[node.bases[k - 1].id], classes, path).value, "");
      }
    }
  }

  lemma {:induction false} LastOfIsLookup(fields: seq<Field>, name: string)
    requires UniqueNames(fields)
    ensures LastOf(fields, name) == Lookup(fields, name)
  {
    if fields != [] {
      var front, last := fields[..|fields| - 1], fields[|fields| - 1];
      LastOfIsLookup(front, name);
      LookupAppend(front, last, name);
      assert fields == front + [last];
      LookupMissing(front, name);
    }
  }

  lemma {:induction false} LookupAppend(fields: seq<Field>, f: Field, name: string)
    ensures Lookup(fields + [f], name) ==
            if Lookup(fields, name).Hit? then Lookup(fields, name) else if f.name == name then Hit(f) else Missing
  {
    if fields != [] {
      assert (fields + [f])[1..] == fields[1..] + [f];
      LookupAppend(fields[1..], f, name);
    }
  }

  /** Among the bases the last one that has the name decides. */
  lemma LaterBasesWin(node: ClassDef, k: nat, classes: Table, path: set<string>, name: string)
    requires IsTable(classes) && 0 < k <= |node.bases| && node.name in path && ResolveBases(node, k, classes, path).Ok?
    ensures var base := node.bases[k - 1];
      var earlier := Lookup(ResolveBases(node, k - 1, classes, path).value, name);
      Lookup(ResolveBases(node, k, classes, path).value, name) ==
      if !IsKnown(base, classes) then earlier
      else
        var here := Lookup(Resolve(classes[base.id], classes, path).value, name);
        if here.Hit? then here else earlier
  {
    BasesAreUnique(node, k - 1, classes, path);
    if IsKnown(node.bases[k - 1], classes) {
      var more := Resolve(classes[node.bases[k - 1].id], classes, path).value;
      ResolvedIsUnique(classes[node.bases[k - 1].id], classes, path);
      PutAllSpec(ResolveBases(node, k - 1, classes, path).value, more, name);
      LastOfIsLookup(more, name);
    }
  }

  /** Nothing is lost and nothing invented: the resolved names are those declared by the class or an ancestor. */
  lemma {:induction false} FieldsAreThoseOffered(node: ClassDef, classes: Table, seen: set<string>, name: string)
    requires IsTable(classes) && Resolve(node, classes, seen).Ok?
    ensures Lookup(Resolve(node, classes, seen).value, name).Hit? <==> Offers(node, classes, name)
    decreases classes.Keys - seen, if node.name in classes then 0 else 1, |node.bases| + 1
  {
    assert node.name !in classes ==> classes.Keys - (seen + {node.name}) == classes.Keys - seen;
    assert node.name in classes ==> node.name in classes.Keys - seen;
    hide Offers, Declared, LastOf, PutAll;
    OwnDeclarationsWin(node, classes, seen, name);
    BasesAreThoseOffered(node, |node.bases|, classes, seen + {node.name}, name);
    OfferedExactly(node, classes, name);
  }

  /** A name is offered by the class itself or by one of its known bases. */
  lemma OfferedExactly(node: ClassDef, classes: Table, name: string)
    requires IsTable(classes)
    ensures Offers(node, classes, name) <==>
            || LastOf(Declared(node), name).Hit?
            || exists b: nat :: b < |node.bases| && IsKnown(node.bases[b], classes) &&
                                Offers(classes[node.bases[b].id], classes, name)
  {
    hide Declared, LastOf;
    if LastOf(Declared(node), name).Hit? {
      assert IsWalk(node, classes, [node.name]) && At(node, classes, [node.name]) == node;
    }
    if b: nat :| b < |node.bases| && IsKnown(node.bases[b], classes) && Offers(classes[node.bases[b].id], classes, name) {
      var up :| IsWalk(classes[node.bases[b].id], classes, up) &&
                LastOf(Declared(At(classes[node.bases[b].id], classes, up)), name).Hit?;
      var walk := [node.name] + up;
      assert walk[1..] == up && node.bases[b] == Named(up[0]);
      assert IsWalk(node, classes, walk);
      EndsIn(classes[node.bases[b].id], classes, up);
    }
    if walk :| IsWalk(node, classes, walk) && LastOf(Declared(At(node, classes, walk)), name).Hit? {
      if |walk| > 1 {
        var b :| 0 <= b < |node.bases| && node.bases[b] == Named(walk[1]);
        EndsIn(classes[walk[1]], classes, walk[1..]);
        assert At(classes[walk[1]], classes, walk[1..]) == At(node, classes, walk);
        assert Offers(classes[node.bases[b].id], classes, name);
      }
    }
  }

  lemma {:induction false} EndsIn(node: ClassDef, classes: Table, walk: seq<string>)
    requires IsTable(classes) && IsWalk(node, classes, walk) && node.name in classes && classes[node.name] == node
    ensures walk[|walk| - 1] in classes && At(node, classes, walk) == classes[walk[|walk| - 1]]
    decreases |walk|
  {
    if |walk| > 1 { EndsIn(classes[walk[1]], classes, walk[1..]); }
  }

  lemma {:induction false} BasesAreThoseOffered(node: ClassDef, k: nat, classes: Table, path: set<string>, name: string)
    requires IsTable(classes) && k <= |node.bases| && node.name in path && ResolveBases(node, k, classes, path).Ok?
    ensures Lookup(ResolveBases(node, k, classes, path).value, name).Hit? <==>
            exists b: nat :: b < k && IsKnown(node.bases[b], classes) && Offers(classes[node.bases[b].id], classes, name)
    decreases classes.Keys - path, 1, k
  {
    if k > 0 {
      BasesAreThoseOffered(node, k - 1, classes, path, name);
      LaterBasesWin(node, k, classes, path, name);
      if IsKnown(node.bases[k - 1], classes) {
        FieldsAreThoseOffered(classes[node.bases[k - 1].id], classes, path, name);
      }
    }
  }

  // ---------------------------------------------------------------------------------------------
  // The answers spelled out
  // ---------------------------------------------------------------------------------------------

  predicate HasAt(text: string, i: nat, what: string) { i + |what| <= |text| && text[i..i + |what|] == what }

  /** The text has `what` somewhere. */
  predicate Has(text: string, what: string) { exists i | 0 <= i <= |text| :: HasAt(text, i, what) }

  /** An item declares a documented field if it parses, its name begins with no underscore, and its default does not
      mention a factory. */
  predicate Declares(item: Item) {
    match item
    case Unparsed => false
    case Parsed(Field(name, default, _)) => (name == "" || name[0] != '_') && !Has(default, "default_factory")
  }

  lemma DocumentedExactly(item: Item)
    ensures Documented(item) <==> Declares(item)
  {
    if item.Parsed? {
      var text, what := item.field.default, "default_factory";
      forall i | 0 <= i <= |text| ensures what <= text[i..] <==> HasAt(text, i, what) {
        assert i + |what| <= |text| ==> text[i..i + |what|] == text[i..][..|what|];
      }
    }
  }

  /** The declared fields are those of the items that declare one, in order. */
  lemma {:induction false} DeclaredExactly(a: seq<Item>, b: seq<Item>)
    ensures DeclaredIn([]) == []
    ensures DeclaredIn(a + b) == DeclaredIn(a) + DeclaredIn(b)
  {
    if b == [] {
      assert a + b == a;
    } else {
      assert (a + b)[..|a + b| - 1] == a + b[..|b| - 1];
      DeclaredExactly(a, b[..|b| - 1]);
    }
  }

  lemma DeclaredByOne(item: Item)
    ensures DeclaredIn([item]) == if Declares(item) then [item.field] else []
  {
    DocumentedExactly(item);
    assert [item][..0] == [];
  }

  /** A known name keeps its place with the new value, a new one goes last. */
  lemma {:induction false} PutExactly(fields: seq<Field>, f: Field, i: nat)
    requires i <= |fields| && forall j | 0 <= j < i :: fields[j].name != f.name
    requires i < |fields| ==> fields[i].name == f.name
    ensures Put(fields, f) == fields[..i] + [f] + if i < |fields| then fields[i + 1..] else []
  {
    if i > 0 {
      PutExactly(fields[1..], f, i - 1);
      assert fields[..i] == [fields[0]] + fields[1..][..i - 1];
      assert i < |fields| ==> fields[1..][i..] == fields[i + 1..];
    }
  }

  /** The error names the class that is met again: the first chain, in the order of the bases, that comes back. */
  lemma {:induction false} ErrorNamesTheClass(node: ClassDef, classes: Table, seen: set<string>)
    requires IsTable(classes) && Resolve(node, classes, seen).ParseError?
    ensures node.name in seen ==> Resolve(node, classes, seen).cls == node.name
    ensures node.name !in seen ==>
              exists k: nat :: k < |node.bases| && IsKnown(node.bases[k], classes) &&
                ResolveBases(node, k, classes, seen + {node.name}).Ok? &&
                Resolve(node, classes, seen) == Resolve(classes[node.bases[k].id], classes, seen + {node.name})
  {
    if node.name !in seen { var k := FirstError(node, |node.bases|, classes, seen + {node.name}); }
  }

  lemma {:induction false} FirstError(node: ClassDef, n: nat, classes: Table, path: set<string>) returns (k: nat)
    requires IsTable(classes) && n <= |node.bases| && node.name in path && ResolveBases(node, n, classes, path).ParseError?
    ensures k < n && IsKnown(node.bases[k], classes) && ResolveBases(node, k, classes, path).Ok?
    ensures ResolveBases(node, n, classes, path) == Resolve(classes[node.bases[k].id], classes, path)
    decreases n
  {
    k := n - 1;
    if ResolveBases(node, n - 1, classes, path).ParseError? { k := FirstError(node, n - 1, classes, path); }
  }
}
