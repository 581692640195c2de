/** On well-nested spans the stack search finds the innermost enclosing function, and for nodes in function bodies
    it agrees with the recursive map. */
module EnclosingFunctionProof {
  import opened EnclosingFunction
  import opened Wrappers

  // ---------------------------------------------------------------------------------------------
  // The functions whose span contains a line
  // ---------------------------------------------------------------------------------------------

  function Own(n: Ast, path: seq<string>, line: nat): set<Candidate> {
    if n.shape.Func? && Covers(n, line) then {Candidate(n.line, Dotted(PathOf(n, path)))} else {}
  }

  /** The functions strictly below `n` that contain the line; `path` is the path of `n`. */
  function Below(n: Ast, path: seq<string>, line: nat): set<Candidate>
    decreases n, 1
  {
    BelowUpTo(n, path, line, |n.children|)
  }

  function BelowUpTo(n: Ast, path: seq<string>, line: nat, k: nat): set<Candidate>
    requires k <= |n.children|
    decreases n, 0, k
  {
    if k == 0 then {}
    else
      var child := n.children[k - 1];
      BelowUpTo(n, path, line, k - 1) + Own(child, path, line) + Below(child, PathOf(child, path), line)
  }

  function OnStack(stack: seq<Entry>, line: nat): set<Candidate> {
    if stack == [] then {}
    else OnStack(stack[..|stack| - 1], line) + Below(stack[|stack| - 1].node, stack[|stack| - 1].path, line)
  }

  /** `best` is a candidate with the latest start, and absent only if there is none. */
  ghost predicate IsBest(best: Option<Candidate>, all: set<Candidate>) {
    match best
    case None => all == {}
    case Some(c) => c in all && forall d :: d in all ==> d.start <= c.start
  }

  lemma {:induction false} ConsiderAllKeepsBest(best: Option<Candidate>, seen: set<Candidate>, n: Ast,
                                                path: seq<string>, line: nat, k: nat)
    requires k <= |n.children| && IsBest(best, seen)
    ensures IsBest(ConsiderAll(best, n.children[..k], path, line), seen + OwnUpTo(n, path, line, k))
  {
    if k > 0 {
      ConsiderAllKeepsBest(best, seen, n, path, line, k - 1);
      assert n.children[..k][..k - 1] == n.children[..k - 1];
      ConsiderKeepsBest(ConsiderAll(best, n.children[..k - 1], path, line), seen + OwnUpTo(n, path, line, k - 1),
                        n.children[k - 1], path, line);
      assert seen + OwnUpTo(n, path, line, k) ==
             seen + OwnUpTo(n, path, line, k - 1) + Own(n.children[k - 1], path, line);
    } else {
      assert seen + {} == seen;
    }
  }

  lemma ConsiderKeepsBest(best: Option<Candidate>, seen: set<Candidate>, n: Ast, path: seq<string>, line: nat)
    requires IsBest(best, seen)
    ensures IsBest(Consider(best, n, path, line), seen + Own(n, path, line))
  {
    assert Own(n, path, line) == {} ==> seen + Own(n, path, line) == seen;
  }

  function OwnUpTo(n: Ast, path: seq<string>, line: nat, k: nat): set<Candidate>
    requires k <= |n.children|
  {
    if k == 0 then {} else OwnUpTo(n, path, line, k - 1) + Own(n.children[k - 1], path, line)
  }

  lemma {:induction false} EntriesHoldTheRest(stack: seq<Entry>, n: Ast, path: seq<string>, line: nat, k: nat)
    requires k <= |n.children|
    ensures OnStack(stack + Entries(n.children, path)[..k], line) + OwnUpTo(n, path, line, k) ==
            OnStack(stack, line) + BelowUpTo(n, path, line, k)
  {
    hide OnStack, Own, Below, PathOf;
    var entries := Entries(n.children, path);
    if k == 0 {
      assert stack + entries[..0] == stack;
    } else {
      var child := n.children[k - 1];
      var rest := stack + entries[..k - 1];
      EntriesHoldTheRest(stack, n, path, line, k - 1);
      assert stack + entries[..k] == rest + [Entry(child, PathOf(child, path))];
      OnStackPush(rest, Entry(child, PathOf(child, path)), line);
      assert BelowUpTo(n, path, line, k) ==
             BelowUpTo(n, path, line, k - 1) + Own(child, path, line) + Below(child, PathOf(child, path), line);
      assert OwnUpTo(n, path, line, k) == OwnUpTo(n, path, line, k - 1) + Own(child, path, line);
      Regroup(OnStack(rest, line), OwnUpTo(n, path, line, k - 1), OnStack(stack, line),
              BelowUpTo(n, path, line, k - 1), Own(child, path, line), Below(child, PathOf(child, path), line));
    }
  }

  lemma OnStackPush(stack: seq<Entry>, e: Entry, line: nat)
    ensures OnStack(stack + [e], line) == OnStack(stack, line) + Below(e.node, e.path, line)
  {
    assert (stack + [e])[..|stack|] == stack;
  }

  lemma Regroup<T>(a: set<T>, o: set<T>, s: set<T>, b: set<T>, x: set<T>, w: set<T>)
    requires a + o == s + b
    ensures a + w + (o + x) == s + (b + x + w)
  {
    assert a + w + (o + x) == a + o + (x + w);
  }

  /** The search looks at every function once: it ends with a best candidate of all. */
  lemma {:induction false} SearchFindsBest(stack: seq<Entry>, line: nat, best: Option<Candidate>, seen: set<Candidate>)
    requires IsBest(best, seen)
    ensures IsBest(SearchFrom(stack, line, best), seen + OnStack(stack, line))
    decreases StackSize(stack)
  {
    if stack == [] {
      assert seen + OnStack(stack, line) == seen;
    } else {
      var top, rest := stack[|stack| - 1], stack[..|stack| - 1];
      var n, path := top.node, top.path;
      var all := |n.children|;
      assert n.children[..all] == n.children && Entries(n.children, path)[..all] == Entries(n.children, path);
      ConsiderAllKeepsBest(best, seen, n, path, line, all);
      EntriesHoldTheRest(rest, n, path, line, all);
      SearchFindsBest(Popped(stack), line, ConsiderAll(best, n.children, path, line), seen + OwnUpTo(n, path, line, all));
      assert seen + OwnUpTo(n, path, line, all) + OnStack(Popped(stack), line) == seen + OnStack(stack, line);
    }
  }

  // ---------------------------------------------------------------------------------------------
  // Well-nested spans
  // ---------------------------------------------------------------------------------------------

  datatype Span = Span(first: nat, last: nat)

  /** The spans of the functions in the tree of `n`, itself included. */
  function Spans(n: Ast): set<Span>
    decreases n, 1
  {
    (if n.shape.Func? then {Span(n.line, LastLine(n))} else {}) + SpansBelow(n, |n.children|)
  }

  function SpansBelow(n: Ast, k: nat): set<Span>
    requires k <= |n.children|
    decreases n, 0, k
  {
    if k == 0 then {} else SpansBelow(n, k - 1) + Spans(n.children[k - 1])
  }

  predicate Apart(a: Span, b: Span) { a.last < b.first || b.last < a.first }

  /** A nested function begins on a later line than its host and ends no later; functions in different subtrees
      share no line. */
  ghost predicate WellNested(n: Ast)
    decreases n
  {
    && (n.shape.Func? ==> forall s :: s in SpansBelow(n, |n.children|) ==> n.line < s.first && s.last <= LastLine(n))
    && (forall i | 0 <= i < |n.children| :: WellNested(n.children[i]))
    && (forall i, j | 0 <= i < j < |n.children| ::
          forall a, b :: a in Spans(n.children[i]) && b in Spans(n.children[j]) ==> Apart(a, b))
  }

  /** The innermost function below `n` whose span contains the line: down the first branch that has one. */
  function Innermost(n: Ast, path: seq<string>, line: nat): Option<string>
    decreases n, 1
  {
    InnermostUpTo(n, path, line, |n.children|)
  }

  function InnermostUpTo(n: Ast, path: seq<string>, line: nat, k: nat): Option<string>
    requires k <= |n.children|
    decreases n, 0, k
  {
    if k == 0 then None
    else
      var earlier := InnermostUpTo(n, path, line, k - 1);
      if earlier.Some? then earlier else
        var child := n.children[k - 1];
        var inner := Innermost(child, PathOf(child, path), line);
        if inner.Some? then inner
        else if child.shape.Func? && Covers(child, line) then Some(Dotted(PathOf(child, path)))
        else None
  }

  /** Every candidate comes from a function span that contains the line. */
  lemma {:induction false} CandidateHasSpan(n: Ast, path: seq<string>, line: nat, k: nat, c: Candidate)
    requires k <= |n.children| && c in BelowUpTo(n, path, line, k)
    ensures exists s :: s in SpansBelow(n, k) && s.first == c.start && s.first <= line <= s.last
    decreases n, k
  {
    var child := n.children[k - 1];
    if c in BelowUpTo(n, path, line, k - 1) {
      CandidateHasSpan(n, path, line, k - 1, c);
      var s :| s in SpansBelow(n, k - 1) && s.first == c.start && s.first <= line <= s.last;
      assert s in SpansBelow(n, k);
    } else if c in Own(child, path, line) {
      assert Span(child.line, LastLine(child)) in Spans(child);
    } else {
      CandidateHasSpan(child, PathOf(child, path), line, |child.children|, c);
      var s :| s in SpansBelow(child, |child.children|) && s.first == c.start && s.first <= line <= s.last;
      assert s in Spans(child);
    }
  }

  /** The one candidate that starts after all the others, named `name`; or no candidate. */
  ghost predicate Unique(name: Option<string>, all: set<Candidate>) {
    match name
    case None => all == {}
    case Some(q) => exists c :: c in all && c.qualname == q && forall d :: d in all && d != c ==> d.start < c.start
  }

  /** What is at or below child `k - 1`. */
  function Branch(n: Ast, path: seq<string>, line: nat, k: nat): set<Candidate>
    requires 0 < k <= |n.children|
  {
    Own(n.children[k - 1], path, line) + Below(n.children[k - 1], PathOf(n.children[k - 1], path), line)
  }

  lemma BranchHasSpan(n: Ast, path: seq<string>, line: nat, k: nat, c: Candidate)
    requires 0 < k <= |n.children| && c in Branch(n, path, line, k)
    ensures exists s :: s in Spans(n.children[k - 1]) && s.first == c.start && s.first <= line <= s.last
  {
    var child := n.children[k - 1];
    if c in Own(child, path, line) {
      assert Span(child.line, LastLine(child)) in Spans(child);
    } else {
      CandidateHasSpan(child, PathOf(child, path), line, |child.children|, c);
    }
  }

  lemma {:induction false} SpanOfBranch(n: Ast, k: nat, s: Span) returns (i: nat)
    requires k <= |n.children| && s in SpansBelow(n, k)
    ensures i < k && s in Spans(n.children[i])
  {
    if s in Spans(n.children[k - 1]) { i := k - 1; } else { i := SpanOfBranch(n, k - 1, s); }
  }

  lemma BranchesApart(n: Ast, i: nat, j: nat, a: Span, b: Span)
    requires WellNested(n) && i < j < |n.children| && a in Spans(n.children[i]) && b in Spans(n.children[j])
    ensures Apart(a, b)
  {}

  /** Two different branches cannot both contain the line. */
  lemma OneBranch(n: Ast, path: seq<string>, line: nat, k: nat)
    requires 0 < k <= |n.children| && WellNested(n)
    ensures BelowUpTo(n, path, line, k - 1) == {} || Branch(n, path, line, k) == {}
  {
    var earlier, branch := BelowUpTo(n, path, line, k - 1), Branch(n, path, line, k);
    if earlier != {} && branch != {} {
      var c :| c in earlier;
      CandidateHasSpan(n, path, line, k - 1, c);
      var a :| a in SpansBelow(n, k - 1) && a.first == c.start && a.first <= line <= a.last;
      var i := SpanOfBranch(n, k - 1, a);
      var d :| d in branch;
      BranchHasSpan(n, path, line, k, d);
      var b :| b in Spans(n.children[k - 1]) && b.first == d.start && b.first <= line <= b.last;
      BranchesApart(n, i, k - 1, a, b);
    }
  }

  /** A function's own candidate starts before those below it. */
  lemma BranchIsUnique(n: Ast, path: seq<string>, line: nat, k: nat, inner: Option<string>)
    requires 0 < k <= |n.children| && WellNested(n.children[k - 1])
    requires inner == Innermost(n.children[k - 1], PathOf(n.children[k - 1], path), line)
    requires Unique(inner, Below(n.children[k - 1], PathOf(n.children[k - 1], path), line))
    ensures var child := n.children[k - 1];
      Unique(if inner.Some? then inner
             else if child.shape.Func? && Covers(child, line) then Some(Dotted(PathOf(child, path))) else None,
             Branch(n, path, line, k))
  {
    var child := n.children[k - 1];
    var below := Below(child, PathOf(child, path), line);
    if inner.Some? {
      var c :| c in below && c.qualname == inner.value && forall d :: d in below && d != c ==> d.start < c.start;
      CandidateHasSpan(child, PathOf(child, path), line, |child.children|, c);
      assert c in Branch(n, path, line, k);
    } else if child.shape.Func? && Covers(child, line) {
      assert Candidate(child.line, Dotted(PathOf(child, path))) in Branch(n, path, line, k);
    }
  }

  lemma {:induction false} InnermostIsUnique(n: Ast, path: seq<string>, line: nat, k: nat)
    requires k <= |n.children| && WellNested(n)
    ensures Unique(InnermostUpTo(n, path, line, k), BelowUpTo(n, path, line, k))
    decreases n, k
  {
    if k > 0 {
      var child := n.children[k - 1];
      InnermostIsUnique(n, path, line, k - 1);
      InnermostIsUnique(child, PathOf(child, path), line, |child.children|);
      BranchIsUnique(n, path, line, k, Innermost(child, PathOf(child, path), line));
      OneBranch(n, path, line, k);
      assert BelowUpTo(n, path, line, k) == BelowUpTo(n, path, line, k - 1) + Branch(n, path, line, k);
      if BelowUpTo(n, path, line, k - 1) == {} {
        assert BelowUpTo(n, path, line, k) == Branch(n, path, line, k);
      } else {
        assert BelowUpTo(n, path, line, k) == BelowUpTo(n, path, line, k - 1);
      }
    }
  }

  /** The stack search returns the qualified name of the innermost enclosing function. */
  lemma SearchIsInnermost(tree: Ast, line: nat)
    requires WellNested(tree)
    ensures Search(tree, line) == Innermost(tree, [], line)
  {
    var stack := [Entry(tree, [])];
    SearchFindsBest(stack, line, None, {});
    assert stack[..0] == [];
    assert {} + OnStack(stack, line) == Below(tree, [], line);
    InnermostIsUnique(tree, [], line, |tree.children|);
    var best := SearchFrom(stack, line, None);
    var name := Innermost(tree, [], line);
    if name.Some? {
      var c :| c in Below(tree, [], line) && c.qualname == name.value &&
               forall d :: d in Below(tree, [], line) && d != c ==> d.start < c.start;
      assert best.Some? && best.value == c;
    }
  }

  // ---------------------------------------------------------------------------------------------
  // The answers spelled out
  // ---------------------------------------------------------------------------------------------

  /** A function covers the lines from its first to its last, its first for want of a last. */
  lemma CoversExactly(n: Ast, line: nat)
    ensures n.end.None? || n.end == Some(0) ==> (Covers(n, line) <==> line == n.line)
    ensures n.end.Some? && n.end != Some(0) ==> (Covers(n, line) <==> n.line <= line <= n.end.value)
  {}

  /** A qualified name is the names of the classes and functions on the way, joined by dots. */
  lemma QualnamesExactly(n: Ast, path: seq<string>, name: string, prefix: string)
    ensures Dotted([]) == "" && Dotted([name]) == name
    ensures path != [] ==> Dotted(path + [name]) == Dotted(path) + "." + name
    ensures n.shape == Func(name) || n.shape == Class(name) ==>
              PathOf(n, path) == path + [name] && PrefixOf(n, prefix) == if prefix == "" then name else prefix + "." + name
    ensures n.shape.Plain? ==> PathOf(n, path) == path && PrefixOf(n, prefix) == prefix
  {
    assert (path + [name])[..|path|] == path;
  }

  /** Only a function becomes the one around the nodes below it; without one they are the module's. */
  lemma RecordedExactly(n: Ast, fn: Option<string>, prefix: string)
    ensures FuncOf(n, fn, prefix) == if n.shape.Func? then Some(PrefixOf(n, prefix)) else fn
    ensures OrModule(fn) == if fn.None? || fn == Some("") then "<module>" else fn.value
  {}

  /** A file that is missing or does not parse has no function; any other is searched. */
  lemma UncachedExactly(sources: Sources, rel: string, line: nat)
    ensures rel in sources && sources[rel].Some? ==> Uncached(sources, rel, line) == Search(sources[rel].value, line)
    ensures rel !in sources || sources[rel].None? ==> Uncached(sources, rel, line) == None
  {}
}
