/** Finding the function that encloses a line (by an explicit stack, with caches) or a node (by recursion). */
module EnclosingFunction {
  import opened Wrappers

  datatype Shape = Func(name: string) | Class(name: string) | Plain

  /** A syntax tree node: its first line, its last if recorded, and its children in order. */
  datatype Ast = Ast(shape: Shape, line: nat, end: Option<nat>, children: seq<Ast>)

  /** A function whose span contains the line. */
  datatype Candidate = Candidate(start: nat, qualname: string)

  datatype Entry = Entry(node: Ast, path: seq<string>)

  function LastLine(n: Ast): nat {
    if n.end.Some? && n.end.value != 0 then n.end.value else n.line
  }

  predicate Covers(n: Ast, line: nat) { n.line <= line <= LastLine(n) }

  /** `".".join(names)`. */
  function Dotted(names: seq<string>): string {
    if names == [] then ""
    else if |names| == 1 then names[0]
    else Dotted(names[..|names| - 1]) + "." + names[|names| - 1]
  }

  function PathOf(n: Ast, path: seq<string>): seq<string> {
    if n.shape.Plain? then path else path + [n.shape.name]
  }

  // ---------------------------------------------------------------------------------------------
  // The stack search
  // ---------------------------------------------------------------------------------------------

  function Consider(best: Option<Candidate>, n: Ast, path: seq<string>, line: nat): Option<Candidate> {
    if n.shape.Func? && Covers(n, line) && (best.None? || n.line > best.value.start)
    then Some(Candidate(n.line, Dotted(PathOf(n, path))))
    else best
  }

  function ConsiderAll(best: Option<Candidate>, ns: seq<Ast>, path: seq<string>, line: nat): Option<Candidate> {
    if ns == [] then best
    else Consider(ConsiderAll(best, ns[..|ns| - 1], path, line), ns[|ns| - 1], path, line)
  }

  function Entries(ns: seq<Ast>, path: seq<string>): seq<Entry> {
    seq(|ns|, i requires 0 <= i < |ns| => Entry(ns[i], PathOf(ns[i], path)))
  }

  function Size(n: Ast): nat
    decreases n, 0
  {
    1 + SizeUpTo(n, |n.children|)
  }

  function SizeUpTo(n: Ast, k: nat): nat
    requires k <= |n.children|
    decreases n, 0, k
  {
    if k == 0 then 0 else SizeUpTo(n, k - 1) + Size(n.children[k - 1])
  }

  function StackSize(stack: seq<Entry>): nat {
    if stack == [] then 0 else StackSize(stack[..|stack| - 1]) + Size(stack[|stack| - 1].node)
  }

  lemma {:induction false} StackGrows(stack: seq<Entry>, n: Ast, path: seq<string>, k: nat)
    requires k <= |n.children|
    ensures StackSize(stack + Entries(n.children, path)[..k]) == StackSize(stack) + SizeUpTo(n, k)
  {
    var all := Entries(n.children, path);
    if k == 0 {
      assert stack + all[..0] == stack;
    } else {
      StackGrows(stack, n, path, k - 1);
      assert (stack + all[..k])[..|stack| + k - 1] == stack + all[..k - 1];
    }
  }

  /** The stack once its top entry has been replaced by the entry's children. */
  function Popped(stack: seq<Entry>): (rest: seq<Entry>)
    requires stack != []
    ensures StackSize(rest) < StackSize(stack)
  {
    var top := stack[|stack| - 1];
    StackGrows(stack[..|stack| - 1], top.node, top.path, |top.node.children|);
    assert Entries(top.node.children, top.path)[..|top.node.children|] == Entries(top.node.children, top.path);
    stack[..|stack| - 1] + Entries(top.node.children, top.path)
  }

  /** What the search loop ends with. */
  function SearchFrom(stack: seq<Entry>, line: nat, best: Option<Candidate>): Option<Candidate>
    decreases StackSize(stack)
  {
    if stack == [] then best
    else
      var top := stack[|stack| - 1];
      SearchFrom(Popped(stack), line, ConsiderAll(best, top.node.children, top.path, line))
  }

  function Search(tree: Ast, line: nat): Option<string> {
    var best := SearchFrom([Entry(tree, [])], line, None);
    if best.Some? then Some(best.value.qualname) else None
  }

  // ---------------------------------------------------------------------------------------------
  // The caches
  // ---------------------------------------------------------------------------------------------

  /** What the parser makes of each file: a tree, or nothing if it does not parse or exist. */
  type Sources = map<string, Option<Ast>>

  function Uncached(sources: Sources, rel: string, line: nat): Option<string> {
    if rel !in sources || sources[rel].None? then None else Search(sources[rel].value, line)
  }

  class Finder {
    const sources: Sources
    var functionCache: map<(string, nat), Option<string>>
    var treeCache: map<string, Option<Ast>>

    /** Every cached answer is the one that would be computed afresh. */
    ghost predicate Valid()
      reads this
    {
      && (forall key | key in functionCache :: functionCache[key] == Uncached(sources, key.0, key.1))
      && (forall rel | rel in treeCache :: treeCache[rel] == if rel in sources then sources[rel] else None)
    }

    constructor (sources: Sources)
      ensures Valid() && this.sources == sources && functionCache == map[] && treeCache == map[]
    {
      this.sources := sources;
      functionCache := map[];
      treeCache := map[];
    }

    /** `_parse`. */
    method Parse(rel: string) returns (tree: Option<Ast>)
      requires Valid()
      modifies this`treeCache
      ensures Valid()
      ensures tree == if rel in sources then sources[rel] else None
      ensures rel in treeCache && forall r :: r in old(treeCache) ==> r in treeCache
    {
      if rel !in treeCache {
        treeCache := treeCache[rel := if rel in sources then sources[rel] else None];
      }
      return treeCache[rel];
    }

    /** `_enclosing_function`: whatever was asked before, the answer is the uncached one. */
    method EnclosingFunction(rel: string, line: nat) returns (result: Option<string>)
      requires Valid()
      modifies this
      ensures Valid()
      ensures result == Uncached(sources, rel, line)
      ensures (rel, line) in functionCache && forall key :: key in old(functionCache) ==> key in functionCache
    {
      var key := (rel, line);
      if key in functionCache {
        return functionCache[key];
      }
      var tree := Parse(rel);
      if tree.None? {
        functionCache := functionCache[key := None];
        return None;
      }
      result := SearchTree(tree.value, line);
      functionCache := functionCache[key := result];
    }
  }

  /** One turn of the search: the top entry's children are considered and put in its place. */
  lemma SearchStep(stack: seq<Entry>, line: nat, best: Option<Candidate>)
    requires stack != []
    ensures var top, rest := stack[|stack| - 1], stack[..|stack| - 1];
      var next := rest + Entries(top.node.children, top.path);
      && SearchFrom(stack, line, best) == SearchFrom(next, line, ConsiderAll(best, top.node.children, top.path, line))
      && StackSize(next) < StackSize(stack)
  {
    hide Entries, ConsiderAll;
    assert Popped(stack) == stack[..|stack| - 1] + Entries(stack[|stack| - 1].node.children, stack[|stack| - 1].path);
  }

  method SearchTree(tree: Ast, line: nat) returns (result: Option<string>)
    ensures result == Search(tree, line)
  {
    hide SearchFrom, Covers, Dotted, StackSize;
    var best: Option<Candidate> := None;
    var stack := [Entry(tree, [])];
    while stack != []
      invariant SearchFrom(stack, line, best) == SearchFrom([Entry(tree, [])], line, None)
      decreases StackSize(stack)
    {
      ghost var before, bestBefore := stack, best;
      var top := stack[|stack| - 1];
      stack := stack[..|stack| - 1];
      var children := top.node.children;
      for i := 0 to |children|
        invariant best == ConsiderAll(bestBefore, children[..i], top.path, line)
        invariant stack == before[..|before| - 1] + Entries(children, top.path)[..i]
      {
        var child := children[i];
        assert children[..i + 1][..i] == children[..i];
        var path := if child.shape.Plain? then top.path else top.path + [child.shape.name];
        if child.shape.Func? {
          if Covers(child, line) && (best.None? || child.line > best.value.start) {
            best := Some(Candidate(child.line, Dotted(path)));
          }
        }
        stack := stack + [Entry(child, path)];
      }
      assert children[..|children|] == children;
      assert Entries(children, top.path)[..|children|] == Entries(children, top.path);
      assert stack == before[..|before| - 1] + Entries(children, top.path);
      SearchStep(before, line, bestBefore);
    }
    SearchEnd(line, best);
    result := if best.Some? then Some(best.value.qualname) else None;
  }

  lemma SearchEnd(line: nat, best: Option<Candidate>)
    ensures SearchFrom([], line, best) == best
  {}

  // ---------------------------------------------------------------------------------------------
  // The recursive map
  // ---------------------------------------------------------------------------------------------

  /** A node's place in the tree: the child index taken at each level. */
  type Position = seq<nat>

  predicate IsIn(n: Ast, pos: Position) {
    pos == [] || (pos[0] < |n.children| && IsIn(n.children[pos[0]], pos[1..]))
  }

  function Extended(prefix: string, name: string): string { if prefix == "" then name else prefix + "." + name }

  function PrefixOf(n: Ast, prefix: string): string {
    if n.shape.Plain? then prefix else Extended(prefix, n.shape.name)
  }

  function FuncOf(n: Ast, fn: Option<string>, prefix: string): Option<string> {
    if n.shape.Func? then Some(PrefixOf(n, prefix)) else fn
  }

  function OrModule(fn: Option<string>): string { if fn.Some? && fn.value != "" then fn.value else "<module>" }

  /** What `_enclosing_func_map` records for the node at `pos`. */
  function RecordedAt(n: Ast, fn: Option<string>, prefix: string, pos: Position): string
    requires pos != [] && IsIn(n, pos)
    decreases |pos|
  {
    if |pos| == 1 then OrModule(fn)
    else
      var child := n.children[pos[0]];
      RecordedAt(child, FuncOf(child, fn, prefix), PrefixOf(child, prefix), pos[1..])
  }

  /** `pos` names a node strictly below the one at `at`, which is `n`. */
  predicate IsBelow(n: Ast, at: Position, pos: Position) { at < pos && IsIn(n, pos[|at|..]) }

  /** The first `k` children of `n`, and everything below them, have been recorded on top of `before`. */
  ghost predicate WalkedTo(n: Ast, at: Position, fn: Option<string>, prefix: string, k: nat,
                           before: map<Position, string>, result: map<Position, string>)
  {
    forall pos: Position ::
      && (pos in result <==> pos in before || (IsBelow(n, at, pos) && pos[|at|] < k))
      && (IsBelow(n, at, pos) && pos[|at|] < k ==> result[pos] == RecordedAt(n, fn, prefix, pos[|at|..]))
      && (pos in before && !(IsBelow(n, at, pos) && pos[|at|] < k) ==> result[pos] == before[pos])
  }

  lemma WalkStep(n: Ast, at: Position, fn: Option<string>, prefix: string, k: nat,
                 before: map<Position, string>, middle: map<Position, string>, result: map<Position, string>)
    requires k < |n.children| && WalkedTo(n, at, fn, prefix, k, before, middle)
    requires var child, here := n.children[k], at + [k];
      WalkedTo(child, here, FuncOf(child, fn, prefix), PrefixOf(child, prefix), |child.children|,
               middle[here := OrModule(fn)], result)
    ensures WalkedTo(n, at, fn, prefix, k + 1, before, result)
  {
    var child: Ast, here: Position := n.children[k], at + [k];
    forall pos: Position
      ensures
        && (pos in result <==> pos in before || (IsBelow(n, at, pos) && pos[|at|] < k + 1))
        && (IsBelow(n, at, pos) && pos[|at|] < k + 1 ==> result[pos] == RecordedAt(n, fn, prefix, pos[|at|..]))
        && (pos in before && !(IsBelow(n, at, pos) && pos[|at|] < k + 1) ==> result[pos] == before[pos])
    {
      BelowChild(n, at, pos, k);
      if IsBelow(child, here, pos) { assert pos[|here|] < |child.children| by { assert pos[|here|..] != []; } }
    }
  }

  /** Below `n`, through child `k`: the child itself, or below the child. */
  lemma BelowChild(n: Ast, at: Position, pos: Position, k: nat)
    requires k < |n.children|
    ensures IsBelow(n, at, pos) && pos[|at|] == k <==> pos == at + [k] || IsBelow(n.children[k], at + [k], pos)
    ensures IsBelow(n, at, pos) && pos[|at|] == k && pos != at + [k] ==> pos[|at|..][1..] == pos[|at| + 1..]
  {
    var here: Position, child := at + [k], n.children[k];
    if pos == here || IsBelow(child, here, pos) {
      assert here <= pos && pos[..|here|] == here;
      assert at == here[..|at|] == pos[..|at|] && pos[|at|] == here[|at|] == k;
      var tail := pos[|at|..];
      assert tail != [] && tail[0] == k && tail[1..] == pos[|here|..];
      assert IsIn(child, tail[1..]);
      assert at < pos && IsIn(n, tail);
    }
    if IsBelow(n, at, pos) && pos[|at|] == k {
      var tail := pos[|at|..];
      assert tail != [] && tail[0] == k && tail[1..] == pos[|here|..];
      assert here == pos[..|here|];
      if pos != here { assert here < pos; }
    }
  }

  /** `_enclosing_func_map`'s inner `walk`, below the node at `at`. */
  method Walk(n: Ast, at: Position, fn: Option<string>, prefix: string, before: map<Position, string>)
    returns (result: map<Position, string>)
    ensures WalkedTo(n, at, fn, prefix, |n.children|, before, result)
    decreases n
  {
    result := before;
    for k := 0 to |n.children|
      invariant WalkedTo(n, at, fn, prefix, k, before, result)
    {
      var child: Ast, here: Position := n.children[k], at + [k];
      ghost var middle := result;
      result := result[here := OrModule(fn)];
      result := Walk(child, here, FuncOf(child, fn, prefix), PrefixOf(child, prefix), result);
      WalkStep(n, at, fn, prefix, k, before, middle, result);
    }
  }

  method EnclosingFuncMap(tree: Ast) returns (result: map<Position, string>)
    ensures forall pos :: pos in result <==> pos != [] && IsIn(tree, pos)
    ensures forall pos :: pos in result ==> result[pos] == RecordedAt(tree, None, "", pos)
  {
    result := Walk(tree, [], None, "", map[]);
    forall pos: Position ensures IsBelow(tree, [], pos) <==> pos != [] && IsIn(tree, pos) {
      assert pos[0..] == pos;
    }
  }
}
