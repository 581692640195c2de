/** When the line-based search and the node-based map name the same function. */
module EnclosingAgreement {
  import opened Wrappers
  import opened EnclosingFunction
  import opened EnclosingFunctionProof

  // ---------------------------------------------------------------------------------------------
  // Functions by position
  // ---------------------------------------------------------------------------------------------

  function NodeAt(n: Ast, pos: Position): Ast
    requires IsIn(n, pos)
    decreases |pos|
  {
    if pos == [] then n else NodeAt(n.children[pos[0]], pos[1..])
  }

  /** The names on the way to a position. */
  function PathTo(n: Ast, path: seq<string>, pos: Position): seq<string>
    requires IsIn(n, pos)
    decreases |pos|
  {
    if pos == [] then path else PathTo(n.children[pos[0]], PathOf(n.children[pos[0]], path), pos[1..])
  }

  predicate IsFunc(n: Ast, pos: Position) { pos != [] && IsIn(n, pos) && NodeAt(n, pos).shape.Func? }

  /** A function on whose lines the given one is. */
  predicate CoversAt(n: Ast, pos: Position, line: nat) { IsFunc(n, pos) && Covers(NodeAt(n, pos), line) }

  /** The innermost function around a position, the node itself not included. */
  function Host(n: Ast, pos: Position): (host: Option<Position>)
    requires pos != [] && IsIn(n, pos)
    ensures host.Some? ==> IsIn(n, host.value)
    decreases |pos|
  {
    if |pos| == 1 then None
    else
      var child := n.children[pos[0]];
      var inner := Host(child, pos[1..]);
      if inner.Some? then Some([pos[0]] + inner.value)
      else if child.shape.Func? then Some([pos[0]])
      else None
  }

  /** The innermost function on a line. */
  function InnermostAt(n: Ast, line: nat): (at: Option<Position>)
    ensures at.Some? ==> IsIn(n, at.value)
    decreases n, 1
  {
    InnermostAtUpTo(n, line, |n.children|)
  }

  function InnermostAtUpTo(n: Ast, line: nat, k: nat): (at: Option<Position>)
    requires k <= |n.children|
    ensures at.Some? ==> IsIn(n, at.value)
    decreases n, 0, k
  {
    if k == 0 then None
    else
      var earlier := InnermostAtUpTo(n, line, k - 1);
      if earlier.Some? then earlier
      else
        var child := n.children[k - 1];
        var inner := InnermostAt(child, line);
        if inner.Some? then Some([k - 1] + inner.value)
        else if child.shape.Func? && Covers(child, line) then Some([k - 1])
        else None
  }

  /** The name of the function at a position, or none. */
  function NameOf(n: Ast, path: seq<string>, at: Option<Position>): Option<string>
    requires at.Some? ==> IsIn(n, at.value)
  {
    if at.None? then None else Some(Dotted(PathTo(n, path, at.value)))
  }

  lemma NameBelow(n: Ast, path: seq<string>, i: nat, at: Position)
    requires i < |n.children| && IsIn(n.children[i], at)
    ensures IsIn(n, [i] + at)
    ensures PathTo(n, path, [i] + at) == PathTo(n.children[i], PathOf(n.children[i], path), at)
    ensures NodeAt(n, [i] + at) == NodeAt(n.children[i], at)
  {
    assert ([i] + at)[1..] == at;
  }

  lemma {:induction false} InnermostHasName(n: Ast, path: seq<string>, line: nat, k: nat)
    requires k <= |n.children|
    ensures InnermostUpTo(n, path, line, k) == NameOf(n, path, InnermostAtUpTo(n, line, k))
    decreases n, k
  {
    if k > 0 {
      var child := n.children[k - 1];
      InnermostHasName(n, path, line, k - 1);
      InnermostHasName(child, PathOf(child, path), line, |child.children|);
      var inner := InnermostAt(child, line);
      NameBelow(n, path, k - 1, if inner.Some? then inner.value else []);
      assert [k - 1] + [] == [k - 1];
    }
  }

  // ---------------------------------------------------------------------------------------------
  // What the two positions are
  // ---------------------------------------------------------------------------------------------

  lemma {:induction false} SpanOf(n: Ast, pos: Position)
    requires IsFunc(n, pos)
    ensures Span(NodeAt(n, pos).line, LastLine(NodeAt(n, pos))) in Spans(n.children[pos[0]])
    decreases |pos|
  {
    var child := n.children[pos[0]];
    if |pos| == 1 {
      assert NodeAt(n, pos) == child;
    } else {
      SpanOf(child, pos[1..]);
      SpansInclude(child, |child.children|, pos[1]);
    }
  }

  lemma {:induction false} SpansInclude(n: Ast, k: nat, i: nat)
    requires i < k <= |n.children|
    ensures Spans(n.children[i]) <= SpansBelow(n, k)
  {
    if i < k - 1 { SpansInclude(n, k - 1, i); }
  }

  /** Of the functions on a line in the first `k` branches, all are on the way to the innermost one. */
  lemma {:induction false} InnermostIsDeepest(n: Ast, line: nat, k: nat, q: Position)
    requires k <= |n.children| && WellNested(n)
    ensures var at := InnermostAtUpTo(n, line, k);
      && (at.Some? ==> at.value != [] && at.value[0] < k && CoversAt(n, at.value, line))
      && (q != [] && q[0] < k && CoversAt(n, q, line) ==> at.Some? && q <= at.value)
    decreases n, k
  {
    hide NodeAt, PathOf, IsFunc, CoversAt;
    if k > 0 {
      var child := n.children[k - 1];
      InnermostIsDeepest(n, line, k - 1, q);
      InnermostIsDeepest(child, line, |child.children|, if q == [] then [] else q[1..]);
      FirstStep(child, line, if q == [] then [] else q[1..]);
      DeepestInBranch(n, line, k, q);
      var earlier := InnermostAtUpTo(n, line, k - 1);
      if earlier.Some? && q != [] && q[0] == k - 1 { NotBoth(n, line, earlier.value, q); }
    }
  }

  lemma FirstStep(n: Ast, line: nat, pos: Position)
    ensures CoversAt(n, pos, line) ==> pos != [] && pos[0] < |n.children|
  {}

  /** What the last branch contributes. */
  function BranchAt(n: Ast, line: nat, k: nat): Option<Position>
    requires 0 < k <= |n.children|
  {
    var child := n.children[k - 1];
    var inner := InnermostAt(child, line);
    if inner.Some? then Some([k - 1] + inner.value)
    else if child.shape.Func? && Covers(child, line) then Some([k - 1])
    else None
  }

  lemma DeepestInBranch(n: Ast, line: nat, k: nat, q: Position)
    requires 0 < k <= |n.children|
    requires var inner := InnermostAt(n.children[k - 1], line); var rest := if q == [] then [] else q[1..];
      && (inner.Some? ==> inner.value != [] && CoversAt(n.children[k - 1], inner.value, line))
      && (rest != [] && CoversAt(n.children[k - 1], rest, line) ==> inner.Some? && rest <= inner.value)
    ensures var at := BranchAt(n, line, k);
      && (at.Some? ==> at.value != [] && at.value[0] == k - 1 && CoversAt(n, at.value, line))
      && (q != [] && q[0] == k - 1 && CoversAt(n, q, line) ==> at.Some? && q <= at.value)
  {
    hide CoversAt, InnermostAt;
    var inner := InnermostAt(n.children[k - 1], line);
    CoversBelow(n, line, k - 1, if inner.Some? then inner.value else []);
    assert [k - 1] + [] == [k - 1];
    if q != [] && q[0] == k - 1 {
      assert q == [k - 1] + q[1..];
      CoversBelow(n, line, k - 1, q[1..]);
    }
  }

  /** Covering below a child. */
  lemma CoversBelow(n: Ast, line: nat, i: nat, at: Position)
    requires i < |n.children|
    ensures CoversAt(n, [i] + at, line) <==>
            if at == [] then n.children[i].shape.Func? && Covers(n.children[i], line) else CoversAt(n.children[i], at, line)
  {
    var pos := [i] + at;
    assert pos[1..] == at && pos[0] == i;
    assert IsIn(n, pos) <==> IsIn(n.children[i], at);
    if IsIn(n, pos) { assert NodeAt(n, pos) == NodeAt(n.children[i], at); }
    assert IsIn(n.children[i], []) && NodeAt(n.children[i], []) == n.children[i];
  }

  /** Functions in different branches do not share a line. */
  lemma NotBoth(n: Ast, line: nat, p: Position, q: Position)
    requires WellNested(n) && CoversAt(n, p, line) && q != [] && p[0] < q[0]
    ensures !CoversAt(n, q, line)
  {
    if CoversAt(n, q, line) {
      SpanOf(n, p);
      SpanOf(n, q);
      var a, b := NodeAt(n, p), NodeAt(n, q);
      hide NodeAt, WellNested, Spans;
      BranchesApart(n, p[0], q[0], Span(a.line, LastLine(a)), Span(b.line, LastLine(b)));
    }
  }

  /** The functions around a position are all on the way to its host. */
  lemma {:induction false} HostIsDeepest(n: Ast, pos: Position, q: Position)
    requires pos != [] && IsIn(n, pos)
    ensures var host := Host(n, pos);
      && (host.Some? ==> IsFunc(n, host.value) && host.value < pos)
      && (q < pos && IsFunc(n, q) ==> host.Some? && q <= host.value)
    decreases |pos|
  {
    if |pos| > 1 {
      var child := n.children[pos[0]];
      HostIsDeepest(child, pos[1..], if q == [] then [] else q[1..]);
      var inner := Host(child, pos[1..]);
      NameBelow(n, [], pos[0], if inner.Some? then inner.value else []);
      assert pos == [pos[0]] + pos[1..] && [pos[0]] + [] == [pos[0]];
      if q != [] && q < pos { assert q == [q[0]] + q[1..] && q[1..] < pos[1..]; }
    }
  }

  // ---------------------------------------------------------------------------------------------
  // The recorded name
  // ---------------------------------------------------------------------------------------------

  /** Identifiers are not empty. */
  ghost predicate Named(n: Ast)
    decreases n
  {
    && (!n.shape.Plain? ==> n.shape.name != "")
    && forall i | 0 <= i < |n.children| :: Named(n.children[i])
  }

  lemma DottedExtends(path: seq<string>, name: string)
    requires name != "" && (path != [] ==> Dotted(path) != "")
    ensures Dotted(path + [name]) == Extended(Dotted(path), name) != ""
  {
    assert (path + [name])[..|path|] == path;
  }

  /** The map records the name of the host. */
  lemma {:induction false} MapRecordsHost(n: Ast, fn: Option<string>, path: seq<string>, pos: Position)
    requires pos != [] && IsIn(n, pos) && Named(n)
    requires path != [] ==> Dotted(path) != ""
    ensures RecordedAt(n, fn, Dotted(path), pos) ==
            OrModule(if Host(n, pos).Some? then NameOf(n, path, Host(n, pos)) else fn)
    decreases |pos|
  {
    if |pos| > 1 {
      var child := n.children[pos[0]];
      if !child.shape.Plain? { DottedExtends(path, child.shape.name); }
      MapRecordsHost(child, FuncOf(child, fn, Dotted(path)), PathOf(child, path), pos[1..]);
      var inner := Host(child, pos[1..]);
      NameBelow(n, path, pos[0], if inner.Some? then inner.value else []);
      assert [pos[0]] + [] == [pos[0]];
    }
  }

  // ---------------------------------------------------------------------------------------------
  // Agreement
  // ---------------------------------------------------------------------------------------------

  /** The functions that cover the line are exactly those around the node. */
  ghost predicate InBody(n: Ast, pos: Position, line: nat) {
    forall q: Position :: CoversAt(n, q, line) <==> q < pos && IsFunc(n, q)
  }

  /** No two functions have one qualified name, and none is called like the module. */
  ghost predicate UniqueNames(n: Ast) {
    && (forall p, q: Position | IsFunc(n, p) && IsFunc(n, q) ::
          Dotted(PathTo(n, [], p)) == Dotted(PathTo(n, [], q)) ==> p == q)
    && (forall p: Position | IsFunc(n, p) :: Dotted(PathTo(n, [], p)) !in {"", "<module>"})
  }

  lemma {:induction false} NestedSpan(n: Ast, pos: Position, p: Position)
    requires WellNested(n) && IsFunc(n, pos) && IsFunc(n, p) && pos < p
    ensures NodeAt(n, pos).line < NodeAt(n, p).line && LastLine(NodeAt(n, p)) <= LastLine(NodeAt(n, pos))
    decreases |pos|
  {
    var child := n.children[pos[0]];
    if |pos| == 1 {
      SpanOf(child, p[1..]);
      SpansInclude(child, |child.children|, p[1]);
    } else {
      assert pos[1..] < p[1..];
      NestedSpan(child, pos[1..], p[1..]);
    }
  }

  /** The functions on the line are those around the node exactly when the innermost of both are one. */
  lemma InBodyExactly(tree: Ast, pos: Position, line: nat)
    requires WellNested(tree) && pos != [] && IsIn(tree, pos)
    ensures InBody(tree, pos, line) <==> Host(tree, pos) == InnermostAt(tree, line)
  {
    hide Host, InnermostAt, NodeAt, WellNested;
    var host, at := Host(tree, pos), InnermostAt(tree, line);
    HostIsDeepest(tree, pos, if at.Some? then at.value else []);
    DeepestOnLine(tree, line, if host.Some? then host.value else []);
    if InBody(tree, pos, line) {
      if host.Some? && at.Some? { Antisymmetric(host.value, at.value); }
    } else if host == at {
      forall q: Position ensures CoversAt(tree, q, line) <==> q < pos && IsFunc(tree, q) {
        HostIsDeepest(tree, pos, q);
        DeepestOnLine(tree, line, q);
        if at.Some? && q <= at.value {
          Antisymmetric(q, at.value);
          assert |q| <= |at.value| < |pos| && forall k | 0 <= k < |q| :: q[k] == at.value[k] == pos[k];
          if q < at.value && IsFunc(tree, q) { NestedSpan(tree, q, at.value); }
        }
      }
    }
  }

  /** The tools agree exactly when the innermost function on the line and the node's host have the same name; with
      unique names, exactly when they are the same function, that is, when the functions on the line are those around
      the node. */
  lemma ToolsAgreeExactly(tree: Ast, pos: Position, line: nat)
    requires WellNested(tree) && Named(tree) && pos != [] && IsIn(tree, pos)
    ensures RecordedAt(tree, None, "", pos) == OrModule(Search(tree, line)) <==>
            OrModule(NameOf(tree, [], Host(tree, pos))) == OrModule(NameOf(tree, [], InnermostAt(tree, line)))
    ensures UniqueNames(tree) ==>
              (RecordedAt(tree, None, "", pos) == OrModule(Search(tree, line)) <==>
               Host(tree, pos) == InnermostAt(tree, line))
    ensures UniqueNames(tree) ==>
              (RecordedAt(tree, None, "", pos) == OrModule(Search(tree, line)) <==> InBody(tree, pos, line))
  {
    InBodyExactly(tree, pos, line);
    hide InBody;
    hide Search, Host, InnermostAt, RecordedAt, PathTo, Dotted;
    Names(tree, pos, line);
    HostIsDeepest(tree, pos, []);
    DeepestOnLine(tree, line, []);
  }

  lemma Names(tree: Ast, pos: Position, line: nat)
    requires WellNested(tree) && Named(tree) && pos != [] && IsIn(tree, pos)
    ensures Search(tree, line) == NameOf(tree, [], InnermostAt(tree, line))
    ensures RecordedAt(tree, None, "", pos) == OrModule(NameOf(tree, [], Host(tree, pos)))
  {
    SearchIsInnermost(tree, line);
    InnermostHasName(tree, [], line, |tree.children|);
    MapRecordsHost(tree, None, [], pos);
  }

  lemma DeepestOnLine(tree: Ast, line: nat, q: Position)
    requires WellNested(tree)
    ensures var at := InnermostAt(tree, line);
      && (at.Some? ==> CoversAt(tree, at.value, line))
      && (CoversAt(tree, q, line) ==> at.Some? && q <= at.value)
  {
    InnermostIsDeepest(tree, line, |tree.children|, q);
  }

  /** For a node in function bodies the line-based search and the node-based map give the same name. */
  lemma ToolsAgree(tree: Ast, pos: Position, line: nat)
    requires WellNested(tree) && Named(tree) && pos != [] && IsIn(tree, pos) && InBody(tree, pos, line)
    ensures Host(tree, pos) == InnermostAt(tree, line)
    ensures RecordedAt(tree, None, "", pos) == OrModule(Search(tree, line))
  {
    hide Search, Host, InnermostAt, RecordedAt, PathTo, Dotted;
    InBodyExactly(tree, pos, line);
    ToolsAgreeExactly(tree, pos, line);
  }

  lemma Antisymmetric(p: Position, q: Position)
    requires p <= q
    ensures q <= p ==> p == q
    ensures p == q || p < q
  {
    assert |p| == |q| ==> p == q;
  }

  /** On the line of a definition the search answers with the function being defined. */
  lemma DefinitionIsInnermost(tree: Ast, pos: Position)
    requires WellNested(tree) && IsIn(tree, pos) && CoversAt(tree, pos, NodeAt(tree, pos).line)
    ensures InnermostAt(tree, NodeAt(tree, pos).line) == Some(pos)
  {
    hide InnermostAt, NodeAt;
    var line := NodeAt(tree, pos).line;
    DeepestOnLine(tree, line, pos);
    var at := InnermostAt(tree, line).value;
    Antisymmetric(pos, at);
    if pos < at { NestedSpan(tree, pos, at); }
  }

  lemma {:induction false} LongerPath(n: Ast, path: seq<string>, host: Position, pos: Position)
    requires Named(n) && host < pos && IsIn(n, pos) && IsIn(n, host) && IsFunc(n, pos)
    requires path != [] ==> Dotted(path) != ""
    ensures |Dotted(PathTo(n, path, host))| < |Dotted(PathTo(n, path, pos))|
    decreases |pos|
  {
    var child := n.children[pos[0]];
    if !child.shape.Plain? { DottedExtends(path, child.shape.name); }
    if |pos| > 1 {
      if host == [] {
        LongerPath(child, PathOf(child, path), [], pos[1..]);
      } else {
        assert host[1..] < pos[1..];
        LongerPath(child, PathOf(child, path), host[1..], pos[1..]);
      }
    }
  }

  /** On every definition the search gives the function's own name and the map the enclosing one's; these are the same
      only for a function of the module that is called like the module. */
  lemma DefinitionsDiffer(tree: Ast, pos: Position)
    requires WellNested(tree) && Named(tree) && IsIn(tree, pos) && CoversAt(tree, pos, NodeAt(tree, pos).line)
    ensures var line, name := NodeAt(tree, pos).line, Dotted(PathTo(tree, [], pos));
      && Search(tree, line) == Some(name)
      && RecordedAt(tree, None, "", pos) == OrModule(NameOf(tree, [], Host(tree, pos)))
      && (RecordedAt(tree, None, "", pos) == OrModule(Search(tree, line)) <==>
          Host(tree, pos).None? && name == "<module>")
  {
    hide Search, Host, InnermostAt, RecordedAt, PathTo, Dotted, NodeAt, Named, WellNested;
    var line := NodeAt(tree, pos).line;
    DefinitionIsInnermost(tree, pos);
    Names(tree, pos, line);
    HostIsDeepest(tree, pos, []);
    LongerPath(tree, [], [], pos);
    var host := Host(tree, pos);
    if host.Some? {
      LongerPath(tree, [], host.value, pos);
      LongerPath(tree, [], [], host.value);
    }
  }
}
