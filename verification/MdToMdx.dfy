/** Markdown to MDX: fence-aware rewriting.  The regular expressions are written out as matchers. */
module MdToMdx {

  import opened TextMatching
  import opened Wrappers

  const TICKS := "```"
  const OPEN := "<!--"
  const CLOSE := "-->"

  // ---------------------------------------------------------------------------------------------
  // Fences
  // ---------------------------------------------------------------------------------------------

  /** `^` followed by three backticks at position `i`; `start` says whether position 0 begins a line. */
  predicate IsMark(text: string, start: bool, i: nat)
    requires i <= |text|
  {
    && TICKS <= text[i..]
    && (if i == 0 then start else text[i - 1] == '\n')
  }

  /** The first mark at or after `i`, or `|text|`. */
  function FirstMark(text: string, start: bool, i: nat): (m: nat)
    requires i <= |text|
    ensures i <= m <= |text|
    ensures m < |text| ==> IsMark(text, start, m)
    ensures forall j | i <= j < m :: !IsMark(text, start, j)
    decreases |text| - i
  {
    if i == |text| then i else if IsMark(text, start, i) then i else FirstMark(text, start, i + 1)
  }

  /** A fenced block, from its first backtick to after its last. */
  datatype Block = Block(from: nat, to: nat)

  /** The leftmost match of ``^```.*?^`````: from the first mark to the next one, both included.  If the first mark
      has no successor then no later one has. */
  function NextBlock(text: string, start: bool): (b: Option<Block>)
    ensures b.Some? ==> b.value.from + 2 * |TICKS| <= b.value.to <= |text|
  {
    var m := FirstMark(text, start, 0);
    if m == |text| then None
    else
      var n := FirstMark(text, start, m + |TICKS|);
      if n == |text| then None else Some(Block(m, n + |TICKS|))
  }

  /** `re.split` on ``(^```.*?^```)``: outside pieces at even positions, blocks at odd ones.  After a block the rest
      of its line does not begin a line. */
  function FenceSplit(text: string, start: bool): (parts: seq<string>)
    decreases |text|
  {
    match NextBlock(text, start)
    case None => [text]
    case Some(b) => [text[..b.from], text[b.from..b.to]] + FenceSplit(text[b.to..], false)
  }

  /** `_apply_outside_fences`'s join: `fn` on the pieces at even positions. */
  function JoinOutside(parts: seq<string>, fn: string -> string): string {
    if parts == [] then ""
    else if |parts| == 1 then fn(parts[0])
    else fn(parts[0]) + parts[1] + JoinOutside(parts[2..], fn)
  }

  function ApplyOutside(text: string, fn: string -> string): string {
    JoinOutside(FenceSplit(text, true), fn)
  }

  // ---------------------------------------------------------------------------------------------
  // Comments
  // ---------------------------------------------------------------------------------------------

  /** The least `m` with `lo <= m <= i` from which everything up to `i` is whitespace. */
  function DropSpaces(text: string, lo: nat, i: nat): (m: nat)
    requires lo <= i <= |text|
    ensures lo <= m <= i
    ensures forall j | m <= j < i :: IsSpace(text[j])
    ensures lo < m ==> !IsSpace(text[m - 1])
    decreases i
  {
    if lo < i && IsSpace(text[i - 1]) then DropSpaces(text, lo, i - 1) else i
  }

  /** A comment: where it opens, its group, and its `-->`. */
  datatype Comment = Comment(open: nat, lo: nat, hi: nat, close: nat)

  /** The leftmost match of `<!--\s*(.*?)\s*-->`.  The first `\s*` is greedy and the group lazy, so the group runs
      from the first non-space to the trailing spaces before the first `-->` after it. */
  function NextComment(text: string): (c: Option<Comment>)
    ensures c.Some? ==>
              var m := c.value; m.open + |OPEN| <= m.lo <= m.hi <= m.close && m.close + |CLOSE| <= |text|
  {
    var open := Find(text, OPEN, 0);
    if open == |text| then None
    else
      var lo := SkipSpaces(text, open + |OPEN|);
      var close := Find(text, CLOSE, lo);
      if close == |text| then None else Some(Comment(open, lo, DropSpaces(text, lo, close), close))
  }

  predicate Spaces(s: string) { forall i | 0 <= i < |s| :: IsSpace(s[i]) }

  /** A match is `<!--`, spaces, the group, spaces, `-->`. */
  lemma CommentShape(text: string)
    requires NextComment(text).Some?
    ensures var m := NextComment(text).value;
      && text[m.open..m.open + |OPEN|] == OPEN && text[m.close..m.close + |CLOSE|] == CLOSE
      && Spaces(text[m.open + |OPEN|..m.lo]) && Spaces(text[m.hi..m.close])
  {
    hide IsSpace, Find, SkipSpaces, DropSpaces;
    var m := NextComment(text).value;
    assert text[m.open..][..|OPEN|] == text[m.open..m.open + |OPEN|];
    assert text[m.close..][..|CLOSE|] == text[m.close..m.close + |CLOSE|];
  }

  /** Every comment replaced by `{/* group */}`. */
  function ConvertComments(text: string): string
    decreases |text|
  {
    match NextComment(text)
    case None => text
    case Some(c) =>
      text[..c.open] + ("{/* " + (text[c.lo..c.hi] + (" */}" + ConvertComments(text[c.close + |CLOSE|..]))))
  }

  /** `convert`: comments first, then admonitions, each outside the fences of its own input. */
  function Convert(text: string, admonitions: string -> string): string {
    ApplyOutside(ApplyOutside(text, ConvertComments), admonitions)
  }
}
