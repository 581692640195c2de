/** The two passes of `convert` fuse into one: the fences found by the second pass are those of the original text. */
module MdToMdxProof {
  import opened MdToMdx
  import opened TextMatching
  import opened Wrappers

  // ---------------------------------------------------------------------------------------------
  // Counting marks
  // ---------------------------------------------------------------------------------------------

  /** The marks in `s`, whose first character begins a line if `start`. */
  function Marks(start: bool, s: string): nat
    decreases |s|
  {
    if s == "" then 0 else (if start && TICKS <= s then 1 else 0) + Marks(s[0] == '\n', s[1..])
  }

  /** Whether what follows `s` begins a line. */
  function After(start: bool, s: string): bool {
    if s == "" then start else s[|s| - 1] == '\n'
  }

  lemma TicksWithin(a: string, b: string)
    requires b == "" || b[0] != '`'
    ensures TICKS <= a + b <==> TICKS <= a
  {
    if b != "" {
      assert (a + b)[|a|] == b[0];
    }
  }

  lemma {:induction false} MarksConcat(start: bool, a: string, b: string)
    requires b == "" || b[0] != '`'
    ensures Marks(start, a + b) == Marks(start, a) + Marks(After(start, a), b)
    decreases |a|
  {
    if a == "" {
      assert a + b == b;
    } else {
      assert (a + b)[1..] == a[1..] + b;
      MarksConcat(a[0] == '\n', a[1..], b);
      TicksWithin(a, b);
    }
  }

  /** A stretch without backticks holds no mark. */
  lemma {:induction false} TicklessPrefix(start: bool, a: string, x: string)
    requires forall i | 0 <= i < |a| :: a[i] != '`'
    ensures Marks(start, a + x) == Marks(After(start, a), x)
    decreases |a|
  {
    if a == "" {
      assert a + x == x;
    } else {
      assert (a + x)[1..] == a[1..] + x;
      assert (a + x)[0] == a[0];
      TicklessPrefix(a[0] == '\n', a[1..], x);
    }
  }

  lemma MoreMarksAtLineStart(start: bool, s: string)
    ensures Marks(false, s) <= Marks(start, s)
  {}

  lemma {:induction false} FirstMarkCounts(text: string, start: bool, i: nat)
    requires i <= |text|
    ensures var m := FirstMark(text, start, i);
      Marks(After(start, text[..i]), text[i..]) ==
      if m == |text| then 0 else 1 + Marks(false, text[m + |TICKS|..])
    decreases |text| - i
  {
    if i < |text| {
      if IsMark(text, start, i) {
        MarkHere(text[i..]);
        assert text[i..][|TICKS|..] == text[i + |TICKS|..];
      } else {
        assert text[i..][1..] == text[i + 1..] && text[..i + 1][i] == text[i];
        FirstMarkCounts(text, start, i + 1);
      }
    }
  }

  lemma MarkHere(s: string)
    requires TICKS <= s
    ensures Marks(true, s) == 1 + Marks(false, s[|TICKS|..])
  {
    var body := s[|TICKS|..];
    assert s[1..] == "``" + body;
    assert s[0] == '`';
    TicklessMark(body);
  }

  lemma TicklessMark(body: string)
    ensures Marks(false, "``" + body) == Marks(false, body)
  {
    assert ("``" + body)[1..] == "`" + body && ("`" + body)[1..] == body;
  }

  // ---------------------------------------------------------------------------------------------
  // Converting comments creates no mark and keeps a final line break
  // ---------------------------------------------------------------------------------------------

  lemma {:induction false} ConvertAddsNoMarks(start: bool, p: string)
    ensures Marks(start, ConvertComments(p)) <= Marks(start, p)
    decreases |p|
  {
    hide Marks, NextComment, Spaces;
    if NextComment(p).Some? {
      var c := NextComment(p).value;
      var group, rest := p[c.lo..c.hi], p[c.close + |CLOSE|..];
      ConvertAddsNoMarks(false, rest);
      CommentShape(p);
      SourceMarks(start, p, c);
      TargetMarks(start, p[..c.open], group, ConvertComments(rest));
    }
  }

  lemma Cut(s: string, i: nat, j: nat)
    requires i <= j <= |s|
    ensures s[i..] == s[i..j] + s[j..]
  {}

  lemma CommentParts(p: string, c: Comment)
    requires c.open + |OPEN| <= c.lo <= c.hi <= c.close && c.close + |CLOSE| <= |p|
    requires p[c.open..c.open + |OPEN|] == OPEN && p[c.close..c.close + |CLOSE|] == CLOSE
    ensures p == p[..c.open] + (OPEN + p[c.open + |OPEN|..c.lo] +
                                (p[c.lo..c.hi] + (p[c.hi..c.close] + CLOSE + p[c.close + |CLOSE|..])))
  {
    FiveParts(p, c.open, c.open + |OPEN|, c.lo, c.hi, c.close, c.close + |CLOSE|);
  }

  lemma FiveParts(p: string, a: nat, b: nat, c: nat, d: nat, e: nat, f: nat)
    requires a <= b <= c <= d <= e <= f <= |p|
    ensures p == p[..a] + (p[a..b] + p[b..c] + (p[c..d] + (p[d..e] + p[e..f] + p[f..])))
  {
    Cut(p, e, f);
    Cut(p, d, e);
    Assoc(p[d..e], p[e..f], p[f..]);
    Cut(p, c, d);
    Cut(p, b, c);
    Cut(p, a, b);
    Assoc(p[a..b], p[b..c], p[c..]);
    Cut(p, 0, a);
  }

  lemma Assoc(x: string, y: string, z: string)
    ensures x + y + z == x + (y + z)
  {}

  lemma SourceMarks(start: bool, p: string, c: Comment)
    requires c.open + |OPEN| <= c.lo <= c.hi <= c.close && c.close + |CLOSE| <= |p|
    requires p[c.open..c.open + |OPEN|] == OPEN && p[c.close..c.close + |CLOSE|] == CLOSE
    requires Spaces(p[c.open + |OPEN|..c.lo]) && Spaces(p[c.hi..c.close])
    ensures Marks(start, p) >=
            Marks(start, p[..c.open]) + Marks(false, p[c.lo..c.hi]) + Marks(false, p[c.close + |CLOSE|..])
  {
    CommentParts(p, c);
    PartsMarks(start, p[..c.open], p[c.open + |OPEN|..c.lo], p[c.lo..c.hi], p[c.hi..c.close], p[c.close + |CLOSE|..]);
  }

  lemma PartsMarks(start: bool, pre: string, before: string, group: string, behind: string, rest: string)
    requires Spaces(before) && Spaces(behind)
    ensures Marks(start, pre + (OPEN + before + (group + (behind + CLOSE + rest)))) >=
            Marks(start, pre) + Marks(false, group) + Marks(false, rest)
  {
    var tail := behind + CLOSE + rest;
    MarksConcat(start, pre, OPEN + before + (group + tail));
    TicklessPrefix(After(start, pre), OPEN + before, group + tail);
    MoreMarksAtLineStart(After(After(start, pre), OPEN + before), group + tail);
    MarksConcat(false, group, tail);
    TicklessPrefix(After(false, group), behind + CLOSE, rest);
  }

  lemma TargetMarks(start: bool, pre: string, group: string, rest: string)
    ensures Marks(start, pre + ("{/* " + (group + (" */}" + rest)))) ==
            Marks(start, pre) + Marks(false, group) + Marks(false, rest)
  {
    MarksConcat(start, pre, "{/* " + (group + (" */}" + rest)));
    TicklessPrefix(After(start, pre), "{/* ", group + (" */}" + rest));
    MarksConcat(false, group, " */}" + rest);
    TicklessPrefix(After(false, group), " */}", rest);
  }

  lemma {:induction false} ConvertKeepsLineEnd(p: string)
    requires p != "" && p[|p| - 1] == '\n'
    ensures var q := ConvertComments(p); q != "" && q[|q| - 1] == '\n'
    decreases |p|
  {
    if NextComment(p).Some? {
      var c := NextComment(p).value;
      var rest := p[c.close + |CLOSE|..];
      CommentShape(p);
      assert p[c.close..c.close + |CLOSE|][2] == p[c.close + 2];
      ConvertKeepsLineEnd(rest);
    }
  }

  // ---------------------------------------------------------------------------------------------
  // Splitting what was joined
  // ---------------------------------------------------------------------------------------------

  function MapOutside(parts: seq<string>, fn: string -> string): seq<string> {
    if parts == [] then []
    else if |parts| == 1 then [fn(parts[0])]
    else [fn(parts[0]), parts[1]] + MapOutside(parts[2..], fn)
  }

  function Joined(parts: seq<string>): string {
    if parts == [] then "" else parts[0] + Joined(parts[1..])
  }

  lemma {:induction false} JoinOutsideIsJoined(parts: seq<string>, fn: string -> string)
    ensures JoinOutside(parts, fn) == Joined(MapOutside(parts, fn))
  {
    if |parts| >= 2 {
      var mapped := MapOutside(parts, fn);
      JoinOutsideIsJoined(parts[2..], fn);
      assert mapped[1..][1..] == MapOutside(parts[2..], fn);
      assert mapped[1..][0] == parts[1];
    }
  }

  /** The text splits into pieces whose join is the text. */
  lemma {:induction false} SplitLosesNothing(text: string, start: bool)
    ensures Joined(FenceSplit(text, start)) == text
    decreases |text|
  {
    if NextBlock(text, start).Some? {
      var b := NextBlock(text, start).value;
      SplitLosesNothing(text[b.to..], false);
      JoinedPair(text[..b.from], text[b.from..b.to], FenceSplit(text[b.to..], false));
    }
  }

  lemma JoinedPair(p: string, f: string, rest: seq<string>)
    ensures Joined([p, f] + rest) == p + f + Joined(rest)
  {
    var all := [p, f] + rest;
    assert all[1..][1..] == rest && all[1..][0] == f;
  }

  /** At most one mark: the text is one outside piece. */
  lemma FewMarksOnePiece(text: string, start: bool)
    ensures Marks(start, text) <= 1 <==> FenceSplit(text, start) == [text]
  {
    assert text[..0] == "" && text[0..] == text;
    FirstMarkCounts(text, start, 0);
    var m := FirstMark(text, start, 0);
    if m < |text| {
      assert After(start, text[..m + |TICKS|]) == false by { assert text[m..][2] == '`'; }
      FirstMarkCounts(text, start, m + |TICKS|);
    }
  }

  /** A block: a mark at its beginning, the next one three characters before its end. */
  predicate IsBlock(f: string) {
    && |f| >= 2 * |TICKS|
    && IsMark(f, true, 0)
    && IsMark(f, true, |f| - |TICKS|)
    && forall i | |TICKS| <= i < |f| - |TICKS| :: !IsMark(f, true, i)
  }

  predicate EndsLine(start: bool, p: string) {
    if p == "" then start else p[|p| - 1] == '\n'
  }

  /** A markless piece that ends a line, a block and anything else split into just those. */
  lemma SplitOff(p: string, f: string, r: string, start: bool)
    requires EndsLine(start, p) && Marks(start, p) == 0 && IsBlock(f)
    ensures FenceSplit(p + f + r, start) == [p, f] + FenceSplit(r, false)
  {
    var text := p + f + r;
    BlockFound(p, f, r, start);
    assert text[..|p|] == p && text[|p|..|p| + |f|] == f && text[|p| + |f|..] == r;
  }

  lemma BlockFound(p: string, f: string, r: string, start: bool)
    requires EndsLine(start, p) && Marks(start, p) == 0 && IsBlock(f)
    ensures NextBlock(p + f + r, start) == Some(Block(|p|, |p| + |f|))
  {
    NoMarkBefore(p, f, r, start);
    MarksOfBlock(p, f, r, start);
    hide IsMark, NextBlock, Marks, EndsLine;
    var text := p + f + r;
    assert |text| == |p| + |f| + |r|;
    TwoMarks(text, start, |p|, |p| + |f| - |TICKS|);
  }

  lemma TwoMarks(text: string, start: bool, m: nat, n: nat)
    requires m + |TICKS| <= n < |text| && IsMark(text, start, m) && IsMark(text, start, n)
    requires forall j | 0 <= j < m :: !IsMark(text, start, j)
    requires forall j | m + |TICKS| <= j < n :: !IsMark(text, start, j)
    ensures NextBlock(text, start) == Some(Block(m, n + |TICKS|))
  {
    hide IsMark, FirstMark;
    assert FirstMark(text, start, 0) == m;
    assert FirstMark(text, start, m + |TICKS|) == n;
  }

  lemma NoMarkBefore(p: string, f: string, r: string, start: bool)
    requires EndsLine(start, p) && Marks(start, p) == 0
    ensures forall i | 0 <= i < |p| :: !IsMark(p + f + r, start, i)
  {
    var text := p + f + r;
    forall i | 0 <= i < |p| ensures !IsMark(text, start, i) {
      if IsMark(text, start, i) {
        assert text[i..][0] == text[i] && text[i..][1] == text[i + 1] && text[i..][2] == text[i + 2];
        assert i + 2 < |p|;
        assert p[i..] == [text[i], text[i + 1], text[i + 2]] + p[i + 3..];
        MarkCounts(p, start, i);
      }
    }
  }

  /** Inside a block that begins a line the marks are those of the block on its own. */
  lemma MarksOfBlock(p: string, f: string, r: string, start: bool)
    requires EndsLine(start, p) && IsBlock(f)
    ensures IsMark(p + f + r, start, |p|)
    ensures forall j | |p| + |TICKS| <= j <= |p| + |f| - |TICKS| ::
              IsMark(p + f + r, start, j) <==> j == |p| + |f| - |TICKS|
  {
    var text := p + f + r;
    assert text[|p|..] == f + r;
    forall j | |p| + |TICKS| <= j <= |p| + |f| - |TICKS|
      ensures IsMark(text, start, j) <==> j == |p| + |f| - |TICKS|
    {
      InsideBlock(p, f, r, start, j - |p|);
    }
  }

  lemma InsideBlock(p: string, f: string, r: string, start: bool, i: nat)
    requires |TICKS| <= i <= |f| - |TICKS|
    ensures IsMark(p + f + r, start, |p| + i) <==> IsMark(f, true, i)
  {
    var text := p + f + r;
    assert text[|p| + i..] == f[i..] + r;
    assert text[|p| + i - 1] == f[i - 1];
  }

  lemma {:induction false} MarkCounts(p: string, start: bool, i: nat)
    requires i < |p| && IsMark(p, start, i)
    ensures Marks(start, p) > 0
    decreases i
  {
    if i > 0 {
      assert p[1..][i - 1..] == p[i..];
      assert IsMark(p[1..], p[0] == '\n', i - 1);
      MarkCounts(p[1..], p[0] == '\n', i - 1);
    }
  }

  /** The pieces of a text with a block: what precedes the block is markless and ends a line. */
  lemma SplitShape(text: string, start: bool) returns (p: string, f: string, r: string)
    requires FenceSplit(text, start) != [text]
    ensures text == p + f + r && |r| < |text|
    ensures EndsLine(start, p) && Marks(start, p) == 0 && IsBlock(f)
    ensures FenceSplit(text, start) == [p, f] + FenceSplit(r, false)
  {
    var b := NextBlock(text, start).value;
    p, f, r := text[..b.from], text[b.from..b.to], text[b.to..];
    MarklessPrefix(text, start, b.from);
    BlockShape(text, start, b.from, b.to - |TICKS|);
  }

  lemma BlockShape(text: string, start: bool, m: nat, n: nat)
    requires m + |TICKS| <= n <= |text| && IsMark(text, start, m) && IsMark(text, start, n)
    requires forall j | m + |TICKS| <= j < n :: !IsMark(text, start, j)
    ensures n + |TICKS| <= |text| && IsBlock(text[m..n + |TICKS|])
  {
    var p, f, r := text[..m], text[m..n + |TICKS|], text[n + |TICKS|..];
    assert text == p + f + r;
    assert f[..3] == text[m..][..3];
    InsideBlock(p, f, r, start, n - m);
    forall i | |TICKS| <= i < |f| - |TICKS| ensures !IsMark(f, true, i) {
      InsideBlock(p, f, r, start, i);
      assert !IsMark(text, start, m + i);
    }
  }

  lemma {:induction false} MarklessPrefix(text: string, start: bool, m: nat)
    requires m <= |text| && forall i | 0 <= i < m :: !IsMark(text, start, i)
    ensures Marks(start, text[..m]) == 0
    decreases m
  {
    if m > 0 {
      var rest := text[1..];
      assert text[..m][1..] == rest[..m - 1] && text[..m][0] == text[0];
      var line := text[0] == '\n';
      forall i | 0 <= i < m - 1 ensures !IsMark(rest, line, i) {
        assert rest[i..] == text[i + 1..];
        assert !IsMark(text, start, i + 1);
      }
      MarklessPrefix(rest, text[0] == '\n', m - 1);
      assert !IsMark(text, start, 0);
      if TICKS <= text[..m] { assert TICKS <= text[0..]; }
    }
  }

  /** Splitting the converted text gives the converted pieces: the fences are exactly the original ones. */
  lemma {:induction false} SplitAfterConvert(text: string, start: bool)
    ensures FenceSplit(Joined(MapOutside(FenceSplit(text, start), ConvertComments)), start) ==
            MapOutside(FenceSplit(text, start), ConvertComments)
    decreases |text|
  {
    var parts := FenceSplit(text, start);
    if parts == [text] {
      FewMarksOnePiece(text, start);
      ConvertAddsNoMarks(start, text);
      FewMarksOnePiece(ConvertComments(text), start);
      assert Joined([ConvertComments(text)]) == ConvertComments(text);
    } else {
      var p, f, r := SplitShape(text, start);
      var rest := FenceSplit(r, false);
      SplitAfterConvert(r, false);
      assert parts[2..] == rest;
      var tail := MapOutside(rest, ConvertComments);
      var all := [ConvertComments(p), f] + tail;
      JoinedPair(ConvertComments(p), f, tail);
      ConvertAddsNoMarks(start, p);
      if p != "" { ConvertKeepsLineEnd(p); }
      SplitOff(ConvertComments(p), f, Joined(tail), start);
    }
  }

  function Compose(f: string -> string, g: string -> string): string -> string { s => g(f(s)) }

  lemma {:induction false} MapTwice(parts: seq<string>, f: string -> string, g: string -> string)
    ensures JoinOutside(MapOutside(parts, f), g) == JoinOutside(parts, Compose(f, g))
  {
    if |parts| >= 2 {
      MapTwice(parts[2..], f, g);
      assert MapOutside(parts, f)[2..] == MapOutside(parts[2..], f);
    }
  }

  // ---------------------------------------------------------------------------------------------
  // Main results
  // ---------------------------------------------------------------------------------------------

  /** Two passes, each with its own fence split, are one split with the two transforms composed. */
  lemma ConvertFuses(text: string, admonitions: string -> string)
    ensures Convert(text, admonitions) == ApplyOutside(text, Compose(ConvertComments, admonitions))
  {
    var parts := FenceSplit(text, true);
    JoinOutsideIsJoined(parts, ConvertComments);
    SplitAfterConvert(text, true);
    MapTwice(parts, ConvertComments, admonitions);
  }

  /** The comment pass leaves every fenced block, byte for byte and in order, and turns nothing else into one. */
  lemma FencesSurvive(text: string)
    ensures var before, after := FenceSplit(text, true), FenceSplit(ApplyOutside(text, ConvertComments), true);
      && |after| == |before|
      && forall i | 0 <= i < |before| ::
           after[i] == if i % 2 == 1 then before[i] else ConvertComments(before[i])
  {
    JoinOutsideIsJoined(FenceSplit(text, true), ConvertComments);
    SplitAfterConvert(text, true);
    MapOutsideAt(FenceSplit(text, true), ConvertComments);
  }

  lemma {:induction false} MapOutsideAt(parts: seq<string>, fn: string -> string)
    ensures var mapped := MapOutside(parts, fn);
      && |mapped| == |parts|
      && forall i | 0 <= i < |parts| :: mapped[i] == if i % 2 == 1 then parts[i] else fn(parts[i])
  {
    if |parts| >= 2 {
      MapOutsideAt(parts[2..], fn);
      var mapped := MapOutside(parts, fn);
      forall i | 2 <= i < |parts| ensures mapped[i] == if i % 2 == 1 then parts[i] else fn(parts[i]) {
        assert mapped[i] == MapOutside(parts[2..], fn)[i - 2] && parts[i] == parts[2..][i - 2];
      }
    }
  }

  // ---------------------------------------------------------------------------------------------
  // What a comment becomes
  // ---------------------------------------------------------------------------------------------

  /** A comment, up to its group: where the parts of the text before and after it are. */
  function Commented(pre: string, gap: string, group: string, trail: string, rest: string): string {
    pre + (OPEN + (gap + (group + (trail + (CLOSE + rest)))))
  }

  /** The first opening and the first closing behind it make a comment: its group, without the spaces around it, is
      kept between the MDX marks, and conversion goes on behind it. */
  lemma CommentConverts(pre: string, gap: string, group: string, trail: string, rest: string)
    requires Spaces(gap) && Spaces(trail)
    requires if group == "" then trail == "" else !IsSpace(group[0]) && !IsSpace(group[|group| - 1])
    requires var text := Commented(pre, gap, group, trail, rest); Find(text, OPEN, 0) == |pre|
    requires var text, lo := Commented(pre, gap, group, trail, rest), |pre| + |OPEN| + |gap|;
             Find(text, CLOSE, lo) == lo + |group| + |trail|
    ensures ConvertComments(Commented(pre, gap, group, trail, rest)) ==
            pre + ("{/* " + (group + (" */}" + ConvertComments(rest))))
  {
    var text, lo := Commented(pre, gap, group, trail, rest), |pre| + |OPEN| + |gap|;
    var hi, close := lo + |group|, lo + |group| + |trail|;
    hide Commented, Find, IsSpace, Spaces, SkipSpaces, DropSpaces, NextComment, ConvertComments;
    CommentPieces(pre, gap, group, trail, rest);
    SkipsTo(text, |pre| + |OPEN|, lo);
    DropsTo(text, lo, hi, close);
    ConvertOne(text, |pre|, lo, hi, close);
  }

  lemma SkipsTo(text: string, i: nat, m: nat)
    requires i <= m < |text| && !IsSpace(text[m]) && forall k | i <= k < m :: IsSpace(text[k])
    ensures SkipSpaces(text, i) == m
  {
    hide IsSpace, SkipSpaces;
  }

  lemma DropsTo(text: string, lo: nat, m: nat, i: nat)
    requires lo <= m <= i <= |text| && (lo < m ==> !IsSpace(text[m - 1])) && forall k | m <= k < i :: IsSpace(text[k])
    ensures DropSpaces(text, lo, i) == m
  {
    hide IsSpace, DropSpaces;
  }

  lemma ConvertOne(text: string, open: nat, lo: nat, hi: nat, close: nat)
    requires open + |OPEN| <= lo <= hi <= close && close + |CLOSE| <= |text|
    requires Find(text, OPEN, 0) == open && SkipSpaces(text, open + |OPEN|) == lo
    requires Find(text, CLOSE, lo) == close && DropSpaces(text, lo, close) == hi
    ensures ConvertComments(text) ==
            text[..open] + ("{/* " + (text[lo..hi] + (" */}" + ConvertComments(text[close + |CLOSE|..]))))
  {
    hide *;
    NextCommentByParts(text, open, lo, hi, close);
    ConvertStep(text, Comment(open, lo, hi, close));
  }

  lemma NextCommentByParts(text: string, open: nat, lo: nat, hi: nat, close: nat)
    requires open + |OPEN| <= lo <= hi <= close && close + |CLOSE| <= |text|
    requires Find(text, OPEN, 0) == open && SkipSpaces(text, open + |OPEN|) == lo
    requires Find(text, CLOSE, lo) == close && DropSpaces(text, lo, close) == hi
    ensures NextComment(text) == Some(Comment(open, lo, hi, close))
  {
    hide Find, SkipSpaces, DropSpaces;
  }

  lemma ConvertStep(text: string, c: Comment)
    requires NextComment(text) == Some(c)
    ensures ConvertComments(text) ==
            text[..c.open] + ("{/* " + (text[c.lo..c.hi] + (" */}" + ConvertComments(text[c.close + |CLOSE|..]))))
  {
    hide NextComment;
  }

  lemma CommentPieces(pre: string, gap: string, group: string, trail: string, rest: string)
    requires Spaces(gap) && Spaces(trail)
    requires if group == "" then trail == "" else !IsSpace(group[0]) && !IsSpace(group[|group| - 1])
    ensures var text, lo := Commented(pre, gap, group, trail, rest), |pre| + |OPEN| + |gap|;
      var hi, close := lo + |group|, lo + |group| + |trail|;
      && close + |CLOSE| <= |text| && text[..|pre|] == pre && text[lo..hi] == group && text[close + |CLOSE|..] == rest
      && (forall i | |pre| + |OPEN| <= i < lo :: IsSpace(text[i])) && !IsSpace(text[lo])
      && (forall i | hi <= i < close :: IsSpace(text[i])) && (lo < hi ==> !IsSpace(text[hi - 1]))
  {
    var text, lo := Commented(pre, gap, group, trail, rest), |pre| + |OPEN| + |gap|;
    var hi, close := lo + |group|, lo + |group| + |trail|;
    forall i | |pre| + |OPEN| <= i < lo ensures text[i] == gap[i - |pre| - |OPEN|] {}
    forall i | hi <= i < close ensures text[i] == trail[i - hi] {}
    assert text[lo] == if group == "" then '-' else group[0];
  }
}
