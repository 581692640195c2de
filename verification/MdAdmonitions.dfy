/** GitHub callouts to Fern admonitions: the pattern, what it captures, and the rewriting. */
module MdAdmonitions {
  import opened TextMatching
  import opened Wrappers
  import opened MdToMdx
  import opened MdToMdxProof

  // ---------------------------------------------------------------------------------------------
  // Lines
  // ---------------------------------------------------------------------------------------------

  /** `"\n".join(lines)`. */
  function Join(lines: seq<string>): string {
    if lines == [] then "" else if |lines| == 1 then lines[0] else lines[0] + "\n" + Join(lines[1..])
  }

  /** `text.split("\n")`. */
  function SplitLines(text: string): (lines: seq<string>)
    ensures lines != []
    decreases |text|
  {
    var n := Find(text, "\n", 0);
    if n == |text| then [text] else [text[..n]] + SplitLines(text[n + 1..])
  }

  predicate OneLine(line: string) { '\n' !in line }

  lemma {:induction false} JoinSplit(text: string)
    ensures Join(SplitLines(text)) == text
    decreases |text|
  {
    var n := Find(text, "\n", 0);
    if n < |text| {
      var rest := SplitLines(text[n + 1..]);
      JoinSplit(text[n + 1..]);
      assert ([text[..n]] + rest)[1..] == rest;
      assert text[n..][..1] == "\n" && text[n..][0] == text[n];
      assert text == text[..n] + "\n" + text[n + 1..];
    }
  }

  lemma FindBreak(line: string, rest: string)
    requires OneLine(line)
    ensures Find(line + "\n" + rest, "\n", 0) == |line|
    ensures Find(line, "\n", 0) == |line|
  {
    var s := line + "\n" + rest;
    forall j | 0 <= j < |line| ensures !("\n" <= s[j..]) && !("\n" <= line[j..]) {
      assert s[j..][0] == line[j] && line[j..][0] == line[j] && line[j] in line;
    }
    assert "\n" <= s[|line|..];
  }

  lemma SplitFirst(line: string, rest: string)
    requires OneLine(line)
    ensures SplitLines(line + "\n" + rest) == [line] + SplitLines(rest)
    ensures SplitLines(line) == [line]
  {
    FindBreak(line, rest);
    var s := line + "\n" + rest;
    assert s[..|line|] == line && s[|line| + 1..] == rest;
  }

  // ---------------------------------------------------------------------------------------------
  // _extract_blockquote_content
  // ---------------------------------------------------------------------------------------------

  function Unquoted(line: string, indent: string): string
    requires indent + ">" <= line
  {
    var stripped := line[|indent| + 1..];
    if " " <= stripped then stripped[1..] else stripped
  }

  /** The leading quoted lines, without their markers. */
  function Extracted(lines: seq<string>, indent: string): seq<string> {
    if lines == [] || !(indent + ">" <= lines[0]) then []
    else [Unquoted(lines[0], indent)] + Extracted(lines[1..], indent)
  }

  function RStrip(text: string): string { text[..DropSpaces(text, 0, |text|)] }

  function Extract(content: string, indent: string): string { RStrip(Join(Extracted(SplitLines(content), indent))) }

  method ExtractBlockquoteContent(content: string, indent: string) returns (r: string)
    ensures r == Extract(content, indent)
  {
    var lines := SplitLines(content);
    var extracted: seq<string> := [];
    var k := 0;
    while k < |lines|
      invariant 0 <= k <= |lines|
      invariant Extracted(lines, indent) == extracted + Extracted(lines[k..], indent)
    {
      hide SplitLines, RStrip, Join;
      assert lines[k..][1..] == lines[k + 1..];
      var line := lines[k];
      if indent + ">" <= line {
        var stripped := line[|indent| + 1..];
        if " " <= stripped {
          stripped := stripped[1..];
        }
        extracted := extracted + [stripped];
      } else {
        assert Extracted(lines, indent) == extracted;
        break;
      }
      k := k + 1;
    }
    assert Extracted(lines, indent) == extracted;
    r := RStrip(Join(extracted));
  }

  // ---------------------------------------------------------------------------------------------
  // GITHUB_ADMONITION_PATTERN
  // ---------------------------------------------------------------------------------------------

  predicate IsBlank(c: char) { c == ' ' || c == '\t' }

  predicate AllBlank(s: string) { forall i | 0 <= i < |s| :: IsBlank(s[i]) }

  /** `[ \t]*`: what it is followed by is never a blank, so it takes them all. */
  function Blanks(s: string): (n: nat)
    ensures n <= |s| && AllBlank(s[..n]) && (n < |s| ==> !IsBlank(s[n]))
  {
    if s == "" || !IsBlank(s[0]) then 0
    else
      assert forall i | 0 < i <= Blanks(s[1..]) :: s[i] == s[1..][i - 1] && (i - 1 < Blanks(s[1..]) ==> s[1..][..Blanks(s[1..])][i - 1] == s[i]);
      1 + Blanks(s[1..])
  }

  function AfterBlanks(s: string): string { s[Blanks(s)..] }

  function Drop(s: string, prefix: string): Option<string> {
    if prefix <= s then Some(s[|prefix|..]) else None
  }

  function UpperChar(c: char): char { if 'a' <= c <= 'z' then (c as int - 32) as char else c }

  function Upper(s: string): string { seq(|s|, i requires 0 <= i < |s| => UpperChar(s[i])) }

  /** `GITHUB_TO_FERN`. */
  const FERN := map["NOTE" := "Note", "TIP" := "Tip", "IMPORTANT" := "Info", "WARNING" := "Warning", "CAUTION" := "Error"]

  /** The type and its closing bracket, ignoring case: the Fern tag and what follows.  No type holds a bracket, so the
      type ends at the first one. */
  function DropType(s: string): Option<(string, string)> {
    var n := Find(s, "]", 0);
    if n == |s| || Upper(s[..n]) !in FERN then None else Some((FERN[Upper(s[..n])], s[n + 1..]))
  }

  /** The length of the longest stretch of whole lines that begin with the indent and `>`. */
  function QuotedLength(s: string, indent: string): (n: nat)
    ensures n <= |s|
    decreases |s|
  {
    if !(indent + ">" <= s) then 0
    else
      var n := Find(s, "\n", 0);
      if n == |s| then n else n + 1 + QuotedLength(s[n + 1..], indent)
  }

  /** A match: its groups, and the text behind it. */
  datatype Callout = Callout(indent: string, tag: string, content: string, rest: string)

  /** The pattern's first line, at the beginning of a line: the indent, the tag, and what follows the line. */
  function Header(s: string): Option<(string, string, string)> {
    var indent := s[..Blanks(s)];
    match Drop(AfterBlanks(s), ">")
    case None => None
    case Some(t) =>
      match Drop(AfterBlanks(t), "[!")
      case None => None
      case Some(u) =>
        match DropType(u)
        case None => None
        case Some((tag, v)) =>
          match Drop(AfterBlanks(v), "\n")
          case None => None
          case Some(body) => Some((indent, tag, body))
  }

  /** The match at the beginning of a line, if there is one. */
  function CalloutHere(s: string): Option<Callout> {
    match Header(s)
    case None => None
    case Some((indent, tag, body)) =>
      var n := QuotedLength(body, indent);
      if n == 0 then None else Some(Callout(indent, tag, body[..n], body[n..]))
  }

  predicate CalloutAt(text: string, i: nat)
    requires i <= |text|
  {
    AtLineStart(text, i) && CalloutHere(text[i..]).Some?
  }

  /** The leftmost match at or after `i`: where it begins. */
  function NextCallout(text: string, i: nat): (m: nat)
    requires i <= |text|
    ensures i <= m <= |text|
    decreases |text| - i
  {
    if i == |text| || CalloutAt(text, i) then i else NextCallout(text, i + 1)
  }

  /** It is a match, and there is none before it. */
  lemma {:induction false} NextCalloutIsFirst(text: string, i: nat)
    requires i <= |text|
    ensures var m := NextCallout(text, i);
      (m < |text| ==> CalloutAt(text, m)) && forall j | i <= j < m :: !CalloutAt(text, j)
    decreases |text| - i
  {
    hide CalloutAt;
    if i < |text| && !CalloutAt(text, i) { NextCalloutIsFirst(text, i + 1); }
  }

  lemma DropShrinks(s: string, prefix: string)
    ensures Drop(AfterBlanks(s), prefix).Some? ==> |Drop(AfterBlanks(s), prefix).value| + |prefix| <= |s|
  {}

  lemma HeaderShrinks(s: string)
    ensures Header(s).Some? ==> |Header(s).value.2| < |s|
  {
    hide Blanks, AfterBlanks, Drop, Upper;
    DropShrinks(s, ">");
    if Drop(AfterBlanks(s), ">").Some? {
      var t := Drop(AfterBlanks(s), ">").value;
      DropShrinks(t, "[!");
      if Drop(AfterBlanks(t), "[!").Some? {
        var u := Drop(AfterBlanks(t), "[!").value;
        if DropType(u).Some? { DropShrinks(DropType(u).value.1, "\n"); }
      }
    }
  }

  lemma RestShrinks(s: string)
    ensures CalloutHere(s).Some? ==> |CalloutHere(s).value.rest| < |s|
  {
    hide Header;
    HeaderShrinks(s);
  }

  // ---------------------------------------------------------------------------------------------
  // The rewriting
  // ---------------------------------------------------------------------------------------------

  /** `_convert_admonition`. */
  function Rendered(indent: string, tag: string, content: string): string {
    if OneLine(content) && |content| < 100 then indent + "<" + tag + ">" + content + "</" + tag + ">\n"
    else indent + "<" + tag + ">\n" + Join(SplitLines(content)) + "\n" + indent + "</" + tag + ">\n"
  }

  /** The pattern's `sub`.  A match ends behind a line break or at the end of the text, so the rest begins a line. */
  function ConvertCallouts(text: string): string
    decreases |text|
  {
    var m := NextCallout(text, 0);
    if m == |text| then text
    else
      NextCalloutIsFirst(text, 0);
      RestShrinks(text[m..]);
      var c := CalloutHere(text[m..]).value;
      text[..m] + Rendered(c.indent, c.tag, Extract(c.content, c.indent)) + ConvertCallouts(c.rest)
  }

  // ---------------------------------------------------------------------------------------------
  // The matcher finds exactly what the pattern describes
  // ---------------------------------------------------------------------------------------------

  /** `kind` spells the name in letters of either case. */
  predicate Spells(kind: string, name: string) {
    |kind| == |name| && forall i | 0 <= i < |kind| :: kind[i] == name[i] || kind[i] as int == name[i] as int + 32
  }

  /** A callout type and its tag. */
  predicate IsType(kind: string, tag: string) {
    || (Spells(kind, "NOTE") && tag == "Note")
    || (Spells(kind, "TIP") && tag == "Tip")
    || (Spells(kind, "IMPORTANT") && tag == "Info")
    || (Spells(kind, "WARNING") && tag == "Warning")
    || (Spells(kind, "CAUTION") && tag == "Error")
  }

  lemma SpellsExactly(kind: string, name: string)
    requires forall i | 0 <= i < |name| :: 'A' <= name[i] <= 'Z'
    ensures Upper(kind) == name <==> Spells(kind, name)
  {
    if Upper(kind) == name {
      forall i | 0 <= i < |kind| ensures kind[i] == name[i] || kind[i] as int == name[i] as int + 32 {
        assert Upper(kind)[i] == name[i];
      }
    }
  }

  lemma TypeExactly(kind: string, tag: string)
    ensures Upper(kind) in FERN && FERN[Upper(kind)] == tag <==> IsType(kind, tag)
  {
    hide Spells, Upper;
    forall name | name in {"NOTE", "TIP", "IMPORTANT", "WARNING", "CAUTION"}
      ensures Upper(kind) == name <==> Spells(kind, name)
    {
      SpellsExactly(kind, name);
    }
  }

  /** `s` is the pattern's first line, then `body`. */
  ghost predicate IsHeader(s: string, indent: string, gap: string, kind: string, tag: string, trail: string, body: string)
  {
    && AllBlank(indent) && AllBlank(gap) && AllBlank(trail) && IsType(kind, tag)
    && s == indent + (">" + (gap + ("[!" + (kind + ("]" + (trail + ("\n" + body)))))))
  }

  lemma {:induction false} BlanksOf(p: string, s: string)
    requires AllBlank(p) && (s == "" || !IsBlank(s[0]))
    ensures Blanks(p + s) == |p| && AfterBlanks(p + s) == s
  {
    if p == "" {
      assert p + s == s;
    } else {
      assert (p + s)[1..] == p[1..] + s;
      BlanksOf(p[1..], s);
      assert (p + s)[|p|..] == s;
    }
  }

  lemma DropOf(prefix: string, s: string)
    ensures Drop(prefix + s, prefix) == Some(s)
  {
    assert (prefix + s)[|prefix|..] == s;
  }

  lemma TypeOf(kind: string, s: string)
    requires Upper(kind) in FERN
    ensures DropType(kind + ("]" + s)) == Some((FERN[Upper(kind)], s))
  {
    var t := kind + ("]" + s);
    forall j | 0 <= j < |kind| ensures !("]" <= t[j..]) {
      NoBracket(kind, j);
      assert t[j..][0] == kind[j];
    }
    assert "]" <= t[|kind|..];
    assert t[..|kind|] == kind && t[|kind| + 1..] == s;
  }

  lemma NoBracket(kind: string, j: nat)
    requires Upper(kind) in FERN && j < |kind|
    ensures kind[j] != ']'
  {
    assert Upper(kind)[j] == UpperChar(kind[j]);
    var up := Upper(kind);
    assert up == "NOTE" || up == "TIP" || up == "IMPORTANT" || up == "WARNING" || up == "CAUTION";
    assert ']' !in "NOTE" && ']' !in "TIP" && ']' !in "IMPORTANT" && ']' !in "WARNING" && ']' !in "CAUTION";
    assert up[j] in up;
  }

  /** Every text the pattern's first line describes is recognised, with the groups the pattern gives. */
  lemma HeaderFound(s: string, indent: string, gap: string, kind: string, tag: string, trail: string,
                    body: string)
    requires IsHeader(s, indent, gap, kind, tag, trail, body)
    ensures Header(s) == Some((indent, tag, body))
  {
    TypeExactly(kind, tag);
    hide Blanks, AfterBlanks, Drop, DropType, Upper, FERN, AllBlank, IsType;
    var v := trail + ("\n" + body);
    var u := kind + ("]" + v);
    var t := gap + ("[!" + u);
    BlanksOf(indent, ">" + t);
    assert s[..|indent|] == indent;
    DropOf(">", t);
    BlanksOf(gap, "[!" + u);
    DropOf("[!", u);
    TypeOf(kind, v);
    BlanksOf(trail, "\n" + body);
    DropOf("\n", body);
  }

  lemma DropBack(s: string, prefix: string)
    requires Drop(s, prefix).Some?
    ensures s == prefix + Drop(s, prefix).value
  {}

  lemma BlanksBack(s: string)
    ensures s == s[..Blanks(s)] + AfterBlanks(s) && AllBlank(s[..Blanks(s)])
  {}

  lemma TypeBack(s: string) returns (kind: string)
    requires DropType(s).Some?
    ensures Upper(kind) in FERN && DropType(s).value.0 == FERN[Upper(kind)]
    ensures s == kind + ("]" + DropType(s).value.1)
  {
    hide Upper;
    var n := Find(s, "]", 0);
    kind := s[..n];
    assert s[n..][0] == s[n] == ']';
  }

  /** What is recognised is a text the pattern's first line describes. */
  lemma HeaderIsHeader(s: string) returns (gap: string, kind: string, trail: string)
    requires Header(s).Some?
    ensures var h := Header(s).value; IsHeader(s, h.0, gap, kind, h.1, trail, h.2)
  {
    hide Blanks, AfterBlanks, Drop, DropType, Upper, FERN, AllBlank, IsType;
    BlanksBack(s);
    DropBack(AfterBlanks(s), ">");
    var t := Drop(AfterBlanks(s), ">").value;
    BlanksBack(t);
    DropBack(AfterBlanks(t), "[!");
    var u := Drop(AfterBlanks(t), "[!").value;
    kind := TypeBack(u);
    var v := DropType(u).value.1;
    BlanksBack(v);
    DropBack(AfterBlanks(v), "\n");
    gap, trail := t[..Blanks(t)], v[..Blanks(v)];
    TypeExactly(kind, DropType(u).value.0);
  }

  /** A callout begins here exactly when the line is a header and the next line is quoted at the same indent. */
  lemma CalloutExactly(s: string)
    ensures CalloutHere(s).Some? <==>
            exists indent, gap, kind, tag, trail, body ::
              IsHeader(s, indent, gap, kind, tag, trail, body) && indent + ">" <= body
  {
    hide Header, IsHeader, FERN;
    if CalloutHere(s).Some? {
      var gap, kind, trail := HeaderIsHeader(s);
      var h := Header(s).value;
      assert IsHeader(s, h.0, gap, kind, h.1, trail, h.2) && h.0 + ">" <= h.2;
    }
    forall indent, gap, kind, tag, trail, body
      | IsHeader(s, indent, gap, kind, tag, trail, body) && indent + ">" <= body
      ensures CalloutHere(s).Some?
    {
      HeaderFound(s, indent, gap, kind, tag, trail, body);
    }
  }

  // ---------------------------------------------------------------------------------------------
  // Quoting and converting
  // ---------------------------------------------------------------------------------------------

  /** A quoted line behind its marker, of which one space belongs to the marker. */
  function Unmarked(raw: string): string { if raw != "" && raw[0] == ' ' then raw[1..] else raw }

  function AllUnmarked(raws: seq<string>): seq<string> { seq(|raws|, i requires 0 <= i < |raws| => Unmarked(raws[i])) }

  /** The raw lines as a block quote; if it is `open`, its last line has no line break. */
  function Quote(raws: seq<string>, indent: string, open: bool): string {
    if raws == [] then ""
    else if open && |raws| == 1 then indent + ">" + raws[0]
    else indent + ">" + raws[0] + "\n" + Quote(raws[1..], indent, open)
  }

  lemma QuotedFirst(raw: string, rest: string, indent: string)
    requires OneLine(raw) && AllBlank(indent)
    ensures var l := indent + ">" + raw;
      && OneLine(l) && indent + ">" <= l && Unquoted(l, indent) == Unmarked(raw)
      && indent + ">" <= l + "\n" + rest && (l + "\n" + rest)[|l| + 1..] == rest
  {
    var l := indent + ">" + raw;
    assert l[|indent| + 1..] == raw;
    forall i | 0 <= i < |l| ensures l[i] != '\n' {
      if i < |indent| { assert l[i] == indent[i] && IsBlank(indent[i]); }
      if i >= |indent| + 1 { assert l[i] == raw[i - |indent| - 1] && raw[i - |indent| - 1] in raw; }
    }
    assert l + "\n" + rest == indent + ">" + (raw + "\n" + rest);
  }

  /** The pattern's content takes all the quoted lines and nothing after them. */
  lemma {:induction false} QuoteIsTaken(raws: seq<string>, indent: string, open: bool, rest: string)
    requires AllBlank(indent) && !(indent + ">" <= rest) && forall i | 0 <= i < |raws| :: OneLine(raws[i])
    requires open ==> rest == ""
    ensures QuotedLength(Quote(raws, indent, open) + rest, indent) == |Quote(raws, indent, open)|
  {
    hide AllBlank, OneLine, Quote, QuotedLength;
    if raws == [] {
      NothingTaken(indent, open, rest);
    } else {
      QuoteFirst(raws, indent, open);
      var l := indent + ">" + raws[0];
      if open && |raws| == 1 {
        LastLineTaken(raws[0], indent);
        assert l + "" == l;
      } else {
        var more := Quote(raws[1..], indent, open);
        LineTaken(raws[0], more + rest, indent);
        assert l + "\n" + more + rest == l + "\n" + (more + rest);
        QuoteIsTaken(raws[1..], indent, open, rest);
      }
    }
  }

  lemma NothingTaken(indent: string, open: bool, rest: string)
    requires !(indent + ">" <= rest)
    ensures Quote([], indent, open) == "" && QuotedLength(Quote([], indent, open) + rest, indent) == 0
  {
    assert "" + rest == rest;
  }

  lemma QuoteFirst(raws: seq<string>, indent: string, open: bool)
    requires raws != []
    ensures Quote(raws, indent, open) ==
            if open && |raws| == 1 then indent + ">" + raws[0]
            else indent + ">" + raws[0] + "\n" + Quote(raws[1..], indent, open)
  {}

  lemma LineTaken(raw: string, rest: string, indent: string)
    requires OneLine(raw) && AllBlank(indent)
    ensures var l := indent + ">" + raw; QuotedLength(l + "\n" + rest, indent) == |l| + 1 + QuotedLength(rest, indent)
  {
    hide AllBlank, OneLine, Find, Unquoted, Unmarked;
    QuotedFirst(raw, rest, indent);
    FindBreak(indent + ">" + raw, rest);
  }

  lemma LastLineTaken(raw: string, indent: string)
    requires OneLine(raw) && AllBlank(indent)
    ensures QuotedLength(indent + ">" + raw, indent) == |indent + ">" + raw|
  {
    hide AllBlank, OneLine, Find, Unquoted, Unmarked;
    QuotedFirst(raw, "", indent);
    FindBreak(indent + ">" + raw, "");
  }

  lemma ExtractedFirst(line: string, lines: seq<string>, indent: string)
    requires indent + ">" <= line
    ensures Extracted([line] + lines, indent) == [Unquoted(line, indent)] + Extracted(lines, indent)
    ensures lines == [] ==> Extracted(lines, indent) == []
  {
    assert ([line] + lines)[1..] == lines;
  }

  /** Extraction gives the lines behind their markers, up to whitespace at the very end. */
  lemma ExtractUndoesQuote(raws: seq<string>, indent: string, open: bool)
    requires AllBlank(indent) && forall i | 0 <= i < |raws| :: OneLine(raws[i])
    ensures Extract(Quote(raws, indent, open), indent) == RStrip(Join(AllUnmarked(raws)))
  {
    hide RStrip, Join, SplitLines, Extracted, Quote;
    LinesUnquoted(raws, indent, open);
  }

  lemma {:induction false} LinesUnquoted(raws: seq<string>, indent: string, open: bool)
    requires AllBlank(indent) && forall i | 0 <= i < |raws| :: OneLine(raws[i])
    ensures Extracted(SplitLines(Quote(raws, indent, open)), indent) == AllUnmarked(raws)
  {
    if raws == [] {
      assert SplitLines("") == [""];
    } else {
      hide AllBlank, OneLine, Unquoted, SplitLines, Unmarked, AllUnmarked, Quote, Extracted;
      QuoteFirst(raws, indent, open);
      UnmarkedFirst(raws);
      var l, more := indent + ">" + raws[0], Quote(raws[1..], indent, open);
      QuotedFirst(raws[0], more, indent);
      SplitFirst(l, more);
      if open && |raws| == 1 {
        ExtractedFirst(l, [], indent);
        assert [l] + [] == [l];
      } else {
        ExtractedFirst(l, SplitLines(more), indent);
        LinesUnquoted(raws[1..], indent, open);
      }
    }
  }

  lemma UnmarkedFirst(raws: seq<string>)
    requires raws != []
    ensures AllUnmarked(raws) == [Unmarked(raws[0])] + AllUnmarked(raws[1..])
    ensures |raws| == 1 ==> AllUnmarked(raws[1..]) == []
  {}

  /** `content` is the text without the whitespace at its end. */
  predicate IsStripped(content: string, text: string) {
    && content <= text && Spaces(text[|content|..])
    && (content != "" ==> !IsSpace(content[|content| - 1]))
  }

  lemma StripExactly(text: string, content: string)
    ensures RStrip(text) == content <==> IsStripped(content, text)
  {
    var r := RStrip(text);
    assert IsStripped(r, text);
    if IsStripped(content, text) {
      StrippedIsShortest(content, r, text);
      StrippedIsShortest(r, content, text);
    }
  }

  lemma StrippedIsShortest(a: string, b: string, text: string)
    requires IsStripped(a, text) && IsStripped(b, text)
    ensures |b| <= |a|
  {
    hide IsStripped;
    StrippedEnds(b, text, |b|);
    if |a| < |b| { StrippedEnds(a, text, |b| - 1); }
  }

  lemma StrippedEnds(content: string, text: string, i: nat)
    requires IsStripped(content, text) && |content| <= i
    ensures |content| <= |text| && (content != "" ==> !IsSpace(text[|content| - 1]))
    ensures i < |text| ==> IsSpace(text[i])
  {
    if i < |text| { assert text[|content|..][i - |content|] == text[i]; }
  }

  /** The text of a callout and what follows it. */
  function CalloutText(indent: string, gap: string, kind: string, trail: string, raws: seq<string>, open: bool,
                       rest: string): string
  {
    indent + (">" + (gap + ("[!" + (kind + ("]" + (trail + ("\n" + (Quote(raws, indent, open) + rest))))))))
  }

  /** The first callout, on a line of its own, becomes the admonition of its type around its own lines; what is before it
      stays, and conversion goes on behind it. */
  lemma CalloutConverts(pre: string, indent: string, gap: string, kind: string, tag: string, trail: string,
                        raws: seq<string>, open: bool, content: string, rest: string)
    requires AllBlank(indent) && AllBlank(gap) && AllBlank(trail) && IsType(kind, tag)
    requires raws != [] && forall i | 0 <= i < |raws| :: OneLine(raws[i])
    requires !(indent + ">" <= rest) && (open ==> rest == "")
    requires pre == "" || pre[|pre| - 1] == '\n'
    requires forall j | 0 <= j < |pre| :: !CalloutAt(pre + CalloutText(indent, gap, kind, trail, raws, open, rest), j)
    requires IsStripped(content, Join(AllUnmarked(raws)))
    ensures ConvertCallouts(pre + CalloutText(indent, gap, kind, trail, raws, open, rest)) ==
            pre + (if '\n' !in content && |content| < 100
                   then indent + "<" + tag + ">" + content + "</" + tag + ">\n"
                   else indent + "<" + tag + ">\n" + content + "\n" + indent + "</" + tag + ">\n") +
            ConvertCallouts(rest)
  {
    StripExactly(Join(AllUnmarked(raws)), content);
    JoinSplit(content);
    assert OneLine(content) <==> '\n' !in content;
    var shown := Rendered(indent, tag, content);
    assert shown == if '\n' !in content && |content| < 100
                    then indent + "<" + tag + ">" + content + "</" + tag + ">\n"
                    else indent + "<" + tag + ">\n" + content + "\n" + indent + "</" + tag + ">\n";
    hide Header, QuotedLength, Rendered, Extract, RStrip, IsType, OneLine, AllBlank, Quote, Join, CalloutAt, IsStripped;
    hide ConvertCallouts;
    var quoted := Quote(raws, indent, open);
    var body := quoted + rest;
    var text := CalloutText(indent, gap, kind, trail, raws, open, rest);
    HeaderFound(text, indent, gap, kind, tag, trail, body);
    QuoteIsTaken(raws, indent, open, rest);
    QuoteNotEmpty(raws, indent, open);
    assert body[..|quoted|] == quoted && body[|quoted|..] == rest;
    assert CalloutHere(text) == Some(Callout(indent, tag, quoted, rest));
    ExtractUndoesQuote(raws, indent, open);
    ConvertFirst(pre, text);
  }

  lemma QuoteNotEmpty(raws: seq<string>, indent: string, open: bool)
    requires raws != []
    ensures Quote(raws, indent, open) != ""
  {}

  lemma ConvertFirst(pre: string, text: string)
    requires CalloutHere(text).Some? && (pre == "" || pre[|pre| - 1] == '\n')
    requires forall j | 0 <= j < |pre| :: !CalloutAt(pre + text, j)
    ensures var c := CalloutHere(text).value;
      ConvertCallouts(pre + text) == pre + Rendered(c.indent, c.tag, Extract(c.content, c.indent)) + ConvertCallouts(c.rest)
  {
    hide CalloutHere, Rendered, Extract;
    RestShrinks(text);
    var all := pre + text;
    assert all[|pre|..] == text && all[..|pre|] == pre;
    assert CalloutAt(all, |pre|);
    hide CalloutAt;
    NextCalloutIsFirst(all, 0);
    assert NextCallout(all, 0) == |pre|;
  }

  // ---------------------------------------------------------------------------------------------
  // convert
  // ---------------------------------------------------------------------------------------------

  function ConvertMarkdown(text: string): string { Convert(text, ConvertCallouts) }

  /** The two passes are one: a single split, with both rewritings on each outside piece. */
  lemma MarkdownFuses(text: string)
    ensures ConvertMarkdown(text) == ApplyOutside(text, Compose(ConvertComments, ConvertCallouts))
  {
    ConvertFuses(text, ConvertCallouts);
  }
}
