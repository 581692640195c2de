/** Writing a version into pyproject.toml and the root entry of uv.lock: two textual rewrites and a staged swap. */
module VersionPatch {
  import opened TextMatching
  import opened Wrappers

  predicate Starts(text: string, i: nat, what: string) {
    i + |what| <= |text| && text[i..i + |what|] == what
  }

  /** `\r?\n` at `i`: the position after it. */
  function Newline(text: string, i: nat): Option<nat> {
    if Starts(text, i, "\n") then Some(i + 1) else if Starts(text, i, "\r\n") then Some(i + 2) else None
  }

  /** The first position at or after `i` that holds one of the characters, or `|text|`. */
  function ToOneOf(text: string, i: nat, stops: set<char>): (m: nat)
    requires i <= |text|
    ensures i <= m <= |text|
    ensures m < |text| ==> text[m] in stops
    ensures forall j | i <= j < m :: text[j] !in stops
    decreases |text| - i
  {
    if i < |text| && text[i] !in stops then ToOneOf(text, i + 1, stops) else i
  }

  // ---------------------------------------------------------------------------------------------
  // PEP 440
  // ---------------------------------------------------------------------------------------------

  predicate IsDigit(c: char) { '0' <= c <= '9' }

  predicate IsAlnum(c: char) { IsDigit(c) || 'a' <= c <= 'z' || 'A' <= c <= 'Z' }

  predicate IsVersionChar(c: char) { IsAlnum(c) || c == '.' || c == '+' }

  predicate VersionChars(v: string, i: nat, j: nat) {
    i <= j <= |v| && forall k | i <= k < j :: IsVersionChar(v[k])
  }

  function Run(v: string, i: nat, digitsOnly: bool): (j: nat)
    requires i <= |v|
    ensures VersionChars(v, i, j)
    decreases |v| - i
  {
    if i < |v| && (IsDigit(v[i]) || (!digitsOnly && IsAlnum(v[i]))) then Run(v, i + 1, digitsOnly) else i
  }

  /** `what\d+`, or nothing. */
  function Tagged(v: string, i: nat, what: string): (j: nat)
    requires i <= |v| && forall k | 0 <= k < |what| :: IsVersionChar(what[k])
    ensures VersionChars(v, i, j)
  {
    if Starts(v, i, what) && Run(v, i + |what|, true) > i + |what| then
      assert forall k | i <= k < i + |what| :: v[k] == what[k - i] by {
        assert v[i..i + |what|] == what;
      }
      Run(v, i + |what|, true)
    else i
  }

  /** `\d+\.\d+\.\d+`, or `None`. */
  function Release(v: string): (j: Option<nat>)
    ensures j.Some? ==> VersionChars(v, 0, j.value)
  {
    var a := Run(v, 0, true);
    if a == 0 || a == |v| || v[a] != '.' then None
    else
      var b := Run(v, a + 1, true);
      if b == a + 1 || b == |v| || v[b] != '.' then None
      else
        var c := Run(v, b + 1, true);
        if c == b + 1 then None else Some(c)
  }

  /** `(\.[a-zA-Z0-9]+)*`. */
  function LocalParts(v: string, i: nat): (j: nat)
    requires i <= |v|
    ensures VersionChars(v, i, j)
    decreases |v| - i
  {
    if i < |v| && v[i] == '.' && Run(v, i + 1, false) > i + 1 then LocalParts(v, Run(v, i + 1, false)) else i
  }

  function Local(v: string, i: nat): (j: nat)
    requires i <= |v|
    ensures VersionChars(v, i, j)
  {
    if i < |v| && v[i] == '+' && Run(v, i + 1, false) > i + 1 then LocalParts(v, Run(v, i + 1, false)) else i
  }

  /** `_PEP440.fullmatch`. */
  predicate IsPep440(v: string) {
    var release := Release(v);
    release.Some? &&
    var a := Tagged(v, release.value, "a");
    var b := if a > release.value then a else Tagged(v, release.value, "b");
    var pre := if b > release.value then b else Tagged(v, release.value, "rc");
    Local(v, Tagged(v, Tagged(v, pre, ".post"), ".dev")) == |v|
  }

  // ---------------------------------------------------------------------------------------------
  // pyproject.toml
  // ---------------------------------------------------------------------------------------------

  /** The text between two positions. */
  datatype Span = Span(from: nat, to: nat)

  const PROJECT := "[project]"

  /** `^\[project\][^\r\n]*\r?\n` at `i`: where the table body begins. */
  function HeaderAt(text: string, i: nat): Option<nat>
    requires i <= |text|
  {
    if AtLineStart(text, i) && Starts(text, i, PROJECT) then
      Newline(text, ToOneOf(text, i + |PROJECT|, {'\r', '\n'}))
    else None
  }

  /** The leftmost header at or after `i`. */
  function FindHeader(text: string, i: nat): (h: nat)
    requires i <= |text|
    ensures i <= h <= |text|
    ensures h < |text| ==> HeaderAt(text, h).Some?
    decreases |text| - i
  {
    if i == |text| || HeaderAt(text, i).Some? then i else FindHeader(text, i + 1)
  }

  /** `(?=^\[|\Z)`: the first line that begins with a bracket, or the end. */
  function BodyEnd(text: string, s: nat): (j: nat)
    requires s <= |text|
    ensures s <= j <= |text|
    ensures j < |text| ==> text[j] == '[' && AtLineStart(text, j)
    decreases |text| - s
  {
    if s == |text| || (text[s] == '[' && AtLineStart(text, s)) then s else BodyEnd(text, s + 1)
  }

  /** `_PROJECT_TABLE.search`: the table body. */
  function FindTable(text: string): (table: Option<Span>)
    ensures table.Some? ==> 0 < table.value.from <= table.value.to <= |text|
  {
    var h := FindHeader(text, 0);
    if h == |text| then None
    else
      HeaderFits(text, h);
      Some(Span(HeaderAt(text, h).value, BodyEnd(text, HeaderAt(text, h).value)))
  }

  lemma HeaderFits(text: string, i: nat)
    requires i <= |text| && HeaderAt(text, i).Some?
    ensures i + |PROJECT| < HeaderAt(text, i).value <= |text|
    ensures text[HeaderAt(text, i).value - 1] == '\n'
  {
    var e := ToOneOf(text, i + |PROJECT|, {'\r', '\n'});
    if !Starts(text, e, "\n") { assert text[e..e + 2] == "\r\n"; } else { assert text[e..e + 1] == "\n"; }
  }

  const VERSION := "version"

  /** `^(version\s*=\s*")[^"]*(")` at `p`: the text between the quotes. */
  function VersionAt(body: string, p: nat): (span: Option<Span>)
    requires p <= |body|
    ensures span.Some? ==> p < span.value.from <= span.value.to < |body| && body[span.value.to] == '"'
    ensures span.Some? ==> body[span.value.from - 1] == '"'
  {
    if !AtLineStart(body, p) || !Starts(body, p, VERSION) then None
    else
      var e := SkipSpaces(body, p + |VERSION|);
      if e == |body| || body[e] != '=' then None
      else
        var q := SkipSpaces(body, e + 1);
        if q == |body| || body[q] != '"' then None
        else
          var to := ToOneOf(body, q + 1, {'"'});
          if to == |body| then None else Some(Span(q + 1, to))
  }

  function FindVersion(body: string, i: nat): (p: nat)
    requires i <= |body|
    ensures i <= p <= |body|
    ensures p < |body| ==> VersionAt(body, p).Some?
    decreases |body| - i
  {
    if i == |body| || VersionAt(body, i).Some? then i else FindVersion(body, i + 1)
  }

  /** Where the project's version string stands. */
  function ProjectVersion(text: string): (span: Option<Span>)
    ensures span.Some? ==> span.value.from <= span.value.to <= |text|
  {
    match FindTable(text)
    case None => None
    case Some(table) =>
      var body := text[table.from..table.to];
      var p := FindVersion(body, 0);
      if p == |body| then None
      else
        var inner := VersionAt(body, p).value;
        Some(Span(table.from + inner.from, table.from + inner.to))
  }

  lemma TableBeginsLine(text: string)
    requires FindTable(text).Some?
    ensures AtLineStart(text, FindTable(text).value.from)
  {
    HeaderFits(text, FindHeader(text, 0));
  }

  // ---------------------------------------------------------------------------------------------
  // uv.lock
  // ---------------------------------------------------------------------------------------------

  const PACKAGE := "[[package]]"
  const NAME := "name = \""
  const LOCK_VERSION := "version = \""
  const EDITABLE := "source = { editable = \".\" }"

  predicate IsSeparator(c: char) { c == '-' || c == '_' || c == '.' }

  function Lower(c: char): char { if 'A' <= c <= 'Z' then ((c as int) + 32) as char else c }

  /** `_canonical`: runs of separators become one dash, letters become lower case. */
  function Canonical(name: string): string {
    if name == "" then ""
    else if IsSeparator(name[0]) then
      if |name| > 1 && IsSeparator(name[1]) then Canonical(name[1..]) else "-" + Canonical(name[1..])
    else [Lower(name[0])] + Canonical(name[1..])
  }

  /** The package entry's head at `p`, up to the opening quote of its version. */
  function LockHead(text: string, canon: string, p: nat): Option<nat> {
    if !Starts(text, p, PACKAGE) then None
    else
      match Newline(text, p + |PACKAGE|)
      case None => None
      case Some(b) =>
        if !Starts(text, b, NAME + canon + "\"") then None
        else
          match Newline(text, b + |NAME| + |canon| + 1)
          case None => None
          case Some(d) => if Starts(text, d, LOCK_VERSION) then Some(d + |LOCK_VERSION|) else None
  }

  /** The closing quote at `q` and the editable source line after it. */
  predicate LockTail(text: string, q: nat) {
    && q < |text| && text[q] == '"'
    && Newline(text, q + 1).Some?
    && Starts(text, Newline(text, q + 1).value, EDITABLE)
  }

  /** `_root_package_pattern(name)` at `p`: the text between the quotes of the version. */
  function LockAt(text: string, canon: string, p: nat): (span: Option<Span>)
    ensures span.Some? ==> p < span.value.from <= span.value.to < |text|
  {
    var head := LockHead(text, canon, p);
    if head.None? then None
    else
      HeadFits(text, canon, p);
      var to := ToOneOf(text, head.value, {'"'});
      if LockTail(text, to) then Some(Span(head.value, to)) else None
  }

  lemma NewlineFits(text: string, i: nat)
    requires Newline(text, i).Some?
    ensures i < Newline(text, i).value <= |text|
    ensures forall k | i <= k < Newline(text, i).value :: text[k] in {'\r', '\n'}
  {
    if Starts(text, i, "\n") { assert text[i..i + 1][0] == '\n'; }
    else { assert text[i..i + 2][0] == '\r' && text[i..i + 2][1] == '\n'; }
  }

  lemma HeadFits(text: string, canon: string, p: nat)
    requires LockHead(text, canon, p).Some?
    ensures p + |PACKAGE| < LockHead(text, canon, p).value <= |text|
  {
    NewlineFits(text, p + |PACKAGE|);
    var b := Newline(text, p + |PACKAGE|).value;
    NewlineFits(text, b + |NAME| + |canon| + 1);
  }

  function FindLock(text: string, canon: string, i: nat): (p: nat)
    requires i <= |text|
    ensures i <= p <= |text|
    ensures p < |text| ==> LockAt(text, canon, p).Some?
    decreases |text| - i
  {
    if i == |text| || LockAt(text, canon, i).Some? then i else FindLock(text, canon, i + 1)
  }

  function LockVersion(text: string, name: string): (span: Option<Span>)
    ensures span.Some? ==> span.value.from <= span.value.to <= |text|
  {
    var p := FindLock(text, Canonical(name), 0);
    if p == |text| then None else LockAt(text, Canonical(name), p)
  }

  // ---------------------------------------------------------------------------------------------
  // The rewrite
  // ---------------------------------------------------------------------------------------------

  function Splice(text: string, span: Span, v: string): string
    requires span.from <= span.to <= |text|
  {
    text[..span.from] + v + text[span.to..]
  }

  function Between(text: string, span: Span): string
    requires span.from <= span.to <= |text|
  {
    text[span.from..span.to]
  }
}
