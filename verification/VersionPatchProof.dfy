/** Patching a version moves nothing else: the rewritten texts carry the new version in the same place, so that
    writing the old version back restores them exactly. */
module VersionPatchProof {
  import opened TextMatching
  import opened VersionPatch
  import opened Wrappers

  /** A version string that cannot disturb the texts around it. */
  predicate Plain(v: string) { forall k | 0 <= k < |v| :: v[k] != '"' && v[k] != '\n' }

  lemma Pep440IsPlain(v: string)
    requires IsPep440(v)
    ensures Plain(v)
  {
    var r := Release(v).value;
    var a := Tagged(v, r, "a");
    var b := if a > r then a else Tagged(v, r, "b");
    var pre := if b > r then b else Tagged(v, r, "rc");
    var post := Tagged(v, pre, ".post");
    var dev := Tagged(v, post, ".dev");
    assert VersionChars(v, 0, r) && VersionChars(v, r, pre) && VersionChars(v, pre, post);
    assert VersionChars(v, post, dev) && VersionChars(v, dev, Local(v, dev));
    forall k | 0 <= k < |v| ensures IsVersionChar(v[k]) {}
  }

  /** The two texts agree up to position `n`. */
  predicate SameUpTo(x: string, y: string, n: nat) { n <= |x| && n <= |y| && x[..n] == y[..n] }

  lemma StartsSame(x: string, y: string, n: nat, i: nat, what: string)
    requires SameUpTo(x, y, n) && i + |what| <= n
    ensures Starts(x, i, what) == Starts(y, i, what)
  {
    assert x[i..i + |what|] == x[..n][i..i + |what|] == y[..n][i..i + |what|] == y[i..i + |what|];
  }

  lemma SameChar(x: string, y: string, n: nat, i: nat)
    requires SameUpTo(x, y, n) && i < n
    ensures x[i] == y[i]
  {
    assert x[..n][i] == y[..n][i];
  }

  // ---------------------------------------------------------------------------------------------
  // The version line
  // ---------------------------------------------------------------------------------------------

  lemma VersionAtByParts(body: string, p: nat, e: nat, q: nat, to: nat)
    requires p + |VERSION| <= e < q < to < |body|
    requires AtLineStart(body, p) && Starts(body, p, VERSION)
    requires SkipSpaces(body, p + |VERSION|) == e && body[e] == '='
    requires SkipSpaces(body, e + 1) == q && body[q] == '"'
    requires ToOneOf(body, q + 1, {'"'}) == to
    ensures VersionAt(body, p) == Some(Span(q + 1, to))
  {
    hide AtLineStart, Starts, SkipSpaces, ToOneOf;
  }

  /** The parts of a version line. */
  lemma VersionParts(body: string, p: nat) returns (e: nat, q: nat)
    requires p <= |body| && VersionAt(body, p).Some?
    ensures AtLineStart(body, p) && Starts(body, p, VERSION)
    ensures p + |VERSION| <= e < q < |body| && VersionAt(body, p).value.from == q + 1
    ensures SkipSpaces(body, p + |VERSION|) == e && body[e] == '='
    ensures SkipSpaces(body, e + 1) == q && body[q] == '"'
    ensures ToOneOf(body, q + 1, {'"'}) == VersionAt(body, p).value.to
  {
    e := SkipSpaces(body, p + |VERSION|);
    q := SkipSpaces(body, e + 1);
  }

  /** A line before the one at `m` has its opening quote before `m`: `version` holds no space, sign or quote. */
  lemma OpensBefore(y: string, p: nat, m: nat, e: nat, q: nat)
    requires p < m && m + |VERSION| <= |y| && y[m - 1] == '\n' && y[m] == 'v'
    requires p + |VERSION| <= e < q < |y| && Starts(y, p, VERSION)
    requires SkipSpaces(y, p + |VERSION|) == e && y[e] == '=' && SkipSpaces(y, e + 1) == q && y[q] == '"'
    ensures q < m
  {
    forall k | p <= k < p + |VERSION| ensures y[k] != '\n' { assert y[p..p + |VERSION|][k - p] == VERSION[k - p]; }
    assert p + |VERSION| <= m - 1;
    assert e < m;
  }

  /** An attempt before the first match that would succeed in the patched body succeeds in the original. */
  lemma EarlierVersionLine(x: string, y: string, m: nat, p: nat)
    requires p < m < |x| && VersionAt(x, m).Some? && SameUpTo(x, y, VersionAt(x, m).value.from)
    requires p < |y| && VersionAt(y, p).Some?
    ensures VersionAt(x, p).Some?
  {
    var a := VersionAt(x, m).value.from;
    var e', q' := VersionParts(x, m);
    var e, q := VersionParts(y, p);
    assert x[m] == x[m..m + |VERSION|][0] == 'v';
    forall k | 0 <= k < a ensures x[k] == y[k] { SameChar(x, y, a, k); }
    OpensBefore(y, p, m, e, q);
    StartsSame(x, y, a, p, VERSION);
    SkipsSame(x, y, p + |VERSION|, e);
    SkipsSame(x, y, e + 1, q);
    VersionAtByParts(x, p, e, q, ToOneOf(x, q + 1, {'"'}));
  }

  lemma {:induction false} SkipsSame(x: string, y: string, i: nat, e: nat)
    requires i <= e < |y| && e < |x| && SkipSpaces(y, i) == e
    requires forall k | i <= k <= e :: x[k] == y[k]
    ensures SkipSpaces(x, i) == e
    decreases e - i
  {
    if i < e { SkipsSame(x, y, i + 1, e); }
  }

  /** Replacing the version in a table body leaves its version line the first one. */
  lemma VersionLineStays(x: string, v: string)
    requires FindVersion(x, 0) < |x| && '"' !in v
    ensures var p := FindVersion(x, 0);
      var span := VersionAt(x, p).value;
      var y := Splice(x, span, v);
      p < |y| && FindVersion(y, 0) == p && VersionAt(y, p) == Some(Span(span.from, span.from + |v|))
  {
    hide VersionAt, FindVersion, Splice;
    var p := FindVersion(x, 0);
    var y := Splice(x, VersionAt(x, p).value, v);
    PatchedLine(x, p, v);
    NoEarlierLine(x, y, p);
    FirstVersion(y, 0, p);
  }

  lemma NoEarlierLine(x: string, y: string, p: nat)
    requires FindVersion(x, 0) == p < |x| && SameUpTo(x, y, VersionAt(x, p).value.from)
    ensures forall i | 0 <= i < p :: VersionAt(y, i).None?
  {
    hide VersionAt, FindVersion;
    forall i | 0 <= i < p ensures VersionAt(y, i).None? {
      NoneBeforeVersion(x, 0, i);
      if VersionAt(y, i).Some? { EarlierVersionLine(x, y, p, i); }
    }
  }

  lemma {:induction false} NoneBeforeVersion(x: string, i: nat, j: nat)
    requires i <= |x| && i <= j < FindVersion(x, i)
    ensures VersionAt(x, j).None?
    decreases j - i
  {
    hide VersionAt;
    if i < j { NoneBeforeVersion(x, i + 1, j); }
  }

  lemma {:induction false} FirstVersion(y: string, i: nat, p: nat)
    requires i <= p < |y| && VersionAt(y, p).Some? && forall j | i <= j < p :: VersionAt(y, j).None?
    ensures FindVersion(y, i) == p
    decreases p - i
  {
    hide VersionAt;
    if i < p { FirstVersion(y, i + 1, p); }
  }

  lemma PatchedLine(x: string, p: nat, v: string)
    requires p <= |x| && VersionAt(x, p).Some? && '"' !in v
    ensures var span := VersionAt(x, p).value;
      var y := Splice(x, span, v);
      p < |y| && SameUpTo(x, y, span.from) && VersionAt(y, p) == Some(Span(span.from, span.from + |v|))
  {
    hide VersionAt, Splice;
    var span := VersionAt(x, p).value;
    var y := Splice(x, span, v);
    var e, q := VersionParts(x, p);
    PrefixKept(x, span, v);
    ClosingQuote(x, span, v);
    OpeningSame(x, y, p, e, q);
    VersionAtByParts(y, p, e, q, span.from + |v|);
  }

  lemma OpeningSame(x: string, y: string, p: nat, e: nat, q: nat)
    requires SameUpTo(x, y, q + 1) && p + |VERSION| <= e < q && AtLineStart(x, p) && Starts(x, p, VERSION)
    requires SkipSpaces(x, p + |VERSION|) == e && SkipSpaces(x, e + 1) == q
    ensures AtLineStart(y, p) && Starts(y, p, VERSION)
    ensures SkipSpaces(y, p + |VERSION|) == e && SkipSpaces(y, e + 1) == q && y[e] == x[e] && y[q] == x[q]
  {
    hide SkipSpaces, Starts;
    forall k | 0 <= k <= q ensures y[k] == x[k] { SameChar(x, y, q + 1, k); }
    StartsSame(x, y, q + 1, p, VERSION);
    SkipsSame(y, x, p + |VERSION|, e);
    SkipsSame(y, x, e + 1, q);
  }

  /** The spliced version is closed by the old closing quote. */
  lemma ClosingQuote(x: string, span: Span, v: string)
    requires span.from <= span.to < |x| && x[span.to] == '"' && '"' !in v
    ensures ToOneOf(Splice(x, span, v), span.from, {'"'}) == span.from + |v| < |Splice(x, span, v)|
  {
    var y := Splice(x, span, v);
    assert y[span.from + |v|] == x[span.to];
    forall k | span.from <= k < span.from + |v| ensures y[k] != '"' { assert y[k] == v[k - span.from]; }
    StopsAt(y, span.from, span.from + |v|);
  }

  lemma {:induction false} StopsAt(y: string, i: nat, m: nat)
    requires i <= m < |y| && y[m] == '"' && forall k | i <= k < m :: y[k] != '"'
    ensures ToOneOf(y, i, {'"'}) == m
    decreases m - i
  {
    if i < m { StopsAt(y, i + 1, m); }
  }

  // ---------------------------------------------------------------------------------------------
  // The project table
  // ---------------------------------------------------------------------------------------------

  lemma {:induction false} LineEndSame(x: string, y: string, i: nat, e: nat)
    requires i <= e < |y| && e < |x| && ToOneOf(y, i, {'\r', '\n'}) == e
    requires forall k | i <= k <= e :: x[k] == y[k]
    ensures ToOneOf(x, i, {'\r', '\n'}) == e
    decreases e - i
  {
    if i < e { LineEndSame(x, y, i + 1, e); }
  }

  /** A header that ends within the common part is a header of both texts. */
  lemma HeaderSame(x: string, y: string, n: nat, i: nat)
    requires SameUpTo(x, y, n) && i <= |y| && HeaderAt(y, i).Some? && HeaderAt(y, i).value <= n
    ensures i <= |x| && HeaderAt(x, i) == HeaderAt(y, i)
  {
    HeaderFits(y, i);
    var e := ToOneOf(y, i + |PROJECT|, {'\r', '\n'});
    NewlineFits(y, e);
    forall k | 0 <= k < n ensures x[k] == y[k] { SameChar(x, y, n, k); }
    StartsSame(x, y, n, i, PROJECT);
    LineEndSame(x, y, i + |PROJECT|, e);
    if Starts(y, e, "\n") { StartsSame(x, y, n, e, "\n"); }
    else {
      StartsSame(x, y, n, e, "\n");
      StartsSame(x, y, n, e, "\r\n");
    }
  }

  /** An earlier header ends before the line of a later one. */
  lemma EarlierHeaderEnds(y: string, i: nat, h: nat)
    requires i < h < |y| && HeaderAt(y, i).Some? && AtLineStart(y, h)
    ensures HeaderAt(y, i).value <= h
  {
    assert y[h - 1] == '\n';
    assert forall k | i <= k < i + |PROJECT| :: y[k] == PROJECT[k - i] by { assert y[i..i + |PROJECT|] == PROJECT; }
    assert h - 1 >= i + |PROJECT|;
    var e := ToOneOf(y, i + |PROJECT|, {'\r', '\n'});
    assert e <= h - 1;
    NewlineFits(y, e);
    if !Starts(y, e, "\n") { assert y[e..e + 2][0] == '\r' && e + 1 <= h - 1; }
  }

  /** The header is found by looking at the text up to the table body only. */
  lemma HeaderStays(x: string, y: string)
    requires FindTable(x).Some? && SameUpTo(x, y, FindTable(x).value.from)
    ensures FindHeader(y, 0) == FindHeader(x, 0) < |y|
    ensures HeaderAt(y, FindHeader(x, 0)) == Some(FindTable(x).value.from)
  {
    var h, s := FindHeader(x, 0), FindTable(x).value.from;
    HeaderFits(x, h);
    HeaderSame(y, x, s, h);
    forall i | 0 <= i < h ensures HeaderAt(y, i).None? {
      NoneBeforeHeader(x, 0, i);
      if HeaderAt(y, i).Some? {
        EarlierHeaderEnds(y, i, h);
        HeaderSame(x, y, s, i);
      }
    }
    FirstHeader(y, 0, h);
  }

  lemma {:induction false} NoneBeforeHeader(x: string, i: nat, j: nat)
    requires i <= |x| && i <= j < FindHeader(x, i)
    ensures HeaderAt(x, j).None?
    decreases j - i
  {
    if i < j { NoneBeforeHeader(x, i + 1, j); }
  }

  lemma {:induction false} FirstHeader(y: string, i: nat, h: nat)
    requires i <= h < |y| && HeaderAt(y, h).Some? && forall j | i <= j < h :: HeaderAt(y, j).None?
    ensures FindHeader(y, i) == h
    decreases h - i
  {
    if i < h { FirstHeader(y, i + 1, h); }
  }

  /** No line of the body begins a table. */
  predicate NoTable(body: string) { forall k | 0 <= k < |body| :: !(body[k] == '[' && AtLineStart(body, k)) }

  lemma {:induction false} EndsAt(y: string, s: nat, j: nat)
    requires s <= j <= |y| && (j == |y| || (y[j] == '[' && AtLineStart(y, j)))
    requires forall k | s <= k < j :: !(y[k] == '[' && AtLineStart(y, k))
    ensures BodyEnd(y, s) == j
    decreases j - s
  {
    if s < j { EndsAt(y, s + 1, j); }
  }

  /** Replacing the table body by one that begins no table and ends its last line leaves the table in place. */
  lemma TableStays(x: string, body: string)
    requires FindTable(x).Some? && NoTable(body) && body != ""
    requires FindTable(x).value.to < |x| ==> body[|body| - 1] == '\n'
    ensures var s := FindTable(x).value.from; FindTable(Splice(x, FindTable(x).value, body)) == Some(Span(s, s + |body|))
  {
    hide NoTable, FindTable, FindHeader, HeaderAt, BodyEnd, Splice;
    TableBeginsLine(x);
    var table := FindTable(x).value;
    var s, y := table.from, Splice(x, table, body);
    SpliceParts(x, table, body);
    TableEnd(x);
    HeaderStays(x, y);
    NewBodyBeginsNoTable(y, s, body);
    EndsAt(y, s, s + |body|);
    TableByParts(y, FindHeader(x, 0), s, s + |body|);
  }

  /** Where the pieces of a spliced text are. */
  lemma SpliceParts(x: string, span: Span, body: string)
    requires span.from <= span.to <= |x|
    ensures var s, y := span.from, Splice(x, span, body);
      && |y| == s + |body| + |x| - span.to
      && y[..s] == x[..s] && y[s..s + |body|] == body
      && (forall k | 0 <= k < s :: y[k] == x[k])
      && (body != "" ==> y[s + |body| - 1] == body[|body| - 1])
      && (span.to < |x| ==> y[s + |body|] == x[span.to])
  {}

  lemma TableEnd(x: string)
    requires FindTable(x).Some?
    ensures FindTable(x).value.to < |x| ==> x[FindTable(x).value.to] == '['
  {}

  lemma TableByParts(y: string, h: nat, s: nat, e: nat)
    requires FindHeader(y, 0) == h < |y| && HeaderAt(y, h) == Some(s) && s <= |y| && BodyEnd(y, s) == e
    ensures FindTable(y) == Some(Span(s, e))
  {}

  lemma NewBodyBeginsNoTable(y: string, s: nat, body: string)
    requires s > 0 && s + |body| <= |y| && y[s..s + |body|] == body && NoTable(body) && y[s - 1] == '\n'
    ensures forall k | s <= k < s + |body| :: !(y[k] == '[' && AtLineStart(y, k))
  {
    assert forall k | s <= k < s + |body| :: y[k] == body[k - s];
    forall k | s <= k < s + |body| ensures !(y[k] == '[' && AtLineStart(y, k)) {
      assert !(body[k - s] == '[' && AtLineStart(body, k - s));
    }
  }

  lemma {:induction false} NoTableBefore(x: string, s: nat, k: nat)
    requires s <= |x| && s <= k < BodyEnd(x, s)
    ensures !(x[k] == '[' && AtLineStart(x, k))
    decreases k - s
  {
    if s < k { NoTableBefore(x, s + 1, k); }
  }

  lemma BodyOfTable(x: string)
    requires FindTable(x).Some?
    ensures var table := FindTable(x).value; NoTable(x[table.from..table.to])
    ensures var table := FindTable(x).value;
      table.from < table.to < |x| ==> x[table.to - 1] == '\n'
  {
    TableBeginsLine(x);
    var table := FindTable(x).value;
    var body := x[table.from..table.to];
    forall k | 0 <= k < |body| ensures !(body[k] == '[' && AtLineStart(body, k)) {
      NoTableBefore(x, table.from, table.from + k);
      assert body[k] == x[table.from + k];
      if k > 0 { assert body[k - 1] == x[table.from + k - 1]; }
    }
  }

  lemma SpliceBeginsNoTable(body: string, span: Span, v: string)
    requires NoTable(body) && 0 < span.from <= span.to < |body| && body[span.from - 1] == '"' && body[span.to] == '"'
    requires Plain(v)
    ensures NoTable(Splice(body, span, v))
    ensures Splice(body, span, v) != "" && Splice(body, span, v)[|Splice(body, span, v)| - 1] == body[|body| - 1]
  {
    var y := Splice(body, span, v);
    var d := span.from + |v|;
    assert y[|y| - 1] == body[|body| - 1];
    forall k | 0 <= k < |y| ensures !(y[k] == '[' && AtLineStart(y, k)) {
      if k < span.from {
        assert y[k] == body[k] && (k > 0 ==> y[k - 1] == body[k - 1]);
      } else if k < d {
        assert y[k - 1] == if k == span.from then '"' else v[k - 1 - span.from];
      } else {
        assert y[k] == body[k - d + span.to];
        if k > d { assert y[k - 1] == body[k - 1 - d + span.to]; }
      }
    }
  }

  /** The table body, and the version line in it. */
  ghost predicate IsTable(y: string, table: Span, body: string) {
    FindTable(y) == Some(table) && 0 < table.from <= table.to <= |y| && y[table.from..table.to] == body
  }

  ghost predicate IsLine(body: string, p: nat, inner: Span) {
    FindVersion(body, 0) == p < |body| && VersionAt(body, p) == Some(inner)
  }

  lemma ProjectVersionByParts(y: string, table: Span, body: string, p: nat, inner: Span)
    requires IsTable(y, table, body) && IsLine(body, p, inner)
    ensures ProjectVersion(y) == Some(Span(table.from + inner.from, table.from + inner.to))
  {
    hide FindTable, FindVersion, VersionAt;
  }

  lemma ProjectParts(x: string) returns (table: Span, body: string, p: nat, inner: Span)
    requires ProjectVersion(x).Some?
    ensures IsTable(x, table, body) && IsLine(body, p, inner)
  {
    table := FindTable(x).value;
    body := x[table.from..table.to];
    p := FindVersion(body, 0);
    inner := VersionAt(body, p).value;
  }

  lemma LineFits(body: string, p: nat, inner: Span)
    requires IsLine(body, p, inner)
    ensures 0 < inner.from <= inner.to < |body| && body[inner.from - 1] == '"' && body[inner.to] == '"'
  {}

  lemma TableIn(x: string, table: Span, body: string)
    requires IsTable(x, table, body)
    ensures table.from <= table.to <= |x| && body == x[table.from..table.to]
  {}

  lemma PatchedIsLine(body: string, p: nat, inner: Span, v: string)
    requires IsLine(body, p, inner) && Plain(v) && inner.from <= inner.to <= |body|
    ensures IsLine(Splice(body, inner, v), p, Span(inner.from, inner.from + |v|))
  {
    hide VersionAt, FindVersion, Splice;
    VersionLineStays(body, v);
  }

  lemma PatchedIsTable(x: string, table: Span, body: string, p: nat, inner: Span, v: string)
    requires IsTable(x, table, body) && IsLine(body, p, inner) && Plain(v)
    requires inner.from <= inner.to <= |body|
    ensures var body' := Splice(body, inner, v);
      IsTable(Splice(x, table, body'), Span(table.from, table.from + |body'|), body')
  {
    hide FindTable, IsLine, Plain, NoTable;
    BodyOfTable(x);
    LineFits(body, p, inner);
    SpliceBeginsNoTable(body, inner, v);
    NewBody(x, table, Splice(body, inner, v));
  }

  lemma NewBody(x: string, table: Span, body: string)
    requires FindTable(x) == Some(table) && NoTable(body) && body != ""
    requires table.to < |x| ==> body[|body| - 1] == '\n'
    ensures table.from <= table.to <= |x| && IsTable(Splice(x, table, body), Span(table.from, table.from + |body|), body)
  {
    hide FindTable, NoTable, Splice;
    TableStays(x, body);
    SliceOfSplice(x, table, body);
  }

  lemma SpliceInside(x: string, table: Span, inner: Span, v: string)
    requires table.from <= table.to <= |x| && inner.from <= inner.to <= table.to - table.from
    ensures var body := Splice(x[table.from..table.to], inner, v);
      var y := Splice(x, Span(table.from + inner.from, table.from + inner.to), v);
      y == Splice(x, table, body) && table.from + |body| <= |y| && y[table.from..table.from + |body|] == body
  {}

  /** In pyproject.toml the patched version stands where the old one stood. */
  lemma ProjectVersionStays(x: string, v: string)
    requires ProjectVersion(x).Some? && Plain(v)
    ensures var span := ProjectVersion(x).value; ProjectVersion(Splice(x, span, v)) == Some(Span(span.from, span.from + |v|))
  {
    hide *;
    var table, body, p, inner := ProjectParts(x);
    ProjectVersionByParts(x, table, body, p, inner);
    LineFits(body, p, inner);
    TableIn(x, table, body);
    PatchedVersion(x, table, body, p, inner, v);
    SpliceInside(x, table, inner, v);
  }

  lemma PatchedVersion(x: string, table: Span, body: string, p: nat, inner: Span, v: string)
    requires table.from <= table.to <= |x|
    requires IsTable(x, table, body) && IsLine(body, p, inner) && Plain(v)
    requires inner.from <= inner.to <= |body|
    ensures ProjectVersion(Splice(x, table, Splice(body, inner, v))) ==
            Some(Span(table.from + inner.from, table.from + inner.from + |v|))
  {
    hide *;
    var body' := Splice(body, inner, v);
    PatchedIsLine(body, p, inner, v);
    PatchedIsTable(x, table, body, p, inner, v);
    ProjectVersionByParts(Splice(x, table, body'), Span(table.from, table.from + |body'|), body', p,
                          Span(inner.from, inner.from + |v|));
  }

  lemma SliceOfSplice(x: string, table: Span, body: string)
    requires table.from <= table.to <= |x|
    ensures var y := Splice(x, table, body);
      table.from + |body| <= |y| && y[table.from..table.from + |body|] == body
  {}

  // ---------------------------------------------------------------------------------------------
  // The lock entry
  // ---------------------------------------------------------------------------------------------

  /** A distribution name that cannot be mistaken for the beginning of an entry or the end of a line. */
  predicate NameOk(canon: string) { canon != "" && canon[0] != '\r' && canon[0] != '\n' && '[' !in canon }

  lemma NewlineSame(x: string, y: string, n: nat, i: nat)
    requires SameUpTo(x, y, n) && Newline(y, i).Some? && Newline(y, i).value <= n
    ensures Newline(x, i) == Newline(y, i)
  {
    NewlineFits(y, i);
    StartsSame(x, y, n, i, "\n");
    if !Starts(y, i, "\n") { StartsSame(x, y, n, i, "\r\n"); }
  }

  lemma HeadSame(x: string, y: string, canon: string, n: nat, p: nat)
    requires SameUpTo(x, y, n) && LockHead(y, canon, p).Some? && LockHead(y, canon, p).value <= n
    ensures LockHead(x, canon, p) == LockHead(y, canon, p)
  {
    hide Newline, SameUpTo;
    var b := Newline(y, p + |PACKAGE|).value;
    var c := b + |NAME| + |canon| + 1;
    NewlineFits(y, p + |PACKAGE|);
    NewlineFits(y, c);
    StartsSame(x, y, n, p, PACKAGE);
    NewlineSame(x, y, n, p + |PACKAGE|);
    StartsSame(x, y, n, b, NAME + canon + "\"");
    NewlineSame(x, y, n, c);
    StartsSame(x, y, n, Newline(y, c).value, LOCK_VERSION);
  }

  lemma TailSame(x: string, y: string, n: nat, q: nat)
    requires SameUpTo(x, y, n) && LockTail(y, q) && Newline(y, q + 1).value + |EDITABLE| <= n
    ensures LockTail(x, q)
  {
    NewlineFits(y, q + 1);
    SameChar(x, y, n, q);
    NewlineSame(x, y, n, q + 1);
    StartsSame(x, y, n, Newline(y, q + 1).value, EDITABLE);
  }

  lemma StartsChars(text: string, i: nat, what: string)
    requires Starts(text, i, what)
    ensures forall k | i <= k < i + |what| :: text[k] == what[k - i]
  {
    assert text[i..i + |what|] == what;
  }

  /** The positions inside a head. */
  lemma HeadParts(y: string, canon: string, p: nat) returns (b: nat, c: nat, d: nat)
    requires LockHead(y, canon, p).Some?
    ensures p + |PACKAGE| < b && b + |NAME| + |canon| + 1 == c < d && d + |LOCK_VERSION| == LockHead(y, canon, p).value <= |y|
    ensures Starts(y, p, PACKAGE) && Starts(y, b, NAME + canon + "\"") && Starts(y, d, LOCK_VERSION)
    ensures forall k | p + |PACKAGE| <= k < b || c <= k < d :: y[k] in {'\r', '\n'}
  {
    b := Newline(y, p + |PACKAGE|).value;
    c := b + |NAME| + |canon| + 1;
    HeadFits(y, canon, p);
    NewlineFits(y, p + |PACKAGE|);
    NewlineFits(y, c);
    d := Newline(y, c).value;
  }

  lemma NoBracketIn(y: string, i: nat, what: string, k: nat)
    requires Starts(y, i, what) && i <= k < i + |what| && '[' !in what
    ensures y[k] != '['
  {
    StartsChars(y, i, what);
    assert what[k - i] in what;
  }

  /** Inside a head, only its first two characters are brackets that open an entry. */
  lemma NoEntryInsideHead(y: string, canon: string, p: nat, m: nat)
    requires NameOk(canon) && LockHead(y, canon, p).Some? && Starts(y, m, PACKAGE) && p < m
    ensures LockHead(y, canon, p).value <= m
  {
    var b, c, d := HeadParts(y, canon, p);
    StartsChars(y, m, PACKAGE);
    assert y[m] == '[' && y[m + 1] == '[';
    if m < p + |PACKAGE| {
      StartsChars(y, p, PACKAGE);
    } else if b <= m < c {
      NoBracketIn(y, b, NAME + canon + "\"", m);
    } else if d <= m < d + |LOCK_VERSION| {
      NoBracketIn(y, d, LOCK_VERSION, m);
    }
  }

  /** The first quote of an entry's head is the one that opens its name. */
  lemma FirstQuoteOfHead(y: string, canon: string, m: nat) returns (k: nat)
    requires LockHead(y, canon, m).Some?
    ensures m < k < k + 1 + |canon| < LockHead(y, canon, m).value <= |y|
    ensures y[k] == '"' && y[k + 1..k + 1 + |canon|] == canon && forall j | m <= j < k :: y[j] != '"'
  {
    var b, c, d := HeadParts(y, canon, m);
    StartsChars(y, m, PACKAGE);
    StartsChars(y, b, NAME + canon + "\"");
    k := b + |NAME| - 1;
    assert forall j | b <= j < k :: y[j] == NAME[j - b];
    assert y[k] == NAME[|NAME| - 1];
    assert y[b..b + |NAME| + |canon| + 1] == NAME + canon + "\"";
    assert y[k + 1..k + 1 + |canon|] == (NAME + canon + "\"")[|NAME|..|NAME| + |canon|];
  }

  /** A closing quote after an earlier head, with its source line, stands before the next entry. */
  lemma QuoteBefore(y: string, canon: string, m: nat, from: nat, to: nat)
    requires NameOk(canon) && LockHead(y, canon, m).Some? && from <= m
    requires ToOneOf(y, from, {'"'}) == to && LockTail(y, to)
    ensures to < m
  {
    var k := FirstQuoteOfHead(y, canon, m);
    assert to <= k;
    NewlineFits(y, to + 1);
    assert y[k + 1..k + 1 + |canon|][0] == y[k + 1];
  }

  lemma LockParts(y: string, canon: string, p: nat) returns (from: nat, to: nat)
    requires LockAt(y, canon, p).Some?
    ensures LockAt(y, canon, p) == Some(Span(from, to)) && LockHead(y, canon, p) == Some(from)
    ensures from <= to < |y| && ToOneOf(y, from, {'"'}) == to && LockTail(y, to)
  {
    from, to := LockAt(y, canon, p).value.from, LockAt(y, canon, p).value.to;
    HeadFits(y, canon, p);
  }

  lemma TailEndsBefore(y: string, to: nat, m: nat)
    requires LockTail(y, to) && to < m && Starts(y, m, PACKAGE)
    ensures Newline(y, to + 1).value + |EDITABLE| <= m
  {
    NewlineFits(y, to + 1);
    StartsChars(y, m, PACKAGE);
    assert y[m] == '[';
    var f := Newline(y, to + 1).value;
    if f <= m < f + |EDITABLE| { NoBracketIn(y, f, EDITABLE, m); }
  }

  /** A match that begins before an entry's head ends before that entry. */
  lemma MatchEndsBefore(y: string, canon: string, p: nat, m: nat)
    requires NameOk(canon) && p < m && LockAt(y, canon, p).Some? && LockHead(y, canon, m).Some?
    ensures var to := LockAt(y, canon, p).value.to; Newline(y, to + 1).value + |EDITABLE| <= m
  {
    var from, to := LockParts(y, canon, p);
    var b, c, d := HeadParts(y, canon, m);
    NoEntryInsideHead(y, canon, p, m);
    QuoteBefore(y, canon, m, from, to);
    TailEndsBefore(y, to, m);
  }

  lemma EarlierEntry(x: string, y: string, canon: string, m: nat, p: nat)
    requires NameOk(canon) && p < m && LockAt(x, canon, m).Some? && SameUpTo(x, y, LockAt(x, canon, m).value.from)
    requires LockAt(y, canon, p).Some?
    ensures LockAt(x, canon, p).Some?
  {
    hide LockHead, Newline, NameOk;
    var a := LockAt(x, canon, m).value.from;
    HeadFits(x, canon, m);
    HeadSame(y, x, canon, a, m);
    MatchEndsBefore(y, canon, p, m);
    var span := LockAt(y, canon, p).value;
    NewlineFits(y, span.to + 1);
    HeadSame(x, y, canon, a, p);
    TailSame(x, y, a, span.to);
    forall k | span.from <= k <= span.to ensures x[k] == y[k] { SameChar(x, y, a, k); }
    StopsAt(x, span.from, span.to);
  }

  lemma LockAtByParts(y: string, canon: string, p: nat, from: nat, to: nat)
    requires LockHead(y, canon, p) == Some(from) && from <= |y|
    requires ToOneOf(y, from, {'"'}) == to && LockTail(y, to)
    ensures LockAt(y, canon, p) == Some(Span(from, to))
  {
    HeadFits(y, canon, p);
  }

  lemma PatchedEntry(x: string, canon: string, p: nat, v: string)
    requires LockAt(x, canon, p).Some? && '"' !in v
    ensures var span := LockAt(x, canon, p).value;
      LockAt(Splice(x, span, v), canon, p) == Some(Span(span.from, span.from + |v|))
  {
    hide *;
    var from, to := LockParts(x, canon, p);
    HeadStays(x, canon, p, Span(from, to), v);
    ClosingQuote(x, Span(from, to), v);
    TailMoves(x, Span(from, to), v);
    LockAtByParts(Splice(x, Span(from, to), v), canon, p, from, from + |v|);
  }

  lemma HeadStays(x: string, canon: string, p: nat, span: Span, v: string)
    requires LockHead(x, canon, p) == Some(span.from) && span.from <= span.to <= |x|
    ensures LockHead(Splice(x, span, v), canon, p) == Some(span.from)
  {
    assert SameUpTo(Splice(x, span, v), x, span.from);
    HeadSame(Splice(x, span, v), x, canon, span.from, p);
  }

  lemma TailMoves(x: string, span: Span, v: string)
    requires span.from <= span.to && LockTail(x, span.to)
    ensures LockTail(Splice(x, span, v), span.from + |v|)
  {
    var y, d := Splice(x, span, v), span.from + |v|;
    assert y[d..] == x[span.to..];
    StartsMoves(x, y, span.to, d, 1, "\n");
    StartsMoves(x, y, span.to, d, 1, "\r\n");
    StartsMoves(x, y, span.to, d, 2, EDITABLE);
    StartsMoves(x, y, span.to, d, 3, EDITABLE);
    assert y[d] == y[d..][0] == x[span.to];
  }

  lemma StartsMoves(x: string, y: string, i: nat, j: nat, k: nat, what: string)
    requires i <= |x| && j <= |y| && y[j..] == x[i..]
    ensures Starts(y, j + k, what) == Starts(x, i + k, what)
  {
    if i + k + |what| <= |x| {
      assert y[j + k..j + k + |what|] == y[j..][k..k + |what|] == x[i..][k..k + |what|] == x[i + k..i + k + |what|];
    }
  }

  lemma {:induction false} NoneBeforeEntry(x: string, canon: string, i: nat, j: nat)
    requires i <= |x| && i <= j < FindLock(x, canon, i)
    ensures LockAt(x, canon, j).None?
    decreases j - i
  {
    if i < j { NoneBeforeEntry(x, canon, i + 1, j); }
  }

  lemma {:induction false} FirstEntry(y: string, canon: string, i: nat, p: nat)
    requires i <= p < |y| && LockAt(y, canon, p).Some? && forall j | i <= j < p :: LockAt(y, canon, j).None?
    ensures FindLock(y, canon, i) == p
    decreases p - i
  {
    hide LockAt;
    if i < p { FirstEntry(y, canon, i + 1, p); }
  }

  lemma NoEarlierEntry(x: string, y: string, canon: string, p: nat, i: nat)
    requires NameOk(canon) && i < p == FindLock(x, canon, 0)
    requires LockAt(x, canon, p).Some? && SameUpTo(x, y, LockAt(x, canon, p).value.from)
    ensures LockAt(y, canon, i).None?
  {
    hide *;
    NoneBeforeEntry(x, canon, 0, i);
    if LockAt(y, canon, i).Some? { EarlierEntry(x, y, canon, p, i); }
  }

  /** In uv.lock the patched version stands where the old one stood. */
  lemma LockVersionStays(x: string, name: string, v: string)
    requires LockVersion(x, name).Some? && NameOk(Canonical(name)) && '"' !in v
    ensures var span := LockVersion(x, name).value;
      LockVersion(Splice(x, span, v), name) == Some(Span(span.from, span.from + |v|))
  {
    hide *;
    var canon := Canonical(name);
    var p := LockEntry(x, name);
    var span := LockAt(x, canon, p).value;
    var y := Splice(x, span, v);
    PrefixKept(x, span, v);
    PatchedEntry(x, canon, p, v);
    forall i | 0 <= i < p ensures LockAt(y, canon, i).None? {
      NoEarlierEntry(x, y, canon, p, i);
    }
    FirstEntry(y, canon, 0, p);
    LockVersionByParts(y, name, p);
  }

  lemma LockEntry(x: string, name: string) returns (p: nat)
    requires LockVersion(x, name).Some?
    ensures p == FindLock(x, Canonical(name), 0) < |x|
    ensures LockVersion(x, name) == LockAt(x, Canonical(name), p)
    ensures LockAt(x, Canonical(name), p).Some?
  {
    p := FindLock(x, Canonical(name), 0);
  }

  lemma LockVersionByParts(y: string, name: string, p: nat)
    requires FindLock(y, Canonical(name), 0) == p < |y|
    ensures LockVersion(y, name) == LockAt(y, Canonical(name), p)
  {}

  lemma PrefixKept(x: string, span: Span, v: string)
    requires span.from <= span.to <= |x|
    ensures SameUpTo(x, Splice(x, span, v), span.from)
  {}

  // ---------------------------------------------------------------------------------------------
  // Round trips
  // ---------------------------------------------------------------------------------------------

  lemma SpliceBack(x: string, span: Span, v: string)
    requires span.from <= span.to <= |x|
    ensures var y := Splice(x, span, v);
      && Between(y, Span(span.from, span.from + |v|)) == v
      && Splice(y, Span(span.from, span.from + |v|), Between(x, span)) == x
  {}

  /** Patching pyproject.toml to `v` and back to the version it carried restores the text. */
  lemma ProjectRoundTrip(x: string, v: string)
    requires ProjectVersion(x).Some? && Plain(v)
    ensures var span := ProjectVersion(x).value;
      var y := Splice(x, span, v);
      && ProjectVersion(y).Some? && Between(y, ProjectVersion(y).value) == v
      && Splice(y, ProjectVersion(y).value, Between(x, span)) == x
  {
    ProjectVersionStays(x, v);
    SpliceBack(x, ProjectVersion(x).value, v);
  }

  /** Patching uv.lock to `v` and back restores the text. */
  lemma LockRoundTrip(x: string, name: string, v: string)
    requires LockVersion(x, name).Some? && NameOk(Canonical(name)) && '"' !in v
    ensures var span := LockVersion(x, name).value;
      var y := Splice(x, span, v);
      && LockVersion(y, name).Some? && Between(y, LockVersion(y, name).value) == v
      && Splice(y, LockVersion(y, name).value, Between(x, span)) == x
  {
    LockVersionStays(x, name, v);
    SpliceBack(x, LockVersion(x, name).value, v);
  }

  const SMALLEST := "[project]\nversion=\"1\"\n"

  lemma SmallestTable()
    ensures FindTable(SMALLEST) == Some(Span(10, 22))
  {
    hide NoTable;
    assert SMALLEST[..9] == PROJECT && SMALLEST[9..10] == "\n";
    assert Starts(SMALLEST, 0, PROJECT) && Starts(SMALLEST, 9, "\n");
    assert ToOneOf(SMALLEST, 9, {'\r', '\n'}) == 9;
    assert HeaderAt(SMALLEST, 0) == Some(10);
    assert FindHeader(SMALLEST, 0) == 0;
    forall k | 10 <= k < 22 ensures SMALLEST[k] != '[' {}
    EndsAt(SMALLEST, 10, 22);
    TableByParts(SMALLEST, 0, 10, 22);
  }

  lemma SmallestLine()
    ensures FindVersion("version=\"1\"\n", 0) == 0 && VersionAt("version=\"1\"\n", 0) == Some(Span(9, 10))
  {
    var body := "version=\"1\"\n";
    assert body[..7] == VERSION;
    assert Starts(body, 0, VERSION);
    VersionAtByParts(body, 0, 7, 8, 10);
  }

  /** A smallest pyproject text and the version found in it. */
  lemma SmallestProject()
    ensures ProjectVersion(SMALLEST) == Some(Span(19, 20)) && SMALLEST[19..20] == "1"
  {
    SmallestTable();
    SmallestLine();
    var body := SMALLEST[10..22];
    assert body == "version=\"1\"\n";
    ProjectVersionByParts(SMALLEST, Span(10, 22), body, 0, Span(9, 10));
  }
}
