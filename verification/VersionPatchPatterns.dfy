/** What the patterns of `patch_version` match, part by part, and every failure of the work in memory. */
module VersionPatchPatterns {
  import opened TextMatching
  import opened VersionPatch
  import opened VersionPatchProof
  import opened VersionPatchFiles
  import opened Wrappers

  // ---------------------------------------------------------------------------------------------
  // PEP 440
  // ---------------------------------------------------------------------------------------------

  /** `\d+`. */
  predicate IsNumber(s: string) { s != "" && forall i | 0 <= i < |s| :: '0' <= s[i] <= '9' }

  /** `[a-zA-Z0-9]+`. */
  predicate IsSegment(s: string) {
    s != "" && forall i | 0 <= i < |s| :: '0' <= s[i] <= '9' || 'a' <= s[i] <= 'z' || 'A' <= s[i] <= 'Z'
  }

  /** One of the tags and a number, or nothing. */
  ghost predicate IsTagged(s: string, tags: set<string>) {
    s == "" || exists tag, number :: tag in tags && IsNumber(number) && s == tag + number
  }

  /** The segments, each behind a dot. */
  function Dotted(segments: seq<string>): string {
    if segments == [] then "" else "." + segments[0] + Dotted(segments[1..])
  }

  ghost predicate IsLocal(s: string) {
    s == "" || exists first, more :: IsSegment(first) && AllSegments(more) && s == "+" + first + Dotted(more)
  }

  predicate AllSegments(segments: seq<string>) { forall i | 0 <= i < |segments| :: IsSegment(segments[i]) }

  /** X.Y.Z[(a|b|rc)N][.postN][.devN][+local]. */
  ghost predicate IsVersion(v: string, a: string, b: string, c: string, pre: string, post: string, dev: string,
                            local: string)
  {
    && IsNumber(a) && IsNumber(b) && IsNumber(c)
    && IsTagged(pre, {"a", "b", "rc"}) && IsTagged(post, {".post"}) && IsTagged(dev, {".dev"}) && IsLocal(local)
    && v == a + ("." + (b + ("." + (c + (pre + (post + (dev + local)))))))
  }

  predicate Runs(c: char, digitsOnly: bool) { IsDigit(c) || (!digitsOnly && IsAlnum(c)) }

  /** Reading on: what is left of `v` from `i` is `s`, then `r`. */
  predicate Ahead(v: string, i: nat, s: string, r: string) { i <= |v| && v[i..] == s + r }

  lemma ReadOn(v: string, i: nat, s: string, r: string)
    requires Ahead(v, i, s, r)
    ensures i + |s| <= |v| && v[i..i + |s|] == s && v[i + |s|..] == r
    ensures forall k | 0 <= k < |s| :: v[i + k] == s[k]
    ensures r != "" ==> i + |s| < |v| && v[i + |s|] == r[0]
  {
    assert v[i..][..|s|] == s && v[i..][|s|..] == r;
    forall k | 0 <= k < |s| ensures v[i + k] == s[k] { assert v[i..][k] == s[k]; }
    if r != "" { assert v[i..][|s|] == r[0]; }
  }

  lemma {:induction false} RunOver(v: string, i: nat, s: string, r: string, digitsOnly: bool)
    requires Ahead(v, i, s, r) && (forall k | 0 <= k < |s| :: Runs(s[k], digitsOnly))
    requires r == "" || !Runs(r[0], digitsOnly)
    ensures Run(v, i, digitsOnly) == i + |s|
    decreases |s|
  {
    ReadOn(v, i, s, r);
    if s != "" {
      assert v[i] == s[0];
      assert v[i + 1..] == v[i..][1..] == s[1..] + r;
      RunOver(v, i + 1, s[1..], r, digitsOnly);
    } else {
      assert r == v[i..];
    }
  }

  lemma {:induction false} RunTakes(v: string, i: nat, digitsOnly: bool)
    requires i <= |v|
    ensures var j := Run(v, i, digitsOnly);
      && (forall k | i <= k < j :: Runs(v[k], digitsOnly))
      && (j < |v| ==> !Runs(v[j], digitsOnly))
    decreases |v| - i
  {
    if i < |v| && Runs(v[i], digitsOnly) { RunTakes(v, i + 1, digitsOnly); }
  }

  /** The text after a number does not go on with a digit. */
  predicate NoDigit(r: string) { r == "" || !('0' <= r[0] <= '9') }

  lemma TagOver(v: string, i: nat, what: string, number: string, r: string)
    requires Ahead(v, i, what + number, r) && IsNumber(number) && NoDigit(r)
    requires forall k | 0 <= k < |what| :: IsVersionChar(what[k])
    ensures Tagged(v, i, what) == i + |what| + |number|
  {
    assert what + number + r == what + (number + r);
    ReadOn(v, i, what, number + r);
    RunOver(v, i + |what|, number, r, true);
  }

  lemma TagMissing(v: string, i: nat, what: string, r: string)
    requires Ahead(v, i, "", r) && !(what <= r)
    requires forall k | 0 <= k < |what| :: IsVersionChar(what[k])
    ensures Tagged(v, i, what) == i
  {
    assert v[i..] == r by { assert "" + r == r; }
    assert i + |what| <= |v| ==> v[i..][..|what|] == v[i..i + |what|];
  }

  /** An optional tagged number, in front of something that does not look like one. */
  lemma OneTag(v: string, i: nat, what: string, s: string, r: string)
    requires Ahead(v, i, s, r) && IsTagged(s, {what}) && NoDigit(r) && (s == "" ==> !(what <= r))
    requires forall k | 0 <= k < |what| :: IsVersionChar(what[k])
    ensures Tagged(v, i, what) == i + |s|
  {
    if s == "" {
      TagMissing(v, i, what, r);
    } else {
      var number :| IsNumber(number) && s == what + number;
      TagOver(v, i, what, number, r);
    }
  }

  /** A mark and a segment, in front of a dot or the end. */
  lemma SegmentOver(v: string, i: nat, mark: string, s: string, r: string)
    requires i <= |v| && |mark| == 1 && v[i..] == mark + s + r && IsSegment(s) && (r == "" || r[0] == '.')
    ensures var j := i + 1 + |s|;
      i < |v| && v[i] == mark[0] && Run(v, i + 1, false) == j > i + 1 && j <= |v| && v[j..] == r
  {
    hide Run;
    assert v[i] == v[i..][0];
    assert v[i + 1..] == v[i..][1..] == s + r;
    assert Ahead(v, i + 1, s, r);
    ReadOn(v, i + 1, s, r);
    assert forall k | 0 <= k < |s| :: Runs(s[k], false);
    RunOver(v, i + 1, s, r, false);
  }

  lemma DottedFirst(segments: seq<string>)
    ensures segments == [] ==> Dotted(segments) == ""
    ensures segments != [] ==> Dotted(segments) == "." + segments[0] + Dotted(segments[1..])
    ensures Dotted(segments) == "" || Dotted(segments)[0] == '.'
  {}

  lemma {:induction false} LocalOver(v: string, i: nat, segments: seq<string>)
    requires i <= |v| && v[i..] == Dotted(segments) && AllSegments(segments)
    ensures LocalParts(v, i) == |v|
    decreases |segments|
  {
    hide Dotted, IsSegment, Run;
    DottedFirst(segments);
    if segments != [] {
      DottedFirst(segments[1..]);
      SegmentOver(v, i, ".", segments[0], Dotted(segments[1..]));
      LocalOver(v, i + 1 + |segments[0]|, segments[1..]);
    }
  }

  lemma LocalIsTaken(v: string, i: nat, s: string)
    requires i <= |v| && v[i..] == s && IsLocal(s)
    ensures Local(v, i) == |v|
  {
    if s != "" {
      var first, more :| IsSegment(first) && AllSegments(more) && s == "+" + first + Dotted(more);
      hide IsLocal, Dotted, IsSegment, Run;
      DottedFirst(more);
      SegmentOver(v, i, "+", first, Dotted(more));
      LocalOver(v, i + 1 + |first|, more);
    }
  }

  lemma NumberOver(v: string, i: nat, s: string, r: string)
    requires Ahead(v, i, s, r) && IsNumber(s) && NoDigit(r)
    ensures Run(v, i, true) == i + |s| > i && v[i + |s|..] == r && i + |s| <= |v|
    ensures r != "" ==> i + |s| < |v| && v[i + |s|] == r[0]
  {
    ReadOn(v, i, s, r);
    RunOver(v, i, s, r, true);
  }

  /** A number and the dot behind it. */
  lemma NumberDot(v: string, i: nat, s: string, t: string, r: string)
    requires Ahead(v, i, s, "." + (t + r)) && IsNumber(s)
    ensures var j := i + |s|; Run(v, i, true) == j > i && j < |v| && v[j] == '.' && Ahead(v, j + 1, t, r)
  {
    hide IsNumber, Run, Ahead, NoDigit;
    DotIsNoDigit(t + r);
    NumberOver(v, i, s, "." + (t + r));
    DotOver(v, i + |s|, t, r);
  }

  lemma ReleaseByParts(v: string, a: nat, b: nat, c: nat)
    requires 0 < a && a + 1 < b && b + 1 < c && b < |v| && v[a] == '.' && v[b] == '.'
    requires Run(v, 0, true) == a && Run(v, a + 1, true) == b && Run(v, b + 1, true) == c
    ensures Release(v) == Some(c)
  {
    hide Run;
  }

  lemma ReleaseOver(v: string, a: string, b: string, c: string, r: string)
    requires IsNumber(a) && IsNumber(b) && IsNumber(c) && NoDigit(r)
    requires Ahead(v, 0, a, "." + (b + ("." + (c + r))))
    ensures Release(v) == Some(|a| + 1 + |b| + 1 + |c|) && Ahead(v, |a| + 1 + |b| + 1 + |c|, "", r)
  {
    hide IsNumber, NoDigit, Run, Release, Ahead;
    NumberDot(v, 0, a, b, "." + (c + r));
    NumberDot(v, |a| + 1, b, c, r);
    NumberOver(v, |a| + 1 + |b| + 1, c, r);
    ReleaseByParts(v, |a|, |a| + 1 + |b|, |a| + 1 + |b| + 1 + |c|);
    NothingFirst(v, |a| + 1 + |b| + 1 + |c|, r);
  }

  lemma NothingFirst(v: string, i: nat, r: string)
    requires i <= |v| && v[i..] == r
    ensures Ahead(v, i, "", r)
  {
    assert "" + r == r;
  }

  lemma DotIsNoDigit(r: string)
    ensures NoDigit("." + r)
  {}

  lemma DotOver(v: string, i: nat, s: string, r: string)
    requires i < |v| && v[i..] == "." + (s + r)
    ensures v[i] == '.' && Ahead(v, i + 1, s, r)
  {
    assert v[i..][0] == v[i] && v[i..][1..] == v[i + 1..];
  }

  /** What an optional part begins with, if it is there. */
  lemma TagBegins(s: string, tags: set<string>)
    requires IsTagged(s, tags) && tags <= {"a", "b", "rc", ".post", ".dev"}
    ensures s != "" ==> exists tag :: tag in tags && tag <= s
  {
    if s != "" { var tag, number :| tag in tags && IsNumber(number) && s == tag + number; }
  }

  lemma LocalBegins(s: string)
    requires IsLocal(s) && s != ""
    ensures s[0] == '+'
  {
    var first, more :| IsSegment(first) && AllSegments(more) && s == "+" + first + Dotted(more);
  }

  /** Behind the release nothing looks like an earlier part. */
  lemma TailsBegin(post: string, dev: string, local: string)
    requires IsTagged(post, {".post"}) && IsTagged(dev, {".dev"}) && IsLocal(local)
    ensures local == "" || local[0] == '+'
    ensures var d := dev + local; d == "" || d[0] == '+' || ".dev" <= d
    ensures var p := post + (dev + local); p == "" || p[0] == '+' || ".dev" <= p || ".post" <= p
  {
    if local != "" { LocalBegins(local); }
    if dev != "" { TagBegins(dev, {".dev"}); assert ".dev" <= dev; assert (dev + local)[..4] == ".dev"; }
    if post != "" { TagBegins(post, {".post"}); assert ".post" <= post; assert (post + (dev + local))[..5] == ".post"; }
    assert "" + local == local && "" + (dev + local) == dev + local;
  }

  lemma TailsApart(post: string, dev: string, local: string)
    requires IsTagged(post, {".post"}) && IsTagged(dev, {".dev"}) && IsLocal(local)
    ensures NoDigit(local) && !(".dev" <= local) && NoDigit(dev + local) && !(".post" <= dev + local)
  {
    hide IsTagged, IsLocal;
    TailsBegin(post, dev, local);
    var d := dev + local;
    assert ".dev" <= d ==> d[0] == '.' && d[1] == 'd';
  }

  lemma Within(v: string, i: nat, s: string, r: string)
    requires Ahead(v, i, s, r)
    ensures i + |s| <= |v|
  {
    ReadOn(v, i, s, r);
  }

  lemma PreOver(v: string, i: nat, pre: string, r: string)
    requires Ahead(v, i, pre, r) && IsTagged(pre, {"a", "b", "rc"}) && (r == "" || r[0] == '+' || r[0] == '.')
    ensures PreEnd(v, i) == i + |pre|
  {
    ReadOn(v, i, pre, r);
    if pre == "" {
      TagMissing(v, i, "a", r);
      TagMissing(v, i, "b", r);
      TagMissing(v, i, "rc", r);
    } else {
      var tag, number :| tag in {"a", "b", "rc"} && IsNumber(number) && pre == tag + number;
      assert pre[0] == tag[0] && v[i] == pre[0];
      TagOver(v, i, tag, number, r);
      assert "" + (pre + r) == pre + r && (pre + r)[0] == tag[0];
      if tag != "a" { TagMissing(v, i, "a", pre + r); }
      if tag == "rc" { TagMissing(v, i, "b", pre + r); }
    }
  }

  /** Where the pre-release part ends. */
  function PreEnd(v: string, i: nat): nat
    requires i <= |v|
  {
    var a := Tagged(v, i, "a");
    var b := if a > i then a else Tagged(v, i, "b");
    if b > i then b else Tagged(v, i, "rc")
  }

  /** Every text of the pattern's form is a version. */
  lemma VersionIsMatched(v: string, a: string, b: string, c: string, pre: string, post: string, dev: string,
                         local: string)
    requires IsVersion(v, a, b, c, pre, post, dev, local)
    ensures IsPep440(v)
  {
    hide Release, Tagged, Local, IsTagged, IsLocal, IsNumber, Ahead, NoDigit, PreEnd;
    var d := dev + local;
    var p := post + d;
    TailsBegin(post, dev, local);
    PreBegins(pre, p);
    assert v[0..] == v;
    Whole(v, a, b, c, pre + p);
    ReleaseOver(v, a, b, c, pre + p);
    TagsOver(v, |a| + 1 + |b| + 1 + |c|, pre, post, dev, local);
  }

  lemma Whole(v: string, a: string, b: string, c: string, r: string)
    requires v == a + ("." + (b + ("." + (c + r))))
    ensures Ahead(v, 0, a, "." + (b + ("." + (c + r))))
  {
    assert v[0..] == v;
  }

  lemma TagsOver(v: string, r: nat, pre: string, post: string, dev: string, local: string)
    requires Release(v) == Some(r) && Ahead(v, r, "", pre + (post + (dev + local)))
    requires IsTagged(pre, {"a", "b", "rc"}) && IsTagged(post, {".post"}) && IsTagged(dev, {".dev"}) && IsLocal(local)
    ensures IsPep440(v)
  {
    hide Release, Tagged, Local, IsTagged, IsLocal, IsNumber, Ahead, NoDigit, PreEnd;
    var d := dev + local;
    var p := post + d;
    TailsBegin(post, dev, local);
    PreBegins(pre, p);
    Step(v, r, "", pre, p);
    PreOver(v, r, pre, p);
    Step(v, r, pre, post, d);
    var i := r + |pre|;
    TailsOver(v, i, post, dev, local);
    MatchedByEnds(v, r, i, i + |post|, i + |post| + |dev|);
  }

  lemma TailsOver(v: string, i: nat, post: string, dev: string, local: string)
    requires Ahead(v, i, post, dev + local)
    requires IsTagged(post, {".post"}) && IsTagged(dev, {".dev"}) && IsLocal(local)
    ensures i + |post| + |dev| <= |v|
    ensures Tagged(v, i, ".post") == i + |post| && Tagged(v, i + |post|, ".dev") == i + |post| + |dev|
    ensures Local(v, i + |post| + |dev|) == |v|
  {
    hide Tagged, Local, IsTagged, IsLocal, IsNumber, Ahead, NoDigit;
    var d := dev + local;
    TailsApart(post, dev, local);
    Within(v, i, post, d);
    Step(v, i, post, dev, local);
    Within(v, i + |post|, dev, local);
    assert local + "" == local;
    Step(v, i + |post|, dev, local, "");
    OneTag(v, i, ".post", post, d);
    OneTag(v, i + |post|, ".dev", dev, local);
    LocalIsTaken(v, i + |post| + |dev|, local);
  }

  lemma MatchedByEnds(v: string, r: nat, pre: nat, post: nat, dev: nat)
    requires Release(v) == Some(r) && PreEnd(v, r) == pre <= |v|
    requires Tagged(v, pre, ".post") == post <= |v| && Tagged(v, post, ".dev") == dev <= |v| && Local(v, dev) == |v|
    ensures IsPep440(v)
  {
    hide Release, Tagged, Local;
  }

  lemma Step(v: string, i: nat, s: string, t: string, r: string)
    requires Ahead(v, i, s, t + r)
    ensures Ahead(v, i + |s|, t, r) && (r == "" ==> t + r == t)
  {
    ReadOn(v, i, s, t + r);
  }

  lemma PreBegins(pre: string, p: string)
    requires IsTagged(pre, {"a", "b", "rc"}) && (p == "" || p[0] == '+' || ".dev" <= p || ".post" <= p)
    ensures NoDigit(pre + p) && (p == "" || p[0] == '+' || p[0] == '.')
  {
    if pre != "" {
      TagBegins(pre, {"a", "b", "rc"});
      assert (pre + p)[0] == pre[0];
    } else {
      assert pre + p == p;
    }
  }

  lemma NumberAt(v: string, i: nat)
    requires i <= |v|
    ensures var j := Run(v, i, true); i <= j <= |v| && (j > i ==> IsNumber(v[i..j]))
  {
    RunTakes(v, i, true);
    var j := Run(v, i, true);
    forall k | 0 <= k < j - i ensures '0' <= v[i..j][k] <= '9' { assert v[i..j][k] == v[i + k] && Runs(v[i + k], true); }
  }

  lemma SegmentAt(v: string, i: nat)
    requires i <= |v|
    ensures var j := Run(v, i, false); i <= j <= |v| && (j > i ==> IsSegment(v[i..j]))
  {
    RunTakes(v, i, false);
    var j := Run(v, i, false);
    forall k | 0 <= k < j - i
      ensures var c := v[i..j][k]; '0' <= c <= '9' || 'a' <= c <= 'z' || 'A' <= c <= 'Z'
    {
      assert v[i..j][k] == v[i + k] && Runs(v[i + k], false);
    }
  }

  lemma TagAt(v: string, i: nat, what: string)
    requires i <= |v| && what != "" && forall k | 0 <= k < |what| :: IsVersionChar(what[k])
    ensures var j := Tagged(v, i, what); i <= j <= |v| && IsTagged(v[i..j], {what}) && (j == i ==> v[i..j] == "")
  {
    var j := Tagged(v, i, what);
    if j > i {
      NumberAt(v, i + |what|);
      assert v[i..j] == what + v[i + |what|..j];
    }
  }

  lemma PreAt(v: string, i: nat)
    requires i <= |v|
    ensures var j := PreEnd(v, i); i <= j <= |v| && IsTagged(v[i..j], {"a", "b", "rc"})
  {
    hide Tagged;
    forall tag | tag in {"a", "b", "rc"}
      ensures var j := Tagged(v, i, tag); i <= j <= |v| && IsTagged(v[i..j], {"a", "b", "rc"})
    {
      TagAt(v, i, tag);
      var j := Tagged(v, i, tag);
      if v[i..j] != "" { var t, number :| t in {tag} && IsNumber(number) && v[i..j] == t + number; }
    }
  }

  lemma {:induction false} SegmentsAt(v: string, i: nat) returns (segments: seq<string>)
    requires i <= |v|
    ensures var j := LocalParts(v, i); i <= j <= |v| && AllSegments(segments) && v[i..j] == Dotted(segments)
    decreases |v| - i
  {
    segments := [];
    if i < |v| && v[i] == '.' && Run(v, i + 1, false) > i + 1 {
      SegmentAt(v, i + 1);
      var m := Run(v, i + 1, false);
      hide Run, IsSegment;
      var more := SegmentsAt(v, m);
      segments := [v[i + 1..m]] + more;
      assert segments[1..] == more;
      GlueSegment(v, i, m, LocalParts(v, m));
    } else {
      assert v[i..LocalParts(v, i)] == "";
    }
  }

  lemma GlueSegment(v: string, i: nat, m: nat, n: nat)
    requires i < m <= n <= |v|
    ensures v[i..n] == [v[i]] + v[i + 1..m] + v[m..n]
  {}

  lemma LocalAt(v: string, i: nat)
    requires i <= |v|
    ensures var j := Local(v, i); i <= j <= |v| && IsLocal(v[i..j])
  {
    if i < |v| && v[i] == '+' && Run(v, i + 1, false) > i + 1 {
      SegmentAt(v, i + 1);
      var m := Run(v, i + 1, false);
      var more := SegmentsAt(v, m);
      GlueSegment(v, i, m, LocalParts(v, m));
    }
  }

  lemma Glue(v: string, i: nat, j: nat)
    requires i <= j <= |v|
    ensures v[i..] == v[i..j] + v[j..]
  {}

  lemma GlueDot(v: string, i: nat)
    requires i < |v| && v[i] == '.'
    ensures v[i..] == "." + v[i + 1..]
  {}

  lemma ReleaseAt(v: string) returns (a: string, b: string, c: string)
    requires Release(v).Some?
    ensures IsNumber(a) && IsNumber(b) && IsNumber(c) && Release(v).value <= |v|
    ensures v == a + ("." + (b + ("." + (c + v[Release(v).value..]))))
  {
    hide IsNumber, Run;
    var i := Run(v, 0, true);
    NumberAt(v, 0);
    var j := Run(v, i + 1, true);
    NumberAt(v, i + 1);
    var k := Run(v, j + 1, true);
    NumberAt(v, j + 1);
    assert Release(v) == Some(k);
    hide Release;
    a, b, c := v[0..i], v[i + 1..j], v[j + 1..k];
    GlueRelease(v, i, j, k);
  }

  lemma GlueRelease(v: string, i: nat, j: nat, k: nat)
    requires i + 1 <= j && j + 1 <= k <= |v| && v[i] == '.' && v[j] == '.'
    ensures v == v[0..i] + ("." + (v[i + 1..j] + ("." + (v[j + 1..k] + v[k..]))))
  {
    Glue(v, j + 1, k);
    GlueDot(v, j);
    Glue(v, i + 1, j);
    GlueDot(v, i);
    Glue(v, 0, i);
    assert v[0..] == v;
  }

  lemma GlueTails(v: string, r: nat, i: nat, j: nat, k: nat)
    requires r <= i <= j <= k <= |v|
    ensures v[r..] == v[r..i] + (v[i..j] + (v[j..k] + v[k..|v|]))
  {
    Glue(v, r, i);
    Glue(v, i, j);
    Glue(v, j, k);
    assert v[k..|v|] == v[k..];
  }

  lemma TailsHaveForm(v: string, r: nat) returns (pre: string, post: string, dev: string, local: string)
    requires r <= |v| && Local(v, Tagged(v, Tagged(v, PreEnd(v, r), ".post"), ".dev")) == |v|
    ensures IsTagged(pre, {"a", "b", "rc"}) && IsTagged(post, {".post"}) && IsTagged(dev, {".dev"}) && IsLocal(local)
    ensures v[r..] == pre + (post + (dev + local))
  {
    hide Tagged, Local, IsTagged, IsLocal, PreEnd;
    PreAt(v, r);
    var i := PreEnd(v, r);
    TagAt(v, i, ".post");
    var j := Tagged(v, i, ".post");
    TagAt(v, j, ".dev");
    var k := Tagged(v, j, ".dev");
    LocalAt(v, k);
    pre, post, dev, local := v[r..i], v[i..j], v[j..k], v[k..|v|];
    GlueTails(v, r, i, j, k);
  }

  lemma Pep440Parts(v: string)
    requires IsPep440(v)
    ensures Release(v).Some? && Release(v).value <= |v|
    ensures Local(v, Tagged(v, Tagged(v, PreEnd(v, Release(v).value), ".post"), ".dev")) == |v|
  {
    hide Release, Tagged, Local;
  }

  /** Every version is a text of the pattern's form. */
  lemma VersionHasForm(v: string) returns (a: string, b: string, c: string, pre: string, post: string, dev: string,
                                           local: string)
    requires IsPep440(v)
    ensures IsVersion(v, a, b, c, pre, post, dev, local)
  {
    hide *;
    Pep440Parts(v);
    pre, post, dev, local := TailsHaveForm(v, Release(v).value);
    a, b, c := ReleaseAt(v);
    FormByParts(v, a, b, c, v[Release(v).value..], pre, post, dev, local);
  }

  lemma FormByParts(v: string, a: string, b: string, c: string, rest: string, pre: string, post: string, dev: string,
                    local: string)
    requires IsNumber(a) && IsNumber(b) && IsNumber(c)
    requires IsTagged(pre, {"a", "b", "rc"}) && IsTagged(post, {".post"}) && IsTagged(dev, {".dev"}) && IsLocal(local)
    requires v == a + ("." + (b + ("." + (c + rest)))) && rest == pre + (post + (dev + local))
    ensures IsVersion(v, a, b, c, pre, post, dev, local)
  {
    hide IsNumber, IsTagged, IsLocal;
  }

  /** The versions accepted are exactly the texts of that form. */
  lemma Pep440Exactly(v: string)
    ensures IsPep440(v) <==> exists a, b, c, pre, post, dev, local :: IsVersion(v, a, b, c, pre, post, dev, local)
  {
    hide IsPep440, IsVersion;
    if IsPep440(v) { var a, b, c, pre, post, dev, local := VersionHasForm(v); }
    if a, b, c, pre, post, dev, local :| IsVersion(v, a, b, c, pre, post, dev, local) {
      VersionIsMatched(v, a, b, c, pre, post, dev, local);
    }
  }

  // ---------------------------------------------------------------------------------------------
  // pyproject.toml
  // ---------------------------------------------------------------------------------------------

  predicate BeginsLine(text: string, i: nat) { i == 0 || (i <= |text| && text[i - 1] == '\n') }

  /** The text has `what` at `i`. */
  predicate HasAt(text: string, i: nat, what: string) { i + |what| <= |text| && text[i..i + |what|] == what }

  /** A line break from `i` to `j`. */
  predicate IsBreak(text: string, i: nat, j: nat) {
    (j == i + 1 && HasAt(text, i, "\n")) || (j == i + 2 && HasAt(text, i, "\r\n"))
  }

  lemma BreakExactly(text: string, i: nat, j: nat)
    ensures Newline(text, i) == Some(j) <==> IsBreak(text, i, j)
  {
    if HasAt(text, i, "\n") { assert text[i..i + 1][0] == text[i]; }
    if HasAt(text, i, "\r\n") { assert text[i..i + 2][0] == text[i]; }
  }

  /** The characters from `i` to `j` are none of these, and the text goes on. */
  predicate Free(text: string, i: nat, j: nat, stops: set<char>) {
    i <= j < |text| && forall k | i <= k < j :: text[k] !in stops
  }

  lemma {:induction false} StopExactly(text: string, i: nat, j: nat, stops: set<char>)
    requires i <= |text|
    ensures j < |text| ==> (ToOneOf(text, i, stops) == j <==> Free(text, i, j, stops) && text[j] in stops)
  {
    if j < |text| && Free(text, i, j, stops) && text[j] in stops { StopsThere(text, i, j, stops); }
  }

  lemma {:induction false} StopsThere(text: string, i: nat, j: nat, stops: set<char>)
    requires Free(text, i, j, stops) && text[j] in stops
    ensures ToOneOf(text, i, stops) == j
    decreases j - i
  {
    if i < j { StopsThere(text, i + 1, j, stops); }
  }

  /** The `[project]` header at `h`: the rest of its line ends at `e`, the body begins at `s`. */
  predicate IsHeaderAt(text: string, h: nat, e: nat, s: nat) {
    && BeginsLine(text, h) && HasAt(text, h, "[project]") && Free(text, h + 9, e, {'\r', '\n'}) && IsBreak(text, e, s)
  }

  lemma HeaderExactly(text: string, h: nat, s: nat)
    requires h <= |text|
    ensures HeaderAt(text, h) == Some(s) <==> exists e: nat :: IsHeaderAt(text, h, e, s)
  {
    if HeaderAt(text, h) == Some(s) {
      var e := ToOneOf(text, h + |PROJECT|, {'\r', '\n'});
      BreakExactly(text, e, s);
      NewlineFits(text, e);
      assert IsHeaderAt(text, h, e, s);
    }
    if e: nat :| IsHeaderAt(text, h, e, s) {
      BreakExactly(text, e, s);
      if HasAt(text, e, "\n") { assert text[e..e + 1][0] == text[e]; } else { assert text[e..e + 2][0] == text[e]; }
      StopExactly(text, h + |PROJECT|, e, {'\r', '\n'});
    }
  }

  /** Where a table begins: a bracket at the beginning of a line. */
  predicate IsTableStart(text: string, i: nat) { i < |text| && text[i] == '[' && BeginsLine(text, i) }

  lemma {:induction false} BodyEndExactly(text: string, s: nat)
    requires s <= |text|
    ensures var t := BodyEnd(text, s);
      (t < |text| ==> IsTableStart(text, t)) && forall k | s <= k < t :: !IsTableStart(text, k)
    decreases |text| - s
  {
    if s < |text| && !(text[s] == '[' && AtLineStart(text, s)) { BodyEndExactly(text, s + 1); }
  }

  /** The project table is the body of the first header, up to the next table or the end. */
  lemma TableExactly(text: string)
    ensures FindTable(text).None? ==> forall h: nat, s: nat | h < |text| :: HeaderAt(text, h) != Some(s)
    ensures FindTable(text).Some? ==>
              var table := FindTable(text).value;
              && (exists h: nat :: h < |text| && HeaderAt(text, h) == Some(table.from) &&
                    forall k | 0 <= k < h :: HeaderAt(text, k).None?)
              && (table.to < |text| ==> IsTableStart(text, table.to))
              && forall k | table.from <= k < table.to :: !IsTableStart(text, k)
  {
    hide HeaderAt;
    var h := FindHeader(text, 0);
    forall k | 0 <= k < h ensures HeaderAt(text, k).None? { NoneBeforeHeader(text, 0, k); }
    if h < |text| {
      HeaderFits(text, h);
      BodyEndExactly(text, HeaderAt(text, h).value);
    }
  }

  /** A version line at `p`: equals sign at `e`, opening quote at `q`, closing quote at `to`. */
  predicate IsVersionLine(body: string, p: nat, e: nat, q: nat, to: nat) {
    && BeginsLine(body, p) && HasAt(body, p, "version") && p + 7 <= e < q < to < |body|
    && (forall k | p + 7 <= k < q && k != e :: IsSpace(body[k]))
    && body[e] == '=' && body[q] == '"' && body[to] == '"' && forall k | q < k < to :: body[k] != '"'
  }

  lemma {:induction false} SkipExactly(text: string, i: nat, e: nat)
    requires i <= e < |text| && !IsSpace(text[e]) && forall k | i <= k < e :: IsSpace(text[k])
    ensures SkipSpaces(text, i) == e
    decreases e - i
  {
    if i < e { SkipExactly(text, i + 1, e); }
  }

  lemma VersionLineExactly(body: string, p: nat, span: Span)
    requires p <= |body|
    ensures VersionAt(body, p) == Some(span) <==>
            exists e: nat, q: nat :: IsVersionLine(body, p, e, q, span.to) && span.from == q + 1
  {
    hide IsVersionLine, VersionAt;
    if VersionAt(body, p) == Some(span) { var e, q := LineIsLine(body, p); }
    if e: nat, q: nat :| IsVersionLine(body, p, e, q, span.to) && span.from == q + 1 {
      LineIsMatched(body, p, e, q, span.to);
    }
  }

  lemma LineIsLine(body: string, p: nat) returns (e: nat, q: nat)
    requires p <= |body| && VersionAt(body, p).Some?
    ensures var span := VersionAt(body, p).value; IsVersionLine(body, p, e, q, span.to) && span.from == q + 1
  {
    e, q := VersionParts(body, p);
    VersionEnds(body, p);
    hide VersionAt;
  }

  lemma VersionEnds(body: string, p: nat)
    requires p <= |body| && VersionAt(body, p).Some?
    ensures VersionAt(body, p).value.to < |body| && body[VersionAt(body, p).value.to] == '"'
  {}

  lemma LineIsMatched(body: string, p: nat, e: nat, q: nat, to: nat)
    requires IsVersionLine(body, p, e, q, to)
    ensures VersionAt(body, p) == Some(Span(q + 1, to))
  {
    hide VersionAt;
    SkipExactly(body, p + |VERSION|, e);
    SkipExactly(body, e + 1, q);
    StopsThere(body, q + 1, to, {'"'});
    VersionAtByParts(body, p, e, q, to);
  }

  /** The project's version is that of the first version line in the body of the table. */
  lemma ProjectVersionExactly(text: string, span: Span)
    ensures ProjectVersion(text) == Some(span) <==>
            && FindTable(text).Some?
            && var table := FindTable(text).value;
               var body := text[table.from..table.to];
               table.from <= span.from && table.from <= span.to &&
               exists p: nat :: p < |body| &&
                 VersionAt(body, p) == Some(Span(span.from - table.from, span.to - table.from)) &&
                 forall k | 0 <= k < p :: VersionAt(body, k).None?
  {
    hide VersionAt, FindTable;
    if FindTable(text).Some? {
      var table := FindTable(text).value;
      var body := text[table.from..table.to];
      var p := FindVersion(body, 0);
      forall k | 0 <= k < p ensures VersionAt(body, k).None? { NoneBeforeVersion(body, 0, k); }
      forall m: nat | m < |body| && VersionAt(body, m).Some? && forall k | 0 <= k < m :: VersionAt(body, k).None?
        ensures p == m
      {
        FirstVersion(body, 0, m);
      }
    }
  }

  // ---------------------------------------------------------------------------------------------
  // uv.lock
  // ---------------------------------------------------------------------------------------------

  /** The entry of the editable root at `p`; `b`, `d` and `n` are where its next three lines begin. */
  predicate IsLockEntry(text: string, canon: string, p: nat, b: nat, d: nat, n: nat, span: Span) {
    && HasAt(text, p, "[[package]]") && IsBreak(text, p + 11, b)
    && HasAt(text, b, "name = \"" + canon + "\"") && IsBreak(text, b + 9 + |canon|, d)
    && HasAt(text, d, "version = \"") && span.from == d + 11
    && Free(text, span.from, span.to, {'"'}) && text[span.to] == '"'
    && IsBreak(text, span.to + 1, n) && HasAt(text, n, "source = { editable = \".\" }")
  }

  lemma LockLengths()
    ensures |PACKAGE| == 11 && |NAME| == 8 && |LOCK_VERSION| == 11
  {}

  lemma LockEntryExactly(text: string, canon: string, p: nat, span: Span)
    requires p <= |text|
    ensures LockAt(text, canon, p) == Some(span) <==>
            exists b: nat, d: nat, n: nat :: IsLockEntry(text, canon, p, b, d, n, span)
  {
    hide IsLockEntry, LockAt;
    if LockAt(text, canon, p) == Some(span) { var b, d, n := EntryIsEntry(text, canon, p, span); }
    if b: nat, d: nat, n: nat :| IsLockEntry(text, canon, p, b, d, n, span) {
      EntryIsMatched(text, canon, p, b, d, n, span);
    }
  }

  lemma EntryIsEntry(text: string, canon: string, p: nat, span: Span) returns (b: nat, d: nat, n: nat)
    requires LockAt(text, canon, p) == Some(span)
    ensures IsLockEntry(text, canon, p, b, d, n, span)
  {
    LockLengths();
    hide IsBreak, Newline, Free;
    var from, to := LockParts(text, canon, p);
    b := Newline(text, p + |PACKAGE|).value;
    d := Newline(text, b + |NAME| + |canon| + 1).value;
    n := Newline(text, to + 1).value;
    BreakExactly(text, p + 11, b);
    BreakExactly(text, b + 9 + |canon|, d);
    BreakExactly(text, to + 1, n);
    HeadFits(text, canon, p);
    StopExactly(text, from, to, {'"'});
    hide LockAt;
  }

  lemma EntryIsMatched(text: string, canon: string, p: nat, b: nat, d: nat, n: nat, span: Span)
    requires IsLockEntry(text, canon, p, b, d, n, span)
    ensures LockAt(text, canon, p) == Some(span)
  {
    LockLengths();
    hide IsBreak, Newline, LockAt, HasAt, Free, ToOneOf;
    BreakExactly(text, p + 11, b);
    BreakExactly(text, b + 9 + |canon|, d);
    BreakExactly(text, span.to + 1, n);
    SpanFits(text, span);
    StopsThere(text, span.from, span.to, {'"'});
    HasIsStarts(text, p, "[[package]]");
    HasIsStarts(text, b, "name = \"" + canon + "\"");
    HasIsStarts(text, d, "version = \"");
    HasIsStarts(text, n, "source = { editable = \".\" }");
    hide Starts;
    assert LockHead(text, canon, p) == Some(span.from);
    assert LockTail(text, span.to);
    LockAtByParts(text, canon, p, span.from, span.to);
  }

  lemma SpanFits(text: string, span: Span)
    requires Free(text, span.from, span.to, {'"'})
    ensures span.from <= span.to < |text|
  {}

  lemma HasIsStarts(text: string, i: nat, what: string)
    ensures HasAt(text, i, what) <==> Starts(text, i, what)
  {}

  /** The lock's version is that of the first such entry. */
  lemma LockVersionExactly(text: string, name: string, span: Span)
    ensures LockVersion(text, name) == Some(span) <==>
            exists p: nat :: IsFirstEntry(text, Canonical(name), p) && LockAt(text, Canonical(name), p) == Some(span)
  {
    hide LockAt, LockVersion;
    var canon := Canonical(name);
    if LockVersion(text, name).Some? {
      var p := LockEntry(text, name);
      forall k | 0 <= k < p ensures LockAt(text, canon, k).None? { NoneBeforeEntry(text, canon, 0, k); }
      assert IsFirstEntry(text, canon, p);
    }
    forall p: nat | IsFirstEntry(text, canon, p) ensures LockVersion(text, name) == LockAt(text, canon, p) {
      FirstEntry(text, canon, 0, p);
      LockVersionByParts(text, name, p);
    }
  }

  ghost predicate IsFirstEntry(text: string, canon: string, p: nat) {
    p < |text| && LockAt(text, canon, p).Some? && forall k | 0 <= k < p :: LockAt(text, canon, k).None?
  }

  predicate AllSeparators(s: string) { forall i | 0 <= i < |s| :: s[i] in {'-', '_', '.'} }

  /** A run of separators becomes one dash. */
  lemma {:induction false} CanonicalRun(run: string, rest: string)
    requires run != "" && AllSeparators(run) && (rest == "" || rest[0] !in {'-', '_', '.'})
    ensures Canonical(run + rest) == "-" + Canonical(rest)
  {
    var name := run + rest;
    assert name[1..] == run[1..] + rest;
    if |run| > 1 {
      assert name[1] == run[1];
      CanonicalRun(run[1..], rest);
    } else {
      assert name[1..] == rest;
    }
  }

  /** Any other character stays, a capital letter in lower case. */
  lemma CanonicalLetter(c: char, rest: string)
    requires c !in {'-', '_', '.'}
    ensures Canonical([c] + rest) == [if 'A' <= c <= 'Z' then (c as int + 32) as char else c] + Canonical(rest)
    ensures Canonical("") == ""
  {
    assert ([c] + rest)[1..] == rest;
  }

  // ---------------------------------------------------------------------------------------------
  // Verification and failures
  // ---------------------------------------------------------------------------------------------

  lemma RootOfOne(p: Package, name: string)
    ensures Roots([], name) == []
    ensures Roots([p], name) == if p.name == Some(Canonical(name)) && p.editable == Some(".") then [p] else []
  {
    assert [p][1..] == [];
  }

  /** The roots of a lock are its packages of that name with the source "." that can be edited, in order. */
  lemma {:induction false} RootsExactly(a: seq<Package>, b: seq<Package>, name: string)
    ensures Roots(a + b, name) == Roots(a, name) + Roots(b, name)
  {
    hide Roots;
    if a == [] {
      assert a + b == b;
      RootOfOne(Package(None, None, None), name);
    } else {
      assert (a + b)[1..] == a[1..] + b;
      RootsFirst(a, name);
      RootsFirst(a + b, name);
      RootsExactly(a[1..], b, name);
    }
  }

  lemma RootsFirst(packages: seq<Package>, name: string)
    requires packages != []
    ensures Roots(packages, name) ==
            (if IsRoot(packages[0], name) then [packages[0]] else []) + Roots(packages[1..], name)
  {}

  /** The patched texts are verified if both parse, the project has the version, and so has the only root. */
  lemma VerifiedExactly(toml: Toml, pyproject: string, lock: string, name: string, version: string)
    ensures Verified(toml, pyproject, lock, name, version) <==>
            && (exists doc :: toml(pyproject) == Some(doc) && doc.project.Some? &&
                              doc.project.value.version == Some(version))
            && (exists doc, root :: toml(lock) == Some(doc) && Roots(doc.packages, name) == [root] &&
                                    root.version == Some(version))
  {
    hide Roots;
    if toml(pyproject).Some? { assert toml(pyproject) == Some(toml(pyproject).value); }
    if toml(lock).Some? {
      var doc := toml(lock).value;
      assert toml(lock) == Some(doc);
      if |Roots(doc.packages, name)| == 1 { assert Roots(doc.packages, name) == [Roots(doc.packages, name)[0]]; }
    }
  }

  /** What goes wrong in memory, in the order of the checks. */
  lemma FailuresExactly(toml: Toml, pyproject: string, lock: string, version: string, failure: Failure)
    requires IsPep440(version)
    ensures InMemory(toml, pyproject, lock, version) == Err(failure) <==>
            match toml(pyproject)
            case None => failure == NotToml
            case Some(Doc(None, _)) => failure == NoProject
            case Some(Doc(Some(Project(None, _)), _)) => failure == NoName
            case Some(Doc(Some(Project(Some(name), _)), _)) =>
              if name == "" then failure == NoName
              else if FindTable(pyproject).None? then failure == NoTable
              else if ProjectVersion(pyproject).None? then failure == NoVersionLine
              else if LockVersion(lock, name).None? then failure == NoLockEntry
              else
                failure == NotVerified &&
                !Verified(toml, Splice(pyproject, ProjectVersion(pyproject).value, version),
                          Splice(lock, LockVersion(lock, name).value, version), name, version)
  {
    hide FindTable, ProjectVersion, LockVersion, Verified, IsPep440;
  }

  /** What goes wrong before: the version, then what is at the paths. */
  lemma ChecksExactly(fs: FileSystem, toml: Toml, version: string, pyproject: Path, lock: Path)
    ensures var prepared := fs.Prepared(toml, version, pyproject, lock);
      if !IsPep440(version) then prepared == Err(InvalidVersion)
      else if pyproject in fs.others || lock in fs.others then prepared == Err(NotRegular)
      else if pyproject !in fs.files || lock !in fs.files then prepared == Err(NotFound)
      else prepared == InMemory(toml, fs.files[pyproject], fs.files[lock], version)
  {}
}
