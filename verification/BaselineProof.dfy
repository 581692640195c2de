/** Baselining by numbered keys is exact: a tree is charged, for each raw key, with exactly the occurrences beyond
    those in the tree the baseline was taken from. */
module BaselineProof {
  import opened Baseline

  // ---------------------------------------------------------------------------------------------
  // Labels are unambiguous
  // ---------------------------------------------------------------------------------------------

  predicate IsDigit(c: char) { '0' <= c <= '9' }

  function ValueOf(s: string): int {
    if s == "" then 0 else 10 * ValueOf(s[..|s| - 1]) + (s[|s| - 1] as int - '0' as int)
  }

  lemma {:induction false} DecimalIsInjective(n: nat)
    ensures ValueOf(Decimal(n)) == n
    ensures Decimal(n) != "" && forall i | 0 <= i < |Decimal(n)| :: IsDigit(Decimal(n)[i])
  {
    if n < 10 {
      DigitValue(n);
      assert Decimal(n)[..0] == "";
    } else {
      DecimalIsInjective(n / 10);
      DigitValue(n % 10);
      assert Decimal(n)[..|Decimal(n)| - 1] == Decimal(n / 10);
    }
  }

  lemma DigitValue(d: nat)
    requires d < 10
    ensures IsDigit(DIGITS[d]) && DIGITS[d] as int - '0' as int == d
  {}

  /** An identifier that is not itself the label of a later occurrence of something. */
  ghost predicate Clean(identifier: string) {
    forall x: string, n: nat :: n >= 2 ==> identifier != Label(x, n)
  }

  /** The last hash of a numbered label is the one its number follows. */
  lemma AfterTheHash(x: string, n: nat)
    requires n >= 2
    ensures var s := Label(x, n);
      s == x + "#" + Decimal(n) && s[|x|] == '#' && forall i | |x| < i < |s| :: IsDigit(s[i])
  {
    DecimalIsInjective(n);
    var s := Label(x, n);
    forall i | |x| < i < |s| ensures IsDigit(s[i]) { assert s[i] == Decimal(n)[i - |x| - 1]; }
  }

  /** Two numbered labels are equal only if they are the same occurrence of the same identifier. */
  lemma NumberedLabelsDiffer(x: string, m: nat, y: string, n: nat)
    requires m >= 2 && n >= 2 && Label(x, m) == Label(y, n)
    ensures x == y && m == n
  {
    DecimalIsInjective(m);
    DecimalIsInjective(n);
    AfterTheHash(x, m);
    AfterTheHash(y, n);
    var s := Label(x, m);
    assert |x| == |y|;
    assert x == s[..|x|] && y == s[..|y|];
    assert Decimal(m) == s[|x| + 1..] && Decimal(n) == s[|y| + 1..];
  }

  lemma CleanLabelsDiffer(k: Key, m: nat, l: Key, n: nat)
    requires Clean(k.identifier) && Clean(l.identifier) && m >= 1 && n >= 1
    requires LabelKey(k, m) == LabelKey(l, n)
    ensures k == l && m == n
  {
    if m >= 2 && n >= 2 {
      NumberedLabelsDiffer(k.identifier, m, l.identifier, n);
    }
  }

  /** A '#'-free identifier is clean. */
  lemma HashFreeIsClean(identifier: string)
    requires '#' !in identifier
    ensures Clean(identifier)
  {
    forall x: string, n: nat | n >= 2 ensures identifier != Label(x, n) {
      assert Label(x, n)[|x|] == '#';
    }
  }

  // ---------------------------------------------------------------------------------------------
  // Counting
  // ---------------------------------------------------------------------------------------------

  lemma {:induction false} InsertKeepsCount(sorted: seq<Violation>, v: Violation, k: Key)
    ensures Count(Insert(sorted, v), k) == Count(sorted, k) + if KeyOf(v) == k then 1 else 0
  {
    if sorted != [] && Before(v, sorted[|sorted| - 1]) {
      InsertKeepsCount(sorted[..|sorted| - 1], v, k);
      assert Insert(sorted, v)[..|Insert(sorted, v)| - 1] == Insert(sorted[..|sorted| - 1], v);
    } else {
      assert (sorted + [v])[..|sorted|] == sorted;
    }
  }

  /** Sorting neither adds nor loses a violation: the counts do not depend on the input order. */
  lemma {:induction false} SortedKeepsCount(violations: seq<Violation>, k: Key)
    ensures Count(Sorted(violations), k) == Count(violations, k)
  {
    if violations != [] {
      var front, last := violations[..|violations| - 1], violations[|violations| - 1];
      SortedKeepsCount(front, k);
      InsertKeepsCount(Sorted(front), last, k);
    }
  }

  ghost predicate AllClean(violations: seq<Violation>) {
    forall i | 0 <= i < |violations| :: Clean(violations[i].identifier)
  }

  lemma {:induction false} CountMember(violations: seq<Violation>, k: Key)
    requires Count(violations, k) > 0
    ensures exists i :: 0 <= i < |violations| && KeyOf(violations[i]) == k
  {
    var front, last := violations[..|violations| - 1], |violations| - 1;
    if KeyOf(violations[last]) != k {
      CountMember(front, k);
      var i :| 0 <= i < |front| && KeyOf(front[i]) == k;
      assert KeyOf(violations[i]) == k;
    }
  }

  lemma {:induction false} MemberCount(violations: seq<Violation>, i: nat)
    requires i < |violations|
    ensures Count(violations, KeyOf(violations[i])) > 0
  {
    if i < |violations| - 1 {
      MemberCount(violations[..|violations| - 1], i);
    }
  }

  lemma {:induction false} InsertMembers(sorted: seq<Violation>, v: Violation)
    ensures multiset(Insert(sorted, v)) == multiset(sorted) + multiset{v}
  {
    if sorted != [] && Before(v, sorted[|sorted| - 1]) {
      InsertMembers(sorted[..|sorted| - 1], v);
      assert sorted == sorted[..|sorted| - 1] + [sorted[|sorted| - 1]];
    }
  }

  lemma {:induction false} SortedMembers(violations: seq<Violation>)
    ensures multiset(Sorted(violations)) == multiset(violations)
  {
    if violations != [] {
      var front, last := violations[..|violations| - 1], violations[|violations| - 1];
      SortedMembers(front);
      InsertMembers(Sorted(front), last);
      assert violations == front + [last];
    }
  }

  lemma SortedIsClean(violations: seq<Violation>)
    requires AllClean(violations)
    ensures AllClean(Sorted(violations))
  {
    SortedMembers(violations);
    forall i | 0 <= i < |Sorted(violations)| ensures Clean(Sorted(violations)[i].identifier) {
      assert Sorted(violations)[i] in multiset(violations);
    }
  }

  // ---------------------------------------------------------------------------------------------
  // The keys of a baseline
  // ---------------------------------------------------------------------------------------------

  /** A numbered list holds the keys of occurrences 1 to `Count`, for each raw key, and no others. */
  lemma {:induction false} KeysOfNumbered(violations: seq<Violation>, key: Key)
    ensures key in Keys(Numbered(violations)) <==>
            exists k: Key, n: nat :: 1 <= n <= Count(violations, k) && key == LabelKey(k, n)
  {
    if violations != [] {
      var front, last := violations[..|violations| - 1], violations[|violations| - 1];
      var numbered, k0 := Numbered(violations), KeyOf(last);
      var n0 := Count(violations, k0);
      KeysOfNumbered(front, key);
      assert KeyOf(numbered[|numbered| - 1]) == LabelKey(k0, n0);
      KeysAppend(Numbered(front), Labelled(last, n0));
      if key in Keys(Numbered(front)) {
        var k: Key, n: nat :| 1 <= n <= Count(front, k) && key == LabelKey(k, n);
        assert n <= Count(violations, k);
      }
      if k: Key, n: nat :| 1 <= n <= Count(violations, k) && key == LabelKey(k, n) {
        if k != k0 || n != n0 { assert n <= Count(front, k); }
      }
    }
  }

  lemma KeysAppend(violations: seq<Violation>, v: Violation)
    ensures Keys(violations + [v]) == Keys(violations) + {KeyOf(v)}
  {
    var all := violations + [v];
    assert all[|violations|] == v;
    forall key | key in Keys(violations) ensures key in Keys(all) {
      var i :| 0 <= i < |violations| && KeyOf(violations[i]) == key;
      assert all[i] == violations[i];
    }
  }

  lemma InBaseline(violations: seq<Violation>, k: Key, n: nat)
    requires AllClean(violations) && Clean(k.identifier) && n >= 1
    ensures LabelKey(k, n) in Keys(Numbered(violations)) <==> n <= Count(violations, k)
  {
    KeysOfNumbered(violations, LabelKey(k, n));
    if LabelKey(k, n) in Keys(Numbered(violations)) {
      var l: Key, m: nat :| 1 <= m <= Count(violations, l) && LabelKey(k, n) == LabelKey(l, m);
      CountMember(violations, l);
      CleanLabelsDiffer(k, n, l, m);
    }
  }

  // ---------------------------------------------------------------------------------------------
  // Exactness
  // ---------------------------------------------------------------------------------------------

  /** `key` names an occurrence of the raw key `k`. */
  ghost predicate Names(key: Key, k: Key) { exists n: nat :: n >= 1 && key == LabelKey(k, n) }

  /** The violation is an occurrence of `k`: same check and file, and its identifier, as it is or numbered. */
  ghost predicate IsOccurrence(v: Violation, k: Key) {
    && v.check == k.check && v.file == k.file
    && (v.identifier == k.identifier || exists n: nat :: n >= 2 && v.identifier == k.identifier + "#" + Decimal(n))
  }

  lemma OccurrenceExactly(v: Violation, k: Key)
    ensures IsOccurrence(v, k) <==> Names(KeyOf(v), k)
  {
    if v.check == k.check && v.file == k.file && v.identifier == k.identifier { assert KeyOf(v) == LabelKey(k, 1); }
    if n: nat :| n >= 2 && v.check == k.check && v.file == k.file && v.identifier == k.identifier + "#" + Decimal(n) {
      assert KeyOf(v) == LabelKey(k, n);
    }
    if n: nat :| n >= 1 && KeyOf(v) == LabelKey(k, n) {
      assert n >= 2 ==> v.identifier == k.identifier + "#" + Decimal(n);
    }
  }

  /** How many of the reported violations are. */
  ghost function Reported(violations: seq<Violation>, k: Key): nat {
    if violations == [] then 0
    else Reported(violations[..|violations| - 1], k) + if IsOccurrence(violations[|violations| - 1], k) then 1 else 0
  }

  function Excess(b: nat, a: nat): nat { if b > a then b - a else 0 }

  lemma ReportedAppend(violations: seq<Violation>, v: Violation, k: Key)
    ensures Reported(violations + [v], k) == Reported(violations, k) + if Names(KeyOf(v), k) then 1 else 0
  {
    OccurrenceExactly(v, k);
    assert (violations + [v])[..|violations|] == violations;
  }

  lemma NamesOnly(l: Key, n: nat, k: Key)
    requires Clean(l.identifier) && Clean(k.identifier) && n >= 1
    ensures Names(LabelKey(l, n), k) <==> l == k
  {
    if Names(LabelKey(l, n), k) {
      var m: nat :| m >= 1 && LabelKey(l, n) == LabelKey(k, m);
      CleanLabelsDiffer(l, n, k, m);
    }
  }

  /** The last violation is reported for `k` if it carries `k` and its number is beyond those in the baseline. */
  lemma AddedStep(old': seq<Violation>, now: seq<Violation>, k: Key)
    requires AllClean(old') && now != [] && Clean(now[|now| - 1].identifier) && Clean(k.identifier)
    ensures var base, front := Keys(Numbered(old')), now[..|now| - 1];
      Reported(Filtered(Numbered(now), base, false), k) ==
      Reported(Filtered(Numbered(front), base, false), k) +
      if KeyOf(now[|now| - 1]) == k && Count(now, k) > Count(old', k) then 1 else 0
  {
    var base, front, l := Keys(Numbered(old')), now[..|now| - 1], KeyOf(now[|now| - 1]);
    var n := Count(now, l);
    var labelled := Labelled(now[|now| - 1], n);
    FilteredNumbered(now, base);
    assert KeyOf(labelled) == LabelKey(l, n);
    InBaseline(old', l, n);
    NamesOnly(l, n, k);
    ReportedAppend(Filtered(Numbered(front), base, false), labelled, k);
  }

  lemma {:induction false} AddedCounts(old': seq<Violation>, now: seq<Violation>, k: Key)
    requires AllClean(old') && AllClean(now) && Clean(k.identifier)
    ensures Reported(Filtered(Numbered(now), Keys(Numbered(old')), false), k) == Excess(Count(now, k), Count(old', k))
  {
    if now != [] {
      var front := now[..|now| - 1];
      assert AllClean(front) && Clean(now[|now| - 1].identifier);
      AddedStep(old', now, k);
      AddedCounts(old', front, k);
    }
  }

  lemma FilteredNumbered(now: seq<Violation>, base: set<Key>)
    requires now != []
    ensures var front, last := now[..|now| - 1], now[|now| - 1];
      var labelled := Labelled(last, Count(now, KeyOf(last)));
      Filtered(Numbered(now), base, false) ==
      if KeyOf(labelled) in base then Filtered(Numbered(front), base, false)
      else Filtered(Numbered(front), base, false) + [labelled]
  {
    NumberedLength(now[..|now| - 1]);
    assert Numbered(now)[..|now| - 1] == Numbered(now[..|now| - 1]);
  }

  lemma {:induction false} NumberedLength(violations: seq<Violation>)
    ensures |Numbered(violations)| == |violations|
  {
    if violations != [] { NumberedLength(violations[..|violations| - 1]); }
  }

  /** With a baseline taken from one tree, checking another reports, for each raw key, exactly the occurrences it
      has in excess, whatever the order in which either tree was visited. */
  lemma BaseliningIsExact(old': seq<Violation>, now: seq<Violation>, k: Key)
    requires AllClean(old') && AllClean(now) && Clean(k.identifier)
    ensures Reported(Filtered(Numbered(Sorted(now)), Keys(Numbered(Sorted(old'))), false), k) ==
            Excess(Count(now, k), Count(old', k))
  {
    SortedIsClean(old');
    SortedIsClean(now);
    AddedCounts(Sorted(old'), Sorted(now), k);
    SortedKeepsCount(old', k);
    SortedKeepsCount(now, k);
  }

  lemma {:induction false} ReportedMember(violations: seq<Violation>, i: nat, k: Key)
    requires i < |violations| && Names(KeyOf(violations[i]), k)
    ensures Reported(violations, k) > 0
  {
    OccurrenceExactly(violations[i], k);
    if i < |violations| - 1 { ReportedMember(violations[..|violations| - 1], i, k); }
  }

  /** Everything a check reports is an occurrence of a raw key of the checked tree. */
  lemma {:induction false} FilteredIsNumbered(violations: seq<Violation>, base: set<Key>, i: nat) returns (k: Key)
    requires i < |Filtered(Numbered(violations), base, false)|
    ensures Names(KeyOf(Filtered(Numbered(violations), base, false)[i]), k) && Count(violations, k) > 0
    ensures exists j :: 0 <= j < |violations| && KeyOf(violations[j]) == k
  {
    var front, last := violations[..|violations| - 1], violations[|violations| - 1];
    FilteredNumbered(violations, base);
    if i < |Filtered(Numbered(front), base, false)| {
      k := FilteredIsNumbered(front, base, i);
      CountGrows(violations, |violations| - 1, |violations|, k);
      assert violations[..|violations|] == violations;
      CountMember(violations, k);
    } else {
      k := KeyOf(last);
      assert KeyOf(Labelled(last, Count(violations, k))) == LabelKey(k, Count(violations, k));
    }
  }

  /** The gate passes exactly when no raw key occurs more often than in the baselined tree. */
  lemma GatePassesExactly(old': seq<Violation>, now: seq<Violation>)
    requires AllClean(old') && AllClean(now)
    ensures Filtered(Numbered(Sorted(now)), Keys(Numbered(Sorted(old'))), false) == [] <==>
            forall k: Key | Clean(k.identifier) :: Count(now, k) <= Count(old', k)
  {
    var base := Keys(Numbered(Sorted(old')));
    var added := Filtered(Numbered(Sorted(now)), base, false);
    if added == [] {
      forall k: Key | Clean(k.identifier) ensures Count(now, k) <= Count(old', k) { BaseliningIsExact(old', now, k); }
    } else {
      var k := FilteredIsNumbered(Sorted(now), base, 0);
      SortedIsClean(now);
      var j :| 0 <= j < |Sorted(now)| && KeyOf(Sorted(now)[j]) == k;
      ReportedMember(added, 0, k);
      BaseliningIsExact(old', now, k);
    }
  }

  // ---------------------------------------------------------------------------------------------
  // The sort
  // ---------------------------------------------------------------------------------------------

  /** In the order of the characters' codes, a prefix first. */
  ghost predicate IsLess(a: string, b: string) {
    exists n: nat :: n <= |a| && n < |b| && a[..n] == b[..n] && (n == |a| || a[n] < b[n])
  }

  lemma {:induction false} TextBeforeExactly(a: string, b: string)
    ensures TextBefore(a, b) <==> IsLess(a, b)
  {
    if a != "" && b != "" && a[0] == b[0] {
      TextBeforeExactly(a[1..], b[1..]);
      if n: nat :| n <= |a[1..]| && n < |b[1..]| && a[1..][..n] == b[1..][..n] && (n == |a[1..]| || a[1..][n] < b[1..][n]) {
        assert a[..n + 1] == [a[0]] + a[1..][..n] && b[..n + 1] == [b[0]] + b[1..][..n];
      }
      if n: nat :| n <= |a| && n < |b| && a[..n] == b[..n] && (n == |a| || a[n] < b[n]) {
        assert n > 0 && a[1..][..n - 1] == a[..n][1..] && b[1..][..n - 1] == b[..n][1..];
      }
    } else if b != "" {
      assert a[..0] == b[..0];
      if n: nat :| n <= |a| && n < |b| && a[..n] == b[..n] && (n == |a| || a[n] < b[n]) {
        if n > 0 { assert a[..n][0] == b[..n][0]; }
      }
    }
  }

  /** File first, then check, then line, then identifier. */
  lemma BeforeExactly(v: Violation, w: Violation)
    ensures Before(v, w) <==>
            || IsLess(v.file, w.file)
            || (v.file == w.file && IsLess(v.check, w.check))
            || (v.file == w.file && v.check == w.check && v.line < w.line)
            || (v.file == w.file && v.check == w.check && v.line == w.line && IsLess(v.identifier, w.identifier))
  {
    TextBeforeExactly(v.file, w.file);
    TextBeforeExactly(v.check, w.check);
    TextBeforeExactly(v.identifier, w.identifier);
    TextBeforeIsAsymmetric(v.file, w.file);
    TextBeforeIsAsymmetric(v.check, w.check);
  }

  /** The violations at one place of the sort, in order. */
  function SamePlace(violations: seq<Violation>, w: Violation): seq<Violation> {
    if violations == [] then []
    else
      var last := violations[|violations| - 1];
      SamePlace(violations[..|violations| - 1], w) +
      if last.file == w.file && last.check == w.check && last.line == w.line && last.identifier == w.identifier
      then [last] else []
  }

  lemma {:induction false} InsertIsStable(sorted: seq<Violation>, v: Violation, w: Violation)
    ensures SamePlace(Insert(sorted, v), w) == SamePlace(sorted + [v], w)
  {
    assert (sorted + [v])[..|sorted|] == sorted;
    if sorted != [] && Before(v, sorted[|sorted| - 1]) {
      var front, last := sorted[..|sorted| - 1], sorted[|sorted| - 1];
      InsertIsStable(front, v, w);
      assert (front + [v])[..|front|] == front;
      assert Insert(sorted, v)[..|Insert(sorted, v)| - 1] == Insert(front, v);
      BeforeIsAsymmetric(v, v);
    }
  }

  /** Violations that differ in nothing but the message keep their order. */
  lemma {:induction false} SortedIsStable(violations: seq<Violation>, w: Violation)
    ensures SamePlace(Sorted(violations), w) == SamePlace(violations, w)
  {
    if violations != [] {
      var front, last := violations[..|violations| - 1], violations[|violations| - 1];
      SortedIsStable(front, w);
      InsertIsStable(Sorted(front), last, w);
      assert (Sorted(front) + [last])[..|Sorted(front)|] == Sorted(front);
    }
  }

  lemma {:induction false} TextBeforeIsAsymmetric(a: string, b: string)
    ensures !(TextBefore(a, b) && TextBefore(b, a))
  {
    if a != "" && b != "" { TextBeforeIsAsymmetric(a[1..], b[1..]); }
  }

  lemma BeforeIsAsymmetric(v: Violation, w: Violation)
    ensures !(Before(v, w) && Before(w, v))
  {
    TextBeforeIsAsymmetric(v.file, w.file);
    TextBeforeIsAsymmetric(v.check, w.check);
    TextBeforeIsAsymmetric(v.identifier, w.identifier);
  }

  predicate Ordered(violations: seq<Violation>) {
    forall i | 0 < i < |violations| :: !Before(violations[i], violations[i - 1])
  }

  lemma {:induction false} InsertIsOrdered(sorted: seq<Violation>, v: Violation)
    requires Ordered(sorted)
    ensures Ordered(Insert(sorted, v))
    ensures var out := Insert(sorted, v);
      out[|out| - 1] == v || (sorted != [] && out[|out| - 1] == sorted[|sorted| - 1])
  {
    if sorted != [] && Before(v, sorted[|sorted| - 1]) {
      InsertIsOrdered(sorted[..|sorted| - 1], v);
      BeforeIsAsymmetric(v, sorted[|sorted| - 1]);
    }
  }

  /** Numbering follows file, check, line and identifier: the sort leaves no neighbours out of order. */
  lemma {:induction false} SortedIsOrdered(violations: seq<Violation>)
    ensures Ordered(Sorted(violations))
  {
    if violations != [] {
      SortedIsOrdered(violations[..|violations| - 1]);
      InsertIsOrdered(Sorted(violations[..|violations| - 1]), violations[|violations| - 1]);
    }
  }

  // ---------------------------------------------------------------------------------------------
  // Distinctness
  // ---------------------------------------------------------------------------------------------

  ghost predicate DistinctKeys(violations: seq<Violation>) {
    forall i, j | 0 <= i < j < |violations| ::
      var v, w := violations[i], violations[j]; v.check != w.check || v.file != w.file || v.identifier != w.identifier
  }

  lemma KeysDiffer(violations: seq<Violation>)
    ensures DistinctKeys(violations) <==>
            forall i, j | 0 <= i < j < |violations| :: KeyOf(violations[i]) != KeyOf(violations[j])
  {}

  /** No raw key of the list is the label of a later occurrence of another raw key of the list. */
  ghost predicate NoCollision(violations: seq<Violation>) {
    forall k: Key, n: nat :: 2 <= n <= Count(violations, k) ==> Count(violations, LabelKey(k, n)) == 0
  }

  lemma {:induction false} NumberedAt(violations: seq<Violation>, i: nat)
    requires i < |violations|
    ensures |Numbered(violations)| == |violations|
    ensures Numbered(violations)[i] == Labelled(violations[i], Count(violations[..i + 1], KeyOf(violations[i])))
    ensures Count(violations[..i + 1], KeyOf(violations[i])) >= 1
  {
    NumberedLength(violations[..|violations| - 1]);
    if i == |violations| - 1 {
      assert violations[..i + 1] == violations;
    } else {
      NumberedAt(violations[..|violations| - 1], i);
      assert violations[..|violations| - 1][..i + 1] == violations[..i + 1];
    }
  }

  lemma {:induction false} CountGrows(violations: seq<Violation>, i: nat, j: nat, k: Key)
    requires i <= j <= |violations|
    ensures Count(violations[..i], k) <= Count(violations[..j], k)
    decreases j - i
  {
    if i < j {
      CountGrows(violations, i, j - 1, k);
      assert violations[..j][..j - 1] == violations[..j - 1];
    }
  }

  lemma {:induction false} FirstOccurrence(violations: seq<Violation>, k: Key, n: nat) returns (i: nat)
    requires 1 <= n <= Count(violations, k)
    ensures i < |violations| && KeyOf(violations[i]) == k && Count(violations[..i + 1], k) == n
  {
    var front := violations[..|violations| - 1];
    if n <= Count(front, k) {
      i := FirstOccurrence(front, k, n);
      assert front[..i + 1] == violations[..i + 1];
    } else {
      i := |violations| - 1;
      assert violations[..i + 1] == violations;
    }
  }

  lemma SortedCollides(violations: seq<Violation>)
    ensures NoCollision(Sorted(violations)) <==> NoCollision(violations)
  {
    hide Sorted;
    forall k: Key ensures Count(Sorted(violations), k) == Count(violations, k) { SortedKeepsCount(violations, k); }
  }

  /** The disambiguated keys are pairwise distinct exactly when no identifier looks like the label of a repeated one. */
  lemma DistinctExactly(violations: seq<Violation>)
    ensures DistinctKeys(Numbered(Sorted(violations))) <==> NoCollision(violations)
  {
    hide Sorted, Numbered, NoCollision, DistinctKeys;
    NumberedDistinctExactly(Sorted(violations));
    SortedCollides(violations);
  }

  /** In any order, the numbered keys are distinct under that condition. */
  lemma NumberedDistinctExactly(violations: seq<Violation>)
    ensures DistinctKeys(Numbered(violations)) <==> NoCollision(violations)
  {
    KeysDiffer(Numbered(violations));
    hide DistinctKeys;
    NumberedLength(violations);
    if NoCollision(violations) {
      forall i, j | 0 <= i < j < |violations| ensures KeyOf(Numbered(violations)[i]) != KeyOf(Numbered(violations)[j]) {
        LabelsApart(violations, i, j);
      }
    }
    if DistinctKeys(Numbered(violations)) {
      forall k: Key, n: nat | 2 <= n <= Count(violations, k) ensures Count(violations, LabelKey(k, n)) == 0 {
        if Count(violations, LabelKey(k, n)) > 0 {
          var i, j := SharedKey(violations, k, n);
        }
      }
    }
  }

  /** If the label of a repeated key is also the key of some violation, two violations share a key. */
  lemma SharedKey(violations: seq<Violation>, k: Key, n: nat) returns (i: nat, j: nat)
    requires 2 <= n <= Count(violations, k) && Count(violations, LabelKey(k, n)) > 0
    ensures |Numbered(violations)| == |violations| && i < |violations| && j < |violations| && i != j
    ensures KeyOf(Numbered(violations)[i]) == KeyOf(Numbered(violations)[j])
  {
    NumberedLength(violations);
    i := FirstOccurrence(violations, k, n);
    j := FirstOccurrence(violations, LabelKey(k, n), 1);
    NumberedAt(violations, i);
    NumberedAt(violations, j);
    assert KeyOf(Numbered(violations)[i]) == LabelKey(k, n) == KeyOf(Numbered(violations)[j]);
    assert LabelKey(k, n).identifier != k.identifier;
  }

  lemma LabelsApart(violations: seq<Violation>, i: nat, j: nat)
    requires NoCollision(violations) && i < j < |violations| && |Numbered(violations)| == |violations|
    ensures KeyOf(Numbered(violations)[i]) != KeyOf(Numbered(violations)[j])
  {
    var k, m := OccurrenceAt(violations, i);
    var l, n := OccurrenceAt(violations, j);
    if k == l {
      CountGrows(violations, i + 1, j, l);
      assert violations[..j + 1][..j] == violations[..j];
    }
    SameLabel(violations, k, m, l, n);
  }

  lemma OccurrenceAt(violations: seq<Violation>, i: nat) returns (k: Key, n: nat)
    requires i < |violations| == |Numbered(violations)|
    ensures k == KeyOf(violations[i]) && n == Count(violations[..i + 1], k) && 1 <= n <= Count(violations, k)
    ensures KeyOf(Numbered(violations)[i]) == LabelKey(k, n)
  {
    k := KeyOf(violations[i]);
    n := Count(violations[..i + 1], k);
    NumberedAt(violations, i);
    CountGrows(violations, i + 1, |violations|, k);
    assert violations[..|violations|] == violations;
  }

  /** Without collisions two occurrences share a label only if they are the same occurrence of the same key. */
  lemma SameLabel(violations: seq<Violation>, k: Key, m: nat, l: Key, n: nat)
    requires NoCollision(violations) && 1 <= m <= Count(violations, k) && 1 <= n <= Count(violations, l)
    ensures LabelKey(k, m) == LabelKey(l, n) ==> k == l && m == n
  {
    assert m >= 2 ==> Count(violations, LabelKey(k, m)) == 0;
    assert n >= 2 ==> Count(violations, LabelKey(l, n)) == 0;
    if LabelKey(k, m) == LabelKey(l, n) {
      if m >= 2 && n >= 2 {
        NumberedLabelsDiffer(k.identifier, m, l.identifier, n);
      }
    }
  }

  lemma LabelTwo()
    ensures Label("f", 2) == "f#2"
  {
    assert DIGITS[2] == '2';
    assert Decimal(2) == [DIGITS[2]];
    assert "f" + "#" + "2" == "f#2";
  }

  /** The collision is possible: `f` twice and an identifier that reads `f#2` share a key. */
  lemma CollisionExample(check: string, file: string, message: string)
    ensures var f, f2 := Violation(check, file, 1, "f", message), Violation(check, file, 1, "f#2", message);
      !DistinctKeys(Numbered(Sorted([f, f, f2])))
  {
    var f, f2 := Violation(check, file, 1, "f", message), Violation(check, file, 1, "f#2", message);
    var vs := [f, f, f2];
    assert vs[..2] == [f, f] && [f, f][..1] == [f] && [f][..0] == [];
    assert Count([f], KeyOf(f)) == 1 && Count([f, f], KeyOf(f)) == 2 && Count(vs, KeyOf(f)) == 2;
    LabelTwo();
    assert |"f"| != |"f#2"| && KeyOf(f).identifier != KeyOf(f2).identifier;
    assert Count([f], KeyOf(f2)) == 0 && Count([f, f], KeyOf(f2)) == 0;
    assert vs[|vs| - 1] == f2 && Count(vs, KeyOf(f2)) == Count(vs[..2], KeyOf(f2)) + 1;
    assert LabelKey(KeyOf(f), 2) == KeyOf(f2);
    hide Sorted, Numbered, DistinctKeys;
    DistinctExactly(vs);
  }

  // ---------------------------------------------------------------------------------------------
  // The answers spelled out
  // ---------------------------------------------------------------------------------------------

  /** A key is a check, a file and an identifier. */
  lemma KeyOfExactly(v: Violation, w: Violation)
    ensures KeyOf(v) == KeyOf(w) <==> v.check == w.check && v.file == w.file && v.identifier == w.identifier
    ensures forall k :: KeyOf(v) == k <==> IsAt(v, k)
  {}

  lemma KeysExactly(violations: seq<Violation>, k: Key)
    ensures k in Keys(violations) <==> exists i | 0 <= i < |violations| :: IsAt(violations[i], k)
  {
    if i :| 0 <= i < |violations| && IsAt(violations[i], k) { assert KeyOf(violations[i]) == k; }
  }

  /** A decimal has no leading zero. */
  lemma {:induction false} DecimalLeads(n: nat)
    ensures Decimal(n) != "" && (n > 0 ==> Decimal(n)[0] != '0')
  {
    if n >= 10 { DecimalLeads(n / 10); }
  }

  /** Each violation comes out as it is but for its identifier: the first of its place unchanged, the `n`-th behind a
      hash and `n`. */
  lemma NumberedExactly(violations: seq<Violation>, i: nat)
    requires i < |violations|
    ensures |Numbered(violations)| == |violations|
    ensures var v, w := violations[i], Numbered(violations)[i];
      var n := Count(violations[..i + 1], Key(v.check, v.file, v.identifier));
      && w.check == v.check && w.file == v.file && w.line == v.line && w.message == v.message && n >= 1
      && w.identifier == if n == 1 then v.identifier else v.identifier + "#" + Decimal(n)
  {
    NumberedAt(violations, i);
  }

  /** Splitting keeps the order and puts each violation on one side, by whether the baseline has its key. */
  lemma {:induction false} FilteredExactly(violations: seq<Violation>, baseline: set<Key>, known: bool)
    returns (places: seq<nat>)
    ensures |places| == |Filtered(violations, baseline, known)|
    ensures forall p, q | 0 <= p < q < |places| :: places[p] < places[q]
    ensures forall p | 0 <= p < |places| ::
              places[p] < |violations| && Filtered(violations, baseline, known)[p] == violations[places[p]]
    ensures forall i: nat | i < |violations| ::
              var v := violations[i]; i in places <==> (Key(v.check, v.file, v.identifier) in baseline) == known
  {
    places := [];
    if violations != [] {
      var front, last := violations[..|violations| - 1], violations[|violations| - 1];
      var before := FilteredExactly(front, baseline, known);
      var taken := (Key(last.check, last.file, last.identifier) in baseline) == known;
      places := before + if taken then [|violations| - 1] else [];
      assert |front| !in before by { assert forall p | 0 <= p < |before| :: before[p] < |front|; }
      forall i: nat | i < |violations|
        ensures var v := violations[i]; i in places <==> (Key(v.check, v.file, v.identifier) in baseline) == known
      {
        if i < |front| { assert violations[i] == front[i]; }
      }
    }
  }
}
