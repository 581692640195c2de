/** Grandfathering by occurrence: violations numbered per key, and what a baseline of those keys lets through. */
module Baseline {

  datatype Violation = Violation(check: string, file: string, line: nat, identifier: string, message: string)

  datatype Key = Key(check: string, file: string, identifier: string)

  /** `Violation.key`. */
  function KeyOf(v: Violation): Key { Key(v.check, v.file, v.identifier) }

  // ---------------------------------------------------------------------------------------------
  // Labels
  // ---------------------------------------------------------------------------------------------

  const DIGITS := "0123456789"

  function Decimal(n: nat): string {
    if n < 10 then [DIGITS[n]] else Decimal(n / 10) + [DIGITS[n % 10]]
  }

  /** The identifier of the `n`-th occurrence. */
  function Label(identifier: string, n: nat): string {
    if n <= 1 then identifier else identifier + "#" + Decimal(n)
  }

  function LabelKey(k: Key, n: nat): Key { k.(identifier := Label(k.identifier, n)) }

  function Labelled(v: Violation, n: nat): Violation { v.(identifier := Label(v.identifier, n)) }

  // ---------------------------------------------------------------------------------------------
  // Sorting by (file, check, line, identifier)
  // ---------------------------------------------------------------------------------------------

  predicate TextBefore(a: string, b: string) {
    b != "" && (a == "" || a[0] < b[0] || (a[0] == b[0] && TextBefore(a[1..], b[1..])))
  }

  predicate Before(v: Violation, w: Violation) {
    if v.file != w.file then TextBefore(v.file, w.file)
    else if v.check != w.check then TextBefore(v.check, w.check)
    else if v.line != w.line then v.line < w.line
    else TextBefore(v.identifier, w.identifier)
  }

  function Insert(sorted: seq<Violation>, v: Violation): seq<Violation> {
    if sorted == [] then [v]
    else if Before(v, sorted[|sorted| - 1]) then Insert(sorted[..|sorted| - 1], v) + [sorted[|sorted| - 1]]
    else sorted + [v]
  }

  /** `sorted(violations, key=...)`; equal keys keep their order. */
  function Sorted(violations: seq<Violation>): seq<Violation> {
    if violations == [] then [] else Insert(Sorted(violations[..|violations| - 1]), violations[|violations| - 1])
  }

  // ---------------------------------------------------------------------------------------------
  // Disambiguation
  // ---------------------------------------------------------------------------------------------

  /** The violation is of this check, in this file, and has this identifier. */
  predicate IsAt(v: Violation, k: Key) { v.check == k.check && v.file == k.file && v.identifier == k.identifier }

  /** How many of the violations are. */
  function Count(violations: seq<Violation>, k: Key): nat {
    if violations == [] then 0
    else Count(violations[..|violations| - 1], k) + if IsAt(violations[|violations| - 1], k) then 1 else 0
  }

  /** Each violation labelled with its occurrence number, in the given order. */
  function Numbered(violations: seq<Violation>): seq<Violation> {
    if violations == [] then []
    else
      var last := violations[|violations| - 1];
      Numbered(violations[..|violations| - 1]) + [Labelled(last, Count(violations, KeyOf(last)))]
  }

  /** `_disambiguate`. */
  method Disambiguate(violations: seq<Violation>) returns (out: seq<Violation>)
    ensures out == Numbered(Sorted(violations))
  {
    var sorted := Sorted(violations);
    var counts: map<Key, nat> := map[];
    out := [];
    for i := 0 to |sorted|
      invariant out == Numbered(sorted[..i])
      invariant forall k :: (if k in counts then counts[k] else 0) == Count(sorted[..i], k)
    {
      var v := sorted[i];
      var base := KeyOf(v);
      assert sorted[..i + 1][..i] == sorted[..i];
      counts := counts[base := (if base in counts then counts[base] else 0) + 1];
      var n := counts[base];
      if n == 1 {
        out := out + [v];
      } else {
        out := out + [Violation(v.check, v.file, v.line, v.identifier + "#" + Decimal(n), v.message)];
      }
    }
    assert sorted[..|sorted|] == sorted;
  }

  function Keys(violations: seq<Violation>): set<Key> {
    set i | 0 <= i < |violations| :: KeyOf(violations[i])
  }

  /** The violations whose key is (not) in the baseline, in order. */
  function Filtered(violations: seq<Violation>, baseline: set<Key>, known: bool): seq<Violation> {
    if violations == [] then []
    else
      var last := violations[|violations| - 1];
      Filtered(violations[..|violations| - 1], baseline, known) +
      if (KeyOf(last) in baseline) == known then [last] else []
  }

  /** The new violations and the grandfathered ones, as `main` splits them. */
  method Split(violations: seq<Violation>, baseline: set<Key>) returns (added: seq<Violation>, baselined: seq<Violation>)
    ensures added == Filtered(violations, baseline, false)
    ensures baselined == Filtered(violations, baseline, true)
  {
    added, baselined := [], [];
    for i := 0 to |violations|
      invariant added == Filtered(violations[..i], baseline, false)
      invariant baselined == Filtered(violations[..i], baseline, true)
    {
      assert violations[..i + 1][..i] == violations[..i];
      if KeyOf(violations[i]) in baseline {
        baselined := baselined + [violations[i]];
      } else {
        added := added + [violations[i]];
      }
    }
    assert violations[..|violations|] == violations;
  }
}
