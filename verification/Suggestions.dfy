/** Weight suggestions from observed runtimes. */
module Suggestions {
  import opened Rounding
  import opened Wrappers

  datatype Command = Command(command: string, filePath: string, startLine: int, weight: nat)

  datatype TestRun = TestRun(jobId: int, status: string, actualSeconds: nat, bashContent: string, passedLineIndex: nat)

  datatype Reason = DefaultUnderweight | Underweight | Overweighted

  /** `job` is the job and log line the report links to. */
  datatype Suggestion = Suggestion(filePath: string, startLine: int, currentWeight: nat, observedSeconds: nat,
                                   suggestedWeight: nat, reason: Reason, job: Option<(int, nat)>)

  datatype Settings = Settings(threshold: real, defaultThreshold: int, defaultWeight: int)

  const ROUND_TO := 50
  const DEFAULT_THRESHOLD := 1.5
  const DEFAULT_WEIGHT_THRESHOLD := 120

  // ---------------------------------------------------------------------------------------------
  // One command against one runtime
  // ---------------------------------------------------------------------------------------------

  /** `_round_to`: a positive multiple of fifty, nearest unless that would be zero, ties to the even multiple. */
  function RoundTo(n: nat): (w: nat)
    ensures w % ROUND_TO == 0 && w >= ROUND_TO
    ensures n >= 25 ==> -25 <= w - n <= 25
    ensures n % ROUND_TO == 25 && n > ROUND_TO ==> w % (2 * ROUND_TO) == 0
  {
    var steps := RoundHalfEven(n as real / ROUND_TO as real);
    if steps < 1 then ROUND_TO else steps * ROUND_TO
  }

  /** The runtime plus the safety margin of three tenths, truncated, then rounded. */
  function SuggestedWeight(observed: nat): nat { RoundTo(13 * observed / 10) }

  function AtLeastOne(n: nat): nat { if n < 1 then 1 else n }

  function Apart(a: int, b: int): nat { if a < b then b - a else a - b }

  function ReasonFor(current: nat, observed: nat, s: Settings): Option<Reason> {
    if current == s.defaultWeight && observed >= s.defaultThreshold then Some(DefaultUnderweight)
    else if observed as real / AtLeastOne(current) as real > s.threshold && Apart(observed, current) > 60 then
      Some(Underweight)
    else if current > 100 && observed * 2 < current then Some(Overweighted)
    else None
  }

  function Offer(c: Command, r: TestRun, s: Settings): Option<Suggestion> {
    match ReasonFor(c.weight, r.actualSeconds, s)
    case None => None
    case Some(reason) =>
      Some(Suggestion(c.filePath, c.startLine, c.weight, r.actualSeconds, SuggestedWeight(r.actualSeconds), reason,
                      if r.passedLineIndex != 0 then Some((r.jobId, r.passedLineIndex)) else None))
  }

  // ---------------------------------------------------------------------------------------------
  // derive_suggestions
  // ---------------------------------------------------------------------------------------------

  /** The commands with the given canonical text, in order. */
  function Matching(commands: seq<Command>, canon: string -> string, key: string): seq<Command> {
    if commands == [] then []
    else
      var last := commands[|commands| - 1];
      Matching(commands[..|commands| - 1], canon, key) + if canon(last.command) == key then [last] else []
  }

  function Offers(commands: seq<Command>, r: TestRun, s: Settings): seq<Suggestion> {
    if commands == [] then []
    else
      var last := |commands| - 1;
      Offers(commands[..last], r, s) +
      (match Offer(commands[last], r, s) case Some(x) => [x] case None => [])
  }

  /** What one run adds. */
  function RunOffers(commands: seq<Command>, canon: string -> string, r: TestRun, s: Settings): seq<Suggestion> {
    if r.status == "failed" then [] else Offers(Matching(commands, canon, r.bashContent), r, s)
  }

  function AllOffers(commands: seq<Command>, canon: string -> string, runs: seq<TestRun>, s: Settings): seq<Suggestion> {
    if runs == [] then []
    else
      var last := |runs| - 1;
      AllOffers(commands, canon, runs[..last], s) + RunOffers(commands, canon, runs[last], s)
  }

  function MatchedRuns(commands: seq<Command>, canon: string -> string, runs: seq<TestRun>): nat {
    if runs == [] then 0
    else
      var last := |runs| - 1;
      MatchedRuns(commands, canon, runs[..last]) +
      if Matching(commands, canon, runs[last].bashContent) == [] then 0 else 1
  }

  function Get(byBash: map<string, seq<Command>>, key: string): seq<Command> { if key in byBash then byBash[key] else [] }

  /** The commands grouped by their canonical text. */
  method GroupByText(commands: seq<Command>, canon: string -> string) returns (byBash: map<string, seq<Command>>)
    ensures forall key :: Get(byBash, key) == Matching(commands, canon, key)
  {
    byBash := map[];
    for k := 0 to |commands|
      invariant forall key :: Get(byBash, key) == Matching(commands[..k], canon, key)
    {
      assert commands[..k + 1][..k] == commands[..k];
      var key := canon(commands[k].command);
      byBash := byBash[key := Get(byBash, key) + [commands[k]]];
    }
    assert commands[..|commands|] == commands;
  }

  /** The suggestions one run draws from the commands that share its text. */
  method OfferAll(cmds: seq<Command>, r: TestRun, s: Settings) returns (suggestions: seq<Suggestion>)
    ensures suggestions == Offers(cmds, r, s)
  {
    suggestions := [];
    for j := 0 to |cmds|
      invariant suggestions == Offers(cmds[..j], r, s)
    {
      hide Offer;
      assert cmds[..j + 1][..j] == cmds[..j];
      var offer := Offer(cmds[j], r, s);
      if offer.Some? {
        suggestions := suggestions + [offer.value];
      }
    }
    assert cmds[..|cmds|] == cmds;
  }

  method DeriveSuggestions(commands: seq<Command>, canon: string -> string, runs: seq<TestRun>, s: Settings)
    returns (suggestions: seq<Suggestion>, matched: nat, unmatched: nat)
    ensures suggestions == AllOffers(commands, canon, runs, s)
    ensures matched == MatchedRuns(commands, canon, runs)
    ensures matched + unmatched == |runs|
  {
    hide Matching, Offers;
    var byBash := GroupByText(commands, canon);
    matched, unmatched, suggestions := 0, 0, [];
    for k := 0 to |runs|
      invariant suggestions == AllOffers(commands, canon, runs[..k], s)
      invariant matched == MatchedRuns(commands, canon, runs[..k])
      invariant matched + unmatched == k
    {
      assert runs[..k + 1][..k] == runs[..k];
      var r := runs[k];
      var cmds := Get(byBash, r.bashContent);
      if cmds == [] {
        unmatched := unmatched + 1;
        NoOffers(r, s);
        continue;
      }
      matched := matched + 1;
      if r.status == "failed" {
        continue;
      }
      var offers := OfferAll(cmds, r, s);
      suggestions := suggestions + offers;
    }
    assert runs[..|runs|] == runs;
  }

  lemma NoOffers(r: TestRun, s: Settings)
    ensures Offers([], r, s) == []
  {}

  // ---------------------------------------------------------------------------------------------
  // What is suggested
  // ---------------------------------------------------------------------------------------------

  lemma {:induction false} MatchingHas(commands: seq<Command>, canon: string -> string, key: string, c: Command)
    ensures c in Matching(commands, canon, key) <==> c in commands && canon(c.command) == key
  {
    if commands != [] {
      MatchingHas(commands[..|commands| - 1], canon, key, c);
      assert commands == commands[..|commands| - 1] + [commands[|commands| - 1]];
    }
  }

  lemma {:induction false} OffersHas(commands: seq<Command>, r: TestRun, s: Settings, x: Suggestion)
    ensures x in Offers(commands, r, s) <==> exists c :: c in commands && Offer(c, r, s) == Some(x)
  {
    if commands != [] {
      OffersHas(commands[..|commands| - 1], r, s, x);
      assert commands == commands[..|commands| - 1] + [commands[|commands| - 1]];
    }
  }

  /** The run has a usable time for the command, which draws this suggestion. */
  ghost predicate Draws(c: Command, canon: string -> string, r: TestRun, s: Settings, x: Suggestion) {
    r.status != "failed" && canon(c.command) == r.bashContent && Offer(c, r, s) == Some(x)
  }

  /** A suggestion is made exactly when some command and some run with its text draw it. */
  lemma {:induction false} SuggestedExactly(commands: seq<Command>, canon: string -> string, runs: seq<TestRun>,
                                            s: Settings, x: Suggestion)
    ensures x in AllOffers(commands, canon, runs, s) <==>
            exists c, r :: c in commands && r in runs && Draws(c, canon, r, s, x)
  {
    if runs != [] {
      var front, last := runs[..|runs| - 1], runs[|runs| - 1];
      assert runs == front + [last];
      SuggestedExactly(commands, canon, front, s, x);
      OffersHas(Matching(commands, canon, last.bashContent), last, s, x);
      forall c ensures c in Matching(commands, canon, last.bashContent) <==>
                       c in commands && canon(c.command) == last.bashContent {
        MatchingHas(commands, canon, last.bashContent, c);
      }
      assert x in RunOffers(commands, canon, last, s) <==> exists c :: c in commands && Draws(c, canon, last, s, x);
    }
  }

  // ---------------------------------------------------------------------------------------------
  // Suggested weights are fixed points
  // ---------------------------------------------------------------------------------------------

  /** With the default thresholds, a suggested weight draws a further suggestion from the same runtime only as the
      default weight, and then only from a hundred and fifty seconds up. */
  lemma Settled(observed: nat, defaultWeight: int)
    ensures var s := Settings(DEFAULT_THRESHOLD, DEFAULT_WEIGHT_THRESHOLD, defaultWeight);
            ReasonFor(SuggestedWeight(observed), observed, s) ==
            if SuggestedWeight(observed) == defaultWeight && observed >= 120 then Some(DefaultUnderweight) else None
  {
    var n := 13 * observed / 10;
    assert 10 * n <= 13 * observed < 10 * n + 10;
    var w := SuggestedWeight(observed);
    Ratio(observed, w);
  }

  lemma Ratio(observed: nat, w: nat)
    requires w > 0
    ensures observed as real / w as real > DEFAULT_THRESHOLD <==> 2 * observed > 3 * w
  {
    var q := observed as real / w as real;
    assert q * w as real == observed as real;
    if q > 1.5 { assert (q - 1.5) * w as real > 0.0; } else { assert (1.5 - q) * w as real >= 0.0; }
  }

  /** Every multiple of fifty from a hundred and fifty up is suggested for some runtime of at least two minutes. */
  lemma RuntimeFor(weight: nat) returns (observed: nat)
    requires weight >= 150 && weight % ROUND_TO == 0
    ensures observed >= 120 && SuggestedWeight(observed) == weight
  {
    observed := if weight == 150 then 120 else (10 * weight + 12) / 13;
    var n := 13 * observed / 10;
    assert weight <= n < weight + 25;
    OnlyMultiple(n, weight);
  }

  lemma OnlyMultiple(n: nat, weight: nat)
    requires weight >= ROUND_TO && weight % ROUND_TO == 0 && weight <= n < weight + 25
    ensures RoundTo(n) == weight
  {
    var w := RoundTo(n);
    assert weight - 25 <= w < weight + 50;
    assert w == w / ROUND_TO * ROUND_TO && weight == weight / ROUND_TO * ROUND_TO;
  }

  /** Every runtime settles after one suggestion exactly when the default weight is below a hundred and fifty or not a
      multiple of fifty. */
  lemma FixedPointsExactly(defaultWeight: int)
    ensures var s := Settings(DEFAULT_THRESHOLD, DEFAULT_WEIGHT_THRESHOLD, defaultWeight);
            (forall observed: nat :: ReasonFor(SuggestedWeight(observed), observed, s) == None) <==>
            defaultWeight < 150 || defaultWeight % ROUND_TO != 0
  {
    var s := Settings(DEFAULT_THRESHOLD, DEFAULT_WEIGHT_THRESHOLD, defaultWeight);
    forall observed: nat ensures defaultWeight < 150 || defaultWeight % ROUND_TO != 0 ==>
      ReasonFor(SuggestedWeight(observed), observed, s) == None
    {
      Settled(observed, defaultWeight);
    }
    if defaultWeight >= 150 && defaultWeight % ROUND_TO == 0 {
      var observed := RuntimeFor(defaultWeight);
      Settled(observed, defaultWeight);
    }
  }

  /** Some weight suits both of two runtimes exactly when the longer one is within one and a half times, or within
      sixty seconds, of the largest weight the shorter one allows. */
  lemma OneWeightForBothExactly(shorter: nat, longer: nat, defaultWeight: int)
    requires shorter <= longer && defaultWeight < 100
    ensures var s := Settings(DEFAULT_THRESHOLD, DEFAULT_WEIGHT_THRESHOLD, defaultWeight);
            var most := if shorter < 50 then 100 else 2 * shorter;
            (exists w: nat :: Suits(w, shorter, s) && Suits(w, longer, s)) <==>
            2 * longer <= 3 * most || longer <= most + 60
  {
    var s := Settings(DEFAULT_THRESHOLD, DEFAULT_WEIGHT_THRESHOLD, defaultWeight);
    var most: nat := if shorter < 50 then 100 else 2 * shorter;
    Ratio(shorter, most);
    Ratio(longer, most);
    if 2 * longer <= 3 * most || longer <= most + 60 {
      assert Suits(most, shorter, s) && Suits(most, longer, s);
    }
    forall w: nat | Suits(w, shorter, s) && Suits(w, longer, s)
      ensures 2 * longer <= 3 * most || longer <= most + 60
    {
      assert w <= most;
      Ratio(longer, AtLeastOne(w));
    }
  }

  ghost predicate Suits(w: nat, observed: nat, s: Settings) { ReasonFor(w, observed, s) == None }

  // ---------------------------------------------------------------------------------------------
  // A whole round
  // ---------------------------------------------------------------------------------------------

  predicate At(c: Command, x: Suggestion) { c.filePath == x.filePath && c.startLine == x.startLine }

  /** The command with the first suggestion for its place applied, if there is one. */
  function Updated(c: Command, suggestions: seq<Suggestion>): Command {
    if suggestions == [] then c
    else if At(c, suggestions[0]) then c.(weight := suggestions[0].suggestedWeight)
    else Updated(c, suggestions[1..])
  }

  function Apply(commands: seq<Command>, suggestions: seq<Suggestion>): seq<Command> {
    seq(|commands|, i requires 0 <= i < |commands| => Updated(commands[i], suggestions))
  }

  lemma {:induction false} UpdatedFrom(c: Command, suggestions: seq<Suggestion>) returns (x: Option<Suggestion>)
    ensures x.None? ==> Updated(c, suggestions) == c && forall y | y in suggestions :: !At(c, y)
    ensures x.Some? ==> x.value in suggestions && At(c, x.value) &&
                        Updated(c, suggestions) == c.(weight := x.value.suggestedWeight)
  {
    if suggestions == [] {
      x := None;
    } else if At(c, suggestions[0]) {
      x := Some(suggestions[0]);
    } else {
      x := UpdatedFrom(c, suggestions[1..]);
    }
  }

  /** No two commands start on the same line of the same file. */
  ghost predicate DistinctPlaces(commands: seq<Command>) {
    forall c, d | c in commands && d in commands :: c.filePath == d.filePath && c.startLine == d.startLine ==> c == d
  }

  /** The usable runs of one text took the same time. */
  ghost predicate SameTimes(runs: seq<TestRun>) {
    forall r, q | r in runs && q in runs ::
      r.status != "failed" && q.status != "failed" && r.bashContent == q.bashContent ==> r.actualSeconds == q.actualSeconds
  }

  /** `after` is `commands` with suggestions applied: a command with suggestions for its place has taken the weight of one
      of them, the others are as they were. */
  ghost predicate IsApplied(commands: seq<Command>, suggestions: seq<Suggestion>, after: seq<Command>) {
    && |after| == |commands|
    && forall i | 0 <= i < |commands| :: Takes(commands[i], suggestions, after[i])
  }

  ghost predicate Takes(c: Command, suggestions: seq<Suggestion>, after: Command) {
    || (after == c && forall x | x in suggestions :: !At(c, x))
    || (exists x | x in suggestions :: At(c, x) && after == c.(weight := x.suggestedWeight))
  }

  /** The run has a usable time for the command. */
  predicate Times(c: Command, canon: string -> string, r: TestRun) {
    r.status != "failed" && canon(c.command) == r.bashContent
  }

  /** Every weight suggested for a command suits every runtime of its text. */
  ghost predicate WeightsSuit(commands: seq<Command>, canon: string -> string, runs: seq<TestRun>, s: Settings) {
    forall c, q, r | c in commands && q in runs && r in runs && Times(c, canon, q) && Times(c, canon, r) ::
      Suits(c.weight, q.actualSeconds, s) || Suits(SuggestedWeight(q.actualSeconds), r.actualSeconds, s)
  }

  /** A command draws a suggestion from a run exactly if its weight does not suit the time. */
  lemma DrawsExactly(c: Command, canon: string -> string, r: TestRun, s: Settings) returns (x: Option<Suggestion>)
    ensures x.Some? <==> Times(c, canon, r) && !Suits(c.weight, r.actualSeconds, s)
    ensures x.Some? ==> Draws(c, canon, r, s, x.value) && At(c, x.value) &&
                        x.value.suggestedWeight == SuggestedWeight(r.actualSeconds)
    ensures forall y :: Draws(c, canon, r, s, y) ==> x == Some(y)
  {
    x := if Times(c, canon, r) then Offer(c, r, s) else None;
  }

  /** A command that took its weight from a suggestion took it from a run of its own text. */
  lemma TakenFrom(commands: seq<Command>, canon: string -> string, runs: seq<TestRun>, s: Settings, c: Command, x: Suggestion)
    returns (q: TestRun)
    requires DistinctPlaces(commands) && c in commands && x in AllOffers(commands, canon, runs, s) && At(c, x)
    ensures q in runs && Times(c, canon, q) && !Suits(c.weight, q.actualSeconds, s)
    ensures x.suggestedWeight == SuggestedWeight(q.actualSeconds)
  {
    hide AllOffers, ReasonFor, SuggestedWeight, Suits;
    SuggestedExactly(commands, canon, runs, s, x);
    var d, r :| d in commands && r in runs && Draws(d, canon, r, s, x);
    var y := DrawsExactly(d, canon, r, s);
    assert c == d;
    q := r;
  }

  /** Where all weights suit, no applied command draws anything. */
  lemma NothingMore(commands: seq<Command>, canon: string -> string, runs: seq<TestRun>, s: Settings, i: nat,
                    after: Command, r: TestRun)
    requires DistinctPlaces(commands) && WeightsSuit(commands, canon, runs, s) && i < |commands| && r in runs
    requires Takes(commands[i], AllOffers(commands, canon, runs, s), after) && Times(after, canon, r)
    ensures Suits(after.weight, r.actualSeconds, s)
  {
    hide AllOffers, ReasonFor, SuggestedWeight, Suits, Draws;
    var c, first := commands[i], AllOffers(commands, canon, runs, s);
    if after == c && forall x | x in first :: !At(c, x) {
      var x := DrawsExactly(c, canon, r, s);
      if x.Some? { SuggestedExactly(commands, canon, runs, s, x.value); }
    } else {
      var x :| x in first && At(c, x) && after == c.(weight := x.suggestedWeight);
      var q := TakenFrom(commands, canon, runs, s, c, x);
      assert c in commands && Times(c, canon, r);
    }
  }

  lemma NothingDrawn(commands: seq<Command>, canon: string -> string, runs: seq<TestRun>, s: Settings)
    requires forall c, r | c in commands && r in runs && Times(c, canon, r) :: Suits(c.weight, r.actualSeconds, s)
    ensures AllOffers(commands, canon, runs, s) == []
  {
    hide AllOffers, Suits, Draws, Times;
    var all := AllOffers(commands, canon, runs, s);
    if all != [] {
      SuggestedExactly(commands, canon, runs, s, all[0]);
      var c, r :| c in commands && r in runs && Draws(c, canon, r, s, all[0]);
      var x := DrawsExactly(c, canon, r, s);
    }
  }

  lemma SomethingDrawn(commands: seq<Command>, canon: string -> string, runs: seq<TestRun>, s: Settings, c: Command, r: TestRun)
    requires c in commands && r in runs && Times(c, canon, r) && !Suits(c.weight, r.actualSeconds, s)
    ensures AllOffers(commands, canon, runs, s) != []
  {
    hide AllOffers, Suits, Draws;
    var x := DrawsExactly(c, canon, r, s);
    SuggestedExactly(commands, canon, runs, s, x.value);
  }

  /** However the suggestions are applied, deriving again from the same runs suggests nothing: exactly when every weight
      suggested for a command suits every runtime of its text. */
  lemma OneRoundIsEnoughExactly(commands: seq<Command>, canon: string -> string, runs: seq<TestRun>, s: Settings)
    requires DistinctPlaces(commands)
    ensures (forall after | IsApplied(commands, AllOffers(commands, canon, runs, s), after) ::
               AllOffers(after, canon, runs, s) == []) <==>
            WeightsSuit(commands, canon, runs, s)
  {
    hide AllOffers, ReasonFor, SuggestedWeight, Suits, Draws;
    var first := AllOffers(commands, canon, runs, s);
    if WeightsSuit(commands, canon, runs, s) {
      forall after | IsApplied(commands, first, after) ensures AllOffers(after, canon, runs, s) == [] {
        forall c, r | c in after && r in runs && Times(c, canon, r) ensures Suits(c.weight, r.actualSeconds, s) {
          var i :| 0 <= i < |after| && after[i] == c;
          NothingMore(commands, canon, runs, s, i, c, r);
        }
        NothingDrawn(after, canon, runs, s);
      }
    } else {
      var c, q, r :| c in commands && q in runs && r in runs && Times(c, canon, q) && Times(c, canon, r) &&
                     !Suits(c.weight, q.actualSeconds, s) && !Suits(SuggestedWeight(q.actualSeconds), r.actualSeconds, s);
      var after := Unlucky(commands, canon, runs, s, c, q);
      SomethingDrawn(after, canon, runs, s, c.(weight := SuggestedWeight(q.actualSeconds)), r);
    }
  }

  /** The suggestion from one run can be the one that is applied. */
  lemma Unlucky(commands: seq<Command>, canon: string -> string, runs: seq<TestRun>, s: Settings, c: Command, q: TestRun)
    returns (after: seq<Command>)
    requires c in commands && q in runs && Times(c, canon, q) && !Suits(c.weight, q.actualSeconds, s)
    ensures IsApplied(commands, AllOffers(commands, canon, runs, s), after)
    ensures c.(weight := SuggestedWeight(q.actualSeconds)) in after
  {
    hide AllOffers, ReasonFor, SuggestedWeight, Suits, Draws;
    var first := AllOffers(commands, canon, runs, s);
    var taken := c.(weight := SuggestedWeight(q.actualSeconds));
    var x := DrawsExactly(c, canon, q, s);
    SuggestedExactly(commands, canon, runs, s, x.value);
    var rest := Apply(commands, first);
    after := seq(|commands|, i requires 0 <= i < |commands| => if commands[i] == c then taken else rest[i]);
    forall i | 0 <= i < |commands| ensures Takes(commands[i], first, after[i]) {
      if commands[i] != c { var y := UpdatedFrom(commands[i], first); }
    }
    var k :| 0 <= k < |commands| && commands[k] == c;
    assert after[k] == taken;
  }

  /** In particular when the usable runs of one text took the same time, with the default thresholds and an ordinary
      default weight. */
  lemma OneRoundIsEnough(commands: seq<Command>, canon: string -> string, runs: seq<TestRun>, defaultWeight: int,
                         after: seq<Command>)
    requires DistinctPlaces(commands) && SameTimes(runs)
    requires defaultWeight < 150 || defaultWeight % ROUND_TO != 0
    requires var s := Settings(DEFAULT_THRESHOLD, DEFAULT_WEIGHT_THRESHOLD, defaultWeight);
             IsApplied(commands, AllOffers(commands, canon, runs, s), after)
    ensures var s := Settings(DEFAULT_THRESHOLD, DEFAULT_WEIGHT_THRESHOLD, defaultWeight);
            AllOffers(after, canon, runs, s) == []
  {
    hide AllOffers, ReasonFor, SuggestedWeight, IsApplied;
    var s := Settings(DEFAULT_THRESHOLD, DEFAULT_WEIGHT_THRESHOLD, defaultWeight);
    FixedPointsExactly(defaultWeight);
    assert WeightsSuit(commands, canon, runs, s);
    OneRoundIsEnoughExactly(commands, canon, runs, s);
  }

  // ---------------------------------------------------------------------------------------------
  // The answers spelled out
  // ---------------------------------------------------------------------------------------------

  /** Which reason, in the order of the tests. */
  lemma ReasonExactly(current: nat, observed: nat, s: Settings)
    ensures var reason := ReasonFor(current, observed, s);
      var isDefault := current == s.defaultWeight && observed >= s.defaultThreshold;
      var far := observed > current + 60 || current > observed + 60;
      var exceeds := observed as real / (if current == 0 then 1 else current) as real > s.threshold;
      && (reason == Some(DefaultUnderweight) <==> isDefault)
      && (reason == Some(Underweight) <==> !isDefault && exceeds && far)
      && (reason == Some(Overweighted) <==> !isDefault && !(exceeds && far) && current > 100 && 2 * observed < current)
  {}

  /** A suggestion says where, what was and what should be, and links to the run's line if it has one. */
  lemma OfferExactly(c: Command, r: TestRun, s: Settings)
    ensures Offer(c, r, s).Some? <==> ReasonFor(c.weight, r.actualSeconds, s).Some?
    ensures Offer(c, r, s).Some? ==>
              var x := Offer(c, r, s).value;
              && x.filePath == c.filePath && x.startLine == c.startLine && x.currentWeight == c.weight
              && x.observedSeconds == r.actualSeconds && Some(x.reason) == ReasonFor(c.weight, r.actualSeconds, s)
              && x.suggestedWeight == SuggestedWeight(r.actualSeconds)
              && (r.passedLineIndex == 0 ==> x.job.None?)
              && (r.passedLineIndex != 0 ==> x.job == Some((r.jobId, r.passedLineIndex)))
  {}

  /** The suggested weight: thirteen tenths of the runtime, whole seconds, to the nearest fifty, ties to the even multiple,
      but never nothing. */
  lemma WeightExactly(observed: nat) returns (n: nat)
    ensures 10 * n <= 13 * observed < 10 * n + 10
    ensures var w := SuggestedWeight(observed);
      && w % 50 == 0 && (n <= 25 ==> w == 50)
      && (n > 25 ==> w - 25 <= n <= w + 25) && (n > 50 && n % 50 == 25 ==> w % 100 == 0)
  {
    n := 13 * observed / 10;
  }

  /** Suggestions come run by run... */
  lemma {:induction false} OffersByRun(commands: seq<Command>, canon: string -> string, a: seq<TestRun>, b: seq<TestRun>,
                                       s: Settings)
    ensures AllOffers(commands, canon, [], s) == []
    ensures AllOffers(commands, canon, a + b, s) == AllOffers(commands, canon, a, s) + AllOffers(commands, canon, b, s)
  {
    hide RunOffers;
    if b == [] {
      assert a + b == a;
    } else {
      assert (a + b)[..|a + b| - 1] == a + b[..|b| - 1];
      OffersByRun(commands, canon, a, b[..|b| - 1], s);
    }
  }

  lemma {:induction false} MatchedByRun(commands: seq<Command>, canon: string -> string, a: seq<TestRun>, b: seq<TestRun>)
    ensures MatchedRuns(commands, canon, a + b) == MatchedRuns(commands, canon, a) + MatchedRuns(commands, canon, b)
  {
    hide Matching;
    if b == [] {
      assert a + b == a;
    } else {
      assert (a + b)[..|a + b| - 1] == a + b[..|b| - 1];
      MatchedByRun(commands, canon, a, b[..|b| - 1]);
    }
  }

  lemma OneRun(commands: seq<Command>, canon: string -> string, r: TestRun, s: Settings)
    ensures AllOffers(commands, canon, [r], s) == RunOffers(commands, canon, r, s)
    ensures MatchedRuns(commands, canon, [r]) == if Matching(commands, canon, r.bashContent) == [] then 0 else 1
  {
    hide RunOffers, Matching;
    assert [r][..0] == [] && AllOffers(commands, canon, [], s) == [];
  }

  /** ...and within a run command by command, for the commands that have its text; a failed run makes none, but counts. */
  lemma {:induction false} OffersByCommand(commands: seq<Command>, c: Command, canon: string -> string, r: TestRun,
                                           s: Settings)
    ensures AllOffers([], canon, [r], s) == [] && MatchedRuns([], canon, [r]) == 0
    ensures AllOffers(commands + [c], canon, [r], s) ==
            AllOffers(commands, canon, [r], s) +
            if r.status != "failed" && canon(c.command) == r.bashContent && Offer(c, r, s).Some?
            then [Offer(c, r, s).value] else []
    ensures MatchedRuns(commands + [c], canon, [r]) ==
            if canon(c.command) == r.bashContent then 1 else MatchedRuns(commands, canon, [r])
  {
    hide AllOffers, MatchedRuns, Matching, Offers, Offer;
    OneRun([], canon, r, s);
    OneRun(commands, canon, r, s);
    OneRun(commands + [c], canon, r, s);
    MatchingLast(commands, c, canon, r.bashContent);
    OffersLast(Matching(commands, canon, r.bashContent), c, r, s);
  }

  lemma MatchingLast(commands: seq<Command>, c: Command, canon: string -> string, key: string)
    ensures Matching([], canon, key) == []
    ensures Matching(commands + [c], canon, key) ==
            if canon(c.command) == key then Matching(commands, canon, key) + [c] else Matching(commands, canon, key)
  {
    assert (commands + [c])[..|commands|] == commands;
  }

  lemma OffersLast(commands: seq<Command>, c: Command, r: TestRun, s: Settings)
    ensures Offers([], r, s) == []
    ensures Offers(commands + [c], r, s) ==
            Offers(commands, r, s) + if Offer(c, r, s).Some? then [Offer(c, r, s).value] else []
  {
    hide Offer;
    assert (commands + [c])[..|commands|] == commands;
  }
}
