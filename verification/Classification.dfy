/**
 Scoring one agent against all fingerprints, and the verdict
 (backend/domains/classification/classifier.py:60-232).  Weights and scores are real numbers;
 rounding to six digits is any monotone function that keeps 0 and 1.
 */
module Classification {
  import opened Wrappers
  import opened Bags

  datatype Marker = Marker(name: string, pattern: string, weight: real)
  datatype Fingerprint = Fingerprint(groupId: string, groupName: string, markers: seq<Marker>)

  datatype Score = Score(groupId: string, groupName: string, score: real, matched: seq<string>, missing: seq<string>)

  /** What the engine calls: lower-casing, the fingerprint matcher, and rounding. */
  datatype Tools = Tools(lower: string -> string, glob: (string, string) -> bool, round: real -> real)

  datatype Config = Config(clear: real, partial: real, gap: real)

  /** The thresholds that are used when no configuration can be loaded. */
  const DEFAULT_CONFIG := Config(0.7, 0.4, 0.15)

  const TOP_N_SCORES := 5

  datatype Verdict =
    | Unclassifiable
    | Ambiguous
    | Correct
    | Misclassified(suggestedId: string, suggestedName: string)

  ghost predicate IsRounding(round: real -> real) {
    round(0.0) == 0.0 && round(1.0) == 1.0 && forall x: real, y: real :: x <= y ==> round(x) <= round(y)
  }

  // ---------------------------------------------------------------- scoring

  predicate IsExact(pattern: string) { '*' !in pattern && '?' !in pattern }

  /** An exact pattern is compared without case; any other is left to the matcher. */
  predicate Matches(tools: Tools, pattern: string, app: string) {
    if IsExact(pattern) then tools.lower(app) == tools.lower(pattern) else tools.glob(pattern, app)
  }

  predicate Found(tools: Tools, m: Marker, apps: seq<string>) {
    exists i :: 0 <= i < |apps| && Matches(tools, m.pattern, apps[i])
  }

  function Total(ms: seq<Marker>): real {
    if ms == [] then 0.0 else Total(ms[..|ms| - 1]) + ms[|ms| - 1].weight
  }

  function MatchedWeight(tools: Tools, ms: seq<Marker>, apps: seq<string>): real {
    if ms == [] then 0.0
    else
      var m := ms[|ms| - 1];
      MatchedWeight(tools, ms[..|ms| - 1], apps) + if Found(tools, m, apps) then m.weight else 0.0
  }

  /** The names of the markers that are found, or of those that are not. */
  function Names(tools: Tools, ms: seq<Marker>, apps: seq<string>, found: bool): seq<string> {
    if ms == [] then []
    else
      var m := ms[|ms| - 1];
      Names(tools, ms[..|ms| - 1], apps, found) + if Found(tools, m, apps) == found then [m.name] else []
  }

  function ScoreOf(tools: Tools, fp: Fingerprint, apps: seq<string>): Score {
    var total := Total(fp.markers);
    if fp.markers == [] then Score(fp.groupId, fp.groupName, tools.round(0.0), [], [])
    else if total == 0.0 then Score(fp.groupId, fp.groupName, tools.round(0.0), [], AllNames(fp.markers))
    else Score(fp.groupId, fp.groupName, tools.round(MatchedWeight(tools, fp.markers, apps) / total),
               Names(tools, fp.markers, apps, true), Names(tools, fp.markers, apps, false))
  }

  function AllNames(ms: seq<Marker>): (r: seq<string>)
    ensures |r| == |ms|
  {
    seq(|ms|, i requires 0 <= i < |ms| => ms[i].name)
  }

  /** A marker is found if some application matches its pattern: by the matcher if the pattern
      has wildcards, without regard to case otherwise. */
  lemma FoundMeans(tools: Tools, m: Marker, apps: seq<string>)
    ensures Found(tools, m, apps)
       <==> exists app :: app in apps && if '*' in m.pattern || '?' in m.pattern then tools.glob(m.pattern, app)
                                         else tools.lower(app) == tools.lower(m.pattern)
  {
    if app :| app in apps && if '*' in m.pattern || '?' in m.pattern then tools.glob(m.pattern, app)
                             else tools.lower(app) == tools.lower(m.pattern) {
      var i :| 0 <= i < |apps| && apps[i] == app;
      assert Matches(tools, m.pattern, apps[i]);
    }
  }

  /** Every marker adds its weight, and every found one adds it to what is matched. */
  lemma {:induction false} WeightsAdd(tools: Tools, a: seq<Marker>, b: seq<Marker>, apps: seq<string>)
    ensures Total(a + b) == Total(a) + Total(b)
    ensures MatchedWeight(tools, a + b, apps) == MatchedWeight(tools, a, apps) + MatchedWeight(tools, b, apps)
    ensures Names(tools, a + b, apps, true) == Names(tools, a, apps, true) + Names(tools, b, apps, true)
    ensures Names(tools, a + b, apps, false) == Names(tools, a, apps, false) + Names(tools, b, apps, false)
    decreases |b|
  {
    if b == [] {
      assert a + b == a;
    } else {
      assert (a + b)[..|a + b| - 1] == a + b[..|b| - 1];
      WeightsAdd(tools, a, b[..|b| - 1], apps);
    }
  }

  lemma WeightsOfOne(tools: Tools, m: Marker, apps: seq<string>)
    ensures Total([]) == MatchedWeight(tools, [], apps) == 0.0 && Total([m]) == m.weight
    ensures MatchedWeight(tools, [m], apps) == if Found(tools, m, apps) then m.weight else 0.0
    ensures Names(tools, [m], apps, true) == if Found(tools, m, apps) then [m.name] else []
    ensures Names(tools, [m], apps, false) == if Found(tools, m, apps) then [] else [m.name]
  {
    assert [m][..0] == [];
  }

  /** With positive weights the whole weight is matched exactly when every marker is found. */
  lemma {:induction false} FullShareIff(tools: Tools, ms: seq<Marker>, apps: seq<string>)
    requires forall m :: m in ms ==> m.weight > 0.0
    ensures MatchedWeight(tools, ms, apps) == Total(ms) <==> forall m :: m in ms ==> Found(tools, m, apps)
  {
    if ms != [] {
      var front, last := ms[..|ms| - 1], ms[|ms| - 1];
      assert ms == front + [last];
      FullShareIff(tools, front, apps);
      assert NonNegative(front);
      MatchedWithinTotal(tools, front, apps);
    }
  }

  /** The names listed as matched are those of the found markers, and the missing ones the rest. */
  lemma {:induction false} NamesMean(tools: Tools, ms: seq<Marker>, apps: seq<string>)
    ensures forall n :: n in Names(tools, ms, apps, true) <==>
              exists m :: m in ms && m.name == n && Found(tools, m, apps)
    ensures forall n :: n in Names(tools, ms, apps, false) <==>
              exists m :: m in ms && m.name == n && !Found(tools, m, apps)
    ensures |Names(tools, ms, apps, true)| + |Names(tools, ms, apps, false)| == |ms|
  {
    hide Found;
    if ms != [] {
      var front, last := ms[..|ms| - 1], ms[|ms| - 1];
      assert ms == front + [last];
      NamesMean(tools, front, apps);
    }
  }

  predicate NonNegative(ms: seq<Marker>) { forall i :: 0 <= i < |ms| ==> ms[i].weight >= 0.0 }

  lemma {:induction false} MatchedWithinTotal(tools: Tools, ms: seq<Marker>, apps: seq<string>)
    requires NonNegative(ms)
    ensures 0.0 <= MatchedWeight(tools, ms, apps) <= Total(ms)
  {
    if ms != [] { MatchedWithinTotal(tools, ms[..|ms| - 1], apps); }
  }

  lemma {:induction false} MatchedGrows(tools: Tools, ms: seq<Marker>, apps: seq<string>, more: seq<string>)
    requires NonNegative(ms)
    ensures MatchedWeight(tools, ms, apps) <= MatchedWeight(tools, ms, apps + more)
  {
    if ms != [] {
      MatchedGrows(tools, ms[..|ms| - 1], apps, more);
      var m := ms[|ms| - 1];
      if i :| 0 <= i < |apps| && Matches(tools, m.pattern, apps[i]) {
        assert (apps + more)[i] == apps[i];
      }
    }
  }

  lemma DivideBy(x: real, y: real, total: real)
    requires total > 0.0 && x <= y
    ensures x / total <= y / total
  {
    var p, q := x / total, y / total;
    assert p * total == x && q * total == y;
    assert p > q ==> (p - q) * total > 0.0;
  }

  lemma WholeShare(total: real)
    requires total != 0.0
    ensures 0.0 / total == 0.0 && total / total == 1.0
  {
    var one := total / total;
    assert one * total == total;
    assert (one - 1.0) * total == 0.0;
  }

  /** With non-negative weights every score lies in [0, 1]. */
  lemma ScoreInUnitRange(tools: Tools, fp: Fingerprint, apps: seq<string>)
    requires IsRounding(tools.round) && NonNegative(fp.markers)
    ensures 0.0 <= ScoreOf(tools, fp, apps).score <= 1.0
  {
    var total := Total(fp.markers);
    if fp.markers != [] && total != 0.0 {
      MatchedWithinTotal(tools, fp.markers, apps);
      DivideBy(0.0, MatchedWeight(tools, fp.markers, apps), total);
      DivideBy(MatchedWeight(tools, fp.markers, apps), total, total);
      WholeShare(total);
    }
  }

  /** More installed applications never lower a score. */
  lemma ScoreGrows(tools: Tools, fp: Fingerprint, apps: seq<string>, more: seq<string>)
    requires IsRounding(tools.round) && NonNegative(fp.markers)
    ensures ScoreOf(tools, fp, apps).score <= ScoreOf(tools, fp, apps + more).score
  {
    var total := Total(fp.markers);
    if fp.markers != [] && total != 0.0 {
      MatchedWithinTotal(tools, fp.markers, apps);
      MatchedGrows(tools, fp.markers, apps, more);
      DivideBy(MatchedWeight(tools, fp.markers, apps), MatchedWeight(tools, fp.markers, apps + more), total);
    }
  }

  method ScoreFingerprint(tools: Tools, fp: Fingerprint, apps: seq<string>) returns (r: Score)
    ensures r == ScoreOf(tools, fp, apps)
    ensures r.groupId == fp.groupId && r.groupName == fp.groupName
    ensures Total(fp.markers) == 0.0 || fp.markers == [] ==>
              r.score == tools.round(0.0) && r.matched == [] && r.missing == AllNames(fp.markers)
    ensures Total(fp.markers) != 0.0 && fp.markers != [] ==>
              && r.score == tools.round(MatchedWeight(tools, fp.markers, apps) / Total(fp.markers))
              && (forall n :: n in r.matched <==> exists m :: m in fp.markers && m.name == n && Found(tools, m, apps))
              && (forall n :: n in r.missing <==> exists m :: m in fp.markers && m.name == n && !Found(tools, m, apps))
    ensures |r.matched| + |r.missing| == |fp.markers|
  {
    NamesMean(tools, fp.markers, apps);
    var score := 0.0;
    var matched, missing: seq<string> := [], [];
    if fp.markers != [] {
      var totalWeight := 0.0;
      for i := 0 to |fp.markers|
        invariant totalWeight == Total(fp.markers[..i])
      {
        assert fp.markers[..i + 1][..i] == fp.markers[..i];
        totalWeight := totalWeight + fp.markers[i].weight;
      }
      assert fp.markers[..|fp.markers|] == fp.markers;
      if totalWeight == 0.0 {
        missing := AllNames(fp.markers);
      } else {
        var matchedWeight := 0.0;
        for i := 0 to |fp.markers|
          invariant matchedWeight == MatchedWeight(tools, fp.markers[..i], apps)
          invariant matched == Names(tools, fp.markers[..i], apps, true)
          invariant missing == Names(tools, fp.markers[..i], apps, false)
        {
          assert fp.markers[..i + 1][..i] == fp.markers[..i];
          var marker := fp.markers[i];
          if Found(tools, marker, apps) {
            matched := matched + [marker.name];
            matchedWeight := matchedWeight + marker.weight;
          } else {
            missing := missing + [marker.name];
          }
        }
        score := matchedWeight / totalWeight;
      }
    }
    r := Score(fp.groupId, fp.groupName, tools.round(score), matched, missing);
  }

  // ---------------------------------------------------------------- sorting

  predicate Descending(s: seq<Score>) { forall i, j :: 0 <= i < j < |s| ==> s[i].score >= s[j].score }

  /** After the entries that score at least as much. */
  function Place(s: seq<Score>, x: Score): seq<Score> {
    if s == [] then [x]
    else if s[|s| - 1].score >= x.score then s + [x]
    else Place(s[..|s| - 1], x) + [s[|s| - 1]]
  }

  /** The stable sort by falling score. */
  function SortScores(s: seq<Score>): seq<Score> {
    if s == [] then [] else Place(SortScores(s[..|s| - 1]), s[|s| - 1])
  }

  lemma {:induction false} PlaceKeepsElements(s: seq<Score>, x: Score)
    ensures multiset(Place(s, x)) == multiset(s) + multiset{x}
  {
    if s != [] && s[|s| - 1].score < x.score {
      PlaceKeepsElements(s[..|s| - 1], x);
      LastApart(s);
    }
  }

  lemma LastApart(s: seq<Score>)
    requires s != []
    ensures multiset(s) == multiset(s[..|s| - 1]) + multiset{s[|s| - 1]}
  {
    assert s == s[..|s| - 1] + [s[|s| - 1]];
  }

  lemma {:induction false} PlaceBounds(s: seq<Score>, x: Score, bound: real)
    requires x.score >= bound && forall i :: 0 <= i < |s| ==> s[i].score >= bound
    ensures forall i :: 0 <= i < |Place(s, x)| ==> Place(s, x)[i].score >= bound
  {
    if s != [] && s[|s| - 1].score < x.score {
      PlaceBounds(s[..|s| - 1], x, bound);
    }
  }

  lemma {:induction false} PlaceKeepsOrder(s: seq<Score>, x: Score)
    requires Descending(s)
    ensures Descending(Place(s, x))
  {
    if s != [] && s[|s| - 1].score < x.score {
      PlaceKeepsOrder(s[..|s| - 1], x);
      PlaceBounds(s[..|s| - 1], x, s[|s| - 1].score);
    }
  }

  lemma {:induction false} SortIsSorted(s: seq<Score>)
    ensures Descending(SortScores(s)) && multiset(SortScores(s)) == multiset(s)
  {
    if s != [] {
      var front := SortScores(s[..|s| - 1]);
      SortIsSorted(s[..|s| - 1]);
      PlaceKeepsOrder(front, s[|s| - 1]);
      PlaceKeepsElements(front, s[|s| - 1]);
      LastApart(s);
    }
  }

  function WithScore(s: seq<Score>, score: real): seq<Score> {
    if s == [] then []
    else WithScore(s[..|s| - 1], score) + if s[|s| - 1].score == score then [s[|s| - 1]] else []
  }

  lemma {:induction false} PlaceIsStable(s: seq<Score>, x: Score, score: real)
    ensures WithScore(Place(s, x), score) == WithScore(s, score) + if x.score == score then [x] else []
  {
    if s == [] || s[|s| - 1].score >= x.score {
      assert (s + [x])[..|s|] == s;
    } else {
      var front, last := s[..|s| - 1], s[|s| - 1];
      PlaceIsStable(front, x, score);
      assert (Place(front, x) + [last])[..|Place(front, x)|] == Place(front, x);
    }
  }

  /** Among equal scores the sort keeps the order of the fingerprints. */
  lemma {:induction false} SortIsStable(s: seq<Score>, score: real)
    ensures WithScore(SortScores(s), score) == WithScore(s, score)
  {
    if s != [] {
      SortIsStable(s[..|s| - 1], score);
      PlaceIsStable(SortScores(s[..|s| - 1]), s[|s| - 1], score);
    }
  }

  // ---------------------------------------------------------------- the verdict

  function Top(sorted: seq<Score>): seq<Score> {
    if |sorted| <= TOP_N_SCORES then sorted else sorted[..TOP_N_SCORES]
  }

  /** What the engine decides from the best five. */
  function Decide(top: seq<Score>, cfg: Config, current: string): Verdict {
    if top == [] || top[0].score < cfg.partial then Unclassifiable
    else
      var best := top[0];
      var gap := if |top| > 1 then best.score - top[1].score else best.score;
      if best.score >= cfg.clear && gap >= cfg.gap then
        if best.groupId == current then Correct else Misclassified(best.groupId, best.groupName)
      else Ambiguous
  }

  /** A clear winner among all scores: no other comes within the gap, and alone it has to
      beat the gap itself. */
  ghost predicate Wins(all: multiset<Score>, cfg: Config, x: Score) {
    && x in all && x.score >= cfg.clear
    && (|all| == 1 ==> x.score >= cfg.gap)
    && forall y :: y in all - multiset{x} ==> x.score >= y.score && x.score - y.score >= cfg.gap
  }

  ghost predicate Unfit(all: multiset<Score>, cfg: Config) { forall x :: x in all ==> x.score < cfg.partial }

  /** The verdict as it is meant: over all scores, and without any order among them. */
  ghost predicate Means(v: Verdict, all: multiset<Score>, cfg: Config, current: string) {
    && (v.Unclassifiable? <==> Unfit(all, cfg))
    && (v.Ambiguous? <==> !Unfit(all, cfg) && forall x :: !Wins(all, cfg, x))
    && (v.Correct? ==> exists x :: Wins(all, cfg, x) && x.groupId == current)
    && (v.Misclassified? ==> exists x :: Wins(all, cfg, x) && x.groupId != current
                                         && v == Misclassified(x.groupId, x.groupName))
  }

  /** What is left in the bag without the first of a sequence. */
  lemma FirstApart(s: seq<Score>, y: Score)
    requires s != []
    ensures y in multiset(s) - multiset{s[0]} <==> exists i :: 0 < i < |s| && s[i] == y
    ensures |multiset(s)| == |s| && s[0] in multiset(s)
  {
    var rest := s[1..];
    assert s == [s[0]] + rest;
    assert multiset(s) - multiset{s[0]} == multiset(rest);
    assert y in rest <==> y in multiset(rest);
    if i :| 0 <= i < |rest| && rest[i] == y { assert s[i + 1] == y; }
    if i :| 0 < i < |s| && s[i] == y { assert rest[i - 1] == y; }
  }

  /** The first of the sorted scores wins if it is far enough ahead of the second. */
  lemma WhenFirstWins(sorted: seq<Score>, cfg: Config)
    requires sorted != [] && Descending(sorted)
    ensures var gap := if |sorted| > 1 then sorted[0].score - sorted[1].score else sorted[0].score;
            Wins(multiset(sorted), cfg, sorted[0]) <==> sorted[0].score >= cfg.clear && gap >= cfg.gap
  {
    var all := multiset(sorted);
    FirstApart(sorted, sorted[0]);
    if |sorted| > 1 { FirstApart(sorted, sorted[1]); }
    forall y | y in all - multiset{sorted[0]} ensures |sorted| > 1 && sorted[1].score >= y.score {
      FirstApart(sorted, y);
    }
  }

  /** If anyone wins, then the first of the sorted scores does. */
  lemma FirstWinsIfAny(sorted: seq<Score>, cfg: Config, x: Score)
    requires sorted != [] && Descending(sorted) && Wins(multiset(sorted), cfg, x)
    ensures Wins(multiset(sorted), cfg, sorted[0])
  {
    hide Wins;
    if x != sorted[0] {
      WinnerIsThere(multiset(sorted), cfg, x);
      assert x in sorted;
      WinnersTie(multiset(sorted), cfg, x, sorted[0]);
    }
  }

  lemma WinnerIsThere(all: multiset<Score>, cfg: Config, x: Score)
    requires Wins(all, cfg, x)
    ensures x in all
  {
  }

  /** Whoever scores as much as a winner is one too. */
  lemma WinnersTie(all: multiset<Score>, cfg: Config, x: Score, y: Score)
    requires Wins(all, cfg, x) && y in all && y != x && y.score >= x.score
    ensures Wins(all, cfg, y)
  {
    assert y in all - multiset{x};
    forall z | z in all - multiset{y} ensures y.score >= z.score && y.score - z.score >= cfg.gap {
      assert z == x || z in all - multiset{x};
    }
    assert all == all - multiset{x, y} + multiset{x, y};
  }

  lemma TopStartsAlike(sorted: seq<Score>)
    ensures Top(sorted) == [] <==> sorted == []
    ensures sorted != [] ==> Top(sorted)[0] == sorted[0]
    ensures |Top(sorted)| > 1 <==> |sorted| > 1
    ensures |sorted| > 1 ==> Top(sorted)[1] == sorted[1]
  {
  }

  lemma NobodyFits(sorted: seq<Score>, cfg: Config)
    requires sorted != [] && Descending(sorted)
    ensures Unfit(multiset(sorted), cfg) <==> sorted[0].score < cfg.partial
  {
    assert sorted[0] in multiset(sorted);
    forall x | x in multiset(sorted) ensures x.score <= sorted[0].score {
      assert x in sorted;
    }
  }

  lemma SortedMeans(sorted: seq<Score>, cfg: Config, current: string)
    requires sorted != [] && Descending(sorted)
    ensures Means(Decide(Top(sorted), cfg, current), multiset(sorted), cfg, current)
  {
    hide Top, Wins, Unfit, Descending;
    TopStartsAlike(sorted);
    WhenFirstWins(sorted, cfg);
    forall x | Wins(multiset(sorted), cfg, x) ensures Wins(multiset(sorted), cfg, sorted[0]) {
      FirstWinsIfAny(sorted, cfg, x);
    }
    NobodyFits(sorted, cfg);
  }

  /** The five best scores are enough: the verdict drawn from them is the one meant. */
  lemma TopFiveIsEnough(scores: seq<Score>, cfg: Config, current: string)
    ensures Means(Decide(Top(SortScores(scores)), cfg, current), multiset(scores), cfg, current)
  {
    hide SortScores, Wins, Means, Decide, Top;
    var sorted := SortScores(scores);
    SortIsSorted(scores);
    if sorted != [] {
      SortedMeans(sorted, cfg, current);
    } else {
      NothingMeans(cfg, current);
    }
  }

  lemma NothingMeans(cfg: Config, current: string)
    ensures Means(Decide(Top([]), cfg, current), multiset{}, cfg, current)
  {
    forall x ensures !Wins(multiset{}, cfg, x) { NobodyWinsNothing(cfg, x); }
  }

  lemma NobodyWinsNothing(cfg: Config, x: Score)
    ensures !Wins(multiset{}, cfg, x)
  {
  }

  /** With a positive gap there is one winner at most, so the meaning determines the verdict. */
  lemma VerdictIsUnique(v: Verdict, w: Verdict, all: multiset<Score>, cfg: Config, current: string)
    requires cfg.gap > 0.0 && Means(v, all, cfg, current) && Means(w, all, cfg, current)
    ensures v == w
  {
    forall x, y | Wins(all, cfg, x) && Wins(all, cfg, y) ensures x == y {
      assert x != y ==> y in all - multiset{x} && x in all - multiset{y};
    }
    if v.Correct? || v.Misclassified? {
      assert !Unfit(all, cfg);
    }
  }

  // ---------------------------------------------------------------- the order of fingerprints

  function AllScores(tools: Tools, fps: seq<Fingerprint>, apps: seq<string>): (r: seq<Score>)
    ensures |r| == |fps|
  {
    seq(|fps|, i requires 0 <= i < |fps| => ScoreOf(tools, fps[i], apps))
  }

  lemma ScoresOfThree(tools: Tools, a: seq<Fingerprint>, fp: Fingerprint, b: seq<Fingerprint>, apps: seq<string>)
    ensures multiset(AllScores(tools, a + [fp] + b, apps))
         == multiset(AllScores(tools, a + b, apps)) + multiset{ScoreOf(tools, fp, apps)}
  {
    hide ScoreOf;
    var x, y := AllScores(tools, a, apps), AllScores(tools, b, apps);
    assert AllScores(tools, a + [fp] + b, apps) == x + [ScoreOf(tools, fp, apps)] + y;
    assert AllScores(tools, a + b, apps) == x + y;
  }

  lemma {:induction false} ScoresOfPermutation(tools: Tools, a: seq<Fingerprint>, b: seq<Fingerprint>,
                                               apps: seq<string>)
    requires multiset(a) == multiset(b)
    ensures multiset(AllScores(tools, a, apps)) == multiset(AllScores(tools, b, apps))
    decreases |a|
  {
    hide AllScores;
    if a == [] {
      assert |multiset(b)| == 0;
      assert b == [];
    } else {
      var front, fp := a[..|a| - 1], a[|a| - 1];
      assert a == front + [fp] + [] && front + [] == front;
      var j := FindLast(a, b);
      assert b == b[..j] + [fp] + b[j + 1..];
      ScoresOfPermutation(tools, front, b[..j] + b[j + 1..], apps);
      ScoresOfThree(tools, front, fp, [], apps);
      ScoresOfThree(tools, b[..j], fp, b[j + 1..], apps);
    }
  }

  function VerdictFor(tools: Tools, fps: seq<Fingerprint>, apps: seq<string>, cfg: Config, current: string): Verdict {
    Decide(Top(SortScores(AllScores(tools, fps, apps))), cfg, current)
  }

  /** With a positive gap threshold, the order of the fingerprints changes neither the verdict
      nor the suggestion. */
  lemma OrderDoesNotMatter(tools: Tools, a: seq<Fingerprint>, b: seq<Fingerprint>, apps: seq<string>, cfg: Config,
                           current: string)
    requires cfg.gap > 0.0 && multiset(a) == multiset(b)
    ensures VerdictFor(tools, a, apps, cfg, current) == VerdictFor(tools, b, apps, cfg, current)
  {
    hide AllScores, SortScores, Decide, Top, Means;
    ScoresOfPermutation(tools, a, b, apps);
    TopFiveIsEnough(AllScores(tools, a, apps), cfg, current);
    TopFiveIsEnough(AllScores(tools, b, apps), cfg, current);
    VerdictIsUnique(VerdictFor(tools, a, apps, cfg, current), VerdictFor(tools, b, apps, cfg, current),
                    multiset(AllScores(tools, a, apps)), cfg, current);
  }

  /** Without one it does, as soon as a full score is good enough: two fingerprints with equal
      scores, and the first one listed is suggested. */
  lemma OrderMattersWithoutGap(tools: Tools, cfg: Config, current: string)
    returns (a: seq<Fingerprint>, b: seq<Fingerprint>, apps: seq<string>)
    requires IsRounding(tools.round) && cfg.gap <= 0.0 && cfg.clear <= 1.0 && cfg.partial <= 1.0
    ensures multiset(a) == multiset(b) && AllNonNegative(a)
    ensures VerdictFor(tools, a, apps, cfg, current) != VerdictFor(tools, b, apps, cfg, current)
  {
    var other := current + "-other";
    var marker := Marker("Chrome", "chrome", 1.0);
    var one, two := Fingerprint(current, "Servers", [marker]), Fingerprint(other, "Laptops", [marker]);
    a, b, apps := [one, two], [two, one], ["chrome"];
    FullScore(tools, one, marker);
    FullScore(tools, two, marker);
    var x, y := ScoreOf(tools, one, apps), ScoreOf(tools, two, apps);
    assert AllScores(tools, a, apps) == [x, y] && AllScores(tools, b, apps) == [y, x];
    SortTie(x, y);
    SortTie(y, x);
    assert |other| != |current|;
  }

  lemma FullScore(tools: Tools, fp: Fingerprint, marker: Marker)
    requires IsRounding(tools.round) && marker == Marker("Chrome", "chrome", 1.0) && fp.markers == [marker]
    ensures ScoreOf(tools, fp, ["chrome"]).score == 1.0
  {
    var apps := ["chrome"];
    assert Matches(tools, marker.pattern, apps[0]);
    assert Found(tools, marker, apps);
    assert Total([]) == 0.0 && MatchedWeight(tools, [], apps) == 0.0;
    assert fp.markers[..0] == [];
    assert Total(fp.markers) == 1.0 && MatchedWeight(tools, fp.markers, apps) == 1.0;
  }

  lemma SortTie(x: Score, y: Score)
    requires x.score == y.score
    ensures SortScores([x, y]) == [x, y]
  {
    assert [x, y][..1] == [x] && [x][..0] == [];
    assert SortScores([x]) == Place([], x);
  }

  ghost predicate AllNonNegative(fps: seq<Fingerprint>) {
    forall fp :: fp in fps ==> NonNegative(fp.markers)
  }

  /** The order of the fingerprints never changes a verdict under these thresholds. */
  ghost predicate OrderFree(tools: Tools, cfg: Config) {
    forall a: seq<Fingerprint>, b: seq<Fingerprint>, apps: seq<string>, current: string ::
      AllNonNegative(a) && multiset(a) == multiset(b) ==>
        VerdictFor(tools, a, apps, cfg, current) == VerdictFor(tools, b, apps, cfg, current)
  }

  lemma ScoresWithinOne(tools: Tools, fps: seq<Fingerprint>, apps: seq<string>)
    requires IsRounding(tools.round) && AllNonNegative(fps)
    ensures forall x :: x in AllScores(tools, fps, apps) ==> x.score <= 1.0
  {
    hide ScoreOf;
    forall i | 0 <= i < |fps| ensures AllScores(tools, fps, apps)[i].score <= 1.0 {
      assert fps[i] in fps;
      ScoreInUnitRange(tools, fps[i], apps);
    }
  }

  /** When a threshold is out of reach there is no winner, and the meaning is unique again. */
  lemma OutOfReachIsUnique(v: Verdict, w: Verdict, all: multiset<Score>, cfg: Config, current: string)
    requires cfg.clear > 1.0 || cfg.partial > 1.0
    requires forall x :: x in all ==> x.score <= 1.0
    requires Means(v, all, cfg, current) && Means(w, all, cfg, current)
    ensures v == w
  {
  }

  /** Exactly when the order is free: with a positive gap, or with a threshold that no score
      can reach. */
  lemma OrderIsFreeIff(tools: Tools, cfg: Config)
    requires IsRounding(tools.round)
    ensures OrderFree(tools, cfg) <==> cfg.gap > 0.0 || cfg.clear > 1.0 || cfg.partial > 1.0
  {
    hide AllScores, SortScores, Decide, Top, Means, VerdictFor;
    if cfg.gap > 0.0 || cfg.clear > 1.0 || cfg.partial > 1.0 {
      forall a: seq<Fingerprint>, b: seq<Fingerprint>, apps: seq<string>, current: string
        | AllNonNegative(a) && multiset(a) == multiset(b)
        ensures VerdictFor(tools, a, apps, cfg, current) == VerdictFor(tools, b, apps, cfg, current)
      {
        if cfg.gap > 0.0 {
          OrderDoesNotMatter(tools, a, b, apps, cfg, current);
        } else {
          OutOfReachOrder(tools, a, b, apps, cfg, current);
        }
      }
    } else {
      var a, b, apps := OrderMattersWithoutGap(tools, cfg, "g1");
      assert !OrderFree(tools, cfg);
    }
  }

  lemma OutOfReachOrder(tools: Tools, a: seq<Fingerprint>, b: seq<Fingerprint>, apps: seq<string>, cfg: Config,
                        current: string)
    requires IsRounding(tools.round) && (cfg.clear > 1.0 || cfg.partial > 1.0)
    requires AllNonNegative(a) && multiset(a) == multiset(b)
    ensures VerdictFor(tools, a, apps, cfg, current) == VerdictFor(tools, b, apps, cfg, current)
  {
    hide AllScores, SortScores, Decide, Top, Means;
    var all := AllScores(tools, a, apps);
    ScoresOfPermutation(tools, a, b, apps);
    TopFiveIsEnough(all, cfg, current);
    TopFiveIsEnough(AllScores(tools, b, apps), cfg, current);
    ScoresWithinOne(tools, a, apps);
    assert forall x :: x in multiset(all) ==> x in all;
    OutOfReachIsUnique(VerdictFor(tools, a, apps, cfg, current), VerdictFor(tools, b, apps, cfg, current),
                       multiset(all), cfg, current);
  }

  // ---------------------------------------------------------------- one agent

  /** The anomaly reasons, with the figures that their texts show. */
  datatype Reason =
    | NoFingerprints
    | BelowMinimum(best: real)
    | WrongGroup(bestGroup: string, best: real)
    | BelowClear(best: real)
    | GapTooSmall(gap: real)

  datatype Result = Result(scores: seq<Score>, verdict: Verdict, reasons: seq<Reason>)

  function ReasonsFor(top: seq<Score>, cfg: Config, current: string): seq<Reason> {
    if top == [] then [NoFingerprints]
    else
      var best := top[0];
      var gap := if |top| > 1 then best.score - top[1].score else best.score;
      match Decide(top, cfg, current)
      case Unclassifiable => [BelowMinimum(best.score)]
      case Correct => []
      case Misclassified(_, name) => [WrongGroup(name, best.score)]
      case Ambiguous =>
        (if best.score < cfg.clear then [BelowClear(best.score)] else [])
        + (if gap < cfg.gap && |top| > 1 then [GapTooSmall(gap)] else [])
  }

  /** Every verdict that is not Correct comes with a reason, but for one: a lone fingerprint
      that is clear and yet does not beat the gap by itself is ambiguous without any. */
  lemma WhenUnexplained(top: seq<Score>, cfg: Config, current: string)
    ensures ReasonsFor(top, cfg, current) == []
       <==> Decide(top, cfg, current).Correct?
            || (|top| == 1 && cfg.partial <= top[0].score && cfg.clear <= top[0].score < cfg.gap)
  {
  }

  /** The denormalised names of an agent, or the live query if it has none; a failed query
      counts as no applications. */
  lemma ReasonsMean(top: seq<Score>, cfg: Config, current: string)
    ensures top == [] ==> ReasonsFor(top, cfg, current) == [NoFingerprints]
    ensures top != [] ==>
              var best, r := top[0], ReasonsFor(top, cfg, current);
              var gap := if |top| > 1 then best.score - top[1].score else best.score;
              var clear := best.score >= cfg.partial && best.score >= cfg.clear && gap >= cfg.gap;
              && (best.score < cfg.partial ==> r == [BelowMinimum(best.score)])
              && (clear ==> r == if best.groupId == current then [] else [WrongGroup(best.groupName, best.score)])
              && (best.score >= cfg.partial && !clear ==>
                    && (BelowClear(best.score) in r <==> best.score < cfg.clear)
                    && (GapTooSmall(gap) in r <==> gap < cfg.gap && |top| > 1)
                    && (forall x :: x in r ==> x in {BelowClear(best.score), GapTooSmall(gap)})
                    && (|r| == 2 ==> r[0].BelowClear?) && |r| <= 2)
  {
  }

  function InstalledApps(denormalised: seq<string>, live: Option<seq<string>>): seq<string> {
    if denormalised != [] then denormalised else live.GetOr([])
  }

  /** The five best scores: each is the score of a fingerprint, and no other fingerprint scores
      more than the last of them. */
  lemma BestFive(tools: Tools, fps: seq<Fingerprint>, apps: seq<string>)
    ensures var all, top := AllScores(tools, fps, apps), Top(SortScores(AllScores(tools, fps, apps)));
            && |top| == (if |fps| < 5 then |fps| else 5) && Descending(top)
            && (forall x :: x in top ==> exists fp :: fp in fps && x == ScoreOf(tools, fp, apps))
            && forall fp :: fp in fps ==>
                 ScoreOf(tools, fp, apps) in top || (|top| == 5 && ScoreOf(tools, fp, apps).score <= top[4].score)
  {
    hide SortScores, ScoreOf;
    var all := AllScores(tools, fps, apps);
    var sorted := SortScores(all);
    SortIsSorted(all);
    SameElements(sorted, all);
    forall x | x in Top(sorted) ensures exists fp :: fp in fps && x == ScoreOf(tools, fp, apps) {
      assert x in sorted && x in all;
      var i :| 0 <= i < |all| && all[i] == x;
      assert fps[i] in fps;
    }
    forall fp | fp in fps
      ensures ScoreOf(tools, fp, apps) in Top(sorted)
              || (|Top(sorted)| == 5 && ScoreOf(tools, fp, apps).score <= Top(sorted)[4].score)
    {
      var i :| 0 <= i < |fps| && fps[i] == fp;
      assert all[i] in all && all[i] in sorted;
      var j :| 0 <= j < |sorted| && sorted[j] == all[i];
      if j < |Top(sorted)| { assert Top(sorted)[j] == all[i]; }
    }
  }

  /** The verdict logic. */
  method Judge(noFingerprints: bool, top: seq<Score>, c: Config, current: string)
    returns (verdict: Verdict, reasons: seq<Reason>)
    requires noFingerprints <==> top == []
    ensures verdict == Decide(top, c, current) && reasons == ReasonsFor(top, c, current)
  {
    verdict, reasons := Unclassifiable, [];
    if noFingerprints || top == [] || top[0].score < c.partial {
      reasons := if noFingerprints then [NoFingerprints] else [BelowMinimum(top[0].score)];
    } else {
      var best := top[0];
      var gap := best.score;
      if |top| > 1 { gap := best.score - top[1].score; }
      if best.score >= c.clear && gap >= c.gap {
        if best.groupId == current {
          verdict := Correct;
        } else {
          verdict := Misclassified(best.groupId, best.groupName);
          reasons := reasons + [WrongGroup(best.groupName, best.score)];
        }
      } else {
        verdict := Ambiguous;
        if best.score < c.clear { reasons := reasons + [BelowClear(best.score)]; }
        if gap < c.gap && |top| > 1 { reasons := reasons + [GapTooSmall(gap)]; }
      }
    }
  }

  method ClassifySingleAgent(tools: Tools, denormalised: seq<string>, live: Option<seq<string>>, current: string,
                             fps: seq<Fingerprint>, cfg: Option<Config>)
    returns (r: Result)
    ensures var apps := InstalledApps(denormalised, live);
            && r.scores == Top(SortScores(AllScores(tools, fps, apps)))
            && Means(r.verdict, multiset(AllScores(tools, fps, apps)), cfg.GetOr(DEFAULT_CONFIG), current)
            && r.verdict == VerdictFor(tools, fps, apps, cfg.GetOr(DEFAULT_CONFIG), current)
            && r.reasons == ReasonsFor(r.scores, cfg.GetOr(DEFAULT_CONFIG), current)
    ensures |r.scores| == (if |fps| < 5 then |fps| else 5) && Descending(r.scores)
    ensures var apps := if denormalised != [] then denormalised else if live.Some? then live.value else [];
            && (forall x :: x in r.scores ==> exists fp :: fp in fps && x == ScoreOf(tools, fp, apps))
            && forall fp :: fp in fps ==>
                 ScoreOf(tools, fp, apps) in r.scores
                 || (|r.scores| == 5 && ScoreOf(tools, fp, apps).score <= r.scores[4].score)
  {
    hide SortScores, ScoreOf, Means, Decide, ReasonsFor, Descending, Top;
    var apps := if denormalised != [] then denormalised else live.GetOr([]);
    var scores: seq<Score> := [];
    for i := 0 to |fps|
      invariant scores == AllScores(tools, fps, apps)[..i]
    {
      var s := ScoreFingerprint(tools, fps[i], apps);
      scores := scores + [s];
    }
    assert scores == AllScores(tools, fps, apps);
    var sorted := SortScores(scores);
    var top := Top(sorted);
    var c := cfg.GetOr(DEFAULT_CONFIG);
    TopFiveIsEnough(scores, c, current);
    SortIsSorted(scores);
    BestFive(tools, fps, apps);
    assert multiset(sorted) == multiset(scores) && (scores == [] ==> sorted == []);
    var verdict, reasons := Judge(fps == [], top, c, current);
    return Result(top, verdict, reasons);
  }
}
