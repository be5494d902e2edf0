/** The season aggregation of pro.py (`season`): every event's drivers are
    scored relative to the event's fastest time, the scores are gathered per
    driver name in first-seen order, and each driver gets a line with a
    drop-aware total and average (best `minEvents` events) and an all-events
    total and average; the lines are stably ordered best first. */
module Pro {
  import opened Wrappers
  import opened StableSort
  import opened Pax

  // =====================================================================
  // Relative scoring of one event.

  /** Python truthiness of a result's time: a missing or 0.0 time is not scored. */
  predicate Scored(d: Driver) {
    d.time.Some? && d.time.value != 0.0
  }

  /** One per-event percentage for one driver. */
  datatype Score = Score(name: string, pct: real)

  /** The time of the first scored driver in the list. */
  function Baseline(drivers: seq<Driver>): Option<real> {
    if |drivers| == 0 then None
    else if Scored(drivers[0]) then Some(drivers[0].time.value)
    else Baseline(drivers[1..])
  }

  /** `(fastest.time / driver.time) * 100`. */
  function Percent(base: real, time: real): real
    requires time != 0.0
  {
    base / time * 100.0
  }

  function ScoresAgainst(drivers: seq<Driver>, base: real): seq<Score> {
    if |drivers| == 0 then []
    else
      (if Scored(drivers[0]) then [Score(drivers[0].name, Percent(base, drivers[0].time.value))] else [])
      + ScoresAgainst(drivers[1..], base)
  }

  /** Every scored driver of one event, in list order, with baseline ÷ time × 100. */
  function EventScores(drivers: seq<Driver>): seq<Score> {
    match Baseline(drivers)
    case None => []
    case Some(base) => ScoresAgainst(drivers, base)
  }

  /** The scored drivers, in list order. */
  function ScoredDrivers(drivers: seq<Driver>): (r: seq<Driver>)
    ensures |r| <= |drivers|
    ensures forall i :: 0 <= i < |r| ==> Scored(r[i]) && r[i] in drivers
  {
    if |drivers| == 0 then []
    else (if Scored(drivers[0]) then [drivers[0]] else []) + ScoredDrivers(drivers[1..])
  }

  lemma {:induction false} BaselineIsFirstScored(drivers: seq<Driver>)
    ensures Baseline(drivers).Some? <==> |ScoredDrivers(drivers)| > 0
    ensures Baseline(drivers).Some? ==> Baseline(drivers).value == ScoredDrivers(drivers)[0].time.value
  {
    if |drivers| > 0 {
      BaselineIsFirstScored(drivers[1..]);
    }
  }

  lemma {:induction false} ScoresMatchScoredDrivers(drivers: seq<Driver>, base: real)
    ensures var s, d := ScoresAgainst(drivers, base), ScoredDrivers(drivers);
      && |s| == |d|
      && forall i :: 0 <= i < |s| ==> s[i] == Score(d[i].name, Percent(base, d[i].time.value))
  {
    if |drivers| > 0 {
      ScoresMatchScoredDrivers(drivers[1..], base);
    }
  }

  /** Only scored drivers get a score, one each and in list order; the first
      scored driver is the baseline and scores exactly 100, and every other
      driver scores baseline ÷ own time × 100. */
  lemma EventScoresSpec(drivers: seq<Driver>)
    ensures var s, d := EventScores(drivers), ScoredDrivers(drivers);
      && |s| == |d|
      && (|s| > 0 ==> s[0] == Score(d[0].name, 100.0))
      && forall i :: 0 <= i < |s| ==> s[i] == Score(d[i].name, Percent(d[0].time.value, d[i].time.value))
  {
    BaselineIsFirstScored(drivers);
    var d := ScoredDrivers(drivers);
    if |d| > 0 {
      ScoresMatchScoredDrivers(drivers, d[0].time.value);
      PercentOfSelf(d[0].time.value);
    }
  }

  /** The baseline driver scores exactly 100. */
  lemma PercentOfSelf(t: real)
    requires t != 0.0
    ensures Percent(t, t) == 100.0
  {
    assert t / t == 1.0;
  }

  lemma {:induction false} ScoredDriversSorted(drivers: seq<Driver>)
    requires SortedBy(drivers, SortKey)
    ensures SortedBy(ScoredDrivers(drivers), SortKey)
  {
    if |drivers| > 0 {
      SortedTail(drivers, SortKey);
      ScoredDriversSorted(drivers[1..]);
      if Scored(drivers[0]) {
        var rest := ScoredDrivers(drivers[1..]);
        HeadBelowTail(drivers, SortKey);
        SortedCons(drivers[0], rest, SortKey);
      }
    }
  }

  /** On a list ordered fastest first, as `Fastest` produces, and with positive
      times, every score lies in (0, 100]. */
  lemma ScoresAtMostHundred(drivers: seq<Driver>)
    requires SortedBy(drivers, SortKey)
    requires forall i :: 0 <= i < |drivers| && drivers[i].time.Some? ==> drivers[i].time.value >= 0.0
    ensures forall i :: 0 <= i < |EventScores(drivers)| ==> 0.0 < EventScores(drivers)[i].pct <= 100.0
  {
    EventScoresSpec(drivers);
    ScoredDriversSorted(drivers);
    var s, d := EventScores(drivers), ScoredDrivers(drivers);
    forall i | 0 <= i < |s|
      ensures 0.0 < s[i].pct <= 100.0
    {
      var b, t := d[0].time.value, d[i].time.value;
      assert d[0] in drivers && d[i] in drivers;
      assert 0.0 < b && 0.0 < t;
      if i > 0 {
        assert SortKey(d[0]) <= SortKey(d[i]);
      }
      RatioAtMostOne(b, t);
    }
  }

  lemma RatioAtMostOne(b: real, t: real)
    requires 0.0 < b <= t
    ensures 0.0 < Percent(b, t) <= 100.0
  {
    assert b / t <= 1.0 by {
      assert (b / t) * t == b;
    }
  }

  // =====================================================================
  // Per-driver accumulation: Python's dict of lists, keyed by name and kept
  // in first-seen order, modelled as an association list.

  datatype Tally = Tally(name: string, scores: seq<real>)

  function NameOf(t: Tally): string {
    t.name
  }

  /** The scores gathered for `name` (empty when the name is absent). */
  function Lookup(acc: seq<Tally>, name: string): seq<real> {
    if |acc| == 0 then []
    else if acc[0].name == name then acc[0].scores
    else Lookup(acc[1..], name)
  }

  function Names(acc: seq<Tally>): set<string> {
    if |acc| == 0 then {} else {acc[0].name} + Names(acc[1..])
  }

  /** No name occurs twice, as in a dict. */
  predicate UniqueNames(acc: seq<Tally>) {
    |acc| == 0 || (acc[0].name !in Names(acc[1..]) && UniqueNames(acc[1..]))
  }

  /** Every gathered list holds at least one score. */
  predicate AllScored(acc: seq<Tally>) {
    forall i :: 0 <= i < |acc| ==> |acc[i].scores| > 0
  }

  /** `overall_points.setdefault(name, []).append(pct)`. */
  function Record(acc: seq<Tally>, s: Score): (r: seq<Tally>)
    ensures AllScored(acc) ==> AllScored(r)
  {
    if |acc| == 0 then [Tally(s.name, [s.pct])]
    else if acc[0].name == s.name then [acc[0].(scores := acc[0].scores + [s.pct])] + acc[1..]
    else [acc[0]] + Record(acc[1..], s)
  }

  /** Recording a score adds its name (if new) to the names. */
  lemma {:induction false} RecordNames(acc: seq<Tally>, s: Score)
    ensures Names(Record(acc, s)) == Names(acc) + {s.name}
  {
    if |acc| > 0 {
      var r := Record(acc, s);
      if acc[0].name == s.name {
        assert r[1..] == acc[1..];
      } else {
        RecordNames(acc[1..], s);
        assert r[1..] == Record(acc[1..], s);
      }
    }
  }

  /** Recording keeps names unique. */
  lemma {:induction false} RecordUnique(acc: seq<Tally>, s: Score)
    requires UniqueNames(acc)
    ensures UniqueNames(Record(acc, s))
  {
    if |acc| > 0 {
      var r := Record(acc, s);
      if acc[0].name == s.name {
        assert r[1..] == acc[1..];
      } else {
        RecordUnique(acc[1..], s);
        RecordNames(acc[1..], s);
        assert r[1..] == Record(acc[1..], s);
      }
    }
  }

  /** Recording appends the percentage to that name's list and to no other. */
  lemma {:induction false} RecordLookup(acc: seq<Tally>, s: Score, n: string)
    ensures Lookup(Record(acc, s), n) == Lookup(acc, n) + (if n == s.name then [s.pct] else [])
  {
    if |acc| > 0 {
      var r := Record(acc, s);
      if acc[0].name == s.name {
        assert r[1..] == acc[1..];
      } else {
        RecordLookup(acc[1..], s, n);
        assert r[1..] == Record(acc[1..], s);
      }
    }
  }

  /** Names already present keep their positions; a new name goes at the end. */
  lemma {:induction false} RecordKeepsOrder(acc: seq<Tally>, s: Score)
    ensures var r := Record(acc, s);
      && |acc| <= |r| <= |acc| + 1
      && (forall i :: 0 <= i < |acc| ==> r[i].name == acc[i].name)
      && (|r| == |acc| + 1 ==> r[|acc|] == Tally(s.name, [s.pct]))
  {
    if |acc| > 0 && acc[0].name != s.name {
      RecordKeepsOrder(acc[1..], s);
      var r := Record(acc, s);
      assert r[1..] == Record(acc[1..], s);
      assert forall i :: 1 <= i < |acc| ==> acc[i] == acc[1..][i - 1];
    }
  }

  /** Records one event's scores in order. */
  function RecordAll(acc: seq<Tally>, scores: seq<Score>): (r: seq<Tally>)
    ensures AllScored(acc) ==> AllScored(r)
    decreases |scores|
  {
    if |scores| == 0 then acc else RecordAll(Record(acc, scores[0]), scores[1..])
  }

  /** The percentages `scores` holds for `name`, in order. */
  function PctsFor(scores: seq<Score>, name: string): seq<real> {
    if |scores| == 0 then []
    else (if scores[0].name == name then [scores[0].pct] else []) + PctsFor(scores[1..], name)
  }

  /** Recording one event keeps names unique. */
  lemma {:induction false} RecordAllUnique(acc: seq<Tally>, scores: seq<Score>)
    requires UniqueNames(acc)
    ensures UniqueNames(RecordAll(acc, scores))
    decreases |scores|
  {
    if |scores| > 0 {
      RecordUnique(acc, scores[0]);
      RecordAllUnique(Record(acc, scores[0]), scores[1..]);
    }
  }

  /** Recording one event keeps every earlier name in its place. */
  lemma {:induction false} RecordAllKeepsOrder(acc: seq<Tally>, scores: seq<Score>)
    ensures var r := RecordAll(acc, scores);
      && |acc| <= |r|
      && forall i :: 0 <= i < |acc| ==> r[i].name == acc[i].name
    decreases |scores|
  {
    if |scores| > 0 {
      RecordKeepsOrder(acc, scores[0]);
      RecordAllKeepsOrder(Record(acc, scores[0]), scores[1..]);
    }
  }

  /** Recording one event appends, for each name, that name's percentages in order. */
  lemma {:induction false} RecordAllLookup(acc: seq<Tally>, scores: seq<Score>, n: string)
    ensures Lookup(RecordAll(acc, scores), n) == Lookup(acc, n) + PctsFor(scores, n)
    decreases |scores|
  {
    if |scores| > 0 {
      RecordLookup(acc, scores[0], n);
      RecordAllLookup(Record(acc, scores[0]), scores[1..], n);
    }
  }

  /** All events' scores gathered per driver name (`overall_points`). */
  function Points(events: seq<seq<Driver>>): (r: seq<Tally>)
    ensures AllScored(r)
  {
    if |events| == 0 then []
    else RecordAll(Points(events[..|events| - 1]), EventScores(events[|events| - 1]))
  }

  /** Reference definition: a driver's scores are their event scores,
      event by event in order. */
  function ScoresOf(events: seq<seq<Driver>>, name: string): seq<real> {
    if |events| == 0 then []
    else ScoresOf(events[..|events| - 1], name) + PctsFor(EventScores(events[|events| - 1]), name)
  }

  /** The gathered points agree with the reference definition for every
      name, names are unique, and a later event only appends names after
      those already seen. */
  lemma {:induction false} PointsSpec(events: seq<seq<Driver>>)
    ensures var p := Points(events);
      && UniqueNames(p)
      && forall n :: Lookup(p, n) == ScoresOf(events, n)
  {
    if |events| > 0 {
      var pre := events[..|events| - 1];
      PointsSpec(pre);
      RecordAllUnique(Points(pre), EventScores(events[|events| - 1]));
      forall n
        ensures Lookup(Points(events), n) == ScoresOf(events, n)
      {
        RecordAllLookup(Points(pre), EventScores(events[|events| - 1]), n);
      }
    }
  }

  /** Earlier events' drivers keep their places when more events are added. */
  lemma {:induction false} PointsFirstSeenOrder(events: seq<seq<Driver>>, m: nat)
    requires m <= |events|
    ensures |Points(events[..m])| <= |Points(events)|
    ensures forall i :: 0 <= i < |Points(events[..m])| ==> Points(events)[i].name == Points(events[..m])[i].name
    decreases |events| - m
  {
    if m < |events| {
      PointsFirstSeenOrder(events, m + 1);
      var pre := events[..m + 1];
      assert pre[..m] == events[..m];
      assert Points(pre) == RecordAll(Points(events[..m]), EventScores(pre[m]));
      RecordAllKeepsOrder(Points(events[..m]), EventScores(pre[m]));
    } else {
      assert events[..m] == events;
    }
  }

  lemma {:induction false} NamesAt(acc: seq<Tally>, n: string)
    ensures n in Names(acc) <==> exists i :: 0 <= i < |acc| && acc[i].name == n
  {
    if |acc| > 0 {
      NamesAt(acc[1..], n);
      assert forall i :: 1 <= i < |acc| ==> acc[i] == acc[1..][i - 1];
    }
  }

  /** In a list with unique names and no empty lists, a name has scores
      exactly when it is present, and then `Lookup` finds its entry. */
  lemma {:induction false} LookupSpec(acc: seq<Tally>, n: string)
    requires UniqueNames(acc) && AllScored(acc)
    ensures Lookup(acc, n) != [] <==> n in Names(acc)
    ensures forall i :: 0 <= i < |acc| && acc[i].name == n ==> Lookup(acc, n) == acc[i].scores
  {
    if |acc| > 0 {
      var tl := acc[1..];
      assert AllScored(tl) by {
        assert forall i :: 0 <= i < |tl| ==> tl[i] == acc[i + 1];
      }
      LookupSpec(tl, n);
      forall i | 0 <= i < |acc| && acc[i].name == n
        ensures Lookup(acc, n) == acc[i].scores
      {
        if i > 0 {
          assert tl[i - 1] == acc[i];
          NamesAt(tl, n);
        }
      }
    }
  }

  /** Unique names are pairwise distinct. */
  lemma {:induction false} UniqueIsDistinct(acc: seq<Tally>)
    requires UniqueNames(acc)
    ensures DistinctBy(acc, NameOf)
  {
    if |acc| > 0 {
      UniqueIsDistinct(acc[1..]);
      forall i, j | 0 <= i < j < |acc|
        ensures NameOf(acc[i]) != NameOf(acc[j])
      {
        assert acc[j] == acc[1..][j - 1];
        if i > 0 {
          assert acc[i] == acc[1..][i - 1];
        } else {
          NamesAt(acc[1..], acc[j].name);
        }
      }
    }
  }

  // =====================================================================
  // Season lines.

  /** One season line: name, drop-aware total and average, all-events total
      and average, and the number of scored events. */
  datatype Standing = Standing(name: string, cutoffTotal: real, cutoffAvg: real,
                               total: real, avg: real, events: nat)

  /** How many events count toward the drop-aware figures. */
  function CutoffCount(n: nat, minEvents: nat): nat {
    if minEvents != 0 then (if n < minEvents then n else minEvents) else n
  }

  /** The `k` best scores. */
  function TopScores(scores: seq<real>, k: nat): seq<real>
    requires k <= |scores|
  {
    SortDescending(scores)[..k]
  }

  /** The top `k` are `k` of the scores, and none of the others beats any of them. */
  lemma TopScoresSpec(scores: seq<real>, k: nat)
    requires k <= |scores|
    ensures var top := TopScores(scores, k);
      && |top| == k
      && multiset(top) <= multiset(scores)
      && forall x, y :: x in top && y in multiset(scores) - multiset(top) ==> x >= y
  {
    var sorted := SortDescending(scores);
    var top, rest := sorted[..k], sorted[k..];
    assert sorted == top + rest;
    assert multiset(sorted) == multiset(top) + multiset(rest);
    forall x, y | x in top && y in multiset(scores) - multiset(top)
      ensures x >= y
    {
      assert y in multiset(rest);
      var i :| 0 <= i < |top| && top[i] == x;
      var j :| 0 <= j < |rest| && rest[j] == y;
      assert sorted[i] == x && sorted[k + j] == y;
    }
  }

  /** A total divided by the number of events it covers. */
  function Mean(total: real, count: nat): real
    requires count > 0
  {
    total / (count as real)
  }

  function MakeStanding(t: Tally, minEvents: nat): Standing
    requires |t.scores| > 0
  {
    var sorted := SortDescending(t.scores);
    var n := |sorted|;
    var top := TopScores(t.scores, CutoffCount(n, minEvents));
    Standing(t.name, Sum(top), Mean(Sum(top), |top|), Sum(sorted), Mean(Sum(sorted), n), n)
  }

  /** A driver's line: `k` = min(n, minEvents), or n when minEvents is 0; the
      drop-aware total is the sum of the `k` best scores and the average
      divides it by `k` ≥ 1; the all-events total is the sum of all n scores
      and the average divides it by n. With no cutoff, or a cutoff of at
      least n, the two pairs coincide. */
  lemma StandingSpec(t: Tally, minEvents: nat)
    requires |t.scores| > 0
    ensures var r, n := MakeStanding(t, minEvents), |t.scores|;
      var k := CutoffCount(n, minEvents);
      && r.name == t.name
      && r.events == n
      && 1 <= k <= n
      && (minEvents == 0 || minEvents >= n ==> k == n)
      && (minEvents != 0 && minEvents < n ==> k == minEvents)
      && r.cutoffTotal == Sum(TopScores(t.scores, k))
      && r.cutoffAvg == Mean(r.cutoffTotal, k)
      && r.total == Sum(t.scores)
      && r.avg == Mean(r.total, n)
      && (minEvents == 0 || minEvents >= n ==> r.cutoffTotal == r.total && r.cutoffAvg == r.avg)
  {
    var sorted := SortDescending(t.scores);
    SumPermutation(sorted, t.scores);
    var n := |sorted|;
    var k := CutoffCount(n, minEvents);
    if k == n {
      assert TopScores(t.scores, k) == sorted;
    }
  }

  /** A driver whose scores are 100, 95, 90 and 80 with a cutoff of 3 totals
      285 (average 95) over the best three and 365 (average 91.25) overall. */
  lemma DropRuleExample()
    ensures MakeStanding(Tally("d", [100.0, 95.0, 90.0, 80.0]), 3) == Standing("d", 285.0, 95.0, 365.0, 91.25, 4)
  {
    var s := [100.0, 95.0, 90.0, 80.0];
    ExampleFigures(s);
    StandingOfDescending("d", s, 3);
  }

  /** The figures behind `DropRuleExample`: the sums worked out suffix by
      suffix, the cutoff and the two averages. */
  lemma ExampleFigures(s: seq<real>)
    requires s == [100.0, 95.0, 90.0, 80.0]
    ensures |s| == 4 && Descending(s)
    ensures Sum(s[..3]) == 285.0 && Sum(s) == 365.0
    ensures CutoffCount(4, 3) == 3
    ensures Mean(285.0, 3) == 95.0 && Mean(365.0, 4) == 91.25
  {
    assert Sum(s[3..]) == 80.0 by {
      assert s[3..] == [80.0] && [80.0][1..] == [];
    }
    assert Sum(s[2..]) == 170.0 && Sum(s[2..3]) == 90.0 by {
      assert s[2..][1..] == s[3..];
      assert s[2..3] == [90.0] && [90.0][1..] == [];
    }
    assert Sum(s[1..]) == 265.0 && Sum(s[1..3]) == 185.0 by {
      assert s[1..][1..] == s[2..];
      assert s[1..3][1..] == s[2..3];
    }
    assert s[..3][1..] == s[1..3];
  }

  /** For scores already best first, the drop-aware figures cover the first
      `k` scores and the all-events figures cover all of them. */
  lemma StandingOfDescending(name: string, s: seq<real>, minEvents: nat)
    requires |s| > 0 && Descending(s)
    ensures var k := CutoffCount(|s|, minEvents);
      && 1 <= k <= |s|
      && MakeStanding(Tally(name, s), minEvents)
         == Standing(name, Sum(s[..k]), Mean(Sum(s[..k]), k), Sum(s), Mean(Sum(s), |s|), |s|)
  {
    AlreadyDescending(s);
  }

  function StandingName(s: Standing): string {
    s.name
  }

  function CutoffTotalOf(s: Standing): real {
    s.cutoffTotal
  }

  function CutoffAvgOf(s: Standing): real {
    s.cutoffAvg
  }

  /** One line per gathered driver, in first-seen order. */
  function Lines(tallies: seq<Tally>, minEvents: nat): (r: seq<Standing>)
    requires AllScored(tallies)
    ensures |r| == |tallies|
    ensures forall i :: 0 <= i < |r| ==> r[i] == MakeStanding(tallies[i], minEvents)
  {
    seq(|tallies|, i requires 0 <= i < |tallies| => MakeStanding(tallies[i], minEvents))
  }

  /** The key the season is ranked by, descending: the drop-aware average
      when there is no cutoff or the average is forced, else the drop-aware total. */
  function RankKey(minEvents: nat, sortAvg: bool): Standing -> real {
    if minEvents == 0 || sortAvg then CutoffAvgOf else CutoffTotalOf
  }

  /** `season`: the season lines, ranked best first by `RankKey`, with ties
      kept in first-seen order. */
  function Season(events: seq<seq<Driver>>, minEvents: nat, sortAvg: bool): (r: seq<Standing>)
    ensures var key := RankKey(minEvents, sortAvg);
      && (forall i, j :: 0 <= i < j < |r| ==> key(r[i]) >= key(r[j]))
      && (forall v :: WithKey(r, key, v) == WithKey(Lines(Points(events), minEvents), key, v))
      && multiset(r) == multiset(Lines(Points(events), minEvents))
  {
    PointsSpec(events);
    SortDescBy(Lines(Points(events), minEvents), RankKey(minEvents, sortAvg))
  }

  /** The line of every gathered driver is computed from that driver's
      scores as the reference definition gathers them, and names stay distinct. */
  lemma LinesSpec(events: seq<seq<Driver>>, minEvents: nat)
    ensures var p := Points(events);
      var lines := Lines(p, minEvents);
      && DistinctBy(lines, StandingName)
      && forall j :: 0 <= j < |lines| ==>
           && lines[j].name == p[j].name
           && lines[j].events >= 1
           && ScoresOf(events, lines[j].name) == p[j].scores
           && lines[j] == MakeStanding(Tally(lines[j].name, ScoresOf(events, lines[j].name)), minEvents)
  {
    var p := Points(events);
    PointsSpec(events);
    var lines := Lines(p, minEvents);
    forall j | 0 <= j < |lines|
      ensures lines[j].name == p[j].name
      ensures lines[j].events >= 1
      ensures ScoresOf(events, lines[j].name) == p[j].scores
    {
      StandingSpec(p[j], minEvents);
      LookupSpec(p, p[j].name);
    }
    UniqueIsDistinct(p);
    forall i, j | 0 <= i < j < |lines|
      ensures StandingName(lines[i]) != StandingName(lines[j])
    {
      assert NameOf(p[i]) != NameOf(p[j]);
    }
  }

  /** The season has exactly one line per driver name with at least one
      score (a driver with no scored event is absent, so nothing divides by
      zero), names are distinct, and every line is computed from that driver's
      scores as the reference definition gathers them. */
  lemma SeasonLines(events: seq<seq<Driver>>, minEvents: nat, sortAvg: bool)
    ensures var r := Season(events, minEvents, sortAvg);
      && |r| == |Points(events)|
      && DistinctBy(r, StandingName)
      && (forall n :: (exists i :: 0 <= i < |r| && r[i].name == n) <==> ScoresOf(events, n) != [])
      && forall i :: 0 <= i < |r| ==>
           && r[i].events >= 1
           && |ScoresOf(events, r[i].name)| > 0
           && r[i] == MakeStanding(Tally(r[i].name, ScoresOf(events, r[i].name)), minEvents)
  {
    var r := Season(events, minEvents, sortAvg);
    assert DistinctBy(r, StandingName) by {
      LinesSpec(events, minEvents);
      DistinctByPermutation(Lines(Points(events), minEvents), r, StandingName);
    }
    forall i | 0 <= i < |r|
      ensures r[i].events >= 1
      ensures |ScoresOf(events, r[i].name)| > 0
      ensures r[i] == MakeStanding(Tally(r[i].name, ScoresOf(events, r[i].name)), minEvents)
    {
      SeasonLineFromScores(events, minEvents, sortAvg, i);
    }
    forall n
      ensures (exists i :: 0 <= i < |r| && r[i].name == n) <==> ScoresOf(events, n) != []
    {
      NamePresence(events, minEvents, sortAvg, n);
    }
  }

  /** Each season line is the line of its driver's reference scores. */
  lemma SeasonLineFromScores(events: seq<seq<Driver>>, minEvents: nat, sortAvg: bool, i: nat)
    requires i < |Season(events, minEvents, sortAvg)|
    ensures var line := Season(events, minEvents, sortAvg)[i];
      && line.events >= 1
      && |ScoresOf(events, line.name)| > 0
      && line == MakeStanding(Tally(line.name, ScoresOf(events, line.name)), minEvents)
  {
    var lines := Lines(Points(events), minEvents);
    var r := Season(events, minEvents, sortAvg);
    LinesSpec(events, minEvents);
    assert r[i] in multiset(lines);
    var j :| 0 <= j < |lines| && lines[j] == r[i];
  }

  lemma NamePresence(events: seq<seq<Driver>>, minEvents: nat, sortAvg: bool, n: string)
    ensures var r := Season(events, minEvents, sortAvg);
      (exists i :: 0 <= i < |r| && r[i].name == n) <==> ScoresOf(events, n) != []
  {
    var p := Points(events);
    PointsSpec(events);
    LookupSpec(p, n);
    NamesAt(p, n);
    if ScoresOf(events, n) != [] {
      var j :| 0 <= j < |p| && p[j].name == n;
      var i := PresentInSeason(events, minEvents, sortAvg, j);
    }
    var r := Season(events, minEvents, sortAvg);
    if exists i :: 0 <= i < |r| && r[i].name == n {
      var i :| 0 <= i < |r| && r[i].name == n;
      var j := GatheredIfInSeason(events, minEvents, sortAvg, i);
    }
  }

  /** Every gathered driver has a line in the season. */
  lemma PresentInSeason(events: seq<seq<Driver>>, minEvents: nat, sortAvg: bool, j: nat) returns (i: nat)
    requires j < |Points(events)|
    ensures i < |Season(events, minEvents, sortAvg)| && Season(events, minEvents, sortAvg)[i].name == Points(events)[j].name
  {
    var p := Points(events);
    var lines := Lines(p, minEvents);
    var r := Season(events, minEvents, sortAvg);
    StandingSpec(p[j], minEvents);
    assert lines[j] in multiset(r);
    i :| 0 <= i < |r| && r[i] == lines[j];
  }

  /** Every season line belongs to a gathered driver. */
  lemma GatheredIfInSeason(events: seq<seq<Driver>>, minEvents: nat, sortAvg: bool, i: nat) returns (j: nat)
    requires i < |Season(events, minEvents, sortAvg)|
    ensures j < |Points(events)| && Points(events)[j].name == Season(events, minEvents, sortAvg)[i].name
  {
    var p := Points(events);
    var lines := Lines(p, minEvents);
    var r := Season(events, minEvents, sortAvg);
    assert r[i] in multiset(lines);
    j :| 0 <= j < |lines| && lines[j] == r[i];
    StandingSpec(p[j], minEvents);
  }

  /** With no events the season is empty. */
  lemma EmptySeason(minEvents: nat, sortAvg: bool)
    ensures Season([], minEvents, sortAvg) == []
  {
  }
}
