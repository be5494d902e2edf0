/** The run reducer of pax.py: it turns each event's table rows into one
    `Driver` record per row, holding the driver's fastest effective time (cone
    penalties added, optionally multiplied by the class's PAX factor) and the
    penalty of the run that set it, and orders each event fastest first. Also
    holds the scan that reads class factors out of the PAX table's cells. */
module Pax {
  import opened Wrappers
  import opened Text
  import opened StableSort

  /** The numeric conversions the reducer borrows from Python: `float(text)` and
      `int(text)`, which raise on text they cannot read (here `None`), and
      `round(x, 3)`. They are parameters of the model, not defined by it. */
  datatype Conversions = Conversions(
    parseFloat: string -> Option<real>,
    parseInt: string -> Option<int>,
    round3: real -> real)

  // =====================================================================
  // Factor-table cell scan (`get_pax`): a fold over the table's cells in
  // row-major order. A text cell names a class; the next numeric cell not
  // above 1.0 is that class's factor.

  /** One table cell: text, a number, or an empty cell (NaN, which compares false). */
  datatype Cell = Label(text: string) | Number(value: real) | Blank

  /** `pending` is the lower-cased class name waiting for its factor; Python's
      falsy `None` and `""` are both the empty string here. */
  datatype ScanState = ScanState(factors: map<string, real>, pending: string)

  /** Whether reading cell `c` in state `st` records a factor. */
  predicate Records(st: ScanState, c: Cell) {
    c.Number? && c.value <= 1.0 && st.pending != ""
  }

  function ScanCell(st: ScanState, c: Cell): ScanState {
    match c
    case Label(t) => st.(pending := Lower(t))
    case Number(x) =>
      if Records(st, c) then ScanState(st.factors[st.pending := x], "") else st
    case Blank => st
  }

  function ScanCells(cells: seq<Cell>): ScanState {
    if |cells| == 0 then ScanState(map[], "")
    else ScanCell(ScanCells(cells[..|cells| - 1]), cells[|cells| - 1])
  }

  /** How many cells recorded a factor while scanning `cells`. */
  function RecordCount(cells: seq<Cell>): nat {
    if |cells| == 0 then 0
    else
      var prefix := cells[..|cells| - 1];
      RecordCount(prefix) + (if Records(ScanCells(prefix), cells[|cells| - 1]) then 1 else 0)
  }

  function LabelCount(cells: seq<Cell>): nat {
    if |cells| == 0 then 0
    else LabelCount(cells[..|cells| - 1]) + (if cells[|cells| - 1].Label? then 1 else 0)
  }

  /** The class-factor table read from the cells. */
  function FactorTable(cells: seq<Cell>): map<string, real> {
    ScanCells(cells).factors
  }

  /** Every recorded factor is at most 1.0, comes from a numeric cell, and is
      keyed by the lower-cased text of a non-empty label cell. */
  lemma {:induction false} FactorTableSound(cells: seq<Cell>)
    ensures var st := ScanCells(cells);
      && (st.pending != "" ==> exists i :: 0 <= i < |cells| && cells[i].Label? && Lower(cells[i].text) == st.pending)
      && forall k :: k in st.factors ==>
           && k != ""
           && st.factors[k] <= 1.0
           && (exists i :: 0 <= i < |cells| && cells[i].Label? && Lower(cells[i].text) == k)
           && (exists j :: 0 <= j < |cells| && cells[j] == Number(st.factors[k]))
  {
    if |cells| > 0 {
      var prefix := cells[..|cells| - 1];
      FactorTableSound(prefix);
      forall i | 0 <= i < |prefix|
        ensures cells[i] == prefix[i]
      {
      }
    }
  }

  /** Once a class has a factor it keeps one: scanning more cells only adds keys. */
  lemma {:induction false} FactorKeysGrow(cells: seq<Cell>, n: nat)
    requires n <= |cells|
    ensures ScanCells(cells[..n]).factors.Keys <= ScanCells(cells).factors.Keys
    decreases |cells| - n
  {
    if n < |cells| {
      FactorKeysGrow(cells, n + 1);
      assert cells[..n + 1][..n] == cells[..n];
    } else {
      assert cells[..n] == cells;
    }
  }

  /** A non-empty label immediately followed by a number not above 1.0 always
      yields a factor for the lower-cased label, and right after that number
      the factor is exactly that number. */
  lemma FactorTableComplete(cells: seq<Cell>, i: nat)
    requires i + 1 < |cells|
    requires cells[i].Label? && Lower(cells[i].text) != ""
    requires cells[i + 1].Number? && cells[i + 1].value <= 1.0
    ensures Lower(cells[i].text) in FactorTable(cells)
    ensures Lower(cells[i].text) in FactorTable(cells[..i + 2])
    ensures FactorTable(cells[..i + 2])[Lower(cells[i].text)] == cells[i + 1].value
  {
    var pre := cells[..i + 2];
    assert pre[..i + 1][..i] == cells[..i];
    assert pre[..i + 1] == cells[..i + 1];
    assert ScanCells(cells[..i + 1]).pending == Lower(cells[i].text);
    FactorKeysGrow(cells, i + 2);
  }

  /** The last write wins: when no later label names the same class, the
      factor in the finished table is the number that followed the label. */
  lemma FactorTableLastWrite(cells: seq<Cell>, i: nat)
    requires i + 1 < |cells|
    requires cells[i].Label? && Lower(cells[i].text) != ""
    requires cells[i + 1].Number? && cells[i + 1].value <= 1.0
    requires forall j :: i + 1 < j < |cells| && cells[j].Label? ==> Lower(cells[j].text) != Lower(cells[i].text)
    ensures Lower(cells[i].text) in FactorTable(cells)
    ensures FactorTable(cells)[Lower(cells[i].text)] == cells[i + 1].value
  {
    FactorTableComplete(cells, i);
    FactorStays(cells, i + 2, Lower(cells[i].text), cells[i + 1].value);
    assert cells[..|cells|] == cells;
  }

  /** A recorded factor survives every later cell as long as no later label
      names its class again. */
  lemma {:induction false} FactorStays(cells: seq<Cell>, n: nat, k: string, v: real)
    requires n <= |cells| && k != ""
    requires k in ScanCells(cells[..n]).factors && ScanCells(cells[..n]).factors[k] == v
    requires ScanCells(cells[..n]).pending != k
    requires forall j :: n <= j < |cells| && cells[j].Label? ==> Lower(cells[j].text) != k
    ensures k in ScanCells(cells[..|cells|]).factors && ScanCells(cells[..|cells|]).factors[k] == v
    decreases |cells| - n
  {
    if n < |cells| {
      assert cells[..n + 1][..n] == cells[..n];
      FactorStays(cells, n + 1, k, v);
    }
  }

  /** The pending name is cleared whenever a factor is recorded, so each label
      cell yields at most one factor. */
  lemma {:induction false} OneFactorPerLabel(cells: seq<Cell>)
    ensures RecordCount(cells) + (if ScanCells(cells).pending != "" then 1 else 0) <= LabelCount(cells)
  {
    if |cells| > 0 {
      OneFactorPerLabel(cells[..|cells| - 1]);
    }
  }

  // =====================================================================
  // Run parsing: a run is `<time>[+<suffix>]`.

  /** What one run field contributes: nothing (no run recorded), a DNF, or an
      effective time together with the cone count that produced it. */
  datatype RunOutcome = NoRun | DnfRun | Timed(time: real, cones: int)

  function TimedOrFail(base: Option<real>, cones: int): Option<RunOutcome> {
    match base
    case None => None
    case Some(t) => Some(Timed(t + (2 * cones) as real, cones))
  }

  /** Classifies one run field; `None` is the exception Python raises on
      text it cannot read as a number. */
  function ClassifyRun(run: Option<string>, conv: Conversions): Option<RunOutcome> {
    match run
    case None => Some(NoRun)
    case Some(text) =>
      var parts := Split(text, '+');
      if |parts| > 1 then
        var suffix := Lower(parts[1]);
        if suffix == "dnf" then Some(DnfRun)
        else if suffix == "" then TimedOrFail(conv.parseFloat(parts[0]), 0)
        else
          match conv.parseInt(suffix)
          case None => None
          case Some(c) => TimedOrFail(conv.parseFloat(parts[0]), c)
      else TimedOrFail(conv.parseFloat(parts[0]), 0)
  }

  /** A run without `+` is its base time, and fails exactly when the base does not parse. */
  lemma RunWithoutSuffix(base: string, conv: Conversions)
    requires '+' !in base
    ensures ClassifyRun(Some(base), conv) ==
      (match conv.parseFloat(base)
       case None => None
       case Some(t) => Some(Timed(t, 0)))
  {
    SplitWithoutSep(base, '+');
  }

  /** The pieces `split('+')` gives a run `base+suffix` followed by nothing
      or by further `+`-separated text. */
  lemma RunPieces(base: string, suffix: string, rest: string)
    requires '+' !in base && '+' !in suffix
    requires rest == "" || rest[0] == '+'
    ensures var parts := Split(base + "+" + suffix + rest, '+');
      |parts| > 1 && parts[0] == base && parts[1] == suffix
  {
    var text := base + "+" + suffix + rest;
    assert text == base + ['+'] + (suffix + rest);
    SplitAfterPiece(base, suffix + rest, '+');
    if rest == "" {
      assert suffix + rest == suffix;
      SplitWithoutSep(suffix, '+');
    } else {
      assert suffix + rest == suffix + ['+'] + rest[1..];
      SplitAfterPiece(suffix, rest[1..], '+');
    }
  }

  /** A run `base+dnf` (in any case) contributes no time and cannot fail;
      anything after a second `+` is ignored. */
  lemma RunWithDnfSuffix(base: string, suffix: string, rest: string, conv: Conversions)
    requires '+' !in base && '+' !in suffix
    requires rest == "" || rest[0] == '+'
    requires Lower(suffix) == "dnf"
    ensures ClassifyRun(Some(base + "+" + suffix + rest), conv) == Some(DnfRun)
  {
    RunPieces(base, suffix, rest);
  }

  /** A run `base+` with an empty suffix is its base time, failing exactly when
      the base does not parse. */
  lemma RunWithEmptySuffix(base: string, rest: string, conv: Conversions)
    requires '+' !in base
    requires rest == "" || rest[0] == '+'
    ensures ClassifyRun(Some(base + "+" + rest), conv) ==
      (match conv.parseFloat(base)
       case None => None
       case Some(t) => Some(Timed(t, 0)))
  {
    RunPieces(base, "", rest);
    assert base + "+" + "" + rest == base + "+" + rest;
  }

  /** A run `base+c` with any other suffix needs the lower-cased suffix to be an
      integer cone count `c` and the base to be a time `t`; its effective time
      is t + 2c. Otherwise the run fails (so `off` fails, only `dnf` is special). */
  lemma RunWithConeSuffix(base: string, suffix: string, rest: string, conv: Conversions)
    requires '+' !in base && '+' !in suffix
    requires rest == "" || rest[0] == '+'
    requires suffix != "" && Lower(suffix) != "dnf"
    ensures var r := ClassifyRun(Some(base + "+" + suffix + rest), conv);
      && (r.Some? <==> conv.parseInt(Lower(suffix)).Some? && conv.parseFloat(base).Some?)
      && (r.Some? ==>
            var c := conv.parseInt(Lower(suffix)).value;
            r.value == Timed(conv.parseFloat(base).value + (2 * c) as real, c))
  {
    RunPieces(base, suffix, rest);
    LowerEmpty(suffix);
  }

  // =====================================================================
  // Best-run selection over one row's runs.

  /** Python's `penalty`: `None`, the marker `'dnf'`, or a positive cone count. */
  datatype Penalty = NoPenalty | Dnf | Cones(count: int)

  datatype RunState = RunState(best: Option<real>, penalty: Penalty)

  /** Python truthiness of the running best time: `None` and `0.0` are falsy. */
  predicate Truthy(t: Option<real>) {
    t.Some? && t.value != 0.0
  }

  function ConePenalty(cones: int): Penalty {
    if cones > 0 then Cones(cones) else NoPenalty
  }

  function StepRun(st: RunState, o: RunOutcome): RunState {
    match o
    case NoRun => st
    case DnfRun =>
      if st.penalty == NoPenalty && !Truthy(st.best) then st.(penalty := Dnf) else st
    case Timed(t, c) =>
      if !Truthy(st.best) || t < st.best.value then RunState(Some(t), ConePenalty(c)) else st
  }

  /** The state after processing the runs in order, starting with no time and no penalty. */
  function ReduceRuns(outs: seq<RunOutcome>): RunState {
    if |outs| == 0 then RunState(None, NoPenalty)
    else StepRun(ReduceRuns(outs[..|outs| - 1]), outs[|outs| - 1])
  }

  /** Classifies every run, failing if any one fails. */
  function ClassifyAll(runs: seq<Option<string>>, conv: Conversions): (r: Option<seq<RunOutcome>>)
    ensures r.Some? <==> forall i :: 0 <= i < |runs| ==> ClassifyRun(runs[i], conv).Some?
    ensures r.Some? ==> |r.value| == |runs| && forall i :: 0 <= i < |runs| ==> ClassifyRun(runs[i], conv) == Some(r.value[i])
  {
    if |runs| == 0 then Some([])
    else
      match ClassifyRun(runs[0], conv)
      case None => None
      case Some(o) =>
        match ClassifyAll(runs[1..], conv)
        case None =>
          assert forall i :: 1 <= i < |runs| ==> runs[i] == runs[1..][i - 1];
          None
        case Some(os) =>
          assert forall i :: 1 <= i < |runs| ==> runs[i] == runs[1..][i - 1];
          Some([o] + os)
  }

  predicate HasTime(outs: seq<RunOutcome>) {
    exists i :: 0 <= i < |outs| && outs[i].Timed?
  }

  predicate NoZeroTime(outs: seq<RunOutcome>) {
    forall i :: 0 <= i < |outs| && outs[i].Timed? ==> outs[i].time != 0.0
  }

  /** Run `i` sets the best time: it is timed, strictly faster than every
      earlier timed run and no slower than every later one. */
  predicate IsBestRun(outs: seq<RunOutcome>, i: int) {
    && 0 <= i < |outs|
    && outs[i].Timed?
    && (forall j :: 0 <= j < i && outs[j].Timed? ==> outs[j].time > outs[i].time)
    && (forall j :: i < j < |outs| && outs[j].Timed? ==> outs[j].time >= outs[i].time)
  }

  /** A DNF or missing run never supplies the time: any best time is the
      effective time of some timed run, and a cone penalty is that of a timed
      run with exactly that time. */
  lemma {:induction false} BestTimeComesFromARun(outs: seq<RunOutcome>)
    ensures var st := ReduceRuns(outs);
      && (st.best.Some? ==> exists i :: 0 <= i < |outs| && outs[i].Timed? && outs[i].time == st.best.value)
      && (st.penalty.Cones? ==>
            && st.penalty.count > 0
            && st.best.Some?
            && exists i :: 0 <= i < |outs| && outs[i] == Timed(st.best.value, st.penalty.count))
  {
    if |outs| > 0 {
      var pre := outs[..|outs| - 1];
      BestTimeComesFromARun(pre);
      assert forall i :: 0 <= i < |pre| ==> outs[i] == pre[i];
    }
  }

  /** With no zero times, the best time is the minimum effective time, ties go
      to the earliest run, and the penalty is that run's cone count (a DNF
      marker recorded earlier is overwritten). Without any timed run there is
      no best time. */
  lemma {:induction false} BestIsEarliestMinimum(outs: seq<RunOutcome>)
    requires NoZeroTime(outs)
    ensures var st := ReduceRuns(outs);
      && (st.best.Some? <==> HasTime(outs))
      && (st.best.Some? ==> exists i :: IsBestRun(outs, i) && st.best.value == outs[i].time && st.penalty == ConePenalty(outs[i].cones))
  {
    if |outs| > 0 {
      var n := |outs| - 1;
      var pre := outs[..n];
      assert forall i :: 0 <= i < n ==> outs[i] == pre[i];
      assert NoZeroTime(pre);
      BestIsEarliestMinimum(pre);
      var st0 := ReduceRuns(pre);
      var last := outs[n];
      assert ReduceRuns(outs) == StepRun(st0, last);
      if st0.best.Some? {
        var i :| IsBestRun(pre, i) && st0.best.value == pre[i].time && st0.penalty == ConePenalty(pre[i].cones);
        if last.Timed? && last.time < st0.best.value {
          FasterRunIsBest(outs, i);
        } else {
          EarlierBestStays(outs, i);
        }
      } else if last.Timed? {
        FirstTimedRunIsBest(outs);
      } else {
        assert !HasTime(pre);
        assert !HasTime(outs);
      }
    }
  }

  lemma FasterRunIsBest(outs: seq<RunOutcome>, i: int)
    requires |outs| > 0 && IsBestRun(outs[..|outs| - 1], i)
    requires outs[|outs| - 1].Timed? && outs[|outs| - 1].time < outs[i].time
    ensures IsBestRun(outs, |outs| - 1)
  {
    var pre := outs[..|outs| - 1];
    assert forall j :: 0 <= j < |pre| ==> outs[j] == pre[j];
  }

  lemma EarlierBestStays(outs: seq<RunOutcome>, i: int)
    requires |outs| > 0 && IsBestRun(outs[..|outs| - 1], i)
    requires outs[|outs| - 1].Timed? ==> outs[|outs| - 1].time >= outs[i].time
    ensures IsBestRun(outs, i)
  {
    var pre := outs[..|outs| - 1];
    assert forall j :: 0 <= j < |pre| ==> outs[j] == pre[j];
  }

  lemma FirstTimedRunIsBest(outs: seq<RunOutcome>)
    requires |outs| > 0 && !HasTime(outs[..|outs| - 1]) && outs[|outs| - 1].Timed?
    ensures IsBestRun(outs, |outs| - 1)
  {
    var pre := outs[..|outs| - 1];
    assert forall j :: 0 <= j < |pre| ==> outs[j] == pre[j];
  }

  /** A row without a timed run has no best time, and its penalty is the DNF
      marker exactly when one of its runs was a DNF. */
  lemma {:induction false} UntimedRow(outs: seq<RunOutcome>)
    requires !HasTime(outs)
    ensures ReduceRuns(outs).best == None
    ensures ReduceRuns(outs).penalty == (if DnfRun in outs then Dnf else NoPenalty)
  {
    if |outs| > 0 {
      var pre := outs[..|outs| - 1];
      assert outs == pre + [outs[|outs| - 1]];
      assert !HasTime(pre) by {
        assert forall i :: 0 <= i < |pre| ==> pre[i] == outs[i];
      }
      UntimedRow(pre);
    }
  }

  /** The runs with the missing ones dropped. */
  function RecordedRuns(outs: seq<RunOutcome>): seq<RunOutcome> {
    if |outs| == 0 then []
    else RecordedRuns(outs[..|outs| - 1]) + (if outs[|outs| - 1] == NoRun then [] else [outs[|outs| - 1]])
  }

  /** Missing runs are skipped without changing any state. */
  lemma {:induction false} MissingRunsIgnored(outs: seq<RunOutcome>)
    ensures ReduceRuns(RecordedRuns(outs)) == ReduceRuns(outs)
  {
    if |outs| > 0 {
      var pre := outs[..|outs| - 1];
      MissingRunsIgnored(pre);
      var last := outs[|outs| - 1];
      if last != NoRun {
        var rr := RecordedRuns(pre) + [last];
        assert rr[..|rr| - 1] == RecordedRuns(pre);
      } else {
        assert RecordedRuns(outs) == RecordedRuns(pre);
      }
    }
  }

  /** Python's truthiness makes a 0.0 best time count as "no time yet": any
      later timed run replaces it, however slow, together with its cones. */
  lemma ZeroTimeIsReplaced(outs: seq<RunOutcome>, t: real, c: int)
    requires ReduceRuns(outs).best == Some(0.0)
    ensures StepRun(ReduceRuns(outs), Timed(t, c)) == RunState(Some(t), ConePenalty(c))
    ensures ReduceRuns(outs + [Timed(t, c)]) == RunState(Some(t), ConePenalty(c))
  {
    var all := outs + [Timed(t, c)];
    assert all[..|all| - 1] == outs;
  }

  // =====================================================================
  // Class factors.

  /** The factor-table key of a class: lower-cased, every `l` removed (the
      ladies designation). */
  function ClassKey(cls: string): string {
    Remove(Lower(cls), 'l')
  }

  /** The key has no `l` and no upper-case letter, ignores the case of the
      class, and ignores a trailing ladies `L`/`l`. */
  lemma ClassKeyProperties(cls: string)
    ensures 'l' !in ClassKey(cls)
    ensures forall i :: 0 <= i < |ClassKey(cls)| ==> !IsUpper(ClassKey(cls)[i])
    ensures ClassKey(Lower(cls)) == ClassKey(cls)
    ensures ClassKey(cls + "L") == ClassKey(cls) && ClassKey(cls + "l") == ClassKey(cls)
    ensures ClassKey(ClassKey(cls)) == ClassKey(cls)
  {
    var low := Lower(cls);
    RemoveSpec(low, 'l');
    LowerIdempotent(cls);
    var key := ClassKey(cls);
    forall i | 0 <= i < |key|
      ensures !IsUpper(key[i])
    {
      assert key[i] in key;
      var j :| 0 <= j < |low| && low[j] == key[i];
    }
    LowerOfLowerFree(key);
    RemoveSpec(key, 'l');
    LowerDistributes(cls, "L");
    LowerDistributes(cls, "l");
    assert Lower("L") == "l" && Lower("l") == "l";
    RemoveDistributes(low, "l", 'l');
    assert Remove("l", 'l') == "";
  }

  lemma ClassKeyExample()
    ensures ClassKey("CSPL") == "csp"
  {
    assert Lower("CSPL") == "cspl";
    assert Remove("cspl", 'l') == "csp";
  }

  /** A raw time in PAX terms: multiplied by its class factor. Kept as a named
      function so that the product of two unknown reals stays one term for the
      solver; written inline, the verifier fails to match the product in
      `Normalise`'s body with the same product in its contract. */
  function PaxTime(time: real, factor: real): real {
    time * factor
  }

  /** The time after optional PAX normalisation: the best time multiplied by
      the class factor and rounded to three decimals, or unchanged when
      normalisation is off, there is no time, or the class has no factor. */
  function Normalise(best: Option<real>, cls: string, factors: Option<map<string, real>>, conv: Conversions): (r: Option<real>)
    ensures r.Some? <==> best.Some?
    ensures factors.None? || ClassKey(cls) !in factors.value ==> r == best
    ensures best.Some? && factors.Some? && ClassKey(cls) in factors.value ==>
      r == Some(conv.round3(PaxTime(best.value, factors.value[ClassKey(cls)])))
  {
    if best.Some? && factors.Some? && ClassKey(cls) in factors.value then
      Some(conv.round3(PaxTime(best.value, factors.value[ClassKey(cls)])))
    else best
  }

  /** Normalisation ignores the case of the class and a ladies `L` suffix. */
  lemma NormaliseIgnoresCaseAndLadies(best: Option<real>, cls: string, factors: Option<map<string, real>>, conv: Conversions)
    ensures Normalise(best, Lower(cls), factors, conv) == Normalise(best, cls, factors, conv)
    ensures Normalise(best, cls + "L", factors, conv) == Normalise(best, cls, factors, conv)
  {
    ClassKeyProperties(cls);
  }

  // =====================================================================
  // One row, one event, all events.

  /** An event table row: class, car number, driver and the first three runs
      (`None` where pandas reads an empty cell). */
  datatype Row = Row(sccaClass: string, number: string, driver: string,
                     run1: Option<string>, run2: Option<string>, run3: Option<string>)

  /** One driver's result in one event (pax.py's `Driver` tuple). */
  datatype Driver = Driver(sccaClass: string, number: string, name: string,
                           time: Option<real>, penalty: Penalty)

  function Runs(row: Row): seq<Option<string>> {
    [row.run1, row.run2, row.run3]
  }

  /** The driver record of one row, or `None` when a run cannot be read. */
  function ReduceRow(row: Row, factors: Option<map<string, real>>, conv: Conversions): (r: Option<Driver>)
    ensures r.Some? <==> forall i :: 0 <= i < 3 ==> ClassifyRun(Runs(row)[i], conv).Some?
    ensures r.Some? ==> r.value.sccaClass == row.sccaClass && r.value.number == row.number && r.value.name == row.driver
  {
    var runs := Runs(row);
    assert |runs| == 3;
    match ClassifyAll(runs, conv)
    case None => None
    case Some(outs) =>
      var st := ReduceRuns(outs);
      Some(Driver(row.sccaClass, row.number, row.driver, Normalise(st.best, row.sccaClass, factors, conv), st.penalty))
  }

  /** The record of a row whose runs read as `outs`: its time is the fastest
      effective run time, normalised by the class factor, and its penalty is
      that run's cone count (or the DNF marker) as the run reduction leaves it. */
  lemma ReduceRowRecord(row: Row, factors: Option<map<string, real>>, conv: Conversions, outs: seq<RunOutcome>)
    requires |outs| == 3
    requires forall i :: 0 <= i < 3 ==> ClassifyRun(Runs(row)[i], conv) == Some(outs[i])
    ensures ReduceRow(row, factors, conv)
      == Some(Driver(row.sccaClass, row.number, row.driver,
                     Normalise(ReduceRuns(outs).best, row.sccaClass, factors, conv),
                     ReduceRuns(outs).penalty))
  {
    var runs := Runs(row);
    var all := ClassifyAll(runs, conv);
    assert all.Some?;
    assert all.value == outs;
  }

  /** The sort key of a result: its time, with a missing time as 999.9. */
  function SortKey(d: Driver): real {
    if d.time.None? then 999.9 else d.time.value
  }

  /** The records of all rows in row order, or `None` if any row fails. */
  function ReduceRows(rows: seq<Row>, factors: Option<map<string, real>>, conv: Conversions): (r: Option<seq<Driver>>)
    ensures r.Some? <==> forall i :: 0 <= i < |rows| ==> ReduceRow(rows[i], factors, conv).Some?
    ensures r.Some? ==> |r.value| == |rows| && forall i :: 0 <= i < |rows| ==> ReduceRow(rows[i], factors, conv) == Some(r.value[i])
  {
    if |rows| == 0 then Some([])
    else
      match ReduceRow(rows[0], factors, conv)
      case None => None
      case Some(d) =>
        match ReduceRows(rows[1..], factors, conv)
        case None =>
          assert forall i :: 1 <= i < |rows| ==> rows[i] == rows[1..][i - 1];
          None
        case Some(ds) =>
          assert forall i :: 1 <= i < |rows| ==> rows[i] == rows[1..][i - 1];
          Some([d] + ds)
  }

  /** One event: every row reduced, then stably sorted fastest first. */
  function ReduceEvent(rows: seq<Row>, factors: Option<map<string, real>>, conv: Conversions): Option<seq<Driver>> {
    match ReduceRows(rows, factors, conv)
    case None => None
    case Some(ds) => Some(SortBy(ds, SortKey))
  }

  /** An event's result list holds exactly one record per row (a permutation
      of the rows' records), ordered by time with missing times as 999.9, and
      records with equal keys stay in row order. The event fails exactly when
      some row has a run that cannot be read. */
  lemma ReduceEventSpec(rows: seq<Row>, factors: Option<map<string, real>>, conv: Conversions)
    ensures var r := ReduceEvent(rows, factors, conv);
      && (r.Some? <==> forall i :: 0 <= i < |rows| ==> ReduceRow(rows[i], factors, conv).Some?)
      && (r.Some? ==>
            var ds := ReduceRows(rows, factors, conv).value;
            && |r.value| == |rows|
            && multiset(r.value) == multiset(ds)
            && (forall i, j :: 0 <= i < j < |r.value| ==> SortKey(r.value[i]) <= SortKey(r.value[j]))
            && (forall v :: WithKey(r.value, SortKey, v) == WithKey(ds, SortKey, v)))
  {
  }

  /** Every row's record appears in its event's result list. */
  lemma EveryRowListed(rows: seq<Row>, factors: Option<map<string, real>>, conv: Conversions, i: nat)
    requires i < |rows|
    requires ReduceEvent(rows, factors, conv).Some?
    ensures ReduceRow(rows[i], factors, conv).Some?
    ensures ReduceRow(rows[i], factors, conv).value in ReduceEvent(rows, factors, conv).value
  {
    var ds := ReduceRows(rows, factors, conv).value;
    assert ds[i] in multiset(ds);
  }

  /** Gathers per-event outcomes in order, failing with the 1-based number of
      the first event that failed. */
  function Collect<T>(outcomes: seq<Option<T>>): (r: Result<seq<T>, nat>)
    ensures r.Ok? <==> forall e :: 0 <= e < |outcomes| ==> outcomes[e].Some?
    ensures r.Ok? ==> |r.value| == |outcomes| && forall e :: 0 <= e < |outcomes| ==> outcomes[e] == Some(r.value[e])
    ensures r.Err? ==>
      && 1 <= r.error <= |outcomes|
      && outcomes[r.error - 1].None?
      && forall e :: 0 <= e < r.error - 1 ==> outcomes[e].Some?
  {
    if |outcomes| == 0 then Ok([])
    else
      var tail := Collect(outcomes[1..]);
      assert forall e :: 1 <= e < |outcomes| ==> outcomes[e] == outcomes[1..][e - 1];
      match outcomes[0]
      case None => Err(1)
      case Some(x) => if tail.Err? then Err(tail.error + 1) else Ok([x] + tail.value)
  }

  /** `fastest`: every event reduced in order; the first event with an
      unreadable run makes the whole call fail with its (1-based) number. */
  function Fastest(events: seq<seq<Row>>, factors: Option<map<string, real>>, conv: Conversions): (r: Result<seq<seq<Driver>>, nat>)
    ensures r.Ok? <==> forall e :: 0 <= e < |events| ==> ReduceEvent(events[e], factors, conv).Some?
    ensures r.Ok? ==> |r.value| == |events| && forall e :: 0 <= e < |events| ==> ReduceEvent(events[e], factors, conv) == Some(r.value[e])
    ensures r.Err? ==>
      && 1 <= r.error <= |events|
      && ReduceEvent(events[r.error - 1], factors, conv).None?
      && forall e :: 0 <= e < r.error - 1 ==> ReduceEvent(events[e], factors, conv).Some?
  {
    Collect(EventOutcomes(events, factors, conv))
  }

  /** Each event reduced on its own, in event order. */
  function EventOutcomes(events: seq<seq<Row>>, factors: Option<map<string, real>>, conv: Conversions): (r: seq<Option<seq<Driver>>>)
    ensures |r| == |events| && forall e :: 0 <= e < |events| ==> r[e] == ReduceEvent(events[e], factors, conv)
  {
    seq(|events|, e requires 0 <= e < |events| => ReduceEvent(events[e], factors, conv))
  }
}
