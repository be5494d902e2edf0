# Autocross PAX and season scoring, modelled in Dafny

This project models the scoring engine of an autocross (SCCA Solo) results
calculator. The engine has two pure stages and one small scan.

- **Run reduction** (`fastest` in `pax.py`). Each event table row carries up
  to three runs written `<time>[+<suffix>]`. Each run is read as follows:
  - A run with no suffix, or with an empty suffix, is its base time.
  - A run whose lower-cased suffix is `dnf` is a DNF.
  - Any other suffix must be an integer cone count `c`, and the run counts
    `time + 2c`. Anything else makes `int()` or `float()` raise.

  Each row keeps its fastest effective time, using a strict `<` so that ties
  go to the earliest run, together with that run's cone count. A row with
  only DNFs gets the `'dnf'` marker. The time is optionally multiplied by the
  class's PAX factor and rounded to three decimals. Each event's list is then
  stably sorted by time, with a missing time sorted as 999.9. An unreadable
  run fails the whole call.
- **Season aggregation** (`season` in `pro.py`). Within each event, the first
  driver with a (truthy) time is the baseline. Every timed driver scores
  `baseline / time × 100`. Scores are gathered per driver name, in
  first-seen order. Each driver then gets a line with four figures:
  - a drop-aware total, the sum of the best `k` scores, where
    `k = min(n, min_events)`, or `n` when `min_events` is 0;
  - the drop-aware average, that total divided by `k`;
  - an all-events total;
  - the all-events average.

  The lines are stably sorted best first, by the drop-aware average or the
  drop-aware total.
- **Factor-table cell scan** (the loop in `get_pax`). This is a fold over the
  PAX table's cells, read row by row. A text cell sets a pending lower-cased
  class name. A following number of at most 1.0 records that class's factor
  and clears the pending name. The row index that `itertuples` puts first
  in each row is simply one more numeric cell in the sequence.

Modules:

- `Wrappers` has `Option` and `Result`.
- `Text` covers ASCII `lower`, `replace(c, '')` and `split('+')`. It proves
  that `split` is inverted by joining.
- `StableSort` has a functional stable insertion sort by a real key. It is
  specified by sortedness, permutation and stability, and proved to be the
  only sequence with those three properties. It also has the descending sort
  and `sum`.
- `Pax` models `pax.py`.
- `Pro` models `pro.py`.

Python's conversions `float(text)`, `int(text)` and `round(x, 3)` are
parameters of the model. They are the `Conversions` record, and a `None`
from a parser is the exception Python raises. Python truthiness is modelled
as written: a time of `0.0` counts as "no time" in both `not fastest` and
`not driver.time`. Events are a sequence, so event number `pe` sits at
index `pe - 1`. A failed call reports the number of the first event that
failed.

The model keeps these details of the code exactly:

- Apart from the empty suffix (`pax.py` lines 75-76), which is read with
  `float()` alone, only the `dnf` suffix is special (lines 69-73). Any other
  suffix, `off` included, reaches `int()` (line 79) and raises when it is not
  an integer.
- The class key removes only the letter `l` (`pax.py` line 91).
- Driver names pass through unchanged into the record (`pax.py` line 95).

## Model

| member | source | states |
|---|---|---|
| Pax.FactorTableSound | pax.py:34-42 | Every recorded factor is at most 1.0 and is the value of some numeric cell. Its key is non-empty and is the lower-cased text of some text cell. A pending name also comes from a text cell. |
| Pax.FactorTableComplete | pax.py:34-42 | A non-empty class name immediately followed by a number of at most 1.0 always ends up in the table, and right after that number its factor is exactly that number. |
| Pax.FactorTableLastWrite | pax.py:34-42 | The last write wins: when no later label names the same class, the finished table holds the number that followed the label as that class's factor. |
| Pax.FactorKeysGrow | pax.py:34-42 | Scanning further cells never removes a class from the table. |
| Pax.OneFactorPerLabel | pax.py:36-42 | Recording a factor clears the pending name. So the number of factors recorded, plus one if a name is still pending, is at most the number of text cells. |
| Pax.RunWithoutSuffix | pax.py:65-82 | A run with no `+` is its parsed base time with no cones. It fails exactly when the base does not parse. |
| Pax.RunWithEmptySuffix | pax.py:65-76 | `base+` is the parsed base time with no cones. Text after a second `+` is ignored. |
| Pax.RunWithDnfSuffix | pax.py:65-74 | `base+dnf`, in any letter case, is a DNF whatever the base text is, and never fails. |
| Pax.RunWithConeSuffix | pax.py:65-80 | Any other suffix succeeds exactly when the lower-cased suffix parses as an integer `c` and the base parses as a time `t`. The effective time is then `t + 2c` with `c` cones. So `off` fails, since `int('off')` raises. |
| Pax.ClassifyAll | pax.py:61-82 | A row's runs are read in order. The row fails exactly when one of its runs fails, and otherwise keeps each run's outcome at its position. |
| Pax.BestTimeComesFromARun | pax.py:61-86 | Any best time is the effective time of some timed run. A cone penalty is positive and belongs to a timed run with exactly that time and count. |
| Pax.BestIsEarliestMinimum | pax.py:61-86 | With no zero times, there is a best time exactly when some run is timed. That time is the minimum effective time. Ties go to the earliest run, because each earlier timed run is strictly slower. The penalty is that run's cone count, or none for zero cones, so an earlier DNF marker is overwritten. |
| Pax.UntimedRow | pax.py:68-86 | A row with no timed run has no time. Its penalty is the DNF marker exactly when one of its runs was a DNF, and none otherwise. |
| Pax.MissingRunsIgnored | pax.py:61-63 | Dropping the missing runs leaves the reduced state unchanged. |
| Pax.ZeroTimeIsReplaced | pax.py:83-86 | Under Python truthiness a 0.0 best time counts as "no time yet": the next timed run replaces it, however slow, and its cone count becomes the penalty. |
| Pax.ClassKeyProperties | pax.py:91 | The class key has no `l` and no upper-case letter, and applying it twice changes nothing. It does not depend on letter case or on a trailing ladies `L`/`l`. |
| Pax.ClassKeyExample | pax.py:91 | The key of `CSPL` is `csp`. |
| Pax.Normalise | pax.py:87-94 | A normalised time exists exactly when a best time exists. With a best time and a table holding the class key, the time becomes the best time multiplied by the class factor and rounded to three decimals. With normalisation off, or with a class missing from the table, the time is unchanged, and no error is raised. |
| Pax.NormaliseIgnoresCaseAndLadies | pax.py:87-94 | Normalisation gives the same time for a class written in any case, and with or without a ladies `L`. |
| Pax.ReduceRow | pax.py:57-95 | A row yields a record exactly when all three of its runs can be read. The record carries the row's class, car number and driver name unchanged. |
| Pax.ReduceRowRecord | pax.py:61-95 | When the three runs read as given outcomes, the row's record is its class, number and name with the fastest effective time of those runs (normalised) and that run's penalty, as the run reduction computes them. |
| Pax.ReduceRows | pax.py:57-98 | An event's rows give one record per row, in row order, or fail when any row fails. |
| Pax.ReduceEventSpec | pax.py:57-101 | An event fails exactly when some row fails. Otherwise its list has one entry per row and is a permutation of the row records. It is ordered by time with a missing time as 999.9, and records with equal keys stay in row order. |
| Pax.EveryRowListed | pax.py:57-101 | When an event succeeds, every row has a record and that record is in the event's list. |
| Pax.Fastest | pax.py:47-102 | One result list per event, in event order. The call fails exactly when some event fails, and then reports the number of the first failing event. |
| StableSort.SortBy | pax.py:101 | The sort gives a permutation of its input, ordered ascending by the key, in which elements with equal keys keep their input order (`list.sort` is stable). |
| StableSort.StableSortUnique | pax.py:101 | Any sequence ordered by the key and keeping every equal-key group in input order is the sort's result. |
| StableSort.SortDescBy | pro.py:68 | `sorted(..., reverse=True)` gives a permutation ordered descending by the key, in which elements with equal keys keep their input order. |
| StableSort.SortDescending | pro.py:56 | `list.sort(reverse=True)` on a driver's scores gives a permutation of them ordered from largest to smallest. |
| StableSort.DescendingIsUnique | pro.py:56 | Two lists of scores that are both ordered from largest to smallest and hold the same scores are equal, so the sorted scores do not depend on how the sort works. |
| StableSort.SumPermutation | pro.py:56-63 | Sorting a driver's scores before summing them does not change the sum. |
| Text.Split | pax.py:65 | `split('+')` gives one more piece than there are `+` signs. No piece contains `+`, and joining the pieces with `+` gives back the text. |
| Text.SplitJoin | pax.py:65 | Joining `+`-free pieces with `+` and splitting again gives back the pieces. |
| Text.RemoveSpec | pax.py:91 | `replace('l', '')` leaves no `l` behind and shortens the text by the number of `l`s removed. It is the identity on text without `l`. |
| Text.RemoveCounts | pax.py:91 | Every character other than `l` occurs in the result exactly as often as in the class text. |
| Text.RemoveDistributes | pax.py:91 | Removal works piece by piece: removing from a concatenation concatenates the two removals, so the kept characters stay in order. |
| Pro.BaselineIsFirstScored | pro.py:42-48 | An event has a baseline exactly when some driver has a truthy time, and the baseline is the first such driver's time. |
| Pro.EventScoresSpec | pro.py:43-50 | Exactly the drivers with a truthy time get a score, one each and in list order. The first of them scores exactly 100, and every other one scores baseline ÷ own time × 100. |
| Pro.ScoresAtMostHundred | pro.py:43-50 | On a list ordered fastest first, as run reduction produces it, every score lies in (0, 100]. |
| Pro.RecordLookup | pro.py:50 | `setdefault(name, []).append(pct)` appends the score to that name's list and leaves every other name's list alone. |
| Pro.RecordNames | pro.py:50 | Recording a score adds its name to the set of names and no other name. |
| Pro.RecordUnique | pro.py:50 | Recording keeps each name at most once, as in a dict. |
| Pro.RecordKeepsOrder | pro.py:50 | Names already present keep their positions, and a new name is added at the end with a one-score list. |
| Pro.PointsSpec | pro.py:39-50 | Over the whole season, names are unique. Each name's gathered list equals the reference definition: its scores event by event, in order. |
| Pro.PointsFirstSeenOrder | pro.py:39-50 | Adding later events never moves a driver already seen, so the gathered drivers stay in first-seen order. |
| Pro.LookupSpec | pro.py:50-54 | In the gathered table a name has scores exactly when it is present, and then its entry holds them. |
| Pro.TopScoresSpec | pro.py:56-60 | The top `k` are `k` of the driver's scores, and every score left out is no larger than every score kept. |
| Pro.StandingSpec | pro.py:54-65 | The line's fields are fixed by the scores and the cutoff: `k` = min(n, min_events), or n when min_events is 0, and 1 ≤ k ≤ n. The drop-aware total is the sum of the `k` best scores and its average is that total ÷ k. The all-events total is the sum of all scores and its average is that total ÷ n. With no cutoff, or a cutoff of at least n, the drop-aware figures equal the all-events ones. |
| Pro.StandingOfDescending | pro.py:56-65 | For scores already best first, the drop-aware figures cover the first `k` scores and the all-events figures cover all of them. |
| Pro.DropRuleExample | pro.py:56-65 | Scores 100, 95, 90 and 80 with a cutoff of 3 give totals 285 and 365 and averages 95 and 91.25 over 4 events. |
| Pro.Season | pro.py:68 | The season lines are ordered descending by the ranking key, and lines with equal keys keep first-seen driver order. The result is a permutation of the per-driver lines. |
| Pro.LinesSpec | pro.py:53-65 | The per-driver lines have distinct names, each covers at least one event, and each is computed from that driver's scores as the reference definition gathers them. |
| Pro.SeasonLines | pro.py:35-68 | The standings have exactly one line per driver name with at least one score, and names are distinct. Each line counts n ≥ 1 events, so nothing divides by zero, and each is computed from that driver's own scores. |
| Pro.NamePresence | pro.py:39-68 | A name appears in the standings exactly when the driver has at least one score. |
| Pro.EmptySeason | pro.py:39-68 | With no events the standings are empty. |

## Left out

- Downloading, caching and reading the PAX table (`get_pax`'s download, `save_pax`, `read_pax`) is file and network I/O. The factor map is a parameter of `Fastest`. The three-decimal text format of the cache, which rounds the factors `fastest` sees, is not modelled.
- `parser.py` is not part of this model. It does HTTP scraping, CSV caching and DataFrame repair.
- `write_results`, `main` and the command-line handling are CSV output and CLI plumbing.
- Floating point is not modelled. Times, factors and scores are exact reals, so summation order and IEEE rounding play no part.
- `float()`, `int()` and `round(x, 3)` are opaque parameters. Decimal parsing and rounding are not proved.
- `str.lower` covers only ASCII letters. Python lower-cases all of Unicode.
- pandas cells are not modelled in general. A run is either missing or a string. A run cell that pandas reads as a number would make `split` raise in the source, and the model does not cover it. A PAX table cell is text, a number or blank (NaN, which compares false).
- A negative `min_events` is not modelled (it is a `nat`). Python would slice from the end.
- The warning and exception `print`s are omitted. An exception is the `Err` value carrying the event number.
- `fastest`'s `pax` argument is simplified. `True` loads the table, a dict is used as given, and `False` turns normalisation off. The model takes the table directly (`None` = off). An empty dict is falsy in Python and also turns normalisation off, which gives the same times as an empty table.
- The results mapping `{1: ..., n: ...}` is a sequence in event order.
- Pax.BestIsEarliestMinimum: assumes no run has an effective time of exactly 0.0. Python treats such a time as falsy, and `Pax.ZeroTimeIsReplaced` shows how it then behaves.
- Pro.ScoresAtMostHundred: assumes times are not negative. A list sorted ascending can still contain a negative time, and then a score can exceed 100 or be negative.
