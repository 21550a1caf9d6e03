# COVID-19 gathering risk calculator — Dafny model

This project models the computational core of a small Dash web application
(`app.py`) that estimates the chance that at least one person infected with
COVID-19 attends a gathering in a California county. Around the page layout
sit four pieces of logic, each modelled here as pure functions with proved
contracts:

- **County registry** (`get_county_info`, module `Counties`): the census table
  is read once; the header row is skipped, each label such as
  `"Yolo County, California"` is cleaned with the regular expression
  `.+?(?= County)` (first `re.findall` match, modelled with the lazy
  quantifier, the look-ahead and `.` not matching a newline), populations are
  stored by cleaned name with later rows overwriting earlier ones, and the
  dropdown menu lists the names in sorted order as `{label, value}` pairs.
- **Cache decision** (`update_result`, module `Callbacks`): the case count is
  queried again exactly when the county dropdown triggered the callback or the
  hidden `cases` element is still empty; otherwise the cached count is reused.
  The count used for the risk is the one written back to the hidden element.
  The query itself (`get_covid_data`) is an oracle `string -> Option<nat>`.
  `Callbacks.NeedsFetch` is the rule itself, `Callbacks.ResolveCases` the
  first two lines of the callback, and `Callbacks.UpdateResult` the whole of it.
- **Risk arithmetic** (module `Risk`): the prevalence `round(cases/population, 3)`
  is kept as a natural number of thousandths, and the risk
  `(1 - (1 - prevalence) ** attendees) * 100` is computed exactly over `real`
  and rounded half-to-even to a whole percentage, as Python's `round` does.
  `Risk.Prevalence` is line 255, `Risk.RiskPercent` line 256 and
  `Risk.RoundedRisk` line 257; their properties are stated by the lemmas in
  the table below.
- **Labels** (modules `Callbacks`, `Decimal`): `"{risk} %"` and the attendee
  label, singular `"person (just yourself)"` exactly for one attendee. Both
  are stated as round trips through `Decimal.ParseInt`, which accepts only the
  exact text `str()` writes, so the contracts fix each label character for
  character.

Module `Session` strings callbacks together the way the Dash runtime does:
`Session.Step` is one call of `update_result`, keeping the returned case count
in the hidden element (or the old one when the call raises) and counting the
queries, and `Session.Run` folds `Step` over a sequence of events; and module `Ordering` holds Python's string order and the sorted
insertion behind `sorted()`. `Wrappers` defines `Option`, `Result` and the
errors the program raises.

Several things the code does may surprise a reader; the model follows the
code in each:

- a census label with no match for the pattern raises `IndexError` and aborts
  the whole registry load (it is not skipped): `Populations` and
  `GetCountyInfo` fail with `NoCountyName`;
- a null case sum is passed to `int()` and raises, so the oracle's `None`
  makes the callback fail with `FetchFailed` instead of counting zero cases;
- when the cache rule calls for a query (dropdown trigger, or nothing
  cached), an unknown county is still queried first; `COUNTY_POPS.get` then
  returns `None` and the division `cases/population` raises `TypeError`,
  modelled as `UnknownCounty`; with a slider trigger and a cached count no
  query runs and the same division fails. A population of zero raises
  `ZeroDivisionError`, modelled as `ZeroPopulation`;
- the hidden element stores the case count only, not the county it belongs
  to, so a slider move reuses the count even if it was fetched for a
  different county;
- the risk is not clamped: a prevalence above one can yield values outside
  [0, 100] (one attendee at prevalence 2 gives 200), and the range lemmas require a prevalence of at most 1000
  thousandths.

## Model

| member | source | states |
|---|---|---|
| Counties.CleanName | app.py:40 | The cleaned name exists exactly when some substring matches `.+?(?= County)`, and is then the first match `re.findall` returns (earliest start, shortest length); otherwise the error names the raw label. |
| Counties.LazyEnd | app.py:40 | From a fixed start, the lazy `.+?` stops at the first position followed by `" County"`, and fails exactly when no newline-free match starts there. |
| Counties.FirstMatch | app.py:40 | Scanning starts left to right finds the earliest start with a match, or proves no match exists anywhere. |
| Counties.CleanNameIsPrefix | app.py:40 | When the text before the first `" County"` at a position of at least 1 contains no newline, that text is the cleaned name. |
| Counties.CleanNameOneLine | app.py:40 | For a one-line label, cleaning succeeds exactly when `" County"` occurs at a position of at least 1, and yields the prefix before the first such occurrence. |
| Counties.CleanNameOfLabel | app.py:40 | A label `name + " County" + rest` cleans to `name` whenever `name` is one line and no `" C"` starts inside it. |
| Counties.CleanNameExample | app.py:40 | `"Yolo County, California"` cleans to `"Yolo"`, the example in the source comment. |
| Counties.CleanNameKeepsInnerSpaces | app.py:40 | `"Los Angeles County, California"` cleans to `"Los Angeles"`. |
| Counties.CleanNameNeedsAPrefix | app.py:40 | The labels `" County"` (suffix at the very start) and `"Yolo"` (no suffix) make the cleaning raise instead of yielding a name. |
| Counties.FailsFirstAtShift | app.py:39-40 | A row that cleans placed in front moves the first failing row back by one, with the same error. |
| Counties.CleanRows | app.py:39-41 | All rows clean exactly when each label cleans; the entries keep row order and populations; a failure carries the error of the first row that does not clean. |
| Counties.Table | app.py:38-42 | The keys are exactly the entries' names, and a name takes the population of its last entry. |
| Counties.Populations | app.py:38-42 | The table is built exactly when every row's label cleans; otherwise the error is that of the first failing row. |
| Counties.PopulationKeys | app.py:39-42 | A name is a key of the population table exactly when some row cleans to it. |
| Counties.PopulationLastRowWins | app.py:39-42 | When the table loads, a row that no later row matches by cleaned name has its population stored under that name, so on duplicates the last row wins. |
| Counties.DataRows | app.py:39 | `data[1:]`: every row but the header, shifted by one, and nothing for an empty table. |
| Counties.BuildMenu | app.py:44-47 | The menu lists every key of the population table once, in strictly increasing string order, with each label equal to its value. |
| Counties.MenuIsUnique | app.py:44-45 | Only one menu satisfies these conditions for a set of names, so the result does not depend on the order the keys are visited. |
| Counties.MenuSize | app.py:44-47 | The menu has exactly one entry per distinct county name. |
| Counties.GetCountyInfo | app.py:38-48 | The header row is skipped. The load succeeds exactly when every later row's label cleans, and otherwise fails with the first failing row's error. The table is built from rows 1 onward, and the menu is the sorted menu of its keys. |
| Ordering.LessIrreflexive | app.py:45 | No name sorts before itself in Python's string order. |
| Ordering.LessTransitive | app.py:45 | Python's string order is transitive, so a sorted list is ordered between every pair, not just neighbours. |
| Ordering.LessTotal | app.py:45 | Of two different names one sorts first, so `sorted()` has a unique answer for distinct keys. |
| Ordering.Insert | app.py:45 | Inserting into a strictly sorted list keeps it strictly sorted and adds exactly the new name. |
| Ordering.SortedUnique | app.py:45 | Two strictly sorted lists with the same elements are equal: sorting a set of names has one answer. |
| Decimal.NatToString | app.py:258 | `str(n)` is a non-empty string of digits with no leading zero unless n is 0. |
| Decimal.NatToStringRoundTrip | app.py:272 | The decimal digits of `str(n)` for a natural n read back as n. |
| Decimal.IntToStringRoundTrip | app.py:258 | Parsing `str(i)` gives back i for every int, negative ones included. |
| Decimal.ParseIntCanonical | app.py:258 | Whatever `ParseInt` reads as i is exactly `str(i)`: the converse of the round trip. |
| Decimal.CanonicalRoundTrip | app.py:258 | A digit string with no leading zero is `str()` of its value. |
| Decimal.LeadingDigitPositive | app.py:258 | A digit string that does not start with `'0'` has a positive value, so `"-0"` is never a rendering. |
| Decimal.ParseIntRejectsNonCanonical | app.py:258 | `"01"`, `"-0"`, `"-"` and `""` read as nothing, since `str()` never writes them. |
| Decimal.IntToStringInjective | app.py:258 | Different ints never render to the same string. |
| Risk.RoundHalfEven | app.py:257 | `round(x)` is an integer within 1/2 of x, and the even one on a tie. |
| Risk.RoundHalfEvenUnique | app.py:257 | Any integer within 1/2 of x that is even on a tie equals `round(x)`. |
| Risk.RoundHalfEvenMonotone | app.py:257 | Rounding preserves the order of its arguments. |
| Risk.Prevalence | app.py:255 | With no more cases than people the rounded prevalence is at most 1000 thousandths. |
| Risk.PrevalenceIsRoundedRatio | app.py:255 | The integer computation of the prevalence equals `round(1000 * cases / population)` over exact rationals, ties to even. |
| Risk.RiskInRange | app.py:256 | For a prevalence in [0, 1] the unrounded risk lies in [0, 100]. |
| Risk.RiskWithoutAttendees | app.py:256 | With zero attendees the risk is exactly 0. |
| Risk.RiskAtExtremes | app.py:256 | A prevalence of 0 gives risk 0, and a prevalence of 1 gives 100 for one or more attendees. |
| Risk.RiskMonotoneInAttendees | app.py:256 | For a fixed prevalence in [0, 1] the risk never decreases as attendees are added. |
| Risk.RiskMonotoneInPrevalence | app.py:255-256 | For a fixed attendee count and prevalences up to 1 (1000 thousandths), a higher prevalence never gives a lower risk. |
| Risk.RoundedRiskInRange | app.py:255-257 | The displayed whole-percent risk lies in [0, 100] and is 0 with no attendees. |
| Risk.RoundedRiskMonotoneInAttendees | app.py:255-257 | The displayed risk never decreases as attendees are added. |
| Risk.RiskScenario | app.py:253-257 | 3,000 cases in 1,000,000 people give prevalence 0.003, and 50 attendees give a displayed risk of 14 (about 13.9 before rounding). |
| Callbacks.ComponentId | app.py:251 | `prop_id.split('.')[0]` is the longest prefix without a dot. |
| Callbacks.ComponentIdOf | app.py:251 | The component of `"component.property"` is `component` whenever it has no dot. |
| Callbacks.ResolveCases | app.py:250-252 | The query runs exactly when the county dropdown triggered or nothing is cached. A successful query's count is used, and a failed query's error is returned. Otherwise the cached count is used unchanged. |
| Callbacks.ResultLabel | app.py:258 | The result label reads back as the displayed risk followed by `" %"`, through a parser that accepts only `str()`'s exact text. |
| Callbacks.ResultLabelIsExact | app.py:258 | Any text that reads back as a risk is that risk's label, so the label is exactly `str(risk) + " %"`. |
| Callbacks.RiskUpdate | app.py:253-259 | The update succeeds exactly for a known county with a positive population. The count it returns is the count the risk was computed from. The risk is in [0, 100] when cases do not exceed the population. |
| Callbacks.UpdateResult | app.py:249-259 | `fetched` holds exactly under the cache rule. The call succeeds exactly when the needed query answers and the county's population is known and positive. The count returned to the hidden element is the fresh one or the unchanged cached one. The risk and label are computed from that same count. |
| Callbacks.SliderMoveReusesCache | app.py:251-259 | A slider trigger with a cached count runs no query and writes the same count back. |
| Callbacks.CountySelectionFetches | app.py:251-252 | A dropdown trigger always queries, whatever is cached, so re-selecting the same county refreshes the count. |
| Callbacks.FirstCallFetches | app.py:251-252 | With nothing cached every trigger queries, including Dash's initial call whose property id `"."` has an empty component. |
| Callbacks.ReplayFromCacheIsStable | app.py:251-259 | Re-running with a slider trigger on the cached count gives the same reply without a query. |
| Callbacks.UpdateResultScenario | app.py:249-259 | On first load, Los Angeles with 1,000,000 people, 3,000 cases and 50 attendees displays 14 and `"14 %"` and caches 3,000. |
| Callbacks.AttendeeLabel | app.py:266-274 | The phrase is `"person (just yourself) attending"` exactly when there is one attendee and `"people attending"` otherwise. The bold part reads back as the count followed by a space. |
| Callbacks.AttendeeCountIsExact | app.py:272 | Any text ending in a space whose prefix reads back as the count is the label's bold part, so it is exactly `str(attendees) + " "`. |
| Callbacks.AttendeeLabelExamples | app.py:266-274 | One attendee gives `"1 "` + `"person (just yourself) attending"`, and two give `"2 "` + `"people attending"`. |
| Session.WarmSessionFetchesPerSelection | app.py:244-252 | Once a count is cached, a session runs exactly one query per county selection, and a count stays cached. |
| Session.SliderOnlySessionKeepsCache | app.py:246-259 | A run of slider moves on a cached count runs no query and leaves the cached count as it was. |
| Session.ColdSessionFetches | app.py:251-252 | From a fresh page with answering queries and known counties, the query count is the number of county selections, plus one when the first event was not a selection. |

## Left out

- HTTP calls to the census API and the state case-count endpoint (app.py:26-36, 51-66): the table arrives as rows already split into a label and an integer population, and the case-count query is an oracle function; the SQL text, JSON shapes, the 14-day window and network failures are not modelled beyond the oracle returning `None`.
- Parsing `int(county[1])` and the header row's content: rows carry a `nat` population, so a malformed population string is not modelled; the header is skipped whatever it holds.
- The slider transform `round(10 ** value)` (app.py:253, 267): both callbacks take the resulting attendee count as a `nat`.
- IEEE double arithmetic: prevalence and risk are computed on exact rationals and reals, so a tie or near-tie that Python's floating-point `round` and `**` resolve differently is not reproduced.
- Negative case counts (possible if the upstream sum included corrections): counts are `nat`.
- Dash layout, components, styling and callback registration (app.py:1-23, 69-238, 241-248, 262-265, 278-279); the attendee label's HTML structure is reduced to its two text parts.
- Concurrency and multiple browser sessions: one session is one sequence of callbacks.
- Counties.Populations: its own contract states only when the load succeeds or fails; the keys and the last-row-wins values are stated by Counties.PopulationKeys and Counties.PopulationLastRowWins.
