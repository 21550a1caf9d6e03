/** The two Dash callbacks of the calculator: update_result, which decides
    whether the case count must be fetched again and computes the displayed
    risk, and update_attendee_label. */
module Callbacks {
  import opened Wrappers
  import opened Decimal
  import opened Risk

  /** The component ids the callbacks listen to. */
  const CountyDropdown: string := "county-dropdown"
  const AttendeeSlider: string := "attendee-slider"

  /** prop_id.split('.')[0]: the component part of a triggering property id
      such as "county-dropdown.value"; Dash's initial call reports ".". */
  function ComponentId(propId: string): (r: string)
    ensures r <= propId
    ensures '.' !in r
    ensures |r| < |propId| ==> propId[|r|] == '.'
  {
    if |propId| == 0 || propId[0] == '.' then ""
    else [propId[0]] + ComponentId(propId[1..])
  }

  /** The component of "component.property" is the component. */
  lemma ComponentIdOf(component: string, property: string)
    requires '.' !in component
    ensures ComponentId(component + "." + property) == component
  {
    var s := component + "." + property;
    var r := ComponentId(s);
    assert forall i :: 0 <= i < |component| ==> s[i] == component[i];
    assert s[|component|] == '.';
    assert |r| == |component|;
    assert r == s[..|r|] == component;
  }

  /** The cache decision of update_result: fetch exactly when the county
      dropdown fired or no case count is cached yet. */
  predicate NeedsFetch(propId: string, cached: Option<nat>) {
    ComponentId(propId) == CountyDropdown || cached.None?
  }

  /** Whether the case-count query ran, and the count it resolved to. */
  datatype Resolution = Resolution(fetched: bool, cases: Result<nat, Error>)

  /** The first two lines of update_result. The query (get_covid_data) is an
      oracle: Some(count) for a readable sum, None when the call fails or
      int() cannot read the sum. */
  function ResolveCases(propId: string, county: string, cached: Option<nat>,
                        fetch: string -> Option<nat>): (r: Resolution)
    ensures r.fetched <==> ComponentId(propId) == CountyDropdown || cached.None?
    ensures r.fetched ==> (r.cases.Success? <==> fetch(county).Some?)
    ensures r.fetched && r.cases.Success? ==> fetch(county) == Some(r.cases.value)
    ensures r.fetched && r.cases.Failure? ==> r.cases.error == FetchFailed(county)
    ensures !r.fetched ==> cached.Some? && r.cases == Success(cached.value)
  {
    if NeedsFetch(propId, cached) then
      match fetch(county)
      case Some(cases) => Resolution(true, Success(cases))
      case None => Resolution(true, Failure(FetchFailed(county)))
    else Resolution(false, Success(cached.value))
  }

  /** "{risk} %": the text of the result label. */
  function ResultLabel(risk: int): (s: string)
    ensures ParseResultLabel(s) == Some(risk)
  {
    IntToStringRoundTrip(risk);
    var s := IntToString(risk) + " %";
    assert s[..|s| - 2] == IntToString(risk);
    s
  }

  /** Only the exact text str(risk) + " %" reads back as risk, so the
      contract of ResultLabel fixes the label character for character. */
  lemma ResultLabelIsExact(s: string, risk: int)
    requires ParseResultLabel(s) == Some(risk)
    ensures s == ResultLabel(risk)
  {
    ParseIntCanonical(s[..|s| - 2], risk);
    assert s == s[..|s| - 2] + s[|s| - 2..];
  }

  /** Reads the percentage back out of a result label. */
  function ParseResultLabel(s: string): Option<int> {
    if |s| >= 2 && s[|s| - 2..] == " %" then ParseInt(s[..|s| - 2]) else None
  }

  /** What update_result returns: the thermometer value, the label text and the
      case count written back to the hidden "cases" element. */
  datatype Update = Update(risk: int, caption: string, cases: nat)

  /** The outcome of one callback, and whether it queried the case count. */
  datatype Reply = Reply(fetched: bool, result: Result<Update, Error>)

  lemma RoundedRiskBounded(cases: nat, population: nat, attendees: nat)
    requires population > 0
    ensures cases <= population ==> 0 <= RoundedRisk(Prevalence(cases, population), attendees) <= 100
  {
    if cases <= population {
      RoundedRiskInRange(Prevalence(cases, population), attendees);
    }
  }

  /** The rest of update_result once the case count is known: look up the
      population, compute the prevalence and the rounded risk, and format the
      label. */
  function RiskUpdate(county: string, cases: nat, attendees: nat,
                      populations: map<string, nat>): (r: Result<Update, Error>)
    ensures r.Success? <==> county in populations && populations[county] > 0
    ensures r.Failure? ==> r.error == (if county !in populations then UnknownCounty(county) else ZeroPopulation(county))
    ensures r.Success? ==> r.value.cases == cases
    ensures r.Success? ==> r.value.risk == RoundedRisk(Prevalence(cases, populations[county]), attendees)
    ensures r.Success? ==> ParseResultLabel(r.value.caption) == Some(r.value.risk)
    ensures r.Success? && cases <= populations[county] ==> 0 <= r.value.risk <= 100
  {
    if county !in populations then Failure(UnknownCounty(county))
    else if populations[county] == 0 then Failure(ZeroPopulation(county))
    else
      RoundedRiskBounded(cases, populations[county], attendees);
      var risk := RoundedRisk(Prevalence(cases, populations[county]), attendees);
      Success(Update(risk, ResultLabel(risk), cases))
  }

  /** update_result. The attendee count is the already converted
      round(10 ** slider); populations is COUNTY_POPS. The query runs before
      the population lookup, so an unknown county still costs a fetch. */
  function UpdateResult(propId: string, county: string, attendees: nat, cached: Option<nat>,
                        populations: map<string, nat>, fetch: string -> Option<nat>): (r: Reply)
    ensures r.fetched <==> NeedsFetch(propId, cached)
    ensures r.result.Success? <==> (!r.fetched || fetch(county).Some?) && county in populations
                                   && populations[county] > 0
    ensures r.result.Success? && !r.fetched ==> cached == Some(r.result.value.cases)
    ensures r.result.Success? && r.fetched ==> fetch(county) == Some(r.result.value.cases)
    ensures r.result.Success? ==>
              r.result.value.risk == RoundedRisk(Prevalence(r.result.value.cases, populations[county]), attendees)
    ensures r.result.Success? ==> ParseResultLabel(r.result.value.caption) == Some(r.result.value.risk)
    ensures r.result.Success? && r.result.value.cases <= populations[county] ==> 0 <= r.result.value.risk <= 100
    ensures r.result.Failure? && r.fetched && fetch(county).None? ==> r.result.error == FetchFailed(county)
  {
    var resolution := ResolveCases(propId, county, cached, fetch);
    if resolution.cases.Failure? then Reply(resolution.fetched, Failure(resolution.cases.error))
    else Reply(resolution.fetched, RiskUpdate(county, resolution.cases.value, attendees, populations))
  }

  /** Moving the slider with a count cached reuses that count: no query runs
      and the hidden element receives the same count back. */
  lemma SliderMoveReusesCache(property: string, county: string, attendees: nat, cases: nat,
                              populations: map<string, nat>, fetch: string -> Option<nat>)
    ensures ResolveCases(AttendeeSlider + "." + property, county, Some(cases), fetch) == Resolution(false, Success(cases))
    ensures var r := UpdateResult(AttendeeSlider + "." + property, county, attendees, Some(cases), populations, fetch);
            !r.fetched && (r.result.Success? ==> r.result.value.cases == cases)
  {
    ComponentIdOf(AttendeeSlider, property);
  }

  /** A county selection always queries, whatever is cached, so selecting the
      county that is already shown refreshes its count; the count stored is
      the fresh one. */
  lemma CountySelectionFetches(property: string, county: string, attendees: nat, cached: Option<nat>,
                               populations: map<string, nat>, fetch: string -> Option<nat>)
    ensures var r := UpdateResult(CountyDropdown + "." + property, county, attendees, cached, populations, fetch);
            r.fetched && (r.result.Success? ==> fetch(county) == Some(r.result.value.cases))
  {
    ComponentIdOf(CountyDropdown, property);
  }

  /** With nothing cached every trigger queries, including Dash's initial
      call whose property id is ".". */
  lemma FirstCallFetches(propId: string, county: string, attendees: nat,
                         populations: map<string, nat>, fetch: string -> Option<nat>)
    ensures UpdateResult(propId, county, attendees, None, populations, fetch).fetched
    ensures ComponentId(".") == ""
  {
  }

  /** Feeding the count a callback stored back in with a slider trigger
      reproduces the same display without a query: the count written to the
      cache is the one the displayed risk was computed from. */
  lemma ReplayFromCacheIsStable(propId: string, property: string, county: string, attendees: nat,
                                cached: Option<nat>, populations: map<string, nat>,
                                fetch: string -> Option<nat>)
    requires UpdateResult(propId, county, attendees, cached, populations, fetch).result.Success?
    ensures var first := UpdateResult(propId, county, attendees, cached, populations, fetch);
            UpdateResult(AttendeeSlider + "." + property, county, attendees,
                         Some(first.result.value.cases), populations, fetch)
            == Reply(false, first.result)
  {
    ComponentIdOf(AttendeeSlider, property);
  }

  /** The worked example: Los Angeles with a population of 1,000,000 and
      3,000 recent cases, 50 attendees, on first load. */
  lemma UpdateResultScenario(fetch: string -> Option<nat>)
    requires fetch("Los Angeles") == Some(3000)
    ensures UpdateResult(".", "Los Angeles", 50, None, map["Los Angeles" := 1000000], fetch)
            == Reply(true, Success(Update(14, "14 %", 3000)))
  {
    RiskScenario();
    assert DigitChar(1) == '1' && DigitChar(4) == '4';
    assert NatToString(14) == NatToString(1) + [DigitChar(4)] == "14";
    assert ResultLabel(14) == "14 %";
  }

  /** The attendee label: the bold count followed by a space, then the noun
      phrase and "attending". */
  datatype AttendeeText = AttendeeText(count: string, phrase: string)

  /** update_attendee_label for an attendee count already converted by
      round(10 ** slider). */
  function AttendeeLabel(attendees: nat): (r: AttendeeText)
    ensures r.phrase == "person (just yourself) attending" <==> attendees == 1
    ensures r.phrase == "people attending" <==> attendees != 1
    ensures |r.count| >= 2 && r.count[|r.count| - 1] == ' '
    ensures ParseInt(r.count[..|r.count| - 1]) == Some(attendees)
  {
    var digits := IntToString(attendees);
    IntToStringRoundTrip(attendees);
    var count := digits + " ";
    assert count[..|count| - 1] == digits;
    var people := if attendees == 1 then "person (just yourself)" else "people";
    AttendeeText(count, people + " attending")
  }

  /** Only str(attendees) + " " meets the count part of the contract, so it
      fixes the bold text character for character. */
  lemma AttendeeCountIsExact(count: string, attendees: nat)
    requires |count| >= 1 && count[|count| - 1] == ' '
    requires ParseInt(count[..|count| - 1]) == Some(attendees)
    ensures count == AttendeeLabel(attendees).count
  {
    var c := AttendeeLabel(attendees).count;
    ParseIntCanonical(count[..|count| - 1], attendees);
    ParseIntCanonical(c[..|c| - 1], attendees);
    assert count == count[..|count| - 1] + [' '];
    assert c == c[..|c| - 1] + [' '];
  }

  lemma AttendeeLabelExamples()
    ensures AttendeeLabel(1) == AttendeeText("1 ", "person (just yourself) attending")
    ensures AttendeeLabel(2) == AttendeeText("2 ", "people attending")
  {
  }
}
