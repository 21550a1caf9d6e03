/** A browser session as a sequence of update_result calls: Dash keeps the
    returned case count in the hidden "cases" element and passes it to the
    next call; a call that raises leaves the element as it was. */
module Session {
  import opened Wrappers
  import opened Callbacks

  /** One firing of update_result: the triggering property id and the
      dropdown and slider values at that moment. */
  datatype Event = Event(propId: string, county: string, attendees: nat)

  /** The hidden element's content and how many case-count queries ran. */
  datatype State = State(cache: Option<nat>, fetches: nat)

  predicate IsCountySelection(e: Event) {
    ComponentId(e.propId) == CountyDropdown
  }

  /** How many events come from the county dropdown. */
  function CountySelections(events: seq<Event>): (n: nat)
    ensures n <= |events|
  {
    if |events| == 0 then 0
    else (if IsCountySelection(events[0]) then 1 else 0) + CountySelections(events[1..])
  }

  function Step(s: State, e: Event, populations: map<string, nat>, fetch: string -> Option<nat>): State {
    var reply := UpdateResult(e.propId, e.county, e.attendees, s.cache, populations, fetch);
    State(if reply.result.Success? then Some(reply.result.value.cases) else s.cache,
          s.fetches + (if reply.fetched then 1 else 0))
  }

  function Run(events: seq<Event>, s: State, populations: map<string, nat>,
               fetch: string -> Option<nat>): State
    decreases |events|
  {
    if |events| == 0 then s else Run(events[1..], Step(s, events[0], populations, fetch), populations, fetch)
  }

  /** Once a count is cached, queries run exactly once per county selection,
      whether or not the calls succeed, and a count stays cached. */
  lemma {:induction false} WarmSessionFetchesPerSelection(events: seq<Event>, s: State,
                                                          populations: map<string, nat>,
                                                          fetch: string -> Option<nat>)
    requires s.cache.Some?
    ensures Run(events, s, populations, fetch).cache.Some?
    ensures Run(events, s, populations, fetch).fetches == s.fetches + CountySelections(events)
    decreases |events|
  {
    if |events| > 0 {
      WarmSessionFetchesPerSelection(events[1..], Step(s, events[0], populations, fetch), populations, fetch);
    }
  }

  /** Slider moves alone never query and never change the cached count. */
  lemma {:induction false} SliderOnlySessionKeepsCache(events: seq<Event>, s: State,
                                                       populations: map<string, nat>,
                                                       fetch: string -> Option<nat>)
    requires s.cache.Some?
    requires forall i :: 0 <= i < |events| ==> !IsCountySelection(events[i])
    ensures Run(events, s, populations, fetch) == s
    decreases |events|
  {
    if |events| > 0 {
      var e := events[0];
      var reply := UpdateResult(e.propId, e.county, e.attendees, s.cache, populations, fetch);
      assert !reply.fetched;
      assert Step(s, e, populations, fetch) == s;
      SliderOnlySessionKeepsCache(events[1..], s, populations, fetch);
    }
  }

  /** From a fresh page, with every query answering and every county known,
      the first event queries whatever triggered it and afterwards only
      county selections query. */
  lemma ColdSessionFetches(events: seq<Event>, s: State, populations: map<string, nat>,
                           fetch: string -> Option<nat>)
    requires s.cache.None? && |events| > 0
    requires forall i :: 0 <= i < |events| ==>
               fetch(events[i].county).Some? && events[i].county in populations
               && populations[events[i].county] > 0
    ensures Run(events, s, populations, fetch).cache.Some?
    ensures Run(events, s, populations, fetch).fetches ==
            s.fetches + CountySelections(events) + (if IsCountySelection(events[0]) then 0 else 1)
  {
    var t := Step(s, events[0], populations, fetch);
    assert t.cache.Some? && t.fetches == s.fetches + 1;
    WarmSessionFetchesPerSelection(events[1..], t, populations, fetch);
  }
}
