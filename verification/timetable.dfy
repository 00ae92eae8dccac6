/** The timetable extractor (`ProcessData`): given one parsed schedule
    document and a target stop code, the arrival times at that stop grouped
    by destination.

    Every journey is walked in document order; for each section reference of
    its pattern, the section's timing links are scanned while a clock that
    started at the departure time runs forward by each link's run time. A link
    leaving the target stop records the clock plus that link's run time and
    ends the scan of that section, without moving the clock. Any failure
    empties the whole result. */
module Timetable {
  import opened Options
  import opened Clock
  import opened Whitespace
  import opened Schedule
  import opened Grouping

  /** The first `Service/Lines/Line/LineName` text; `None` when the document
      has no such element (indexing the empty XPath result raises). */
  function GetLineNumber(doc: Document): (r: Option<Text>)
    ensures r.Some? <==> |doc.lineNames| > 0
    ensures r.Some? ==> r.value == doc.lineNames[0]
  {
    if |doc.lineNames| == 0 then None else Some(doc.lineNames[0])
  }

  /** Whether any StopPointRef element of the document has the target code as
      its text: the fast-reject check. */
  predicate IsAtcoCodeThere(doc: Document, target: string) {
    Text(target) in StopRefs(doc)
  }

  /** Whether a timing link leaves from the target stop. An element without
      text never equals the target. */
  predicate LeavesFrom(link: TimingLink, target: string) {
    link.from == Some(Text(target))
  }

  /** What scanning one section yields: the clock value recorded at the
      matching link, if any, and the clock carried on to the next section. */
  datatype SectionOutcome = SectionOutcome(hit: Option<nat>, clock: nat)

  /** The inner loop over one section's timing links, `None` when a link it
      reaches lacks its From stop or its run time. */
  function ScanLinks(links: seq<TimingLink>, target: string, clock: nat): (r: Option<SectionOutcome>)
    ensures r.Some? && r.value.hit.Some? ==> exists i :: 0 <= i < |links| && LeavesFrom(links[i], target)
    ensures r.Some? ==> clock <= r.value.clock
  {
    if |links| == 0 then Some(SectionOutcome(None, clock))
    else
      var link := links[0];
      if link.from.None? || link.runTime.None? then None
      else
        var arrival := clock + link.runTime.value;
        if LeavesFrom(link, target) then Some(SectionOutcome(Some(arrival), clock))
        else
          var r := ScanLinks(links[1..], target, arrival);
          assert forall i :: 0 <= i < |links[1..]| ==> links[1..][i] == links[i + 1];
          r
  }

  /** The text of the first DestinationDisplay of a pattern, stripped; `None`
      when there is none or it has no text (`.strip()` on `None` raises).
      With `Whitespace.StripUnique` the two last clauses fix the value. */
  function Destination(pattern: JourneyPattern): (r: Option<string>)
    ensures r.Some? <==> |pattern.destinations| > 0 && pattern.destinations[0].Text?
    ensures r.Some? ==> IsStripped(r.value)
    ensures r.Some? ==> TrimmedFrom(pattern.destinations[0].value, r.value)
  {
    if |pattern.destinations| == 0 || pattern.destinations[0].NoText? then None
    else Some(Strip(pattern.destinations[0].value))
  }

  /** The loop over a pattern's section references, carrying the clock from
      one section to the next. */
  function WalkSections(doc: Document, refs: seq<Text>, destination: string, target: string, clock: nat)
    : (r: Option<seq<Arrival>>)
  {
    if |refs| == 0 then Some([])
    else
      var section := FindSection(doc.sections, RefKey(refs[0]));
      if section.None? then None
      else
        var outcome := ScanLinks(section.value.links, target, clock);
        if outcome.None? then None
        else
          var here := if outcome.value.hit.Some? then [Arrival(destination, Format(outcome.value.hit.value))] else [];
          Then(Some(here), WalkSections(doc, refs[1..], destination, target, outcome.value.clock))
  }

  /** The clock the section loop hands on after walking `refs`: each
      section's scan advances it by the run times before its first match.
      Where a section fails the walk stops, and the clock is left as it was. */
  function ClockAfter(doc: Document, refs: seq<Text>, target: string, clock: nat): nat {
    if |refs| == 0 then clock
    else
      var section := FindSection(doc.sections, RefKey(refs[0]));
      if section.None? then clock
      else
        var outcome := ScanLinks(section.value.links, target, clock);
        if outcome.None? then clock
        else ClockAfter(doc, refs[1..], target, outcome.value.clock)
  }

  /** One VehicleJourney: its departure starts the clock, its pattern gives
      the destination and the section references. */
  function WalkJourney(doc: Document, journey: VehicleJourney, target: string): (r: Option<seq<Arrival>>) {
    if journey.patternRef.None? || journey.departure.None? then None
    else
      var pattern := FindPattern(doc.patterns, RefKey(journey.patternRef.value));
      if pattern.None? then None
      else
        var destination := Destination(pattern.value);
        if destination.None? then None
        else WalkSections(doc, pattern.value.sectionRefs, destination.value, target, journey.departure.value)
  }

  /** Sequencing two all-or-nothing walks: fails when either fails,
      otherwise the arrivals of the first followed by those of the second. */
  function Then(first: Option<seq<Arrival>>, rest: Option<seq<Arrival>>): Option<seq<Arrival>> {
    if first.None? || rest.None? then None else Some(first.value + rest.value)
  }

  /** The loop over all VehicleJourney elements, in document order. */
  function WalkJourneys(doc: Document, journeys: seq<VehicleJourney>, target: string): (r: Option<seq<Arrival>>) {
    if |journeys| == 0 then Some([])
    else Then(WalkJourney(doc, journeys[0], target), WalkJourneys(doc, journeys[1..], target))
  }

  /** `find_arrival_times_by_destination`: empty when the stop is not
      mentioned or when anything fails; otherwise the grouped arrivals of all
      journeys, whose destinations are distinct and each hold a time. */
  function FindArrivalTimesByDestination(doc: Document, target: string): (r: seq<DestinationTimes>)
    ensures !IsAtcoCodeThere(doc, target) ==> r == []
    ensures WalkJourneys(doc, doc.journeys, target).None? ==> r == []
    ensures DistinctDestinations(r)
    ensures forall i :: 0 <= i < |r| ==> r[i].times != []
  {
    if !IsAtcoCodeThere(doc, target) then []
    else
      match WalkJourneys(doc, doc.journeys, target)
      case None => []
      case Some(arrivals) =>
        GroupNoEmptyList(arrivals);
        Group(arrivals)
  }
}
