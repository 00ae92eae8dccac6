/** A TransXChange schedule document after parsing: the records the
    extractor reads, linked to each other by id strings as in the XML.

    Each XML element the extractor looks for is either absent (`None`,
    where `find_arrival_times_by_destination` would dereference `None` and
    raise) or present; a present element's text may itself be missing
    (`NoText`), which is what lxml reports for an element with no text
    content. */
module Schedule {
  import opened Options
  import opened Clock

  /** The `.text` of an element: lxml gives `None` for an empty element. */
  datatype Text = NoText | Text(value: string)

  /** One JourneyPatternTimingLink: the StopPointRef under `From`, the one
      under `To`, and the `RunTime` duration in whole seconds (`None` when
      the element is absent or the duration does not parse). */
  datatype TimingLink = TimingLink(from: Option<Text>, to: Option<Text>, runTime: Option<nat>)

  /** One JourneyPatternSection, in the order its timing links appear. */
  datatype JourneyPatternSection = JourneyPatternSection(id: string, links: seq<TimingLink>)

  /** One JourneyPattern: every DestinationDisplay and every
      JourneyPatternSectionRefs element below it, in document order. */
  datatype JourneyPattern = JourneyPattern(id: string, destinations: seq<Text>, sectionRefs: seq<Text>)

  /** One VehicleJourney: its DepartureTime as a time of day (`None` when the
      element is absent or does not parse as HH:MM:SS) and its
      JourneyPatternRef element. */
  datatype VehicleJourney = VehicleJourney(departure: Option<ClockTime>, patternRef: Option<Text>)

  /** A whole document. `stopPoints` holds the StopPointRef elements outside
      the timing links (the stop list and any others); the ones inside the
      timing links are held by the links themselves. */
  datatype Document = Document(
    lineNames: seq<Text>,
    stopPoints: seq<Text>,
    journeys: seq<VehicleJourney>,
    patterns: seq<JourneyPattern>,
    sections: seq<JourneyPatternSection>)

  /** The StopPointRef texts found in a list of timing links: every From and
      To stop of a link, and nothing else. */
  function LinkStopRefs(links: seq<TimingLink>): (refs: seq<Text>)
    ensures forall i :: 0 <= i < |links| && links[i].from.Some? ==> links[i].from.value in refs
    ensures forall i :: 0 <= i < |links| && links[i].to.Some? ==> links[i].to.value in refs
    ensures forall t :: t in refs ==> exists i :: 0 <= i < |links| && (links[i].from == Some(t) || links[i].to == Some(t))
  {
    if |links| == 0 then []
    else
      var l := links[0];
      var rest := LinkStopRefs(links[1..]);
      assert forall t :: t in rest ==> exists i :: 0 <= i < |links| && (links[i].from == Some(t) || links[i].to == Some(t)) by {
        forall t | t in rest
          ensures exists i :: 0 <= i < |links| && (links[i].from == Some(t) || links[i].to == Some(t))
        {
          var i :| 0 <= i < |links[1..]| && (links[1..][i].from == Some(t) || links[1..][i].to == Some(t));
          assert links[i + 1] == links[1..][i];
        }
      }
      (if l.from.Some? then [l.from.value] else [])
      + (if l.to.Some? then [l.to.value] else [])
      + rest
  }

  /** The StopPointRef texts found in the timing links of a list of
      sections: every From and To stop of their links, and nothing else. */
  function SectionStopRefs(sections: seq<JourneyPatternSection>): (refs: seq<Text>)
    ensures forall i, j :: 0 <= i < |sections| && 0 <= j < |sections[i].links| && sections[i].links[j].from.Some?
              ==> sections[i].links[j].from.value in refs
    ensures forall i, j :: 0 <= i < |sections| && 0 <= j < |sections[i].links| && sections[i].links[j].to.Some?
              ==> sections[i].links[j].to.value in refs
    ensures forall t :: t in refs ==>
              exists i, j :: 0 <= i < |sections| && 0 <= j < |sections[i].links|
                             && (sections[i].links[j].from == Some(t) || sections[i].links[j].to == Some(t))
  {
    if |sections| == 0 then []
    else
      var rest := SectionStopRefs(sections[1..]);
      assert forall t :: t in rest ==>
               exists i, j :: 0 <= i < |sections| && 0 <= j < |sections[i].links|
                              && (sections[i].links[j].from == Some(t) || sections[i].links[j].to == Some(t)) by {
        forall t | t in rest
          ensures exists i, j :: 0 <= i < |sections| && 0 <= j < |sections[i].links|
                                 && (sections[i].links[j].from == Some(t) || sections[i].links[j].to == Some(t))
        {
          var i, j :| 0 <= i < |sections[1..]| && 0 <= j < |sections[1..][i].links|
                      && (sections[1..][i].links[j].from == Some(t) || sections[1..][i].links[j].to == Some(t));
          assert sections[i + 1] == sections[1..][i];
        }
      }
      LinkStopRefs(sections[0].links) + rest
  }

  /** Every StopPointRef element of the document (`//ns:StopPointRef`). */
  function StopRefs(doc: Document): (refs: seq<Text>)
    ensures forall t :: t in refs <==>
              t in doc.stopPoints
              || exists i, j :: 0 <= i < |doc.sections| && 0 <= j < |doc.sections[i].links|
                                && (doc.sections[i].links[j].from == Some(t) || doc.sections[i].links[j].to == Some(t))
  {
    doc.stopPoints + SectionStopRefs(doc.sections)
  }

  /** How an id reference reads once placed in the XPath query: an element
      without text is formatted as the string "None". */
  function RefKey(t: Text): string {
    match t
    case NoText => "None"
    case Text(s) => s
  }

  /** A key holding a quote ends the string literal of `[@id='key']` early,
      and what the query then selects depends on XPath parsing (it may be
      a syntax error, or an expression such as `x' or '1'='1` that selects
      every element). That parsing is not modelled: such a key is taken as a
      failed lookup. */
  predicate HoldsQuote(key: string) {
    '\'' in key
  }

  /** The position of the first id equal to `key`: XPath's `[@id='key']`
      yields matching elements in document order and the extractor takes the
      first. */
  function FirstIndex(ids: seq<string>, key: string): (r: Option<nat>)
    ensures r.Some? <==> key in ids
    ensures r.Some? ==> r.value < |ids| && ids[r.value] == key && key !in ids[..r.value]
  {
    if |ids| == 0 then None
    else if ids[0] == key then Some(0)
    else
      match FirstIndex(ids[1..], key)
      case None => None
      case Some(i) =>
        assert ids[..i + 1] == [ids[0]] + ids[1..][..i];
        Some(i + 1)
  }

  /** The first item whose id is `key`; `None` when there is none (the
      extractor's `[0]` then raises) or when the key holds a quote. */
  function FindById<T>(items: seq<T>, id: T -> string, key: string): (r: Option<T>)
    ensures r.Some? <==> !HoldsQuote(key) && exists i :: 0 <= i < |items| && id(items[i]) == key
    ensures r.Some? ==> exists i :: 0 <= i < |items| && items[i] == r.value && id(r.value) == key
                                    && forall j :: 0 <= j < i ==> id(items[j]) != key
  {
    var ids := seq(|items|, i requires 0 <= i < |items| => id(items[i]));
    if HoldsQuote(key) then None
    else
      match FirstIndex(ids, key)
      case None =>
        assert forall i :: 0 <= i < |items| ==> id(items[i]) == ids[i];
        None
      case Some(i) =>
        assert forall j :: 0 <= j < i ==> ids[..i][j] == id(items[j]);
        Some(items[i])
  }

  function PatternId(p: JourneyPattern): string { p.id }

  function SectionId(s: JourneyPatternSection): string { s.id }

  /** `//ns:JourneyPattern[@id='key']`, first match. */
  function FindPattern(patterns: seq<JourneyPattern>, key: string): Option<JourneyPattern> {
    FindById(patterns, PatternId, key)
  }

  /** `//ns:JourneyPatternSection[@id='key']`, first match. */
  function FindSection(sections: seq<JourneyPatternSection>, key: string): Option<JourneyPatternSection> {
    FindById(sections, SectionId, key)
  }
}
