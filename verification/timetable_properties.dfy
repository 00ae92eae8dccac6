/** What the extractor guarantees: how the clock runs through a section, when
    a document yields nothing, and the shape of every recorded time. */
module TimetableProperties {
  import opened Options
  import opened Clock
  import opened Whitespace
  import opened Schedule
  import opened Grouping
  import opened Timetable

  /** Reference definition: the index of the first link leaving the target. */
  function FirstFrom(links: seq<TimingLink>, target: string): (r: Option<nat>)
    ensures r.Some? ==> r.value < |links| && LeavesFrom(links[r.value], target)
    ensures forall j :: 0 <= j < |links| && (r.None? || j < r.value) ==> !LeavesFrom(links[j], target)
  {
    if |links| == 0 then None
    else if LeavesFrom(links[0], target) then Some(0)
    else
      match FirstFrom(links[1..], target)
      case None => None
      case Some(k) => Some(k + 1)
  }

  /** Reference definition: the total run time of a list of links. */
  function Elapsed(links: seq<TimingLink>): nat {
    if |links| == 0 then 0
    else (if links[0].runTime.Some? then links[0].runTime.value else 0) + Elapsed(links[1..])
  }

  /** How many links the scan reaches: up to and including the first link
      leaving the target, or all of them. */
  function Reached(links: seq<TimingLink>, target: string): nat {
    match FirstFrom(links, target)
    case None => |links|
    case Some(k) => k + 1
  }

  /** The clock through one section. With no link leaving the target the
      clock advances by every link's run time and nothing is recorded. With
      one, the recorded value is the clock plus the run times up to and
      including that link, and the clock carried on includes only the links
      before it. */
  lemma {:induction false} ScanLinksClock(links: seq<TimingLink>, target: string, clock: nat)
    requires ScanLinks(links, target, clock).Some?
    ensures var o := ScanLinks(links, target, clock).value;
            match FirstFrom(links, target)
            case None => o.hit.None? && o.clock == clock + Elapsed(links)
            case Some(k) => o.hit == Some(clock + Elapsed(links[..k + 1])) && o.clock == clock + Elapsed(links[..k])
  {
    if |links| > 0 {
      var link := links[0];
      if LeavesFrom(link, target) {
        assert Elapsed(links[..1]) == link.runTime.value + Elapsed(links[1..1]);
        assert links[..0] == [];
      } else {
        var arrival := clock + link.runTime.value;
        ScanLinksClock(links[1..], target, arrival);
        match FirstFrom(links[1..], target)
        case None =>
        case Some(k) =>
          assert links[..k + 2][1..] == links[1..][..k + 1];
          assert links[..k + 1][1..] == links[1..][..k];
      }
    }
  }

  /** A section scan fails exactly when some link it reaches lacks its From
      stop or its run time; links after the first one leaving the target are
      never looked at. */
  lemma {:induction false} ScanLinksFails(links: seq<TimingLink>, target: string, clock: nat)
    ensures ScanLinks(links, target, clock).None?
            <==> exists i :: 0 <= i < Reached(links, target) && (links[i].from.None? || links[i].runTime.None?)
  {
    if |links| > 0 {
      var link := links[0];
      if link.from.Some? && link.runTime.Some? && !LeavesFrom(link, target) {
        ScanLinksFails(links[1..], target, clock + link.runTime.value);
        assert Reached(links, target) == Reached(links[1..], target) + 1;
        if exists i :: 0 <= i < Reached(links, target) && (links[i].from.None? || links[i].runTime.None?) {
          var i :| 0 <= i < Reached(links, target) && (links[i].from.None? || links[i].runTime.None?);
          assert links[1..][i - 1] == links[i];
        }
        if exists i :: 0 <= i < Reached(links[1..], target) && (links[1..][i].from.None? || links[1..][i].runTime.None?) {
          var i :| 0 <= i < Reached(links[1..], target) && (links[1..][i].from.None? || links[1..][i].runTime.None?);
          assert links[i + 1] == links[1..][i];
        }
      }
    }
  }

  /** Per journey: at most one time per section reference, every one under
      the journey's destination and every one a valid HH:MM:SS time. */
  lemma {:induction false} WalkSectionsShape(doc: Document, refs: seq<Text>, destination: string, target: string, clock: nat)
    requires WalkSections(doc, refs, destination, target, clock).Some?
    ensures var a := WalkSections(doc, refs, destination, target, clock).value;
            && |a| <= |refs|
            && forall k :: 0 <= k < |a| ==> a[k].destination == destination && IsClockString(a[k].time)
  {
    if |refs| > 0 {
      var section := FindSection(doc.sections, RefKey(refs[0]));
      var outcome := ScanLinks(section.value.links, target, clock);
      WalkSectionsShape(doc, refs[1..], destination, target, outcome.value.clock);
    }
  }

  /** Every recorded arrival carries a stripped destination and a valid
      HH:MM:SS time. */
  predicate WellFormedArrival(a: Arrival) {
    IsStripped(a.destination) && IsClockString(a.time)
  }

  lemma {:induction false} WalkJourneysWellFormed(doc: Document, journeys: seq<VehicleJourney>, target: string)
    requires WalkJourneys(doc, journeys, target).Some?
    ensures forall k :: 0 <= k < |WalkJourneys(doc, journeys, target).value| ==>
              WellFormedArrival(WalkJourneys(doc, journeys, target).value[k])
  {
    if |journeys| > 0 {
      var j := journeys[0];
      var pattern := FindPattern(doc.patterns, RefKey(j.patternRef.value));
      var destination := Destination(pattern.value);
      WalkSectionsShape(doc, pattern.value.sectionRefs, destination.value, target, j.departure.value);
      WalkJourneysWellFormed(doc, journeys[1..], target);
    }
  }

  /** Every time the extractor returns is a valid HH:MM:SS time of day and
      every destination key is stripped text. */
  lemma {:induction false} ResultWellFormed(doc: Document, target: string)
    ensures var r := FindArrivalTimesByDestination(doc, target);
            forall i :: 0 <= i < |r| ==>
              IsStripped(r[i].destination) && forall t :: t in r[i].times ==> IsClockString(t)
  {
    var r := FindArrivalTimesByDestination(doc, target);
    if r != [] {
      var arrivals := WalkJourneys(doc, doc.journeys, target).value;
      WalkJourneysWellFormed(doc, doc.journeys, target);
      forall i, t | 0 <= i < |r| && t in r[i].times
        ensures IsStripped(r[i].destination) && IsClockString(t)
      {
        TimesForRecorded(arrivals, r[i].destination, t);
      }
      forall i | 0 <= i < |r|
        ensures IsStripped(r[i].destination)
      {
        assert r[i].times != [];
        TimesForRecorded(arrivals, r[i].destination, r[i].times[0]);
      }
    }
  }

  /** All or nothing: the journey walk fails exactly when some journey fails,
      and then the extractor returns nothing at all. */
  predicate JourneyFails(doc: Document, journey: VehicleJourney, target: string) {
    WalkJourney(doc, journey, target).None?
  }

  lemma {:induction false} WalkJourneysFails(doc: Document, journeys: seq<VehicleJourney>, target: string)
    ensures WalkJourneys(doc, journeys, target).None?
            <==> exists i :: 0 <= i < |journeys| && JourneyFails(doc, journeys[i], target)
  {
    if |journeys| > 0 {
      var rest := journeys[1..];
      WalkJourneysFails(doc, rest, target);
      assert forall i :: 0 <= i < |rest| ==> rest[i] == journeys[i + 1];
      if !JourneyFails(doc, journeys[0], target) {
        assert (exists i :: 0 <= i < |journeys| && JourneyFails(doc, journeys[i], target))
               <==> (exists i :: 0 <= i < |rest| && JourneyFails(doc, rest[i], target)) by {
          if exists i :: 0 <= i < |journeys| && JourneyFails(doc, journeys[i], target) {
            var i :| 0 <= i < |journeys| && JourneyFails(doc, journeys[i], target);
            assert JourneyFails(doc, rest[i - 1], target);
          }
        }
      }
    }
  }

  lemma {:induction false} OneBrokenJourneyEmptiesAll(doc: Document, target: string, i: nat)
    requires i < |doc.journeys| && JourneyFails(doc, doc.journeys[i], target)
    ensures FindArrivalTimesByDestination(doc, target) == []
  {
    WalkJourneysFails(doc, doc.journeys, target);
  }

  /** Sequencing walks is associative. */
  lemma {:induction false} ThenAssociative(a: Option<seq<Arrival>>, b: Option<seq<Arrival>>, c: Option<seq<Arrival>>)
    ensures Then(a, Then(b, c)) == Then(Then(a, b), c)
  {
    if a.Some? && b.Some? && c.Some? {
      assert a.value + (b.value + c.value) == (a.value + b.value) + c.value;
    }
  }

  /** Ordering: walking a list of journeys made of two parts is walking the
      first part and then the second; in particular the arrivals are those of
      the first part followed by those of the second, and the whole fails
      exactly when one of the parts fails. */
  lemma {:induction false} WalkJourneysAppend(doc: Document, js1: seq<VehicleJourney>, js2: seq<VehicleJourney>, target: string)
    ensures WalkJourneys(doc, js1 + js2, target) == Then(WalkJourneys(doc, js1, target), WalkJourneys(doc, js2, target))
  {
    if |js1| > 0 {
      var all := js1 + js2;
      assert all[0] == js1[0] && all[1..] == js1[1..] + js2;
      WalkJourneysAppend(doc, js1[1..], js2, target);
      ThenAssociative(WalkJourney(doc, js1[0], target), WalkJourneys(doc, js1[1..], target), WalkJourneys(doc, js2, target));
    } else {
      assert js1 + js2 == js2;
      ThenEmpty(WalkJourneys(doc, js2, target));
    }
  }

  /** A walk with no arrivals changes nothing when placed first. */
  lemma {:induction false} ThenEmpty(b: Option<seq<Arrival>>)
    ensures Then(Some([]), b) == b
  {
    if b.Some? {
      assert [] + b.value == b.value;
    }
  }

  /** Ordering of sections: walking two runs of section references is
      walking the first from the journey's clock and then the second from the
      clock the first hands on; the times of the first run come first, and
      the whole fails exactly when one run fails. */
  lemma {:induction false} WalkSectionsAppend(doc: Document, r1: seq<Text>, r2: seq<Text>, destination: string,
                                              target: string, clock: nat)
    ensures WalkSections(doc, r1 + r2, destination, target, clock)
            == Then(WalkSections(doc, r1, destination, target, clock),
                    WalkSections(doc, r2, destination, target, ClockAfter(doc, r1, target, clock)))
    decreases |r1|
  {
    if |r1| > 0 {
      var all := r1 + r2;
      assert all[0] == r1[0] && all[1..] == r1[1..] + r2;
      var section := FindSection(doc.sections, RefKey(r1[0]));
      if section.Some? {
        var outcome := ScanLinks(section.value.links, target, clock);
        if outcome.Some? {
          var here := if outcome.value.hit.Some? then [Arrival(destination, Format(outcome.value.hit.value))] else [];
          WalkSectionsAppend(doc, r1[1..], r2, destination, target, outcome.value.clock);
          ThenAssociative(Some(here), WalkSections(doc, r1[1..], destination, target, outcome.value.clock),
                          WalkSections(doc, r2, destination, target, ClockAfter(doc, r1[1..], target, outcome.value.clock)));
        }
      }
    } else {
      assert r1 + r2 == r2;
      ThenEmpty(WalkSections(doc, r2, destination, target, clock));
    }
  }

  /** Whether some timing link of the document leaves from the target. */
  predicate LeftFromAnywhere(doc: Document, target: string) {
    exists i, j :: 0 <= i < |doc.sections| && 0 <= j < |doc.sections[i].links| && LeavesFrom(doc.sections[i].links[j], target)
  }

  lemma {:induction false} NoDepartureNoSectionArrivals(doc: Document, refs: seq<Text>, destination: string, target: string, clock: nat)
    requires !LeftFromAnywhere(doc, target)
    requires WalkSections(doc, refs, destination, target, clock).Some?
    ensures WalkSections(doc, refs, destination, target, clock).value == []
  {
    if |refs| > 0 {
      var section := FindSection(doc.sections, RefKey(refs[0]));
      var outcome := ScanLinks(section.value.links, target, clock);
      NoDepartureNoSectionArrivals(doc, refs[1..], destination, target, outcome.value.clock);
    }
  }

  lemma {:induction false} NoDepartureNoArrivals(doc: Document, journeys: seq<VehicleJourney>, target: string)
    requires !LeftFromAnywhere(doc, target)
    requires WalkJourneys(doc, journeys, target).Some?
    ensures WalkJourneys(doc, journeys, target).value == []
  {
    if |journeys| > 0 {
      var j := journeys[0];
      var pattern := FindPattern(doc.patterns, RefKey(j.patternRef.value));
      var destination := Destination(pattern.value);
      NoDepartureNoSectionArrivals(doc, pattern.value.sectionRefs, destination.value, target, j.departure.value);
      NoDepartureNoArrivals(doc, journeys[1..], target);
    }
  }

  /** Only From stops are compared: a document in which no timing link
      leaves from the target yields nothing, however often the target occurs
      as a To stop or in the stop list. */
  lemma {:induction false} OnlyFromStopsCount(doc: Document, target: string)
    requires !LeftFromAnywhere(doc, target)
    ensures FindArrivalTimesByDestination(doc, target) == []
  {
    if WalkJourneys(doc, doc.journeys, target).Some? {
      NoDepartureNoArrivals(doc, doc.journeys, target);
      GroupEmpty([]);
    }
  }

  /** The fast-reject check never changes the answer: without it the
      extractor would return the same result. */
  lemma {:induction false} FastRejectSound(doc: Document, target: string)
    ensures FindArrivalTimesByDestination(doc, target)
            == match WalkJourneys(doc, doc.journeys, target)
               case None => []
               case Some(arrivals) => Group(arrivals)
  {
    if !IsAtcoCodeThere(doc, target) {
      OnlyFromStopsCount(doc, target);
      if WalkJourneys(doc, doc.journeys, target).Some? {
        NoDepartureNoArrivals(doc, doc.journeys, target);
        GroupEmpty([]);
      }
    }
  }

  /** A journey whose pattern and destination resolve walks its pattern's
      section references from its departure time. */
  lemma {:induction false} JourneyResolves(doc: Document, journey: VehicleJourney, target: string,
                                           pattern: JourneyPattern, destination: string)
    requires journey.departure.Some? && journey.patternRef.Some?
    requires FindPattern(doc.patterns, RefKey(journey.patternRef.value)) == Some(pattern)
    requires Destination(pattern) == Some(destination)
    ensures WalkJourney(doc, journey, target)
            == WalkSections(doc, pattern.sectionRefs, destination, target, journey.departure.value)
  {
  }

  /** The clock starts at the journey's DepartureTime: when the first
      section the pattern names has a link leaving the target, the journey's
      first arrival, under the pattern's destination, prints the time that
      section's scan records, and that time is the departure time plus the
      run times up to and including the link. */
  lemma {:induction false} JourneyFirstArrival(doc: Document, journey: VehicleJourney, target: string,
                                               pattern: JourneyPattern, destination: string,
                                               section: JourneyPatternSection, k: nat)
    requires journey.departure.Some? && journey.patternRef.Some?
    requires FindPattern(doc.patterns, RefKey(journey.patternRef.value)) == Some(pattern)
    requires Destination(pattern) == Some(destination)
    requires |pattern.sectionRefs| > 0
    requires FindSection(doc.sections, RefKey(pattern.sectionRefs[0])) == Some(section)
    requires FirstFrom(section.links, target) == Some(k)
    requires WalkJourney(doc, journey, target).Some?
    ensures ScanLinks(section.links, target, journey.departure.value).Some?
    ensures ScanLinks(section.links, target, journey.departure.value).value.hit
            == Some(journey.departure.value + Elapsed(section.links[..k + 1]))
    ensures |WalkJourney(doc, journey, target).value| > 0
    ensures WalkJourney(doc, journey, target).value[0]
            == Arrival(destination, Format(ScanLinks(section.links, target, journey.departure.value).value.hit.value))
  {
    var walk := WalkSections(doc, pattern.sectionRefs, destination, target, journey.departure.value);
    JourneyResolves(doc, journey, target, pattern, destination);
    SectionsFirstArrival(doc, pattern.sectionRefs, destination, target, journey.departure.value, section, k);
    assert WalkJourney(doc, journey, target) == walk;
  }

  /** The first section reference of a walk from `clock`: a link leaving the
      target in that section gives the walk's first arrival, printing the
      scan's recorded time, which is the clock plus the run times up to and
      including that link. */
  lemma {:induction false} SectionsFirstArrival(doc: Document, refs: seq<Text>, destination: string, target: string,
                                                clock: nat, section: JourneyPatternSection, k: nat)
    requires |refs| > 0
    requires FindSection(doc.sections, RefKey(refs[0])) == Some(section)
    requires FirstFrom(section.links, target) == Some(k)
    requires WalkSections(doc, refs, destination, target, clock).Some?
    ensures |WalkSections(doc, refs, destination, target, clock).value| > 0
    ensures ScanLinks(section.links, target, clock).Some?
    ensures ScanLinks(section.links, target, clock).value.hit == Some(clock + Elapsed(section.links[..k + 1]))
    ensures WalkSections(doc, refs, destination, target, clock).value[0]
            == Arrival(destination, Format(ScanLinks(section.links, target, clock).value.hit.value))
  {
    WalkSectionsHead(doc, refs, destination, target, clock, section);
    ScanLinksClock(section.links, target, clock);
    var o := ScanLinks(section.links, target, clock).value;
    var rest := WalkSections(doc, refs[1..], destination, target, o.clock);
    assert WalkSections(doc, refs, destination, target, clock).value == [Arrival(destination, Format(o.hit.value))] + rest.value;
  }

  /** A successful walk scans its first section, and its arrivals are that
      section's (at most one) followed by the walk of the remaining
      references from the clock the scan hands on. */
  lemma {:induction false} WalkSectionsHead(doc: Document, refs: seq<Text>, destination: string, target: string,
                                            clock: nat, section: JourneyPatternSection)
    requires |refs| > 0
    requires FindSection(doc.sections, RefKey(refs[0])) == Some(section)
    requires WalkSections(doc, refs, destination, target, clock).Some?
    ensures ScanLinks(section.links, target, clock).Some?
    ensures var o := ScanLinks(section.links, target, clock).value;
            var rest := WalkSections(doc, refs[1..], destination, target, o.clock);
            rest.Some?
            && WalkSections(doc, refs, destination, target, clock).value
               == (if o.hit.Some? then [Arrival(destination, Format(o.hit.value))] else []) + rest.value
  {
  }

  /** A single journey's walk is the whole walk. */
  lemma {:induction false} SingleJourney(doc: Document, journeys: seq<VehicleJourney>, target: string)
    requires |journeys| == 1
    ensures WalkJourneys(doc, journeys, target) == WalkJourney(doc, journeys[0], target)
  {
    assert WalkJourneys(doc, journeys[1..], target) == Some([]);
    var first := WalkJourney(doc, journeys[0], target);
    assert first.Some? ==> first.value + [] == first.value;
  }

  /** A one-journey document: leaving at 08:00:00 on pattern P1 towards
      "Town" and following the section references `refs`; its only section S1
      is a five-minute hop from stop A to stop B. */
  function SampleDocument(refs: seq<Text>): Document {
    Document(
      [Text("12")],
      [Text("A"), Text("B")],
      [VehicleJourney(Some(8 * 3600), Some(Text("P1")))],
      [JourneyPattern("P1", [Text("Town")], refs)],
      [JourneyPatternSection("S1", [TimingLink(Some(Text("A")), Some(Text("B")), Some(300))])])
  }

  const Once: seq<Text> := [Text("S1")]
  const Twice: seq<Text> := [Text("S1"), Text("S1")]
  const AtFive: Arrival := Arrival("Town", "08:05:00")

  lemma {:induction false} SamplePattern(refs: seq<Text>)
    ensures var doc := SampleDocument(refs);
            FindPattern(doc.patterns, "P1") == Some(doc.patterns[0])
  {
    assert !HoldsQuote("P1");
  }

  lemma {:induction false} SampleDestination(refs: seq<Text>)
    ensures Destination(SampleDocument(refs).patterns[0]) == Some("Town")
  {
    assert IsStripped("Town");
    StripStripped("Town");
  }

  /** Section S1 resolves and its link leaving A records 08:05:00 without
      moving the clock. */
  lemma {:induction false} SampleSection(refs: seq<Text>)
    ensures var doc := SampleDocument(refs);
            && FindSection(doc.sections, "S1") == Some(doc.sections[0])
            && ScanLinks(doc.sections[0].links, "A", 8 * 3600) == Some(SectionOutcome(Some(8 * 3600 + 300), 8 * 3600))
  {
    var doc := SampleDocument(refs);
    assert !HoldsQuote("S1");
    assert LeavesFrom(doc.sections[0].links[0], "A");
  }

  lemma {:induction false} SampleFormat()
    ensures Format(8 * 3600 + 300) == "08:05:00"
  {
  }

  lemma {:induction false} SampleMentions(refs: seq<Text>)
    ensures IsAtcoCodeThere(SampleDocument(refs), "A") && IsAtcoCodeThere(SampleDocument(refs), "B")
  {
    var doc := SampleDocument(refs);
    assert StopRefs(doc)[0] == Text("A");
    assert StopRefs(doc)[1] == Text("B");
  }

  /** Each reference to S1 records 08:05:00 and hands the clock on unchanged. */
  lemma {:induction false} SampleStep(refs: seq<Text>, i: nat, tail: seq<Arrival>)
    requires i < |refs| && refs[i] == Text("S1")
    requires WalkSections(SampleDocument(refs), refs[i + 1..], "Town", "A", 8 * 3600) == Some(tail)
    ensures WalkSections(SampleDocument(refs), refs[i..], "Town", "A", 8 * 3600) == Some([AtFive] + tail)
  {
    SampleSection(refs);
    SampleFormat();
    var sub := refs[i..];
    assert sub[1..] == refs[i + 1..];
    assert RefKey(sub[0]) == "S1";
  }

  lemma {:induction false} SampleJourney(refs: seq<Text>)
    ensures var doc := SampleDocument(refs);
            WalkJourney(doc, doc.journeys[0], "A") == WalkSections(doc, refs, "Town", "A", 8 * 3600)
  {
    var doc := SampleDocument(refs);
    var journey := VehicleJourney(Some(8 * 3600), Some(Text("P1")));
    var pattern := JourneyPattern("P1", [Text("Town")], refs);
    assert doc.journeys[0] == journey;
    assert doc.patterns[0] == pattern;
    SamplePattern(refs);
    SampleDestination(refs);
    JourneyResolves(doc, journey, "A", pattern, "Town");
  }

  lemma {:induction false} SampleJourneys(refs: seq<Text>, arrivals: seq<Arrival>)
    requires WalkSections(SampleDocument(refs), refs, "Town", "A", 8 * 3600) == Some(arrivals)
    ensures var doc := SampleDocument(refs);
            WalkJourneys(doc, doc.journeys, "A") == Some(arrivals)
  {
    SampleJourney(refs);
    var doc := SampleDocument(refs);
    SingleJourney(doc, doc.journeys, "A");
  }

  /** With the fast-reject check passed and the walk succeeding, the
      extractor groups the walk's arrivals. */
  lemma {:induction false} SampleResult(refs: seq<Text>, arrivals: seq<Arrival>)
    requires WalkSections(SampleDocument(refs), refs, "Town", "A", 8 * 3600) == Some(arrivals)
    ensures FindArrivalTimesByDestination(SampleDocument(refs), "A") == Group(arrivals)
  {
    SampleMentions(refs);
    SampleJourneys(refs, arrivals);
  }

  /** Asking for the From stop A records 08:00:00 plus the five-minute run
      time of the link leaving A. */
  lemma {:induction false} SampleFromStop()
    ensures FindArrivalTimesByDestination(SampleDocument(Once), "A") == [DestinationTimes("Town", ["08:05:00"])]
  {
    var doc := SampleDocument(Once);
    assert WalkSections(doc, Once[1..], "Town", "A", 8 * 3600) == Some([]);
    SampleStep(Once, 0, []);
    assert Once[0..] == Once;
    assert [AtFive] + [] == [AtFive];
    SampleResult(Once, [AtFive]);
    assert Group([AtFive]) == [DestinationTimes("Town", ["08:05:00"])] by {
      assert [AtFive][..0] == [];
    }
  }

  /** Asking for B, which only occurs as a To stop, passes the fast-reject
      check yet yields nothing. */
  lemma {:induction false} SampleToStop()
    ensures IsAtcoCodeThere(SampleDocument(Once), "B")
    ensures FindArrivalTimesByDestination(SampleDocument(Once), "B") == []
  {
    SampleMentions(Once);
    OnlyFromStopsCount(SampleDocument(Once), "B");
  }

  /** A journey whose pattern references the same section twice records the
      stop twice, with the same time both times, since the matched link's run
      time is never carried forward. */
  lemma {:induction false} SampleRepeatedSection()
    ensures FindArrivalTimesByDestination(SampleDocument(Twice), "A") == [DestinationTimes("Town", ["08:05:00", "08:05:00"])]
  {
    var doc := SampleDocument(Twice);
    assert WalkSections(doc, Twice[2..], "Town", "A", 8 * 3600) == Some([]);
    SampleStep(Twice, 1, []);
    assert [AtFive] + [] == [AtFive];
    SampleStep(Twice, 0, [AtFive]);
    assert Twice[0..] == Twice;
    assert [AtFive] + [AtFive] == [AtFive, AtFive];
    SampleResult(Twice, [AtFive, AtFive]);
    SampleGroupTwice();
  }

  lemma {:induction false} SampleGroupTwice()
    ensures Group([AtFive, AtFive]) == [DestinationTimes("Town", ["08:05:00", "08:05:00"])]
  {
    SampleGroupOnce();
    assert [AtFive, AtFive][..1] == [AtFive];
    SampleAppendAgain();
  }

  lemma {:induction false} SampleGroupOnce()
    ensures Group([AtFive]) == [DestinationTimes("Town", ["08:05:00"])]
  {
    assert [AtFive][..0] == [];
  }

  lemma {:induction false} SampleAppendAgain()
    ensures Append([DestinationTimes("Town", ["08:05:00"])], AtFive) == [DestinationTimes("Town", ["08:05:00", "08:05:00"])]
  {
    var one := [DestinationTimes("Town", ["08:05:00"])];
    assert Position(one, "Town") == 0;
    var t: seq<string> := ["08:05:00"];
    assert t + t == ["08:05:00", "08:05:00"];
  }
}
