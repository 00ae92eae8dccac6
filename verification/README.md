# Bus stop timetables from TransXChange schedules

A Dafny model of the two pieces of logic that turn a bus stop into a list of
timetables.

- **The timetable extractor** (`ProcessData`). It takes one parsed
  TransXChange schedule document and a target ATCO stop code.
  - It rejects documents that never mention the stop.
  - It walks every `VehicleJourney` through its `JourneyPattern` and the
    pattern's `JourneyPatternSection`s, resolved by id string.
  - A clock starts at the journey's departure time and runs forward by each
    timing link's run time.
  - On a link leaving the target stop, it records an `HH:MM:SS` arrival time
    under the pattern's destination.
  - Any failure empties the whole result.
- **File selection and aggregation** (`LocateBusFile`).
  - `find_relevant_operators_by_place` walks the operator catalogue
    backwards. It keeps the entries that serve the stop's locality, one per
    (operator name, lines) pair, and names a `.zip` or `.xml` file for each.
  - `get_bus_stop_timetable` runs the extractor on the flat files first.
    Then it walks each operator archive from its last member to its first.
    Within one archive, a line already answered is not extracted again.

## Modules

| file | module | what it holds |
|---|---|---|
| options.dfy | `Options` | `Option<T>` |
| clock.dfy | `Clock` | seconds of the day and `strftime('%H:%M:%S')` |
| whitespace.dfy | `Whitespace` | Python's `str.strip()` |
| schedule.dfy | `Schedule` | the parsed document: journeys, patterns, sections, timing links, and lookup by id |
| grouping.dfy | `Grouping` | the `defaultdict(list)` of times per destination |
| timetable.dfy | `Timetable` | `get_line_number`, `is_atco_code_there`, `find_arrival_times_by_destination` |
| timetable_properties.dfy | `TimetableProperties` | lemmas about the extractor and worked one-journey documents |
| locator.dfy | `Locator` | `find_relevant_operators_by_place` and lemmas about its walk |
| aggregator.dfy | `Aggregator` | `get_bus_stop_timetable` over in-memory containers |

### Modelling choices

**Parsed documents**
- An XML element's missing text is `NoText`, as lxml reports `None`.
- An id reference with no text is looked up as the string `"None"`, because
  that is what the f-string in the XPath query prints.
- An id holding a quote is taken as a failed lookup (see `Schedule.FindById`
  under "Left out").
- Departure times are seconds of the day.
- Run times are whole seconds.
- A departure or run time that does not parse is `None`.

**The running clock**
- The clock is an unbounded count of seconds from the departure day's
  midnight.
- Printing takes it modulo 86400, as `strftime('%H:%M:%S')` prints only the
  time fields of the `datetime`.

**Failures and crashes**
- Every path that raises inside the extractor's `try` block yields `None`
  internally and `[]` from the extractor.
- An accepted xml catalogue entry with no lines raises `IndexError` in the
  locator. The walk returns `None` there.
- In the aggregation, an exception escapes to the caller. This happens for a
  missing container member and for a document without a `LineName` whose
  line is read. These cases are preconditions (`ContainerReadable`).
- The locator's `IndexError` on an accepted xml entry with no lines
  (`locate_zipfile.py:55`) also escapes `get_bus_stop_timetable`, which
  calls the locator at `:67`. It is a precondition of
  `Aggregator.GetBusStopTimetable` (`StopSelection` succeeds).

**Containers**
- Zip containers are sequences of (name, content) members.
- Opening a name yields the last member with that name, as `zipfile` does.
- The extractor is a function parameter of the aggregation.

### Two behaviours of the code worth knowing

The extractor compares only a timing link's `From` stop with the target
(`processing_timetable_data.py:70`, `:78`). At a match it records the clock
plus the run time of the link *leaving* the target. It does not advance the
clock by that link before the next section reference.
- `TimetableProperties.SampleFromStop` gives 08:05:00 for the link's `From`
  stop.
- `TimetableProperties.SampleToStop` gives nothing for its `To` stop.

`get_line_number` raises `IndexError` on a document without a line name, and
`get_bus_stop_timetable` does not catch it. The model makes a readable line
name a precondition of the aggregation.

## Model

| member | source | states |
|---|---|---|
| Clock.Format | processing_timetable_data.py:73-81 | the printed time is always a valid HH:MM:SS time of day, and it denotes the running clock modulo one day (past midnight wraps) |
| Clock.FormatSameDay | processing_timetable_data.py:81 | two clocks print the same string exactly when they agree modulo 86400 seconds |
| Whitespace.Strip | processing_timetable_data.py:55 | the destination key is a slice of the DestinationDisplay text, neither of its ends is whitespace, and everything cut from either side is whitespace |
| Whitespace.StripIdempotent | processing_timetable_data.py:55 | stripping an already stripped destination changes nothing |
| Whitespace.StripUnique | processing_timetable_data.py:55 | the stripped destination is the only slice of the text with non-whitespace ends from which only whitespace was cut on either side |
| Whitespace.StripStripped | processing_timetable_data.py:55 | text without whitespace at either end is returned unchanged |
| Schedule.LinkStopRefs | processing_timetable_data.py:24 | the StopPointRef texts of a list of timing links are exactly their From and To stops: each is listed, and nothing else is |
| Schedule.SectionStopRefs | processing_timetable_data.py:24 | the StopPointRef texts inside a list of sections are exactly the From and To stops of their links |
| Schedule.StopRefs | processing_timetable_data.py:24 | a text is among the document's StopPointRef elements exactly when it is in the stop list or is the From or To stop of some timing link |
| Schedule.FirstIndex | processing_timetable_data.py:52-55 | the position found holds the key and no earlier position does; none is found exactly when the key is absent |
| Schedule.FindById | processing_timetable_data.py:52-66 | the JourneyPattern and JourneyPatternSection lookups: an item is found exactly when the key holds no quote and some item has the id, and the one found is the first with that id |
| Timetable.ScanLinks | processing_timetable_data.py:69-85 | a recorded hit needs a link leaving the target, and the clock never runs backwards |
| Timetable.Destination | processing_timetable_data.py:55 | there is a destination exactly when the pattern has a DestinationDisplay and the first one has text; it is that text with only whitespace cut from either end, and neither of its ends is whitespace |
| Timetable.FindArrivalTimesByDestination | processing_timetable_data.py:30-89 | empty when no StopPointRef carries the target and when any journey fails; otherwise destinations are distinct and each holds at least one time |
| Grouping.Append | processing_timetable_data.py:81 | appending under a destination keeps keys distinct, adds exactly that key, and extends only that key's list |
| Grouping.Group | processing_timetable_data.py:32-82 | the keys are exactly the destinations recorded, each once, and each holds exactly the times recorded under it in recording order |
| Grouping.AppendKeyPlaces | processing_timetable_data.py:81 | appending keeps every existing key in its place and puts a destination not yet a key at the end |
| Grouping.GroupKeyOrder | processing_timetable_data.py:32-82 | the keys come in the order their destinations were first recorded (`FirstMention`), as a Python dict's keys do |
| Grouping.TimesForRecorded | processing_timetable_data.py:81 | every time under a key was recorded by some arrival for that destination |
| Grouping.GroupNoEmptyList | processing_timetable_data.py:32 | the defaultdict never holds an empty list, because keys are created only by appending |
| Grouping.GroupEmpty | processing_timetable_data.py:32-89 | the mapping is empty exactly when no arrival was recorded |
| TimetableProperties.ScanLinksClock | processing_timetable_data.py:69-85 | with no link leaving the target the clock advances by every run time and nothing is recorded; otherwise the recorded value is the clock plus the run times up to and including the first such link, and the clock carried on omits that link |
| TimetableProperties.ScanLinksFails | processing_timetable_data.py:69-75 | a section scan fails exactly when a link it reaches (up to the first one leaving the target) lacks its From stop or run time; later links are never read |
| TimetableProperties.WalkSectionsAppend | processing_timetable_data.py:60-85 | walking two runs of section references is walking the first from the departure clock and then the second from the clock the first hands on (the running time left by each section's timing-link loop); the first run's times come first, and the whole fails exactly when a run fails |
| TimetableProperties.WalkSectionsShape | processing_timetable_data.py:60-82 | one journey records at most one time per section reference, each under the journey's destination and each a valid HH:MM:SS string |
| TimetableProperties.WalkJourneysWellFormed | processing_timetable_data.py:44-82 | every arrival recorded by the journey walk has a stripped destination and a valid time of day |
| TimetableProperties.ResultWellFormed | processing_timetable_data.py:49-81 | every key of the returned mapping is stripped text and every time is a valid HH:MM:SS time |
| TimetableProperties.WalkJourneysFails | processing_timetable_data.py:39-88 | the journey walk fails exactly when at least one journey fails |
| TimetableProperties.OneBrokenJourneyEmptiesAll | processing_timetable_data.py:87-88 | a single failing journey empties the whole result; no partial mapping is returned |
| TimetableProperties.WalkJourneysAppend | processing_timetable_data.py:44-82 | walking journeys in two parts is walking the first part and then the second: the whole fails exactly when a part fails, and otherwise its arrivals are the first part's followed by the second's |
| TimetableProperties.NoDepartureNoArrivals | processing_timetable_data.py:70-82 | when no timing link leaves the target, every successful journey walk records nothing |
| TimetableProperties.OnlyFromStopsCount | processing_timetable_data.py:70-78 | a document in which no timing link leaves from the target yields an empty result, whatever its To stops and stop list hold |
| TimetableProperties.FastRejectSound | processing_timetable_data.py:22-36 | the fast-reject check never changes the answer: the result equals grouping the journey walk, or empty on failure |
| TimetableProperties.JourneyFirstArrival | processing_timetable_data.py:45-81 | when the first section of a journey's pattern has a link leaving the target, the journey's first arrival is under the pattern's destination at the DepartureTime plus the run times up to and including the first such link (`FirstFrom`, `Elapsed`) |
| TimetableProperties.SectionsFirstArrival | processing_timetable_data.py:60-81 | the same for a walk over section references from any clock: a link leaving the target in the first section gives the first arrival, at the clock plus the run times up to and including that link |
| TimetableProperties.SampleFormat | processing_timetable_data.py:81 | 08:00:00 plus five minutes prints as 08:05:00 |
| TimetableProperties.SampleResult | processing_timetable_data.py:35-89 | for a document that mentions the stop and walks successfully, the result groups the walk's arrivals |
| TimetableProperties.SampleFromStop | processing_timetable_data.py:69-85 | departing 08:00:00 with a PT5M link from A to B, asking for A records 08:05:00 under the destination |
| TimetableProperties.SampleToStop | processing_timetable_data.py:24-78 | in the same document, asking for B passes the fast-reject check yet yields nothing |
| TimetableProperties.SampleRepeatedSection | processing_timetable_data.py:60-85 | a pattern that references the same section twice records the same time twice, since the matched link's run time is never carried forward |
| Locator.FindRelevantOperatorsByPlace | locate_zipfile.py:28-62 | the loops build exactly the zip and xml name lists of the backward catalogue walk, or fail where an accepted xml entry has no lines |
| Locator.ScanFits | locate_zipfile.py:42-58 | every accepted entry serves the locality, is zip or xml, goes to the list its extension names, and is named `operator_id.zip` or `operator_id_firstline.xml` |
| Locator.ScanOrder | locate_zipfile.py:35-62 | accepted entries come in strictly decreasing catalogue position, so each entry contributes at most once and the lists follow the reverse order |
| Locator.ScanDistinct | locate_zipfile.py:38-58 | no two accepted entries share an (operator name, lines) pair |
| Locator.ScanKeys | locate_zipfile.py:31-58 | the dedup list holds exactly the pairs of the eligible entries walked so far |
| Locator.ScanAccepts | locate_zipfile.py:35-60 | an entry is accepted exactly when it serves the locality, is zip or xml, and no later catalogue entry with the same pair is eligible |
| Locator.ScanRaises | locate_zipfile.py:53-55 | the walk raises exactly when some accepted entry is an xml entry without lines |
| Locator.ScanFailureSticks | locate_zipfile.py:55 | once the walk raises, no earlier catalogue entry changes the outcome |
| Locator.NamesSplit | locate_zipfile.py:46-62 | the two name lists together have as many names as there are accepted entries, every accepted entry's name is in the list of its kind, and each listed name comes from an entry of that kind |
| Locator.DuplicateOperatorScenario | locate_zipfile.py:35-39 | of two entries with the same pair serving the locality, only the later one is selected |
| Locator.OtherExtensionScenario | locate_zipfile.py:46-60 | an entry that is neither zip nor xml adds no file and does not block an earlier entry with the same pair |
| Aggregator.LastNamed | locate_zipfile.py:110 | opening a name yields the last member carrying it, and none when no member does |
| Aggregator.ReadAt | locate_zipfile.py:107-111 | the document read for the k-th listed name is the content of the last member carrying that name, which is member k or a later one (`ReadAll` lists these reads in name-list order) |
| Aggregator.ArchiveLines | locate_zipfile.py:117-128 | within one archive, a line has an entry exactly when some member walked yields times for it |
| Aggregator.ArchiveLinesDistinct | locate_zipfile.py:98-132 | no line has two entries from one archive |
| Aggregator.ArchiveFirstSuccess | locate_zipfile.py:107-132 | each entry holds the times of the first member the backward walk meets that yields times for its line |
| Aggregator.ArchiveOrder | locate_zipfile.py:107-132 | one archive's entries come in the order the backward walk meets their first successes: a later entry's member lies earlier in the name list |
| Aggregator.CollectOperatorArchive | locate_zipfile.py:98-132 | the loop over one archive builds the backward walk's entries, and it extracts a member exactly when no member met before it has already answered its line |
| Aggregator.LaterMemberWins | locate_zipfile.py:117-121 | when the later member of a line yields times, the earlier one is skipped |
| Aggregator.EmptyMemberDoesNotBlock | locate_zipfile.py:124-128 | an empty result does not tick a line off, so an earlier member can still supply it |
| Aggregator.FlatSound | locate_zipfile.py:72-92 | every flat entry is the line and times of a selected flat file with a non-empty extraction, and there are no more entries than files |
| Aggregator.FlatComplete | locate_zipfile.py:72-92 | every selected flat file with a non-empty extraction has an entry that is the record it produces |
| Aggregator.FlatOrder | locate_zipfile.py:72-92 | the flat list has one entry per selected flat file with a non-empty extraction (`FlatHits`), in file order, entry e being the record of the e-th such file |
| Aggregator.FlatKeepsDuplicates | locate_zipfile.py:72-92 | two flat files of one line that both yield times give two entries, because flat files are not deduplicated |
| Aggregator.ArchiveCountAtMostOne | locate_zipfile.py:98-132 | one archive contributes at most one entry per line |
| Aggregator.ArchiveCountExact | locate_zipfile.py:98-132 | one archive has exactly one entry for a line when some member yields times for it, and none otherwise |
| Aggregator.ZipCountExact | locate_zipfile.py:95-132 | because the checked list is reset per archive, a line has exactly one entry for each selected archive that has a member yielding times for it (`ArchivesServing`), whatever earlier archives gave |
| Aggregator.ZipCountBound | locate_zipfile.py:95-132 | a line has at most as many entries as there are selected archives |
| Aggregator.ArchiveEntries | locate_zipfile.py:107-132 | every entry of an archive is the line and times of one of its members |
| Aggregator.ZipEntries | locate_zipfile.py:95-132 | every archive entry is the line and times of a member of one of the selected archives |
| Aggregator.AggregateEntries | locate_zipfile.py:64-134 | flat-file entries come first and each is produced by a selected flat file; every later entry is produced by a member of a selected archive; an entry produced by a document carries that document's first LineName text (`get_line_number`) and its non-empty times |
| Aggregator.GetBusStopTimetable | locate_zipfile.py:64-134 | every entry of the stop's timetable holds a non-empty mapping with distinct destinations, each with at least one time |
| Aggregator.AggregateNeedsMention | locate_zipfile.py:72-132 | a non-empty aggregation needs a selected document that mentions the stop |
| Aggregator.TimetableNeedsMention | locate_zipfile.py:64-134 | a stop gets a non-empty timetable only when a selected flat file or a member of a selected archive mentions its ATCO code |

## Left out

- `main.py` (the Kivy user interface) is not part of this model.
- `geocoding.py` is not part of this model. It does HTTP lookups, MD5 change
  detection and a floating-point bounding-box filter.
- `fetch_api_data.py` is not part of this model. It does HTTP downloads,
  snapshot comparison and zip writing.
- `LocateBusFile.get_json_data` and `find_bus_service_zipfile` are left out:
  they are file I/O and console printing.
- XML parsing and XPath evaluation are left out. The document is given
  already parsed.
- StopPointRef elements outside timing links are one list. Their order
  relative to the links' is not kept, because only membership is asked of
  them.
- `datetime.strptime` and `isodate.parse_duration` are foreign. A departure
  is a second of the day and a run time is whole seconds, or `None` when
  they do not parse. Fractional and negative durations are out of scope.
- The `datetime` overflow past year 9999 is not modelled. The clock is an
  unbounded count of seconds.
- The catalogue `id` is held as the text the file-name template prints. The
  JSON number formatting is not modelled.
- Strings are sequences of characters. There is no Unicode normalisation or
  encoding.
- Exceptions that escape `get_bus_stop_timetable` are preconditions, not
  modelled outcomes. These are a missing member, unparsable XML, a
  missing `LineName` on a document whose line is read, and the locator's
  `IndexError` on an accepted xml entry with no lines
  (`locate_zipfile.py:55`, reached through `:67`).
- A catalogue entry with a missing field is not modelled: every
  `CatalogueEntry` has all its fields. In the code a missing `operatorName`
  or `lines` (`locate_zipfile.py:38`), `localities` (`:42`) or
  `gazetteer_id` (`:45`), or on a match a missing `extension` (`:46`, `:53`)
  or `id` (`:48`, `:55`), raises `KeyError` out of both
  `find_relevant_operators_by_place` and `get_bus_stop_timetable`. The
  catalogue is read from JSON as given and its schema is taken as met.
- Schedule.FindById: a key holding a quote is modelled as a failed lookup.
  In the code the key is pasted into `[@id='key']`
  (`processing_timetable_data.py:52`, `:64`), so a quote ends the string
  literal early. The query may then be a syntax error, or a valid
  expression such as `[@id='x' or '1'='1']` that selects every pattern or
  section and so records times. XPath parsing is not modelled.
- Timetable.FindArrivalTimesByDestination: its own contract gives the empty
  cases and the shape of the mapping. The exact times are stated about it by
  `TimetableProperties.FastRejectSound`, `Grouping.Group` and
  `TimetableProperties.ScanLinksClock`.
- Aggregator.GetBusStopTimetable: its own contract gives only the shape of
  every entry. Where the entries come from, and how often a line appears, is
  stated about `Aggregator.Aggregate` by `Aggregator.AggregateEntries`,
  `Aggregator.ZipCountExact`, `Aggregator.ArchiveFirstSuccess` and
  `Aggregator.ArchiveOrder`.
