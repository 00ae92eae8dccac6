/** Building the timetable for one stop (`LocateBusFile.get_bus_stop_timetable`).

    The outer container holds the files the locator names: flat schedule
    documents and, per operator, a nested zip archive of schedule documents.
    Flat files are processed first, in the locator's order; each adds an
    entry only when its extraction is non-empty. Then each operator archive is
    walked from its last member to its first with a fresh list of checked
    lines: a member whose line is already checked is skipped without
    extraction, and a line is checked only once one of its members has
    produced a non-empty result. */
module Aggregator {
  import opened Options
  import opened Schedule
  import opened Grouping
  import opened Timetable
  import opened Locator

  /** A named member of a zip archive. */
  datatype Member<C> = Member(name: string, content: C)

  /** What the outer container holds under a name: a flat schedule document
      or an operator's nested archive of schedule documents. */
  datatype Content = XmlContent(doc: Document) | ZipContent(members: seq<Member<Document>>)

  /** The stop being asked about: its ATCO code and its locality. */
  datatype StopIdentity = StopIdentity(atcoCode: string, gazetteerId: string)

  /** One output record `{'line': ..., 'arrival_times': ...}`. */
  datatype BusTimetable = BusTimetable(line: Text, arrivalTimes: seq<DestinationTimes>)

  /** The member a zip archive opens for a name: the last one carrying it. */
  function LastNamed<C>(members: seq<Member<C>>, name: string): (r: Option<nat>)
    ensures r.Some? ==> r.value < |members| && members[r.value].name == name
                        && forall j :: r.value < j < |members| ==> members[j].name != name
    ensures r.None? ==> forall j :: 0 <= j < |members| ==> members[j].name != name
  {
    if |members| == 0 then None
    else if members[|members| - 1].name == name then Some(|members| - 1)
    else LastNamed(members[..|members| - 1], name)
  }

  function Open<C>(members: seq<Member<C>>, name: string): Option<C> {
    match LastNamed(members, name)
    case None => None
    case Some(k) => Some(members[k].content)
  }

  /** The document read for the `k`-th name of an archive's name list: the
      content of the last member carrying that name, which is member `k`
      itself or a later one. */
  function ReadAt(members: seq<Member<Document>>, k: nat): (doc: Document)
    requires k < |members|
    ensures exists j :: k <= j < |members| && members[j].name == members[k].name && doc == members[j].content
                        && forall l :: j < l < |members| ==> members[l].name != members[k].name
  {
    members[LastNamed(members, members[k].name).value].content
  }

  /** The documents an archive's name list reads, in name-list order: the
      `k`-th is the content of the last member named like member `k`. */
  function ReadAll(members: seq<Member<Document>>): (docs: seq<Document>)
    ensures |docs| == |members|
    ensures forall k :: 0 <= k < |members| ==> docs[k] == ReadAt(members, k)
  {
    seq(|members|, k requires 0 <= k < |members| => ReadAt(members, k))
  }

  /** Every document has a line name (`get_bus_stop_timetable` does not
      catch the error `get_line_number` raises when it is missing). */
  predicate AllNamed(docs: seq<Document>) {
    forall k :: 0 <= k < |docs| ==> |docs[k].lineNames| > 0
  }

  function LineOf(doc: Document): Text
    requires |doc.lineNames| > 0
  {
    GetLineNumber(doc).value
  }

  /** The extractor as the aggregation calls it: a document's arrival times
      at the stop being asked about. */
  type Extract = Document -> seq<DestinationTimes>

  function Lines(timetables: seq<BusTimetable>): (lines: seq<Text>)
    ensures |lines| == |timetables|
    ensures forall k :: 0 <= k < |timetables| ==> lines[k] == timetables[k].line
  {
    if |timetables| == 0 then [] else Lines(timetables[..|timetables| - 1]) + [timetables[|timetables| - 1].line]
  }

  lemma {:induction false} LinesAppend(ts: seq<BusTimetable>, t: BusTimetable)
    ensures Lines(ts + [t]) == Lines(ts) + [t.line]
  {
    assert (ts + [t])[..|ts|] == ts;
  }

  /** The walk over one operator archive's documents `i..`, last one first. */
  function ArchiveTimetables(docs: seq<Document>, extract: Extract, i: nat): seq<BusTimetable>
    requires i <= |docs| && AllNamed(docs)
    decreases |docs| - i
  {
    if i == |docs| then []
    else
      var prev := ArchiveTimetables(docs, extract, i + 1);
      var line := LineOf(docs[i]);
      if line in Lines(prev) then prev
      else
        var times := extract(docs[i]);
        if times == [] then prev else prev + [BusTimetable(line, times)]
  }

  /** One step of the walk: document `i` adds an entry exactly when its line
      is not yet checked and its result is non-empty. */
  lemma {:induction false} ArchiveStep(docs: seq<Document>, extract: Extract, i: nat)
    requires i < |docs| && AllNamed(docs)
    ensures var prev := ArchiveTimetables(docs, extract, i + 1);
            var line := LineOf(docs[i]);
            ArchiveTimetables(docs, extract, i)
            == if line !in Lines(prev) && extract(docs[i]) != []
               then prev + [BusTimetable(line, extract(docs[i]))]
               else prev
  {
  }

  /** Document `k` yields a non-empty result for `line`. */
  predicate Succeeds(docs: seq<Document>, extract: Extract, k: nat, line: Text)
    requires k < |docs| && AllNamed(docs)
  {
    LineOf(docs[k]) == line && extract(docs[k]) != []
  }

  /** Some document among `i..` succeeds for the line. */
  predicate LineWalked(docs: seq<Document>, extract: Extract, i: nat, line: Text)
    requires AllNamed(docs)
  {
    exists k :: i <= k < |docs| && Succeeds(docs, extract, k, line)
  }

  lemma {:induction false} LineWalkedStep(docs: seq<Document>, extract: Extract, i: nat, line: Text)
    requires i < |docs| && AllNamed(docs)
    ensures LineWalked(docs, extract, i, line) <==> LineWalked(docs, extract, i + 1, line) || Succeeds(docs, extract, i, line)
  {
    if Succeeds(docs, extract, i, line) {
      assert LineWalked(docs, extract, i, line);
    }
    if LineWalked(docs, extract, i + 1, line) {
      var k :| i + 1 <= k < |docs| && Succeeds(docs, extract, k, line);
      assert LineWalked(docs, extract, i, line);
    }
    if LineWalked(docs, extract, i, line) && !Succeeds(docs, extract, i, line) {
      var k :| i <= k < |docs| && Succeeds(docs, extract, k, line);
      assert LineWalked(docs, extract, i + 1, line);
    }
  }

  /** After document `i` a line is recorded exactly when it was recorded
      before or document `i` succeeds for it. */
  lemma {:induction false} ArchiveLineStep(docs: seq<Document>, extract: Extract, i: nat, line: Text)
    requires i < |docs| && AllNamed(docs)
    ensures line in Lines(ArchiveTimetables(docs, extract, i))
            <==> line in Lines(ArchiveTimetables(docs, extract, i + 1)) || Succeeds(docs, extract, i, line)
  {
    ArchiveStep(docs, extract, i);
    var prev := ArchiveTimetables(docs, extract, i + 1);
    if LineOf(docs[i]) !in Lines(prev) && extract(docs[i]) != [] {
      LinesAppend(prev, BusTimetable(LineOf(docs[i]), extract(docs[i])));
    }
  }

  /** Within one archive a line has an entry exactly when one of the
      documents walked succeeds for it. */
  lemma {:induction false} ArchiveLine(docs: seq<Document>, extract: Extract, i: nat, line: Text)
    requires i <= |docs| && AllNamed(docs)
    ensures line in Lines(ArchiveTimetables(docs, extract, i)) <==> LineWalked(docs, extract, i, line)
    decreases |docs| - i
  {
    if i < |docs| {
      ArchiveLine(docs, extract, i + 1, line);
      ArchiveLineStep(docs, extract, i, line);
      LineWalkedStep(docs, extract, i, line);
    } else {
      ArchiveLineEnd(docs, extract, line);
    }
  }

  /** Past the last document nothing is recorded and nothing is walked. */
  lemma {:induction false} ArchiveLineEnd(docs: seq<Document>, extract: Extract, line: Text)
    requires AllNamed(docs)
    ensures line !in Lines(ArchiveTimetables(docs, extract, |docs|))
    ensures !LineWalked(docs, extract, |docs|, line)
  {
    assert Lines(ArchiveTimetables(docs, extract, |docs|)) == [];
  }

  /** `ArchiveLine` for every line at once. */
  lemma {:induction false} ArchiveLines(docs: seq<Document>, extract: Extract, i: nat)
    requires i <= |docs| && AllNamed(docs)
    ensures forall line :: line in Lines(ArchiveTimetables(docs, extract, i)) <==> LineWalked(docs, extract, i, line)
  {
    forall line
      ensures line in Lines(ArchiveTimetables(docs, extract, i)) <==> LineWalked(docs, extract, i, line)
    {
      ArchiveLine(docs, extract, i, line);
    }
  }

  /** No line has two entries from one archive. */
  lemma {:induction false} ArchiveLinesDistinct(docs: seq<Document>, extract: Extract, i: nat)
    requires i <= |docs| && AllNamed(docs)
    ensures forall a, b :: 0 <= a < b < |ArchiveTimetables(docs, extract, i)| ==>
              ArchiveTimetables(docs, extract, i)[a].line != ArchiveTimetables(docs, extract, i)[b].line
    decreases |docs| - i
  {
    if i < |docs| {
      ArchiveLinesDistinct(docs, extract, i + 1);
      ArchiveStep(docs, extract, i);
      var prev := ArchiveTimetables(docs, extract, i + 1);
      var ts := ArchiveTimetables(docs, extract, i);
      var line := LineOf(docs[i]);
      if line !in Lines(prev) && extract(docs[i]) != [] {
        assert ts == prev + [BusTimetable(line, extract(docs[i]))];
        forall a, b | 0 <= a < b < |ts|
          ensures ts[a].line != ts[b].line
        {
          assert ts[a] == prev[a];
          if b == |prev| {
            assert Lines(prev)[a] == prev[a].line;
          } else {
            assert ts[b] == prev[b];
          }
        }
      }
    }
  }

  /** `t` holds the result of document `k`, the first document the walk
      (from the last one backward) meets succeeding for `t`'s line. */
  predicate FirstSuccessAt(docs: seq<Document>, extract: Extract, k: nat, t: BusTimetable)
    requires k < |docs| && AllNamed(docs)
  {
    Succeeds(docs, extract, k, t.line) && t.arrivalTimes == extract(docs[k])
    && forall j :: k < j < |docs| ==> !Succeeds(docs, extract, j, t.line)
  }

  /** `t` is the first success of some document among `i..`. */
  predicate FirstSuccess(docs: seq<Document>, extract: Extract, i: nat, t: BusTimetable)
    requires i <= |docs| && AllNamed(docs)
  {
    exists k :: i <= k < |docs| && FirstSuccessAt(docs, extract, k, t)
  }

  lemma {:induction false} FirstSuccessWiden(docs: seq<Document>, extract: Extract, i: nat, t: BusTimetable)
    requires i < |docs| && AllNamed(docs)
    requires FirstSuccess(docs, extract, i + 1, t)
    ensures FirstSuccess(docs, extract, i, t)
  {
    var k :| i + 1 <= k < |docs| && Succeeds(docs, extract, k, t.line) && t.arrivalTimes == extract(docs[k])
             && forall j :: k < j < |docs| ==> !Succeeds(docs, extract, j, t.line);
  }

  /** The entry document `i` adds is its own first success. */
  lemma {:induction false} FirstSuccessNew(docs: seq<Document>, extract: Extract, i: nat)
    requires i < |docs| && AllNamed(docs)
    requires LineOf(docs[i]) !in Lines(ArchiveTimetables(docs, extract, i + 1)) && extract(docs[i]) != []
    ensures FirstSuccess(docs, extract, i, BusTimetable(LineOf(docs[i]), extract(docs[i])))
  {
    ArchiveLine(docs, extract, i + 1, LineOf(docs[i]));
    assert FirstSuccessAt(docs, extract, i, BusTimetable(LineOf(docs[i]), extract(docs[i])));
  }

  /** Entry `e` of the walk from `i` is either an entry of the walk from
      `i + 1` or the one document `i` adds. */
  lemma {:induction false} ArchiveEntryStep(docs: seq<Document>, extract: Extract, i: nat, e: nat)
    requires i <= |docs| && AllNamed(docs)
    requires e < |ArchiveTimetables(docs, extract, i)|
    ensures i < |docs|
    ensures e < |ArchiveTimetables(docs, extract, i + 1)| ==>
              ArchiveTimetables(docs, extract, i)[e] == ArchiveTimetables(docs, extract, i + 1)[e]
    ensures e >= |ArchiveTimetables(docs, extract, i + 1)| ==>
              LineOf(docs[i]) !in Lines(ArchiveTimetables(docs, extract, i + 1)) && extract(docs[i]) != []
              && ArchiveTimetables(docs, extract, i)[e] == BusTimetable(LineOf(docs[i]), extract(docs[i]))
  {
    ArchiveStep(docs, extract, i);
  }

  /** Entry `e` of the walk from `i` holds the result of the first document
      the walk meets that succeeds for its line. */
  lemma {:induction false} ArchiveEntryFirst(docs: seq<Document>, extract: Extract, i: nat, e: nat)
    requires i <= |docs| && AllNamed(docs)
    requires e < |ArchiveTimetables(docs, extract, i)|
    ensures FirstSuccess(docs, extract, i, ArchiveTimetables(docs, extract, i)[e])
    decreases |docs| - i
  {
    ArchiveEntryStep(docs, extract, i, e);
    if e < |ArchiveTimetables(docs, extract, i + 1)| {
      ArchiveEntryFirst(docs, extract, i + 1, e);
      FirstSuccessWiden(docs, extract, i, ArchiveTimetables(docs, extract, i + 1)[e]);
    } else {
      FirstSuccessNew(docs, extract, i);
    }
  }

  /** Each entry holds the result of the first document the walk meets that
      succeeds for its line: documents whose result was empty do not block it. */
  lemma {:induction false} ArchiveFirstSuccess(docs: seq<Document>, extract: Extract, i: nat)
    requires i <= |docs| && AllNamed(docs)
    ensures forall e :: 0 <= e < |ArchiveTimetables(docs, extract, i)| ==>
              FirstSuccess(docs, extract, i, ArchiveTimetables(docs, extract, i)[e])
  {
    forall e | 0 <= e < |ArchiveTimetables(docs, extract, i)|
      ensures FirstSuccess(docs, extract, i, ArchiveTimetables(docs, extract, i)[e])
    {
      ArchiveEntryFirst(docs, extract, i, e);
    }
  }

  /** The entries of one archive come in the order the backward walk meets
      their first successes: a later entry's document lies before an earlier
      entry's document in the name list. */
  lemma {:induction false} ArchiveOrder(docs: seq<Document>, extract: Extract, i: nat)
    requires i <= |docs| && AllNamed(docs)
    ensures forall a, b, ka, kb :: 0 <= a < b < |ArchiveTimetables(docs, extract, i)| && i <= ka < |docs| && i <= kb < |docs|
              && FirstSuccessAt(docs, extract, ka, ArchiveTimetables(docs, extract, i)[a])
              && FirstSuccessAt(docs, extract, kb, ArchiveTimetables(docs, extract, i)[b])
              ==> kb < ka
  {
    forall a, b, ka, kb | 0 <= a < b < |ArchiveTimetables(docs, extract, i)| && i <= ka < |docs| && i <= kb < |docs|
      && FirstSuccessAt(docs, extract, ka, ArchiveTimetables(docs, extract, i)[a])
      && FirstSuccessAt(docs, extract, kb, ArchiveTimetables(docs, extract, i)[b])
      ensures kb < ka
    {
      ArchiveOrderPair(docs, extract, i, a, b, ka, kb);
    }
  }

  /** `ArchiveOrder` for one pair of entries. */
  lemma {:induction false} ArchiveOrderPair(docs: seq<Document>, extract: Extract, i: nat, a: nat, b: nat, ka: nat, kb: nat)
    requires i <= |docs| && AllNamed(docs)
    requires a < b < |ArchiveTimetables(docs, extract, i)|
    requires i <= ka < |docs| && i <= kb < |docs|
    requires FirstSuccessAt(docs, extract, ka, ArchiveTimetables(docs, extract, i)[a])
    requires FirstSuccessAt(docs, extract, kb, ArchiveTimetables(docs, extract, i)[b])
    ensures kb < ka
    decreases |docs| - i
  {
    ArchiveEntryStep(docs, extract, i, a);
    ArchiveEntryStep(docs, extract, i, b);
    var prev := ArchiveTimetables(docs, extract, i + 1);
    EntryLineWalked(docs, extract, i, a, ka);
    if b < |prev| {
      EntryLineWalked(docs, extract, i, b, kb);
      ArchiveOrderPair(docs, extract, i + 1, a, b, ka, kb);
    } else {
      NewEntryAt(docs, extract, i, kb);
    }
  }

  /** The entry document `i` adds has its first success at `i`. */
  lemma {:induction false} NewEntryAt(docs: seq<Document>, extract: Extract, i: nat, kb: nat)
    requires i <= kb < |docs| && AllNamed(docs)
    requires LineOf(docs[i]) !in Lines(ArchiveTimetables(docs, extract, i + 1))
    requires Succeeds(docs, extract, kb, LineOf(docs[i]))
    ensures kb == i
  {
    ArchiveLine(docs, extract, i + 1, LineOf(docs[i]));
  }

  /** An entry already recorded by the walk from `i + 1` has its first
      success after document `i`. */
  lemma {:induction false} EntryLineWalked(docs: seq<Document>, extract: Extract, i: nat, a: nat, ka: nat)
    requires i < |docs| && AllNamed(docs)
    requires a < |ArchiveTimetables(docs, extract, i + 1)|
    requires i <= ka < |docs|
    requires FirstSuccessAt(docs, extract, ka, ArchiveTimetables(docs, extract, i + 1)[a])
    ensures i < ka
  {
    var prev := ArchiveTimetables(docs, extract, i + 1);
    assert Lines(prev)[a] == prev[a].line;
    ArchiveLine(docs, extract, i + 1, prev[a].line);
  }

  /** The loop over one operator archive, with its own `checked_lines` list.
      Besides the entries it returns the positions (in the archive's name
      list) of the members it ran the extractor on: a member is extracted
      exactly when no member the walk met before it has already succeeded for
      its line. */
  method CollectOperatorArchive(members: seq<Member<Document>>, extract: Extract)
    returns (timetables: seq<BusTimetable>, extracted: seq<nat>)
    requires AllNamed(ReadAll(members))
    ensures timetables == ArchiveTimetables(ReadAll(members), extract, 0)
    ensures var docs := ReadAll(members);
            forall k :: 0 <= k < |docs| ==>
              (k in extracted <==> forall j :: k < j < |docs| ==> !Succeeds(docs, extract, j, LineOf(docs[k])))
  {
    ghost var docs := ReadAll(members);
    var checkedLines: seq<Text> := [];
    timetables := [];
    extracted := [];
    var i := |members|;
    while i > 0
      invariant 0 <= i <= |members|
      invariant timetables == ArchiveTimetables(docs, extract, i)
      invariant checkedLines == Lines(timetables)
      invariant forall k :: 0 <= k < |docs| ==>
                  (k in extracted <==> i <= k && forall j :: k < j < |docs| ==> !Succeeds(docs, extract, j, LineOf(docs[k])))
    {
      i := i - 1;
      var doc := members[LastNamed(members, members[i].name).value].content;
      assert doc == docs[i];
      var lineNumber := GetLineNumber(doc).value;
      ArchiveStep(docs, extract, i);
      ghost var before := extracted;
      if lineNumber !in checkedLines {
        var arrivalTimes := extract(doc);
        extracted := extracted + [i];
        if arrivalTimes != [] {
          checkedLines := checkedLines + [lineNumber];
          LinesAppend(timetables, BusTimetable(lineNumber, arrivalTimes));
          timetables := timetables + [BusTimetable(lineNumber, arrivalTimes)];
        }
      }
      ExtractedStep(docs, extract, i, before, extracted, lineNumber !in Lines(ArchiveTimetables(docs, extract, i + 1)));
    }
  }

  /** The bookkeeping of one loop step of `CollectOperatorArchive`: position
      `i` is recorded exactly when no earlier-walked document succeeded for
      its line. */
  lemma {:induction false} ExtractedStep(docs: seq<Document>, extract: Extract, i: nat, before: seq<nat>, after: seq<nat>, isNew: bool)
    requires i < |docs| && AllNamed(docs)
    requires forall k :: 0 <= k < |docs| ==>
               (k in before <==> i + 1 <= k && forall j :: k < j < |docs| ==> !Succeeds(docs, extract, j, LineOf(docs[k])))
    requires isNew <==> LineOf(docs[i]) !in Lines(ArchiveTimetables(docs, extract, i + 1))
    requires after == if isNew then before + [i] else before
    ensures forall k :: 0 <= k < |docs| ==>
              (k in after <==> i <= k && forall j :: k < j < |docs| ==> !Succeeds(docs, extract, j, LineOf(docs[k])))
  {
    ArchiveLine(docs, extract, i + 1, LineOf(docs[i]));
    assert i !in before;
    forall k | 0 <= k < |docs|
      ensures k in after <==> i <= k && forall j :: k < j < |docs| ==> !Succeeds(docs, extract, j, LineOf(docs[k]))
    {
      if k != i {
        assert k in after <==> k in before;
      }
    }
  }

  /** A member whose line was found by a later member is never re-read: two
      members of one line where the later one yields times give one entry,
      holding the later member's times. */
  lemma {:induction false} LaterMemberWins(d1: Document, d2: Document, extract: Extract)
    requires |d1.lineNames| > 0 && |d2.lineNames| > 0 && LineOf(d1) == LineOf(d2)
    requires extract(d2) != []
    ensures ArchiveTimetables([d1, d2], extract, 0) == [BusTimetable(LineOf(d2), extract(d2))]
  {
    var docs := [d1, d2];
    ArchiveStep(docs, extract, 1);
    ArchiveStep(docs, extract, 0);
    assert ArchiveTimetables(docs, extract, 2) == [];
    assert [] + [BusTimetable(LineOf(d2), extract(d2))] == [BusTimetable(LineOf(d2), extract(d2))];
  }

  /** A later member of the line that yields nothing does not block an
      earlier one. */
  lemma {:induction false} EmptyMemberDoesNotBlock(d1: Document, d2: Document, extract: Extract)
    requires |d1.lineNames| > 0 && |d2.lineNames| > 0 && LineOf(d1) == LineOf(d2)
    requires extract(d2) == [] && extract(d1) != []
    ensures ArchiveTimetables([d1, d2], extract, 0) == [BusTimetable(LineOf(d1), extract(d1))]
  {
    var docs := [d1, d2];
    ArchiveStep(docs, extract, 1);
    ArchiveStep(docs, extract, 0);
    assert ArchiveTimetables(docs, extract, 2) == [];
    assert [] + [BusTimetable(LineOf(d1), extract(d1))] == [BusTimetable(LineOf(d1), extract(d1))];
  }

  // ---------------------------------------------------------------------
  // The outer container and the whole aggregation
  // ---------------------------------------------------------------------

  /** The name opens a schedule document in the outer container. */
  predicate XmlReadable(container: seq<Member<Content>>, name: string) {
    Open(container, name).Some? && Open(container, name).value.XmlContent?
  }

  function XmlDoc(container: seq<Member<Content>>, name: string): Document
    requires XmlReadable(container, name)
  {
    Open(container, name).value.doc
  }

  /** The name opens a nested archive whose every listed member has a line
      name. */
  predicate ZipReadable(container: seq<Member<Content>>, name: string) {
    && Open(container, name).Some?
    && Open(container, name).value.ZipContent?
    && AllNamed(ReadAll(Open(container, name).value.members))
  }

  /** The documents a nested archive's name list reads, in name-list order. */
  function ArchiveDocs(container: seq<Member<Content>>, name: string): (docs: seq<Document>)
    requires ZipReadable(container, name)
    ensures AllNamed(docs)
  {
    ReadAll(Open(container, name).value.members)
  }

  /** Every flat file opens, and every one whose extraction is non-empty has
      a line name (the line is read only for those). */
  predicate FlatReadable(container: seq<Member<Content>>, names: seq<string>, extract: Extract) {
    forall k :: 0 <= k < |names| ==>
      XmlReadable(container, names[k])
      && (extract(XmlDoc(container, names[k])) != [] ==> |XmlDoc(container, names[k]).lineNames| > 0)
  }

  predicate ZipsReadable(container: seq<Member<Content>>, names: seq<string>) {
    forall k :: 0 <= k < |names| ==> ZipReadable(container, names[k])
  }

  /** `t` is the record a document produces: its line and its non-empty
      extraction. */
  predicate Produced(t: BusTimetable, extract: Extract, doc: Document) {
    |doc.lineNames| > 0 && extract(doc) != [] && t == BusTimetable(LineOf(doc), extract(doc))
  }

  /** Some entry of `ts` is the record `doc` produces. */
  predicate HasEntry(ts: seq<BusTimetable>, extract: Extract, doc: Document) {
    exists e :: 0 <= e < |ts| && Produced(ts[e], extract, doc)
  }

  /** `t` is produced by one of the flat files. */
  predicate FromFlat(t: BusTimetable, container: seq<Member<Content>>, names: seq<string>, extract: Extract)
    requires FlatReadable(container, names, extract)
  {
    exists k :: 0 <= k < |names| && Produced(t, extract, XmlDoc(container, names[k]))
  }

  /** `t` is produced by a member of one of the archives. */
  predicate FromArchive(t: BusTimetable, docs: seq<Document>, extract: Extract) {
    exists k :: 0 <= k < |docs| && Produced(t, extract, docs[k])
  }

  predicate FromArchives(t: BusTimetable, container: seq<Member<Content>>, names: seq<string>, extract: Extract)
    requires ZipsReadable(container, names)
  {
    exists z :: 0 <= z < |names| && FromArchive(t, ArchiveDocs(container, names[z]), extract)
  }

  /** The loop over the flat files, in the order given. */
  function FlatTimetables(container: seq<Member<Content>>, names: seq<string>, extract: Extract): seq<BusTimetable>
    requires FlatReadable(container, names, extract)
  {
    if |names| == 0 then []
    else
      var prev := FlatTimetables(container, names[..|names| - 1], extract);
      var doc := XmlDoc(container, names[|names| - 1]);
      if extract(doc) == [] then prev else prev + [BusTimetable(LineOf(doc), extract(doc))]
  }

  /** Every flat entry comes from a flat file with a non-empty extraction,
      and there are no more entries than files. */
  lemma {:induction false} FlatSound(container: seq<Member<Content>>, names: seq<string>, extract: Extract)
    requires FlatReadable(container, names, extract)
    ensures |FlatTimetables(container, names, extract)| <= |names|
    ensures forall e :: 0 <= e < |FlatTimetables(container, names, extract)| ==>
              FromFlat(FlatTimetables(container, names, extract)[e], container, names, extract)
  {
    if |names| > 0 {
      var init := names[..|names| - 1];
      FlatSound(container, init, extract);
      var prev := FlatTimetables(container, init, extract);
      var flat := FlatTimetables(container, names, extract);
      forall e | 0 <= e < |flat|
        ensures FromFlat(flat[e], container, names, extract)
      {
        if e < |prev| {
          assert FromFlat(prev[e], container, init, extract);
          var k :| 0 <= k < |init| && Produced(prev[e], extract, XmlDoc(container, init[k]));
          assert init[k] == names[k];
          assert flat[e] == prev[e];
        } else {
          assert Produced(flat[e], extract, XmlDoc(container, names[|names| - 1]));
        }
      }
    }
  }

  /** Reference definition: the positions of the flat files whose
      extraction is non-empty, in increasing order. */
  function FlatHits(container: seq<Member<Content>>, names: seq<string>, extract: Extract): (hits: seq<nat>)
    requires FlatReadable(container, names, extract)
    ensures forall e :: 0 <= e < |hits| ==> hits[e] < |names| && extract(XmlDoc(container, names[hits[e]])) != []
    ensures forall e, f :: 0 <= e < f < |hits| ==> hits[e] < hits[f]
    ensures forall k :: 0 <= k < |names| && extract(XmlDoc(container, names[k])) != [] ==> k in hits
  {
    if |names| == 0 then []
    else
      var init := names[..|names| - 1];
      var prev := FlatHits(container, init, extract);
      assert forall e :: 0 <= e < |prev| ==> names[prev[e]] == init[prev[e]];
      assert forall k :: 0 <= k < |init| ==> names[k] == init[k];
      if extract(XmlDoc(container, names[|names| - 1])) == [] then prev else prev + [|names| - 1]
  }

  /** The flat loop in full: one entry per flat file whose extraction is
      non-empty, in file order, entry `e` being the record the `e`-th such
      file produces. */
  lemma {:induction false} FlatOrder(container: seq<Member<Content>>, names: seq<string>, extract: Extract)
    requires FlatReadable(container, names, extract)
    ensures |FlatTimetables(container, names, extract)| == |FlatHits(container, names, extract)|
    ensures forall e :: 0 <= e < |FlatTimetables(container, names, extract)| ==>
              Produced(FlatTimetables(container, names, extract)[e], extract,
                       XmlDoc(container, names[FlatHits(container, names, extract)[e]]))
  {
    if |names| > 0 {
      var init := names[..|names| - 1];
      FlatOrder(container, init, extract);
      var prev := FlatTimetables(container, init, extract);
      var prevHits := FlatHits(container, init, extract);
      var flat := FlatTimetables(container, names, extract);
      var hits := FlatHits(container, names, extract);
      forall e | 0 <= e < |flat|
        ensures Produced(flat[e], extract, XmlDoc(container, names[hits[e]]))
      {
        if e < |prev| {
          assert flat[e] == prev[e] && hits[e] == prevHits[e];
          assert names[prevHits[e]] == init[prevHits[e]];
        }
      }
    }
  }

  /** Flat files are not deduplicated: every flat file whose extraction is
      non-empty has an entry that is the record it produces. */
  lemma {:induction false} FlatComplete(container: seq<Member<Content>>, names: seq<string>, extract: Extract)
    requires FlatReadable(container, names, extract)
    ensures forall k :: 0 <= k < |names| && extract(XmlDoc(container, names[k])) != [] ==>
              HasEntry(FlatTimetables(container, names, extract), extract, XmlDoc(container, names[k]))
  {
    if |names| > 0 {
      var init := names[..|names| - 1];
      var last := |names| - 1;
      FlatComplete(container, init, extract);
      var prev := FlatTimetables(container, init, extract);
      var flat := FlatTimetables(container, names, extract);
      var doc := XmlDoc(container, names[last]);
      forall k | 0 <= k < |names| && extract(XmlDoc(container, names[k])) != []
        ensures HasEntry(flat, extract, XmlDoc(container, names[k]))
      {
        if k < last {
          assert init[k] == names[k];
          assert HasEntry(prev, extract, XmlDoc(container, init[k]));
          var e :| 0 <= e < |prev| && Produced(prev[e], extract, XmlDoc(container, init[k]));
          assert flat[e] == prev[e];
        } else {
          assert flat == prev + [BusTimetable(LineOf(doc), extract(doc))];
          assert Produced(flat[|prev|], extract, doc);
        }
      }
    }
  }

  /** Two flat files of the same line that both yield times give two
      entries, where two archive members would give one. */
  lemma {:induction false} FlatKeepsDuplicates(container: seq<Member<Content>>, n1: string, n2: string, extract: Extract)
    requires XmlReadable(container, n1) && XmlReadable(container, n2)
    requires extract(XmlDoc(container, n1)) != [] && |XmlDoc(container, n1).lineNames| > 0
    requires extract(XmlDoc(container, n2)) != [] && |XmlDoc(container, n2).lineNames| > 0
    ensures FlatReadable(container, [n1, n2], extract) && |FlatTimetables(container, [n1, n2], extract)| == 2
  {
    var names := [n1, n2];
    assert names[..1] == [n1] && [n1][..0] == [];
    assert FlatReadable(container, [n1], extract);
    assert |FlatTimetables(container, [n1], extract)| == 1;
    assert [n1, n2][..1] == [n1];
    assert [n1][..0] == [];
  }

  /** The loop over the operator archives, each with a fresh checked list. */
  function ZipTimetables(container: seq<Member<Content>>, names: seq<string>, extract: Extract): seq<BusTimetable>
    requires ZipsReadable(container, names)
  {
    if |names| == 0 then []
    else
      ZipTimetables(container, names[..|names| - 1], extract)
      + ArchiveTimetables(ArchiveDocs(container, names[|names| - 1]), extract, 0)
  }

  /** How many entries carry the line. */
  function CountLine(timetables: seq<BusTimetable>, line: Text): nat {
    if |timetables| == 0 then 0
    else CountLine(timetables[..|timetables| - 1], line) + (if timetables[|timetables| - 1].line == line then 1 else 0)
  }

  lemma {:induction false} CountLineAppend(a: seq<BusTimetable>, b: seq<BusTimetable>, line: Text)
    ensures CountLine(a + b, line) == CountLine(a, line) + CountLine(b, line)
    decreases |b|
  {
    if |b| == 0 {
      assert a + b == a;
    } else {
      var init := b[..|b| - 1];
      CountLineAppend(a, init, line);
      assert (a + b)[..|a + b| - 1] == a + init;
      assert (a + b)[|a + b| - 1] == b[|b| - 1];
    }
  }

  lemma {:induction false} CountLineAbsent(ts: seq<BusTimetable>, line: Text)
    requires line !in Lines(ts)
    ensures CountLine(ts, line) == 0
  {
    if |ts| > 0 {
      var init := ts[..|ts| - 1];
      assert Lines(ts) == Lines(init) + [ts[|ts| - 1].line];
      CountLineAbsent(init, line);
    }
  }

  /** Document `i` adds one entry for `line` exactly when it is the
      document's line, not yet checked, and its result is non-empty. */
  lemma {:induction false} ArchiveCountStep(docs: seq<Document>, extract: Extract, i: nat, line: Text)
    requires i < |docs| && AllNamed(docs)
    ensures CountLine(ArchiveTimetables(docs, extract, i), line)
            == CountLine(ArchiveTimetables(docs, extract, i + 1), line)
               + if LineOf(docs[i]) == line && line !in Lines(ArchiveTimetables(docs, extract, i + 1)) && extract(docs[i]) != []
                 then 1 else 0
  {
    ArchiveStep(docs, extract, i);
    var prev := ArchiveTimetables(docs, extract, i + 1);
    var t := BusTimetable(LineOf(docs[i]), extract(docs[i]));
    assert (prev + [t])[..|prev|] == prev;
  }

  /** One archive contributes at most one entry per line. */
  lemma {:induction false} ArchiveCountAtMostOne(docs: seq<Document>, extract: Extract, i: nat, line: Text)
    requires i <= |docs| && AllNamed(docs)
    ensures CountLine(ArchiveTimetables(docs, extract, i), line) <= 1
    decreases |docs| - i
  {
    if i < |docs| {
      ArchiveCountAtMostOne(docs, extract, i + 1, line);
      ArchiveCountStep(docs, extract, i, line);
      if LineOf(docs[i]) == line && line !in Lines(ArchiveTimetables(docs, extract, i + 1)) {
        CountLineAbsent(ArchiveTimetables(docs, extract, i + 1), line);
      }
    }
  }

  /** A line with an entry in a list is counted at least once. */
  lemma {:induction false} CountLinePresent(ts: seq<BusTimetable>, line: Text)
    requires line in Lines(ts)
    ensures CountLine(ts, line) >= 1
  {
    var init := ts[..|ts| - 1];
    assert Lines(ts) == Lines(init) + [ts[|ts| - 1].line];
    if ts[|ts| - 1].line != line {
      CountLinePresent(init, line);
    }
  }

  /** One archive has exactly one entry for a line when some member
      succeeds for it, and none otherwise. */
  lemma {:induction false} ArchiveCountExact(docs: seq<Document>, extract: Extract, line: Text)
    requires AllNamed(docs)
    ensures CountLine(ArchiveTimetables(docs, extract, 0), line) == if LineWalked(docs, extract, 0, line) then 1 else 0
  {
    var ts := ArchiveTimetables(docs, extract, 0);
    ArchiveLine(docs, extract, 0, line);
    ArchiveCountAtMostOne(docs, extract, 0, line);
    if line in Lines(ts) {
      CountLinePresent(ts, line);
    } else {
      CountLineAbsent(ts, line);
    }
  }

  /** Reference definition: how many of the archives have a member that
      succeeds for the line. */
  function ArchivesServing(container: seq<Member<Content>>, names: seq<string>, extract: Extract, line: Text): (n: nat)
    requires ZipsReadable(container, names)
    ensures n <= |names|
  {
    if |names| == 0 then 0
    else
      ArchivesServing(container, names[..|names| - 1], extract, line)
      + if LineWalked(ArchiveDocs(container, names[|names| - 1]), extract, 0, line) then 1 else 0
  }

  /** Each archive starts with an empty checked list, so a line has one
      entry for every archive that has a member succeeding for it, however
      many earlier archives already gave it one. */
  lemma {:induction false} ZipCountExact(container: seq<Member<Content>>, names: seq<string>, extract: Extract, line: Text)
    requires ZipsReadable(container, names)
    ensures CountLine(ZipTimetables(container, names, extract), line) == ArchivesServing(container, names, extract, line)
  {
    if |names| > 0 {
      var init := names[..|names| - 1];
      var docs := ArchiveDocs(container, names[|names| - 1]);
      ZipCountExact(container, init, extract, line);
      ArchiveCountExact(docs, extract, line);
      CountLineAppend(ZipTimetables(container, init, extract), ArchiveTimetables(docs, extract, 0), line);
    }
  }

  /** Across the archives a line has at most one entry per archive. */
  lemma {:induction false} ZipCountBound(container: seq<Member<Content>>, names: seq<string>, extract: Extract, line: Text)
    requires ZipsReadable(container, names)
    ensures CountLine(ZipTimetables(container, names, extract), line) <= |names|
  {
    if |names| > 0 {
      var init := names[..|names| - 1];
      var docs := ArchiveDocs(container, names[|names| - 1]);
      ZipCountBound(container, init, extract, line);
      ArchiveCountAtMostOne(docs, extract, 0, line);
      CountLineAppend(ZipTimetables(container, init, extract), ArchiveTimetables(docs, extract, 0), line);
    }
  }

  /** Every entry of one archive is produced by one of its members. */
  lemma {:induction false} ArchiveEntries(docs: seq<Document>, extract: Extract)
    requires AllNamed(docs)
    ensures forall a :: 0 <= a < |ArchiveTimetables(docs, extract, 0)| ==>
              FromArchive(ArchiveTimetables(docs, extract, 0)[a], docs, extract)
  {
    forall a | 0 <= a < |ArchiveTimetables(docs, extract, 0)|
      ensures FromArchive(ArchiveTimetables(docs, extract, 0)[a], docs, extract)
    {
      ArchiveEntry(docs, extract, a);
    }
  }

  /** Entry `a` of one archive is produced by one of its members. */
  lemma {:induction false} ArchiveEntry(docs: seq<Document>, extract: Extract, a: nat)
    requires AllNamed(docs)
    requires a < |ArchiveTimetables(docs, extract, 0)|
    ensures FromArchive(ArchiveTimetables(docs, extract, 0)[a], docs, extract)
  {
    var t := ArchiveTimetables(docs, extract, 0)[a];
    ArchiveEntryFirst(docs, extract, 0, a);
    var k :| 0 <= k < |docs| && Succeeds(docs, extract, k, t.line) && t.arrivalTimes == extract(docs[k])
             && forall j :: k < j < |docs| ==> !Succeeds(docs, extract, j, t.line);
    assert Produced(t, extract, docs[k]);
  }

  /** An entry produced by a member of the archives `init` is produced by a
      member of the archives `init` extended by one more name. */
  lemma {:induction false} FromArchivesWiden(t: BusTimetable, container: seq<Member<Content>>, names: seq<string>, extract: Extract)
    requires |names| > 0 && ZipsReadable(container, names)
    requires ZipsReadable(container, names[..|names| - 1])
    requires FromArchives(t, container, names[..|names| - 1], extract)
    ensures FromArchives(t, container, names, extract)
  {
    var init := names[..|names| - 1];
    var z :| 0 <= z < |init| && FromArchive(t, ArchiveDocs(container, init[z]), extract);
    assert init[z] == names[z];
  }

  /** Entry `e` of the archive part is produced by a member of one of the
      archives. */
  lemma {:induction false} ZipEntry(container: seq<Member<Content>>, names: seq<string>, extract: Extract, e: nat)
    requires ZipsReadable(container, names)
    requires e < |ZipTimetables(container, names, extract)|
    ensures FromArchives(ZipTimetables(container, names, extract)[e], container, names, extract)
    decreases |names|
  {
    var init := names[..|names| - 1];
    ZipStep(container, names, extract);
    var prev := ZipTimetables(container, init, extract);
    if e < |prev| {
      ZipEntry(container, init, extract, e);
      FromArchivesWiden(ZipTimetables(container, names, extract)[e], container, names, extract);
    } else {
      ZipLastEntry(container, names, extract, e);
    }
  }

  /** The archive part of several archives is that of all but the last one,
      followed by the last archive's entries. */
  lemma {:induction false} ZipStep(container: seq<Member<Content>>, names: seq<string>, extract: Extract)
    requires |names| > 0 && ZipsReadable(container, names)
    ensures ZipsReadable(container, names[..|names| - 1])
    ensures var prev := ZipTimetables(container, names[..|names| - 1], extract);
            forall e :: 0 <= e < |prev| ==> ZipTimetables(container, names, extract)[e] == prev[e]
    ensures |ZipTimetables(container, names, extract)|
            == |ZipTimetables(container, names[..|names| - 1], extract)|
               + |ArchiveTimetables(ArchiveDocs(container, names[|names| - 1]), extract, 0)|
  {
    var init := names[..|names| - 1];
    assert ZipsReadable(container, init) by {
      forall k | 0 <= k < |init| ensures ZipReadable(container, init[k]) {
        assert init[k] == names[k];
      }
    }
  }

  /** An entry of the last archive's part is produced by that archive. */
  lemma {:induction false} ZipLastEntry(container: seq<Member<Content>>, names: seq<string>, extract: Extract, e: nat)
    requires |names| > 0 && ZipsReadable(container, names) && ZipsReadable(container, names[..|names| - 1])
    requires |ZipTimetables(container, names[..|names| - 1], extract)| <= e < |ZipTimetables(container, names, extract)|
    ensures FromArchives(ZipTimetables(container, names, extract)[e], container, names, extract)
  {
    var last := |names| - 1;
    var docs := ArchiveDocs(container, names[last]);
    var prev := ZipTimetables(container, names[..last], extract);
    var ts := ArchiveTimetables(docs, extract, 0);
    assert ZipTimetables(container, names, extract) == prev + ts;
    ArchiveEntry(docs, extract, e - |prev|);
    assert ZipTimetables(container, names, extract)[e] == ts[e - |prev|];
  }

  /** Every archive entry is produced by a member of one of the archives. */
  lemma {:induction false} ZipEntries(container: seq<Member<Content>>, names: seq<string>, extract: Extract)
    requires ZipsReadable(container, names)
    ensures forall e :: 0 <= e < |ZipTimetables(container, names, extract)| ==>
              FromArchives(ZipTimetables(container, names, extract)[e], container, names, extract)
  {
    forall e | 0 <= e < |ZipTimetables(container, names, extract)|
      ensures FromArchives(ZipTimetables(container, names, extract)[e], container, names, extract)
    {
      ZipEntry(container, names, extract, e);
    }
  }

  /** The extractor the aggregation runs: arrival times at the stop's ATCO
      code. */
  function StopExtract(stop: StopIdentity): Extract {
    doc => FindArrivalTimesByDestination(doc, stop.atcoCode)
  }

  /** The selection the locator returns for the stop's locality. */
  function StopSelection(catalogue: seq<CatalogueEntry>, stop: StopIdentity): Option<Selection> {
    SelectionOf(Scan(catalogue, stop.gazetteerId, 0))
  }

  /** Every named file can be read without raising. */
  predicate ContainerReadable(container: seq<Member<Content>>, selection: Selection, extract: Extract) {
    FlatReadable(container, selection.xmls, extract) && ZipsReadable(container, selection.zips)
  }

  /** Both parts of the aggregation for a given selection and extractor. */
  function Aggregate(container: seq<Member<Content>>, selection: Selection, extract: Extract): seq<BusTimetable>
    requires ContainerReadable(container, selection, extract)
  {
    FlatTimetables(container, selection.xmls, extract) + ZipTimetables(container, selection.zips, extract)
  }

  /** Every entry of the aggregation is produced by a selected flat file or
      by a member of a selected archive, flat entries first. */
  lemma {:induction false} AggregateEntries(container: seq<Member<Content>>, selection: Selection, extract: Extract)
    requires ContainerReadable(container, selection, extract)
    ensures |FlatTimetables(container, selection.xmls, extract)| <= |Aggregate(container, selection, extract)|
    ensures forall e :: 0 <= e < |FlatTimetables(container, selection.xmls, extract)| ==>
              FromFlat(Aggregate(container, selection, extract)[e], container, selection.xmls, extract)
    ensures forall e :: |FlatTimetables(container, selection.xmls, extract)| <= e < |Aggregate(container, selection, extract)| ==>
              FromArchives(Aggregate(container, selection, extract)[e], container, selection.zips, extract)
  {
    forall e | 0 <= e < |Aggregate(container, selection, extract)|
      ensures e < |FlatTimetables(container, selection.xmls, extract)| ==>
                FromFlat(Aggregate(container, selection, extract)[e], container, selection.xmls, extract)
      ensures e >= |FlatTimetables(container, selection.xmls, extract)| ==>
                FromArchives(Aggregate(container, selection, extract)[e], container, selection.zips, extract)
    {
      AggregateEntry(container, selection, extract, e);
    }
  }

  /** Entry `e` of the aggregation comes from the flat files when it lies
      within their part, and from the archives otherwise. */
  lemma {:induction false} AggregateEntry(container: seq<Member<Content>>, selection: Selection, extract: Extract, e: nat)
    requires ContainerReadable(container, selection, extract)
    requires e < |Aggregate(container, selection, extract)|
    ensures e < |FlatTimetables(container, selection.xmls, extract)| ==>
              FromFlat(Aggregate(container, selection, extract)[e], container, selection.xmls, extract)
    ensures e >= |FlatTimetables(container, selection.xmls, extract)| ==>
              FromArchives(Aggregate(container, selection, extract)[e], container, selection.zips, extract)
  {
    var flat := FlatTimetables(container, selection.xmls, extract);
    var zs := ZipTimetables(container, selection.zips, extract);
    if e < |flat| {
      FlatEntry(flat, zs, container, selection.xmls, extract, e);
    } else {
      ZipEntryShifted(flat, zs, container, selection.zips, extract, e);
    }
  }

  lemma {:induction false} FlatEntry(flat: seq<BusTimetable>, zs: seq<BusTimetable>, container: seq<Member<Content>>,
                                     names: seq<string>, extract: Extract, e: nat)
    requires FlatReadable(container, names, extract) && flat == FlatTimetables(container, names, extract)
    requires e < |flat|
    ensures FromFlat((flat + zs)[e], container, names, extract)
  {
    FlatSound(container, names, extract);
    assert (flat + zs)[e] == flat[e];
  }

  lemma {:induction false} ZipEntryShifted(flat: seq<BusTimetable>, zs: seq<BusTimetable>, container: seq<Member<Content>>,
                                           names: seq<string>, extract: Extract, e: nat)
    requires ZipsReadable(container, names) && zs == ZipTimetables(container, names, extract)
    requires |flat| <= e < |flat| + |zs|
    ensures FromArchives((flat + zs)[e], container, names, extract)
  {
    ZipEntry(container, names, extract, e - |flat|);
    assert (flat + zs)[e] == zs[e - |flat|];
  }

  /** Whatever the extractor's result at the stop is, it has distinct
      destinations, each with at least one time. */
  lemma {:induction false} StopExtractShape(stop: StopIdentity, doc: Document)
    ensures var times := StopExtract(stop)(doc);
            DistinctDestinations(times) && forall i :: 0 <= i < |times| ==> times[i].times != []
  {
  }

  /** `t` holds a non-empty timetable with distinct destinations, each with
      at least one time. */
  predicate Filled(t: BusTimetable) {
    && t.arrivalTimes != []
    && DistinctDestinations(t.arrivalTimes)
    && forall i :: 0 <= i < |t.arrivalTimes| ==> t.arrivalTimes[i].times != []
  }

  /** `get_bus_stop_timetable`: the flat files' entries, then the archives'
      entries, for the selection the locator makes for the stop's locality. */
  function GetBusStopTimetable(catalogue: seq<CatalogueEntry>, stop: StopIdentity, container: seq<Member<Content>>)
    : (r: seq<BusTimetable>)
    requires StopSelection(catalogue, stop).Some?
    requires ContainerReadable(container, StopSelection(catalogue, stop).value, StopExtract(stop))
    ensures forall e :: 0 <= e < |r| ==> Filled(r[e])
  {
    var selection := StopSelection(catalogue, stop).value;
    var extract := StopExtract(stop);
    AggregateFilled(container, selection, stop);
    Aggregate(container, selection, extract)
  }

  lemma {:induction false} AggregateFilled(container: seq<Member<Content>>, selection: Selection, stop: StopIdentity)
    requires ContainerReadable(container, selection, StopExtract(stop))
    ensures forall e :: 0 <= e < |Aggregate(container, selection, StopExtract(stop))| ==>
              Filled(Aggregate(container, selection, StopExtract(stop))[e])
  {
    var extract := StopExtract(stop);
    AggregateEntries(container, selection, extract);
    var r := Aggregate(container, selection, extract);
    forall e | 0 <= e < |r|
      ensures Filled(r[e])
    {
      var doc: Document;
      if e < |FlatTimetables(container, selection.xmls, extract)| {
        var k :| 0 <= k < |selection.xmls| && Produced(r[e], extract, XmlDoc(container, selection.xmls[k]));
        doc := XmlDoc(container, selection.xmls[k]);
      } else {
        var z :| 0 <= z < |selection.zips| && FromArchive(r[e], ArchiveDocs(container, selection.zips[z]), extract);
        var docs := ArchiveDocs(container, selection.zips[z]);
        var k :| 0 <= k < |docs| && Produced(r[e], extract, docs[k]);
        doc := docs[k];
      }
      StopExtractShape(stop, doc);
    }
  }

  /** A document that produces a record for the stop mentions the stop. */
  lemma {:induction false} ProducedMentions(t: BusTimetable, stop: StopIdentity, doc: Document)
    requires Produced(t, StopExtract(stop), doc)
    ensures IsAtcoCodeThere(doc, stop.atcoCode)
  {
    assert FindArrivalTimesByDestination(doc, stop.atcoCode) != [];
  }

  /** A non-empty aggregation needs a selected document that mentions the
      stop. */
  lemma {:induction false} AggregateNeedsMention(container: seq<Member<Content>>, selection: Selection, stop: StopIdentity)
    requires ContainerReadable(container, selection, StopExtract(stop))
    requires Aggregate(container, selection, StopExtract(stop)) != []
    ensures || (exists k :: 0 <= k < |selection.xmls| && IsAtcoCodeThere(XmlDoc(container, selection.xmls[k]), stop.atcoCode))
            || (exists z, k :: 0 <= z < |selection.zips| && 0 <= k < |ArchiveDocs(container, selection.zips[z])|
                              && IsAtcoCodeThere(ArchiveDocs(container, selection.zips[z])[k], stop.atcoCode))
  {
    var extract := StopExtract(stop);
    AggregateEntries(container, selection, extract);
    var r := Aggregate(container, selection, extract);
    if 0 < |FlatTimetables(container, selection.xmls, extract)| {
      assert FromFlat(r[0], container, selection.xmls, extract);
      var k :| 0 <= k < |selection.xmls| && Produced(r[0], extract, XmlDoc(container, selection.xmls[k]));
      ProducedMentions(r[0], stop, XmlDoc(container, selection.xmls[k]));
    } else {
      assert FromArchives(r[0], container, selection.zips, extract);
      var z :| 0 <= z < |selection.zips| && FromArchive(r[0], ArchiveDocs(container, selection.zips[z]), extract);
      var docs := ArchiveDocs(container, selection.zips[z]);
      var k :| 0 <= k < |docs| && Produced(r[0], extract, docs[k]);
      ProducedMentions(r[0], stop, docs[k]);
    }
  }

  /** A stop gets a non-empty timetable only when some selected flat file or
      some member of a selected archive mentions it. */
  lemma {:induction false} TimetableNeedsMention(catalogue: seq<CatalogueEntry>, stop: StopIdentity, container: seq<Member<Content>>)
    requires StopSelection(catalogue, stop).Some?
    requires ContainerReadable(container, StopSelection(catalogue, stop).value, StopExtract(stop))
    requires GetBusStopTimetable(catalogue, stop, container) != []
    ensures var selection := StopSelection(catalogue, stop).value;
            || (exists k :: 0 <= k < |selection.xmls| && IsAtcoCodeThere(XmlDoc(container, selection.xmls[k]), stop.atcoCode))
            || (exists z, k :: 0 <= z < |selection.zips| && 0 <= k < |ArchiveDocs(container, selection.zips[z])|
                              && IsAtcoCodeThere(ArchiveDocs(container, selection.zips[z])[k], stop.atcoCode))
  {
    var selection := StopSelection(catalogue, stop).value;
    assert GetBusStopTimetable(catalogue, stop, container) == Aggregate(container, selection, StopExtract(stop));
    AggregateNeedsMention(container, selection, stop);
  }
}
