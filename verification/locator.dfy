/** Choosing the files to open for one locality
    (`LocateBusFile.find_relevant_operators_by_place`).

    The catalogue is walked from its last entry to its first. An entry whose
    (operator name, lines) pair was already accepted is skipped. Otherwise its
    localities are scanned, and at the first one equal to the stop's locality
    the entry is named by its extension: a zip archive `operator_id.zip` or a
    flat document `operator_id_firstline.xml`. Only a zip or xml entry is
    recorded as accepted; an entry with any other extension adds nothing and
    blocks nothing. */
module Locator {
  import opened Options

  /** One dataset record of the catalogue. The `id` is held as the text the
      file-name template prints for it. */
  datatype CatalogueEntry = CatalogueEntry(
    operatorName: string,
    lines: seq<string>,
    id: string,
    extension: string,
    localities: seq<string>)

  /** The pair the dedup list stores: `[operatorName, lines]`. */
  datatype SelectionKey = SelectionKey(operatorName: string, lines: seq<string>)

  datatype FileKind = ZipFile | XmlFile

  /** An accepted entry: its position in the catalogue, the entry itself, the
      list it went to and the file name built for it. */
  datatype Pick = Pick(index: nat, entry: CatalogueEntry, kind: FileKind, name: string)

  /** The two name lists the locator returns: zip archives and flat xml files. */
  datatype Selection = Selection(zips: seq<string>, xmls: seq<string>)

  function KeyOf(e: CatalogueEntry): SelectionKey {
    SelectionKey(e.operatorName, e.lines)
  }

  /** An entry that, if not already covered by its pair, is accepted. */
  predicate Eligible(e: CatalogueEntry, locality: string) {
    locality in e.localities && (e.extension == "zip" || e.extension == "xml")
  }

  function ZipName(e: CatalogueEntry): string {
    e.operatorName + "_" + e.id + ".zip"
  }

  function XmlName(e: CatalogueEntry): string
    requires |e.lines| > 0
  {
    e.operatorName + "_" + e.id + "_" + e.lines[0] + ".xml"
  }

  /** The pick is the entry at its index, accepted for the locality, sent to
      the list its extension names under the template for that list. */
  predicate PickFits(catalogue: seq<CatalogueEntry>, locality: string, p: Pick) {
    && p.index < |catalogue|
    && p.entry == catalogue[p.index]
    && Eligible(p.entry, locality)
    && (p.kind == ZipFile <==> p.entry.extension == "zip")
    && (p.kind == ZipFile ==> p.name == ZipName(p.entry))
    && (p.kind == XmlFile ==> |p.entry.lines| > 0 && p.name == XmlName(p.entry))
  }

  /** The dedup list `relevant_files_info`. */
  function Keys(picks: seq<Pick>): (keys: seq<SelectionKey>)
    ensures |keys| == |picks|
    ensures forall k :: 0 <= k < |picks| ==> keys[k] == KeyOf(picks[k].entry)
  {
    if |picks| == 0 then [] else Keys(picks[..|picks| - 1]) + [KeyOf(picks[|picks| - 1].entry)]
  }

  predicate DistinctKeys(picks: seq<Pick>) {
    forall k, l :: 0 <= k < l < |picks| ==> KeyOf(picks[k].entry) != KeyOf(picks[l].entry)
  }

  /** The walk over `catalogue[i..]`, last entry first. `None` when it reaches
      an accepted xml entry with no lines, where the template's `lines[0]`
      raises. */
  function Scan(catalogue: seq<CatalogueEntry>, locality: string, i: nat): (r: Option<seq<Pick>>)
    requires i <= |catalogue|
    decreases |catalogue| - i
  {
    if i == |catalogue| then Some([])
    else
      var acc := Scan(catalogue, locality, i + 1);
      var e := catalogue[i];
      if acc.None? then None
      else if KeyOf(e) in Keys(acc.value) then acc
      else if locality !in e.localities then acc
      else if e.extension == "zip" then Some(acc.value + [Pick(i, e, ZipFile, ZipName(e))])
      else if e.extension == "xml" then
        if |e.lines| == 0 then None else Some(acc.value + [Pick(i, e, XmlFile, XmlName(e))])
      else acc
  }

  /** The names of the picks that went to one list, in pick order. */
  function Names(picks: seq<Pick>, kind: FileKind): seq<string> {
    if |picks| == 0 then []
    else Names(picks[..|picks| - 1], kind) + (if picks[|picks| - 1].kind == kind then [picks[|picks| - 1].name] else [])
  }

  function SelectionOf(picks: Option<seq<Pick>>): Option<Selection> {
    match picks
    case None => None
    case Some(ps) => Some(Selection(Names(ps, ZipFile), Names(ps, XmlFile)))
  }

  /** `find_relevant_operators_by_place`, loop for loop: returns the zip and
      xml name lists the catalogue walk builds, or `None` where it
      raises on an xml entry without lines. */
  method FindRelevantOperatorsByPlace(catalogue: seq<CatalogueEntry>, locality: string) returns (r: Option<Selection>)
    ensures r == SelectionOf(Scan(catalogue, locality, 0))
  {
    var zips: seq<string> := [];
    var xmls: seq<string> := [];
    var info: seq<SelectionKey> := [];
    ghost var picks: seq<Pick> := [];
    var i := |catalogue|;
    while i > 0
      invariant 0 <= i <= |catalogue|
      invariant Scan(catalogue, locality, i) == Some(picks)
      invariant info == Keys(picks)
      invariant zips == Names(picks, ZipFile) && xmls == Names(picks, XmlFile)
    {
      i := i - 1;
      var e := catalogue[i];
      ScanStep(catalogue, locality, i);
      if KeyOf(e) !in info {
        var j := 0;
        while j < |e.localities| && e.localities[j] != locality
          invariant 0 <= j <= |e.localities|
          invariant forall k :: 0 <= k < j ==> e.localities[k] != locality
        {
          j := j + 1;
        }
        if j < |e.localities| {
          if e.extension == "zip" {
            var p := Pick(i, e, ZipFile, ZipName(e));
            assert Scan(catalogue, locality, i) == Some(picks + [p]);
            zips := zips + [p.name];
            info := info + [KeyOf(e)];
            AppendPick(picks, p);
            picks := picks + [p];
          } else if e.extension == "xml" {
            if |e.lines| == 0 {
              assert Scan(catalogue, locality, i) == None;
              ScanFailureSticks(catalogue, locality, 0, i);
              return None;
            }
            var p := Pick(i, e, XmlFile, XmlName(e));
            assert Scan(catalogue, locality, i) == Some(picks + [p]);
            xmls := xmls + [p.name];
            info := info + [KeyOf(e)];
            AppendPick(picks, p);
            picks := picks + [p];
          } else {
            assert Scan(catalogue, locality, i) == Some(picks);
          }
        } else {
          assert locality !in e.localities;
          assert Scan(catalogue, locality, i) == Some(picks);
        }
      } else {
        assert Scan(catalogue, locality, i) == Some(picks);
      }
    }
    return Some(Selection(zips, xmls));
  }

  lemma {:induction false} AppendPick(picks: seq<Pick>, p: Pick)
    ensures Keys(picks + [p]) == Keys(picks) + [KeyOf(p.entry)]
    ensures Names(picks + [p], p.kind) == Names(picks, p.kind) + [p.name]
    ensures forall kind :: kind != p.kind ==> Names(picks + [p], kind) == Names(picks, kind)
  {
    assert (picks + [p])[..|picks|] == picks;
  }

  /** One step of the walk: entry `i` is skipped when its pair is already
      accepted or it is not eligible, and otherwise named by its extension. */
  lemma {:induction false} ScanStep(catalogue: seq<CatalogueEntry>, locality: string, i: nat)
    requires i < |catalogue| && Scan(catalogue, locality, i + 1).Some?
    ensures var ps := Scan(catalogue, locality, i + 1).value;
            var e := catalogue[i];
            Scan(catalogue, locality, i)
            == if KeyOf(e) in Keys(ps) || !Eligible(e, locality) then Some(ps)
               else if e.extension == "zip" then Some(ps + [Pick(i, e, ZipFile, ZipName(e))])
               else if |e.lines| == 0 then None
               else Some(ps + [Pick(i, e, XmlFile, XmlName(e))])
  {
  }

  /** The accepted entries fit the locality and the name templates and come
      from the part of the catalogue walked. */
  lemma {:induction false} ScanFits(catalogue: seq<CatalogueEntry>, locality: string, i: nat)
    requires i <= |catalogue| && Scan(catalogue, locality, i).Some?
    ensures forall k :: 0 <= k < |Scan(catalogue, locality, i).value| ==>
              i <= Scan(catalogue, locality, i).value[k].index
              && PickFits(catalogue, locality, Scan(catalogue, locality, i).value[k])
    decreases |catalogue| - i
  {
    if i < |catalogue| {
      ScanFits(catalogue, locality, i + 1);
      ScanStep(catalogue, locality, i);
    }
  }

  /** The accepted entries come in strictly decreasing catalogue order: the
      walk runs backwards. */
  lemma {:induction false} ScanOrder(catalogue: seq<CatalogueEntry>, locality: string, i: nat)
    requires i <= |catalogue| && Scan(catalogue, locality, i).Some?
    ensures forall k, l :: 0 <= k < l < |Scan(catalogue, locality, i).value| ==>
              Scan(catalogue, locality, i).value[k].index > Scan(catalogue, locality, i).value[l].index
    decreases |catalogue| - i
  {
    if i < |catalogue| {
      ScanOrder(catalogue, locality, i + 1);
      ScanFits(catalogue, locality, i + 1);
      ScanStep(catalogue, locality, i);
    }
  }

  /** No two accepted entries share an (operator name, lines) pair. */
  lemma {:induction false} ScanDistinct(catalogue: seq<CatalogueEntry>, locality: string, i: nat)
    requires i <= |catalogue| && Scan(catalogue, locality, i).Some?
    ensures DistinctKeys(Scan(catalogue, locality, i).value)
    decreases |catalogue| - i
  {
    if i < |catalogue| {
      ScanDistinct(catalogue, locality, i + 1);
      ScanStep(catalogue, locality, i);
      var ps := Scan(catalogue, locality, i + 1).value;
      var e := catalogue[i];
      if KeyOf(e) !in Keys(ps) {
        assert forall k :: 0 <= k < |ps| ==> KeyOf(ps[k].entry) != KeyOf(e);
      }
    }
  }

  /** Once the walk has raised, the earlier catalogue entries are never reached. */
  lemma {:induction false} ScanFailureSticks(catalogue: seq<CatalogueEntry>, locality: string, i: nat, j: nat)
    requires i <= j <= |catalogue| && Scan(catalogue, locality, j).None?
    ensures Scan(catalogue, locality, i).None?
    decreases j - i
  {
    if i < j {
      ScanFailureSticks(catalogue, locality, i + 1, j);
    }
  }

  /** Reference definition of acceptance: entry `k` is eligible and no entry
      after it in the catalogue (so before it in the walk) is eligible with
      the same pair. */
  predicate Winner(catalogue: seq<CatalogueEntry>, locality: string, k: nat) {
    && k < |catalogue|
    && Eligible(catalogue[k], locality)
    && forall j :: k < j < |catalogue| && Eligible(catalogue[j], locality) ==> KeyOf(catalogue[j]) != KeyOf(catalogue[k])
  }

  predicate Picked(picks: seq<Pick>, k: nat) {
    exists m :: 0 <= m < |picks| && picks[m].index == k
  }

  /** Some entry among `i..` is eligible and carries the pair. */
  predicate PairWalked(catalogue: seq<CatalogueEntry>, locality: string, i: nat, key: SelectionKey) {
    exists j :: i <= j < |catalogue| && Eligible(catalogue[j], locality) && KeyOf(catalogue[j]) == key
  }

  /** The dedup list holds exactly the pairs of the eligible entries walked so far. */
  lemma {:induction false} ScanKeys(catalogue: seq<CatalogueEntry>, locality: string, i: nat)
    requires i <= |catalogue| && Scan(catalogue, locality, i).Some?
    ensures forall key :: key in Keys(Scan(catalogue, locality, i).value) <==> PairWalked(catalogue, locality, i, key)
    decreases |catalogue| - i
  {
    if i < |catalogue| {
      ScanKeys(catalogue, locality, i + 1);
      ScanStep(catalogue, locality, i);
      var ps := Scan(catalogue, locality, i + 1).value;
      var e := catalogue[i];
      var r := Scan(catalogue, locality, i).value;
      if KeyOf(e) !in Keys(ps) && Eligible(e, locality) {
        var p := r[|r| - 1];
        assert r == ps + [p] && p.entry == e;
        AppendPick(ps, p);
      } else {
        assert r == ps;
      }
      forall key
        ensures key in Keys(r) <==> PairWalked(catalogue, locality, i, key)
      {
        if key == KeyOf(e) && Eligible(e, locality) {
          assert Eligible(catalogue[i], locality) && KeyOf(catalogue[i]) == key;
        } else if PairWalked(catalogue, locality, i, key) {
          var j :| i <= j < |catalogue| && Eligible(catalogue[j], locality) && KeyOf(catalogue[j]) == key;
          assert j != i;
          assert PairWalked(catalogue, locality, i + 1, key);
        }
      }
    }
  }

  /** One step of the walk on `Picked`: entry `i` is picked exactly when
      its pair is new and it is eligible; the other entries keep their status. */
  lemma {:induction false} PickedStep(catalogue: seq<CatalogueEntry>, locality: string, i: nat, k: nat)
    requires i < |catalogue| && Scan(catalogue, locality, i).Some?
    ensures Scan(catalogue, locality, i + 1).Some?
    ensures Picked(Scan(catalogue, locality, i).value, k)
            <==> if k == i then KeyOf(catalogue[i]) !in Keys(Scan(catalogue, locality, i + 1).value) && Eligible(catalogue[i], locality)
                 else Picked(Scan(catalogue, locality, i + 1).value, k)
  {
    ScanFits(catalogue, locality, i + 1);
    ScanStep(catalogue, locality, i);
    var ps := Scan(catalogue, locality, i + 1).value;
    var r := Scan(catalogue, locality, i).value;
    assert !Picked(ps, i);
    if KeyOf(catalogue[i]) !in Keys(ps) && Eligible(catalogue[i], locality) {
      assert r == ps + [r[|r| - 1]];
      if Picked(r, k) {
        var m :| 0 <= m < |r| && r[m].index == k;
        if m < |ps| {
          assert Picked(ps, k);
        }
      }
      if Picked(ps, k) {
        var m :| 0 <= m < |ps| && ps[m].index == k;
        assert r[m] == ps[m];
      }
      if k == i {
        assert r[|r| - 1].index == i;
      }
    }
  }

  /** Entry `i` is a winner exactly when it is eligible and its pair has not
      been met among the entries after it. */
  lemma {:induction false} WinnerStep(catalogue: seq<CatalogueEntry>, locality: string, i: nat)
    requires i < |catalogue| && Scan(catalogue, locality, i + 1).Some?
    ensures Winner(catalogue, locality, i)
            <==> KeyOf(catalogue[i]) !in Keys(Scan(catalogue, locality, i + 1).value) && Eligible(catalogue[i], locality)
  {
    ScanKeys(catalogue, locality, i + 1);
    if !Winner(catalogue, locality, i) && Eligible(catalogue[i], locality) {
      var j :| i < j < |catalogue| && Eligible(catalogue[j], locality) && KeyOf(catalogue[j]) == KeyOf(catalogue[i]);
      assert PairWalked(catalogue, locality, i + 1, KeyOf(catalogue[i]));
    }
  }

  /** Entry `k` is accepted by the walk from `i` exactly when it is a winner. */
  lemma {:induction false} ScanAccept(catalogue: seq<CatalogueEntry>, locality: string, i: nat, k: nat)
    requires i <= k < |catalogue| && Scan(catalogue, locality, i).Some?
    ensures Picked(Scan(catalogue, locality, i).value, k) <==> Winner(catalogue, locality, k)
    decreases |catalogue| - i
  {
    PickedStep(catalogue, locality, i, k);
    if k == i {
      WinnerStep(catalogue, locality, i);
    } else {
      ScanAccept(catalogue, locality, i + 1, k);
    }
  }

  /** Which entries are accepted: exactly the winners. */
  lemma {:induction false} ScanAccepts(catalogue: seq<CatalogueEntry>, locality: string, i: nat)
    requires i <= |catalogue| && Scan(catalogue, locality, i).Some?
    ensures forall k :: i <= k < |catalogue| ==>
              (Picked(Scan(catalogue, locality, i).value, k) <==> Winner(catalogue, locality, k))
  {
    forall k | i <= k < |catalogue|
      ensures Picked(Scan(catalogue, locality, i).value, k) <==> Winner(catalogue, locality, k)
    {
      ScanAccept(catalogue, locality, i, k);
    }
  }

  /** The walk raises exactly when some winner is an xml entry with no lines. */
  lemma {:induction false} ScanRaises(catalogue: seq<CatalogueEntry>, locality: string, i: nat)
    requires i <= |catalogue|
    ensures Scan(catalogue, locality, i).None?
            <==> exists k :: i <= k < |catalogue| && Winner(catalogue, locality, k)
                             && catalogue[k].extension == "xml" && |catalogue[k].lines| == 0
    decreases |catalogue| - i
  {
    if i < |catalogue| {
      ScanRaises(catalogue, locality, i + 1);
      var e := catalogue[i];
      if Scan(catalogue, locality, i + 1).Some? {
        ScanKeys(catalogue, locality, i + 1);
      }
    }
  }

  /** Each output list is the accepted entries of its kind in walk order:
      the two lists together name every accepted entry once. */
  lemma {:induction false} NamesSplit(picks: seq<Pick>)
    ensures |Names(picks, ZipFile)| + |Names(picks, XmlFile)| == |picks|
    ensures forall kind, n :: n in Names(picks, kind) ==> exists m :: 0 <= m < |picks| && picks[m].kind == kind && picks[m].name == n
    ensures forall m :: 0 <= m < |picks| ==> picks[m].name in Names(picks, picks[m].kind)
  {
    if |picks| > 0 {
      NamesSplit(picks[..|picks| - 1]);
    }
    forall kind, n | n in Names(picks, kind)
      ensures exists m :: 0 <= m < |picks| && picks[m].kind == kind && picks[m].name == n
    {
      NameFromPick(picks, kind, n);
    }
    forall m | 0 <= m < |picks|
      ensures picks[m].name in Names(picks, picks[m].kind)
    {
      PickNamed(picks, m);
    }
  }

  /** A listed name is the name of a pick of that kind. */
  lemma {:induction false} NameFromPick(picks: seq<Pick>, kind: FileKind, n: string)
    requires n in Names(picks, kind)
    ensures exists m :: 0 <= m < |picks| && picks[m].kind == kind && picks[m].name == n
  {
    var prefix := picks[..|picks| - 1];
    if n in Names(prefix, kind) {
      NameFromPick(prefix, kind, n);
      var m :| 0 <= m < |prefix| && prefix[m].kind == kind && prefix[m].name == n;
      assert picks[m] == prefix[m];
    } else {
      assert picks[|picks| - 1].kind == kind && picks[|picks| - 1].name == n;
    }
  }

  /** Every pick's name is in the list of its kind. */
  lemma {:induction false} PickNamed(picks: seq<Pick>, m: nat)
    requires m < |picks|
    ensures picks[m].name in Names(picks, picks[m].kind)
  {
    var prefix := picks[..|picks| - 1];
    if m < |prefix| {
      PickNamed(prefix, m);
      assert picks[m] == prefix[m];
    }
  }

  /** Two catalogue entries of operator ABC for line 12 both serve L1: only
      the later one, which the backward walk meets first, is selected. */
  lemma {:induction false} DuplicateOperatorScenario()
    ensures var first := CatalogueEntry("ABC", ["12"], "1", "zip", ["L1"]);
            var second := CatalogueEntry("ABC", ["12"], "2", "zip", ["L0", "L1"]);
            SelectionOf(Scan([first, second], "L1", 0)) == Some(Selection(["ABC_2.zip"], []))
  {
    var first := CatalogueEntry("ABC", ["12"], "1", "zip", ["L1"]);
    var second := CatalogueEntry("ABC", ["12"], "2", "zip", ["L0", "L1"]);
    var cat := [first, second];
    var p := Pick(1, second, ZipFile, ZipName(second));
    assert ZipName(second) == "ABC_2.zip";
    assert Scan(cat, "L1", 2) == Some([]);
    assert "L1" in second.localities by { assert second.localities[1] == "L1"; }
    assert Scan(cat, "L1", 1) == Some([] + [p]);
    assert [p][..0] == [];
    assert Keys([p]) == [KeyOf(second)];
    assert Scan(cat, "L1", 0) == Some([p]);
    assert Names([p], ZipFile) == [] + [p.name];
    assert Names([p], XmlFile) == [] + [];
    assert Names([p], ZipFile) == [p.name];
    assert Names([p], XmlFile) == [];
    assert SelectionOf(Some([p])) == Some(Selection([p.name], []));
    assert [p.name] == ["ABC_2.zip"];
  }

  /** An entry that serves the locality but is neither zip nor xml adds no
      file and does not stop an earlier entry with the same pair. */
  lemma {:induction false} OtherExtensionScenario()
    ensures var first := CatalogueEntry("ABC", ["12"], "1", "xml", ["L1"]);
            var second := CatalogueEntry("ABC", ["12"], "2", "json", ["L1"]);
            SelectionOf(Scan([first, second], "L1", 0)) == Some(Selection([], ["ABC_1_12.xml"]))
  {
    var first := CatalogueEntry("ABC", ["12"], "1", "xml", ["L1"]);
    var second := CatalogueEntry("ABC", ["12"], "2", "json", ["L1"]);
    var cat := [first, second];
    var p := Pick(0, first, XmlFile, XmlName(first));
    assert XmlName(first) == "ABC_1_12.xml";
    assert Scan(cat, "L1", 2) == Some([]);
    assert Scan(cat, "L1", 1) == Some([]);
    assert "L1" in first.localities by { assert first.localities[0] == "L1"; }
    assert Scan(cat, "L1", 0) == Some([] + [p]);
    assert [p][..0] == [];
    assert Names([p], XmlFile) == [] + [p.name];
    assert Names([p], ZipFile) == [] + [];
    assert Names([p], XmlFile) == [p.name];
    assert Names([p], ZipFile) == [];
    assert SelectionOf(Some([p])) == Some(Selection([], [p.name]));
    assert [p.name] == ["ABC_1_12.xml"];
  }
}
