/** The `defaultdict(list)` the extractor fills: arrival times grouped by
    destination, with destinations kept in the order they were first seen
    (Python dicts preserve insertion order) and a destination present only
    once a time has been appended under it. */
module Grouping {

  /** One `append` call: a formatted time recorded under a destination. */
  datatype Arrival = Arrival(destination: string, time: string)

  /** One key of the mapping with its list of times. */
  datatype DestinationTimes = DestinationTimes(destination: string, times: seq<string>)

  /** Reference definition: the times recorded under `d`, in recording order. */
  function TimesFor(arrivals: seq<Arrival>, d: string): seq<string> {
    if |arrivals| == 0 then []
    else
      var last := arrivals[|arrivals| - 1];
      TimesFor(arrivals[..|arrivals| - 1], d) + (if last.destination == d then [last.time] else [])
  }

  predicate Mentions(arrivals: seq<Arrival>, d: string) {
    exists k :: 0 <= k < |arrivals| && arrivals[k].destination == d
  }

  predicate HasKey(g: seq<DestinationTimes>, d: string) {
    exists i :: 0 <= i < |g| && g[i].destination == d
  }

  predicate DistinctDestinations(g: seq<DestinationTimes>) {
    forall i, j :: 0 <= i < j < |g| ==> g[i].destination != g[j].destination
  }

  /** Where `d` sits among the keys, or `|g|` when it is not a key. */
  function Position(g: seq<DestinationTimes>, d: string): (i: nat)
    ensures i <= |g|
    ensures i < |g| ==> g[i].destination == d
    ensures forall j :: 0 <= j < i ==> g[j].destination != d
  {
    if |g| == 0 then 0
    else if g[0].destination == d then 0
    else 1 + Position(g[1..], d)
  }

  /** `mapping[a.destination].append(a.time)` on a defaultdict. */
  function Append(g: seq<DestinationTimes>, a: Arrival): (r: seq<DestinationTimes>)
    requires DistinctDestinations(g)
    ensures DistinctDestinations(r)
    ensures forall d :: HasKey(r, d) <==> HasKey(g, d) || d == a.destination
    ensures forall i :: 0 <= i < |r| ==>
              r[i].times == Lookup(g, r[i].destination) + (if r[i].destination == a.destination then [a.time] else [])
  {
    var i := Position(g, a.destination);
    if i < |g| then
      var r := g[i := DestinationTimes(a.destination, g[i].times + [a.time])];
      assert forall d :: HasKey(r, d) ==> HasKey(g, d) by {
        forall d | HasKey(r, d) ensures HasKey(g, d) {
          var j :| 0 <= j < |r| && r[j].destination == d;
          assert g[j].destination == d;
        }
      }
      assert forall d :: HasKey(g, d) ==> HasKey(r, d) by {
        forall d | HasKey(g, d) ensures HasKey(r, d) {
          var j :| 0 <= j < |g| && g[j].destination == d;
          assert r[j].destination == d;
        }
      }
      r
    else
      var r := g + [DestinationTimes(a.destination, [a.time])];
      assert forall d :: HasKey(r, d) ==> HasKey(g, d) || d == a.destination by {
        forall d | HasKey(r, d) && d != a.destination ensures HasKey(g, d) {
          var j :| 0 <= j < |r| && r[j].destination == d;
          assert g[j].destination == d;
        }
      }
      assert forall d :: HasKey(g, d) ==> HasKey(r, d) by {
        forall d | HasKey(g, d) ensures HasKey(r, d) {
          var j :| 0 <= j < |g| && g[j].destination == d;
          assert r[j].destination == d;
        }
      }
      assert r[|g|].destination == a.destination;
      r
  }

  /** Appending keeps every existing key in its place and puts a new key at
      the end, as inserting into a Python dict does. */
  lemma {:induction false} AppendKeyPlaces(g: seq<DestinationTimes>, a: Arrival)
    requires DistinctDestinations(g)
    ensures |Append(g, a)| == if HasKey(g, a.destination) then |g| else |g| + 1
    ensures forall i :: 0 <= i < |g| ==> Append(g, a)[i].destination == g[i].destination
    ensures !HasKey(g, a.destination) ==> Append(g, a)[|g|].destination == a.destination
  {
  }

  /** The times under key `d`, empty when `d` is not a key. */
  function Lookup(g: seq<DestinationTimes>, d: string): seq<string> {
    var i := Position(g, d);
    if i < |g| then g[i].times else []
  }

  /** The mapping built by recording every arrival in order. Its keys are
      distinct, they are exactly the destinations that occur, and each key
      holds precisely the times recorded under it, in recording order. */
  function Group(arrivals: seq<Arrival>): (g: seq<DestinationTimes>)
    ensures DistinctDestinations(g)
    ensures forall d :: HasKey(g, d) <==> Mentions(arrivals, d)
    ensures forall i :: 0 <= i < |g| ==> g[i].times == TimesFor(arrivals, g[i].destination)
  {
    if |arrivals| == 0 then []
    else
      var prefix := arrivals[..|arrivals| - 1];
      var prev := Group(prefix);
      var g := Append(prev, arrivals[|arrivals| - 1]);
      assert forall d :: Mentions(arrivals, d) <==> Mentions(prefix, d) || d == arrivals[|arrivals| - 1].destination by {
        forall d | Mentions(arrivals, d) && d != arrivals[|arrivals| - 1].destination
          ensures Mentions(prefix, d)
        {
          var k :| 0 <= k < |arrivals| && arrivals[k].destination == d;
          assert prefix[k] == arrivals[k];
        }
        forall d | Mentions(prefix, d)
          ensures Mentions(arrivals, d)
        {
          var k :| 0 <= k < |prefix| && prefix[k].destination == d;
          assert arrivals[k] == prefix[k];
        }
      }
      forall i | 0 <= i < |g|
        ensures Lookup(prev, g[i].destination) == TimesFor(prefix, g[i].destination)
      {
        var d := g[i].destination;
        var p := Position(prev, d);
        if p == |prev| {
          assert !HasKey(prev, d);
          TimesForAbsent(prefix, d);
        }
      }
      g
  }

  /** Reference definition: the index of the first arrival for `d`, or
      `|arrivals|` when there is none. */
  function FirstMention(arrivals: seq<Arrival>, d: string): (k: nat)
    ensures k <= |arrivals|
    ensures k < |arrivals| ==> arrivals[k].destination == d
    ensures forall j :: 0 <= j < k ==> arrivals[j].destination != d
  {
    if |arrivals| == 0 then 0
    else
      var prefix := arrivals[..|arrivals| - 1];
      var k := FirstMention(prefix, d);
      if k < |prefix| then k
      else if arrivals[|arrivals| - 1].destination == d then |prefix|
      else |arrivals|
  }

  /** A destination that occurs is first mentioned inside the sequence. */
  lemma {:induction false} FirstMentionInside(arrivals: seq<Arrival>, d: string)
    requires Mentions(arrivals, d)
    ensures FirstMention(arrivals, d) < |arrivals|
  {
  }

  /** Recording one more arrival leaves earlier first mentions where they
      were, and puts a destination first seen now at the new index. */
  lemma {:induction false} FirstMentionExtend(prefix: seq<Arrival>, a: Arrival, d: string)
    ensures Mentions(prefix, d) ==> FirstMention(prefix + [a], d) == FirstMention(prefix, d)
    ensures !Mentions(prefix, d) && a.destination == d ==> FirstMention(prefix + [a], d) == |prefix|
  {
    assert (prefix + [a])[..|prefix|] == prefix;
  }

  /** The keys of the mapping come in the order their destinations were
      first recorded, as the keys of a Python dict do. */
  lemma {:induction false} GroupKeyOrder(arrivals: seq<Arrival>)
    ensures forall i, j :: 0 <= i < j < |Group(arrivals)| ==>
              FirstMention(arrivals, Group(arrivals)[i].destination) < FirstMention(arrivals, Group(arrivals)[j].destination)
  {
    if |arrivals| > 0 {
      var prefix := arrivals[..|arrivals| - 1];
      var last := arrivals[|arrivals| - 1];
      assert arrivals == prefix + [last];
      var prev := Group(prefix);
      var g := Group(arrivals);
      assert g == Append(prev, last);
      GroupKeyOrder(prefix);
      forall i, j | 0 <= i < j < |g|
        ensures FirstMention(arrivals, g[i].destination) < FirstMention(arrivals, g[j].destination)
      {
        KeyOrderStep(prefix, last, i, j);
      }
    }
  }

  /** One recorded arrival keeps the key order of `GroupKeyOrder`. */
  lemma {:induction false} KeyOrderStep(prefix: seq<Arrival>, last: Arrival, i: nat, j: nat)
    requires forall i, j :: 0 <= i < j < |Group(prefix)| ==>
               FirstMention(prefix, Group(prefix)[i].destination) < FirstMention(prefix, Group(prefix)[j].destination)
    requires i < j < |Append(Group(prefix), last)|
    ensures FirstMention(prefix + [last], Append(Group(prefix), last)[i].destination)
            < FirstMention(prefix + [last], Append(Group(prefix), last)[j].destination)
  {
    var prev := Group(prefix);
    var g := Append(prev, last);
    AppendKeyPlaces(prev, last);
    var di := prev[i].destination;
    assert g[i].destination == di;
    assert HasKey(prev, di);
    FirstMentionExtend(prefix, last, di);
    FirstMentionInside(prefix, di);
    if j < |prev| {
      var dj := prev[j].destination;
      assert g[j].destination == dj;
      assert HasKey(prev, dj);
      FirstMentionExtend(prefix, last, dj);
    } else {
      assert g[j].destination == last.destination;
      FirstMentionExtend(prefix, last, last.destination);
    }
  }

  /** A destination that never occurs has no times recorded under it. */
  lemma {:induction false} TimesForAbsent(arrivals: seq<Arrival>, d: string)
    requires !Mentions(arrivals, d)
    ensures TimesFor(arrivals, d) == []
  {
    if |arrivals| > 0 {
      TimesForAbsent(arrivals[..|arrivals| - 1], d);
    }
  }

  /** Every time held under a key was recorded by some arrival for it. */
  lemma {:induction false} TimesForRecorded(arrivals: seq<Arrival>, d: string, t: string)
    requires t in TimesFor(arrivals, d)
    ensures exists k :: 0 <= k < |arrivals| && arrivals[k] == Arrival(d, t)
  {
    var prefix := arrivals[..|arrivals| - 1];
    if t in TimesFor(prefix, d) {
      TimesForRecorded(prefix, d, t);
      var k :| 0 <= k < |prefix| && prefix[k] == Arrival(d, t);
      assert arrivals[k] == prefix[k];
    }
  }

  /** No key of the mapping holds an empty list: the defaultdict only
      creates a key in the act of appending to it. */
  lemma {:induction false} GroupNoEmptyList(arrivals: seq<Arrival>)
    ensures forall i :: 0 <= i < |Group(arrivals)| ==> Group(arrivals)[i].times != []
  {
    var g := Group(arrivals);
    forall i | 0 <= i < |g|
      ensures g[i].times != []
    {
      assert HasKey(g, g[i].destination);
      TimesForPresent(arrivals, g[i].destination);
    }
  }

  lemma {:induction false} TimesForPresent(arrivals: seq<Arrival>, d: string)
    requires Mentions(arrivals, d)
    ensures TimesFor(arrivals, d) != []
  {
    var prefix := arrivals[..|arrivals| - 1];
    if arrivals[|arrivals| - 1].destination != d {
      var k :| 0 <= k < |arrivals| && arrivals[k].destination == d;
      assert prefix[k] == arrivals[k];
      TimesForPresent(prefix, d);
    }
  }

  /** The mapping is empty exactly when nothing was recorded. */
  lemma {:induction false} GroupEmpty(arrivals: seq<Arrival>)
    ensures Group(arrivals) == [] <==> arrivals == []
  {
    if arrivals != [] {
      assert Mentions(arrivals, arrivals[0].destination);
      assert HasKey(Group(arrivals), arrivals[0].destination);
    }
  }
}
