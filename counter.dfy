/**
 * Key counting and overlap computation (internal/counter/intersection.go).
 *
 * A Go channel of keys is modelled as the finite sequence of values it
 * delivers before it is closed. The variants that `select` over both
 * channels (V1, V4) are modelled over a schedule of events: the order in
 * which `select` happened to receive from the two channels, including the
 * receive that reports a closed channel.
 */
module Counter {
  import opened Wrappers
  import opened MapSums

  /** Statistics of one source: records read and distinct keys seen. */
  datatype FileResult = FileResult(keyCount: int, distinctKeyCount: int)

  /** Statistics of both sources and of their overlap. */
  datatype IntersectionResult = IntersectionResult(
    first: FileResult,
    second: FileResult,
    totalOverlap: int,
    distinctOverlap: int)

  /** `findMinimum`: the smaller of two counts. */
  function FindMinimum(a: int, b: int): (m: int)
    ensures m <= a && m <= b
    ensures m == a || m == b
  {
    if a < b then a else b
  }

  /* ---------- Reference definitions ---------- */

  /** The frequency table of a stream of keys: each key seen, with its number of occurrences. */
  function Frequencies(keys: seq<string>): Counts {
    CountsOf(multiset(keys))
  }

  /** The multiset intersection of two tables: each shared key with the smaller of its two counts. */
  function Overlap(a: Counts, b: Counts): (o: Counts)
    ensures o.Keys == a.Keys * b.Keys
  {
    map k | k in a && k in b :: FindMinimum(a[k], b[k])
  }

  /** Number of keys present in both tables. */
  function DistinctOverlap(a: Counts, b: Counts): int {
    |a.Keys * b.Keys|
  }

  /** Sum over the shared keys of the smaller count. */
  ghost function TotalOverlap(a: Counts, b: Counts): int {
    Total(Overlap(a, b))
  }

  /** What every variant computes from the two streams of keys. */
  ghost function Intersection(first: seq<string>, second: seq<string>): IntersectionResult {
    var f, s := Frequencies(first), Frequencies(second);
    IntersectionResult(
      FileResult(|first|, |f|),
      FileResult(|second|, |s|),
      TotalOverlap(f, s),
      DistinctOverlap(f, s))
  }

  /** The count of `x` in `m`, 0 when absent. */
  function CountIn(m: Counts, x: string): int {
    if x in m then m[x] else 0
  }

  /* ---------- Properties of the frequency table ---------- */

  /** One more key increments its count, inserting it with count 1 when new. */
  lemma FrequenciesSnoc(keys: seq<string>, x: string)
    ensures Frequencies(keys + [x]) == Frequencies(keys)[x := CountIn(Frequencies(keys), x) + 1]
  {
    assert multiset(keys + [x]) == multiset(keys) + multiset{x};
  }

  /** The keys of a stream's table are exactly the keys the stream holds. */
  lemma FrequenciesKeys(keys: seq<string>)
    ensures Frequencies(keys).Keys == set k | k in keys
  {
  }

  /** A stream never has more distinct keys than records. */
  lemma {:induction false} FrequenciesSize(keys: seq<string>)
    ensures |Frequencies(keys)| <= |keys|
  {
    if keys != [] {
      var init, x := keys[..|keys| - 1], keys[|keys| - 1];
      assert keys == init + [x];
      FrequenciesSize(init);
      FrequenciesSnoc(init, x);
      assert Frequencies(keys).Keys == Frequencies(init).Keys + {x};
    }
  }

  /** The counts of a stream's table add up to the number of records. */
  lemma FrequenciesTotal(keys: seq<string>)
    ensures Total(Frequencies(keys)) == |keys|
  {
    TotalCountsOf(multiset(keys));
  }

  /** Every stored count is at least one; the empty stream gives the empty table. */
  lemma FrequenciesPositive(keys: seq<string>)
    ensures Positive(Frequencies(keys))
    ensures keys == [] ==> Frequencies(keys) == map[]
  {
  }

  /* ---------- Properties of the overlap ---------- */

  /** The overlap does not depend on which table comes first. */
  lemma OverlapSymmetric(a: Counts, b: Counts)
    ensures DistinctOverlap(a, b) == DistinctOverlap(b, a)
    ensures TotalOverlap(a, b) == TotalOverlap(b, a)
  {
    assert a.Keys * b.Keys == b.Keys * a.Keys;
    assert Overlap(a, b) == Overlap(b, a);
  }

  /** Shared keys are no more than the keys of either table. */
  lemma OverlapDistinctBound(a: Counts, b: Counts)
    ensures 0 <= DistinctOverlap(a, b) <= |a|
    ensures DistinctOverlap(a, b) <= |b|
  {
    assert a.Keys == (a.Keys * b.Keys) + (a.Keys - b.Keys);
    assert b.Keys == (a.Keys * b.Keys) + (b.Keys - a.Keys);
  }

  /** With no negative counts, the total overlap is at most the total of either table. */
  lemma OverlapTotalBound(a: Counts, b: Counts)
    requires NonNegative(a) && NonNegative(b)
    ensures 0 <= TotalOverlap(a, b)
    ensures TotalOverlap(a, b) <= Total(a)
    ensures TotalOverlap(a, b) <= Total(b)
  {
    var o := Overlap(a, b);
    SumOverSubset(o, {}, o.Keys);
    SumOverMono(o, a, o.Keys);
    SumOverSubset(a, o.Keys, a.Keys);
    SumOverMono(o, b, o.Keys);
    SumOverSubset(b, o.Keys, b.Keys);
  }

  /** When every count is at least one, each shared key adds at least one to the total overlap. */
  lemma OverlapDistinctAtMostTotal(a: Counts, b: Counts)
    requires Positive(a) && Positive(b)
    ensures DistinctOverlap(a, b) <= TotalOverlap(a, b)
  {
    var o := Overlap(a, b);
    SumOverAtLeastSize(o, o.Keys);
  }

  /** Changing one count of the first table changes the total overlap only at that key. */
  lemma TotalOverlapUpdate(a: Counts, b: Counts, x: string, v: int)
    ensures TotalOverlap(a[x := v], b)
         == TotalOverlap(a, b)
          - (if x in a && x in b then FindMinimum(a[x], b[x]) else 0)
          + (if x in b then FindMinimum(v, b[x]) else 0)
  {
    var o := Overlap(a, b);
    if x in b {
      assert Overlap(a[x := v], b) == o[x := FindMinimum(v, b[x])];
      TotalUpdate(o, x, FindMinimum(v, b[x]));
    } else {
      assert Overlap(a[x := v], b) == o;
    }
  }

  /** One more occurrence of `x` in the first table adds a shared key exactly when `x` is new there and in the second. */
  lemma ArrivalDistinct(a: Counts, b: Counts, x: string)
    ensures DistinctOverlap(a[x := CountIn(a, x) + 1], b)
         == DistinctOverlap(a, b) + (if x !in a && x in b then 1 else 0)
  {
    var a' := a[x := CountIn(a, x) + 1];
    if x !in a && x in b {
      assert a'.Keys * b.Keys == a.Keys * b.Keys + {x};
    } else {
      assert a'.Keys * b.Keys == a.Keys * b.Keys;
    }
  }

  /**
   * One more occurrence of `x` in the first table: the total overlap grows by
   * one exactly when the first count was still below the second.
   */
  lemma ArrivalTotal(a: Counts, b: Counts, x: string)
    requires Positive(b)
    ensures TotalOverlap(a[x := CountIn(a, x) + 1], b)
         == TotalOverlap(a, b) + (if x in b && CountIn(a, x) < b[x] then 1 else 0)
  {
    TotalOverlapUpdate(a, b, x, CountIn(a, x) + 1);
  }

  /**
   * One more occurrence of `x` in the first table: a new key shared with the
   * second adds one distinct overlap, and the total overlap grows by one exactly
   * when the first count was still below the second.
   */
  lemma ArrivalOnFirst(a: Counts, b: Counts, x: string)
    requires Positive(b)
    ensures DistinctOverlap(a[x := CountIn(a, x) + 1], b)
         == DistinctOverlap(a, b) + (if x !in a && x in b then 1 else 0)
    ensures TotalOverlap(a[x := CountIn(a, x) + 1], b)
         == TotalOverlap(a, b) + (if x in b && CountIn(a, x) < b[x] then 1 else 0)
  {
    ArrivalDistinct(a, b, x);
    ArrivalTotal(a, b, x);
  }

  /* ---------- Properties of the result ---------- */

  /** The invariants of an intersection result. */
  lemma IntersectionBounds(first: seq<string>, second: seq<string>)
    ensures var r := Intersection(first, second);
      && 0 <= r.first.distinctKeyCount <= r.first.keyCount
      && 0 <= r.second.distinctKeyCount <= r.second.keyCount
      && 0 <= r.distinctOverlap <= r.totalOverlap
      && r.distinctOverlap <= r.first.distinctKeyCount
      && r.distinctOverlap <= r.second.distinctKeyCount
      && r.totalOverlap <= r.first.keyCount
      && r.totalOverlap <= r.second.keyCount
  {
    var f, s := Frequencies(first), Frequencies(second);
    FrequenciesSize(first);
    FrequenciesSize(second);
    FrequenciesTotal(first);
    FrequenciesTotal(second);
    FrequenciesPositive(first);
    FrequenciesPositive(second);
    OverlapDistinctBound(f, s);
    OverlapTotalBound(f, s);
    OverlapDistinctAtMostTotal(f, s);
  }

  /**
   * The total overlap is the size of the multiset intersection of the two
   * streams, and the distinct overlap the number of keys occurring in both.
   */
  lemma IntersectionIsMultisetIntersection(first: seq<string>, second: seq<string>)
    ensures Intersection(first, second).totalOverlap == |multiset(first) * multiset(second)|
    ensures Intersection(first, second).distinctOverlap == |set k | k in first && k in second|
  {
    var both := multiset(first) * multiset(second);
    assert Overlap(Frequencies(first), Frequencies(second)) == CountsOf(both);
    TotalCountsOf(both);
    assert Frequencies(first).Keys * Frequencies(second).Keys == (set k | k in first && k in second);
  }

  /** Swapping the two streams swaps the per-source statistics and keeps the overlaps. */
  lemma IntersectionSwap(first: seq<string>, second: seq<string>)
    ensures var r, q := Intersection(first, second), Intersection(second, first);
      q == IntersectionResult(r.second, r.first, r.totalOverlap, r.distinctOverlap)
  {
    OverlapSymmetric(Frequencies(first), Frequencies(second));
  }

  /** Two immediately closed streams give all zeros. */
  lemma IntersectionEmpty()
    ensures Intersection([], []) == IntersectionResult(FileResult(0, 0), FileResult(0, 0), 0, 0)
  {
    assert Overlap(map[], map[]) == map[];
  }

  /** findOverlaps on the tables of intersection_test.go:41-55: 3 shared keys, total overlap 1 + 2 + 1. */
  lemma OverlapExample()
    ensures var a := map["a" := 1, "b" := 2, "c" := 3, "d" := 4];
            var b := map["a" := 3, "b" := 2, "c" := 1, "e" := 2];
      DistinctOverlap(a, b) == 3 && TotalOverlap(a, b) == 4
  {
    var a := map["a" := 1, "b" := 2, "c" := 3, "d" := 4];
    var b := map["a" := 3, "b" := 2, "c" := 1, "e" := 2];
    var both := multiset{"a", "b", "b", "c"};
    assert a.Keys * b.Keys == {"a", "b", "c"};
    assert Overlap(a, b) == CountsOf(both);
    TotalCountsOf(both);
  }

  /** The streams of intersection_test.go:57-99: 8 and 9 records, 6 distinct each, 4 shared keys, total overlap 5. */
  lemma IntersectionExample()
    ensures Intersection(["a", "b", "c", "d", "d", "e", "f", "f"], ["a", "c", "c", "d", "f", "f", "f", "x", "y"])
         == IntersectionResult(FileResult(8, 6), FileResult(9, 6), 5, 4)
  {
    var first := ["a", "b", "c", "d", "d", "e", "f", "f"];
    var second := ["a", "c", "c", "d", "f", "f", "f", "x", "y"];
    IntersectionIsMultisetIntersection(first, second);
    FrequenciesKeys(first);
    FrequenciesKeys(second);
    ExampleFirstKeys();
    ExampleSecondKeys();
    ExampleSharedKeys();
    ExampleShared();
  }

  /** The first example stream holds six distinct keys. */
  lemma ExampleFirstKeys()
    ensures |set k | k in ["a", "b", "c", "d", "d", "e", "f", "f"]| == 6
  {
    assert (set k | k in ["a", "b", "c", "d", "d", "e", "f", "f"]) == {"a", "b", "c", "d", "e", "f"};
  }

  /** The second example stream holds six distinct keys. */
  lemma ExampleSecondKeys()
    ensures |set k | k in ["a", "c", "c", "d", "f", "f", "f", "x", "y"]| == 6
  {
    assert (set k | k in ["a", "c", "c", "d", "f", "f", "f", "x", "y"]) == {"a", "c", "d", "f", "x", "y"};
  }

  /** The example streams share four keys. */
  lemma ExampleSharedKeys()
    ensures |set k | k in ["a", "b", "c", "d", "d", "e", "f", "f"] && k in ["a", "c", "c", "d", "f", "f", "f", "x", "y"]| == 4
  {
    assert (set k | k in ["a", "b", "c", "d", "d", "e", "f", "f"] && k in ["a", "c", "c", "d", "f", "f", "f", "x", "y"]) == {"a", "c", "d", "f"};
  }

  /** The example streams have five occurrences in common: a, c, d and f twice. */
  lemma ExampleShared()
    ensures |multiset(["a", "b", "c", "d", "d", "e", "f", "f"]) * multiset(["a", "c", "c", "d", "f", "f", "f", "x", "y"])| == 5
  {
    assert multiset(["a", "b", "c", "d", "d", "e", "f", "f"]) == multiset{"a", "b", "c", "d", "d", "e", "f", "f"};
    assert multiset(["a", "c", "c", "d", "f", "f", "f", "x", "y"]) == multiset{"a", "c", "c", "d", "f", "f", "f", "x", "y"};
    ExampleCommon();
  }

  /** The multiset intersection of the example streams. */
  lemma ExampleCommon()
    ensures multiset{"a", "b", "c", "d", "d", "e", "f", "f"} * multiset{"a", "c", "c", "d", "f", "f", "f", "x", "y"}
         == multiset{"a", "c", "d", "f", "f"}
  {
  }

  /* ---------- countKeys and findOverlaps ---------- */

  /**
   * Records one more occurrence of `x`: a key seen for the first time is
   * entered with count 0, then its count is incremented. `seen` is the stream
   * read so far, which `m` tabulates.
   */
  method Tally(m: Counts, x: string, ghost seen: seq<string>) returns (r: Counts)
    requires m == Frequencies(seen)
    ensures r == Frequencies(seen + [x])
  {
    FrequenciesSnoc(seen, x);
    r := m;
    if x !in r {
      r := r[x := 0];
    }
    r := r[x := r[x] + 1];
  }

  /** `countKeys`: drains a stream into its frequency table and record count. */
  method CountKeys(input: seq<string>) returns (res: Counts, totalCount: int)
    ensures res == Frequencies(input)
    ensures forall k :: k in res <==> k in input
    ensures forall k :: k in res ==> res[k] == multiset(input)[k]
    ensures totalCount == |input|
    ensures |res| <= totalCount
  {
    res := map[];
    totalCount := 0;
    var i := 0;
    while i < |input|
      invariant 0 <= i <= |input|
      invariant res == Frequencies(input[..i])
      invariant totalCount == i
    {
      var item := input[i];
      assert input[..i + 1] == input[..i] + [item];
      res := Tally(res, item, input[..i]);
      totalCount := totalCount + 1;
      i := i + 1;
    }
    assert input[..i] == input;
    FrequenciesSize(input);
  }

  /** Visiting one more shared key adds one to the count and its smaller count to the sum. */
  lemma OverlapVisit(a: Counts, b: Counts, shared: set<string>, fk: string)
    requires shared <= a.Keys * b.Keys && fk in a && fk in b && fk !in shared
    ensures |shared + {fk}| == |shared| + 1
    ensures SumOver(Overlap(a, b), shared + {fk}) == SumOver(Overlap(a, b), shared) + FindMinimum(a[fk], b[fk])
  {
    SumOverRemove(Overlap(a, b), shared + {fk}, fk);
    assert shared + {fk} - {fk} == shared;
  }

  /**
   * `findOverlaps`: visits the keys of the first table in an arbitrary order
   * (Go's map order is unspecified) and, for every key also in the second
   * table, counts it and adds the smaller of its two counts.
   */
  method FindOverlaps(firstKeys: Counts, secondKeys: Counts) returns (count: int, totalOverlap: int)
    ensures count == DistinctOverlap(firstKeys, secondKeys)
    ensures totalOverlap == TotalOverlap(firstKeys, secondKeys)
  {
    count, totalOverlap := 0, 0;
    var remaining := firstKeys.Keys;
    // the shared keys visited so far
    ghost var shared: set<string> := {};
    while remaining != {}
      invariant remaining <= firstKeys.Keys
      invariant shared <= firstKeys.Keys * secondKeys.Keys
      invariant forall k :: k in firstKeys && k in secondKeys ==> (k in shared <==> k !in remaining)
      invariant count == |shared|
      invariant totalOverlap == SumOver(Overlap(firstKeys, secondKeys), shared)
      decreases remaining
    {
      var fk :| fk in remaining;
      var fv := firstKeys[fk];
      if fk in secondKeys {
        var sv := secondKeys[fk];
        OverlapVisit(firstKeys, secondKeys, shared, fk);
        count := count + 1;
        if fv < sv {
          totalOverlap := totalOverlap + fv;
        } else {
          totalOverlap := totalOverlap + sv;
        }
        shared := shared + {fk};
      }
      remaining := remaining - {fk};
    }
    assert shared == firstKeys.Keys * secondKeys.Keys;
  }

  /* ---------- The orchestration variants ---------- */

  /** `findSetIntersectionV2`: counts each stream in turn, then computes the overlaps. */
  method FindSetIntersectionV2(first: seq<string>, second: seq<string>) returns (result: IntersectionResult, err: Option<string>)
    ensures err == None
    ensures result == Intersection(first, second)
  {
    var firstKeys, firstTotalKeyCount := CountKeys(first);
    var secondKeys, secondTotalKeyCount := CountKeys(second);
    var distinctOverlap, totalOverlap := FindOverlaps(firstKeys, secondKeys);
    result := IntersectionResult(
      FileResult(firstTotalKeyCount, |firstKeys|),
      FileResult(secondTotalKeyCount, |secondKeys|),
      totalOverlap,
      distinctOverlap);
    err := None;
  }

  /**
   * `findSetIntersectionV3`: the two goroutines each count one stream and share
   * nothing, and the join waits for both, so running them one after the other
   * gives the same result.
   */
  method FindSetIntersectionV3(first: seq<string>, second: seq<string>) returns (result: IntersectionResult, err: Option<string>)
    ensures err == None
    ensures result == Intersection(first, second)
  {
    var firstKeys, firstTotalKeyCount := CountKeys(first);
    var secondKeys, secondTotalKeyCount := CountKeys(second);
    var distinctOverlap, totalOverlap := FindOverlaps(firstKeys, secondKeys);
    result := IntersectionResult(
      FileResult(firstTotalKeyCount, |firstKeys|),
      FileResult(secondTotalKeyCount, |secondKeys|),
      totalOverlap,
      distinctOverlap);
    err := None;
  }

  /** `FindSetIntersection`: the exported entry point, which is V3. */
  method FindSetIntersection(first: seq<string>, second: seq<string>) returns (result: IntersectionResult, err: Option<string>)
    ensures err == None
    ensures result == Intersection(first, second)
  {
    result, err := FindSetIntersectionV3(first, second);
  }

  /* ---------- Schedules of a select loop ---------- */

  /**
   * One case taken by `select`: a key received from the first or the second
   * channel, or the receive that reports that channel closed.
   */
  datatype Event = First(key: string) | Second(key: string) | FirstClosed | SecondClosed

  /** The keys received from the first channel, in order. */
  function Firsts(events: seq<Event>): seq<string> {
    if events == [] then []
    else
      var last := events[|events| - 1];
      Firsts(events[..|events| - 1]) + (if last.First? then [last.key] else [])
  }

  /** The keys received from the second channel, in order. */
  function Seconds(events: seq<Event>): seq<string> {
    if events == [] then []
    else
      var last := events[|events| - 1];
      Seconds(events[..|events| - 1]) + (if last.Second? then [last.key] else [])
  }

  /**
   * The rest of a schedule as the select loop follows it, from a state where
   * each channel has or has not yet been reported closed: no key arrives on a
   * channel after it was reported closed (a closed channel may be reported
   * closed again), and by the end both have been reported closed.
   */
  predicate Drains(events: seq<Event>, firstDone: bool, secondDone: bool)
    decreases |events|
  {
    if events == [] then firstDone && secondDone
    else match events[0] {
      case First(_) => !firstDone && Drains(events[1..], firstDone, secondDone)
      case Second(_) => !secondDone && Drains(events[1..], firstDone, secondDone)
      case FirstClosed => Drains(events[1..], true, secondDone)
      case SecondClosed => Drains(events[1..], firstDone, true)
    }
  }

  /** A schedule the select loops can see from their start, with neither channel closed. */
  predicate ValidSchedule(events: seq<Event>) {
    Drains(events, false, false)
  }

  /** A schedule never closes the first channel without reporting it. */
  lemma {:induction false} DrainsReportsClose(events: seq<Event>, firstDone: bool, secondDone: bool)
    requires Drains(events, firstDone, secondDone)
    ensures !firstDone ==> FirstClosed in events
    ensures !secondDone ==> SecondClosed in events
    decreases |events|
  {
    if events != [] {
      DrainsReportsClose(events[1..], firstDone || events[0] == FirstClosed, secondDone || events[0] == SecondClosed);
      assert events == [events[0]] + events[1..];
    }
  }

  /** Events that receive no key leave the projections unchanged. */
  lemma {:induction false} ProjectionsSettled(events: seq<Event>, i: nat)
    requires i <= |events|
    requires forall j :: i <= j < |events| ==> events[j].FirstClosed? || events[j].SecondClosed?
    ensures Firsts(events) == Firsts(events[..i])
    ensures Seconds(events) == Seconds(events[..i])
    decreases |events|
  {
    if i < |events| {
      var init := events[..|events| - 1];
      assert init[..i] == events[..i];
      ProjectionsSettled(init, i);
    } else {
      assert events[..i] == events;
    }
  }

  /** After both channels were reported closed, a schedule receives no more keys. */
  lemma {:induction false} DrainedSettled(events: seq<Event>)
    requires Drains(events, true, true)
    ensures forall j :: 0 <= j < |events| ==> events[j].FirstClosed? || events[j].SecondClosed?
    decreases |events|
  {
    if events != [] {
      DrainedSettled(events[1..]);
      assert forall j :: 1 <= j < |events| ==> events[j] == events[1..][j - 1];
    }
  }

  /** Following `events[i]` updates the loop's flags as the select loops do. */
  lemma DrainsStep(events: seq<Event>, i: nat, firstDone: bool, secondDone: bool)
    requires i < |events| && Drains(events[i..], firstDone, secondDone)
    ensures Drains(events[i + 1..], firstDone || events[i] == FirstClosed, secondDone || events[i] == SecondClosed)
  {
    assert events[i..][1..] == events[i + 1..];
  }


  /** Once both closes have been received, the rest of the schedule receives no key. */
  lemma ScheduleDone(events: seq<Event>, i: nat)
    requires i <= |events| && Drains(events[i..], true, true)
    ensures Firsts(events) == Firsts(events[..i])
    ensures Seconds(events) == Seconds(events[..i])
  {
    DrainedSettled(events[i..]);
    assert forall j :: i <= j < |events| ==> events[j] == events[i..][j - i];
    ProjectionsSettled(events, i);
  }

  /** Receiving `events[i]` extends the projections of the prefix. */
  lemma ProjectionsStep(events: seq<Event>, i: nat)
    requires i < |events|
    ensures Firsts(events[..i + 1]) == Firsts(events[..i]) + (if events[i].First? then [events[i].key] else [])
    ensures Seconds(events[..i + 1]) == Seconds(events[..i]) + (if events[i].Second? then [events[i].key] else [])
  {
    assert events[..i + 1][..i] == events[..i];
  }

  /** The schedule that drains the first channel, sees it closed, then does the same with the second. */
  function Sequential(first: seq<string>, second: seq<string>): (events: seq<Event>)
    ensures |events| == |first| + |second| + 2
  {
    seq(|first|, i requires 0 <= i < |first| => First(first[i])) + [FirstClosed]
    + seq(|second|, i requires 0 <= i < |second| => Second(second[i])) + [SecondClosed]
  }

  /** The sequential schedule is one the select loops can see: each channel closes once, after its keys. */
  lemma SequentialValid(first: seq<string>, second: seq<string>)
    ensures ValidSchedule(Sequential(first, second))
  {
    var fs := seq(|first|, i requires 0 <= i < |first| => First(first[i]));
    var ss := seq(|second|, i requires 0 <= i < |second| => Second(second[i]));
    assert Drains([SecondClosed], true, false) by {
      assert [SecondClosed][1..] == [];
    }
    DrainsAfterSeconds(second, [SecondClosed]);
    assert ([FirstClosed] + (ss + [SecondClosed]))[1..] == ss + [SecondClosed];
    DrainsAfterFirsts(first, [FirstClosed] + (ss + [SecondClosed]));
    assert Sequential(first, second) == fs + ([FirstClosed] + (ss + [SecondClosed]));
  }

  /** Keys received on the open first channel can precede any rest of a schedule. */
  lemma {:induction false} DrainsAfterFirsts(keys: seq<string>, rest: seq<Event>)
    requires Drains(rest, false, false)
    ensures Drains(seq(|keys|, i requires 0 <= i < |keys| => First(keys[i])) + rest, false, false)
    decreases |keys|
  {
    if keys != [] {
      DrainsAfterFirsts(keys[1..], rest);
      var events := seq(|keys|, i requires 0 <= i < |keys| => First(keys[i])) + rest;
      assert events[0] == First(keys[0]);
      assert events[1..] == seq(|keys[1..]|, i requires 0 <= i < |keys[1..]| => First(keys[1..][i])) + rest;
    } else {
      assert seq(|keys|, i requires 0 <= i < |keys| => First(keys[i])) + rest == rest;
    }
  }

  /** Keys received on the open second channel, after the first closed, can precede any rest of a schedule. */
  lemma {:induction false} DrainsAfterSeconds(keys: seq<string>, rest: seq<Event>)
    requires Drains(rest, true, false)
    ensures Drains(seq(|keys|, i requires 0 <= i < |keys| => Second(keys[i])) + rest, true, false)
    decreases |keys|
  {
    if keys != [] {
      DrainsAfterSeconds(keys[1..], rest);
      var events := seq(|keys|, i requires 0 <= i < |keys| => Second(keys[i])) + rest;
      assert events[0] == Second(keys[0]);
      assert events[1..] == seq(|keys[1..]|, i requires 0 <= i < |keys[1..]| => Second(keys[1..][i])) + rest;
    } else {
      assert seq(|keys|, i requires 0 <= i < |keys| => Second(keys[i])) + rest == rest;
    }
  }

  /** Any two streams are received, in order, by the sequential schedule. */
  lemma SequentialProjections(first: seq<string>, second: seq<string>)
    ensures Firsts(Sequential(first, second)) == first
    ensures Seconds(Sequential(first, second)) == second
  {
    var fs := seq(|first|, i requires 0 <= i < |first| => First(first[i]));
    var ss := seq(|second|, i requires 0 <= i < |second| => Second(second[i]));
    assert Sequential(first, second) == fs + [FirstClosed] + ss + [SecondClosed];
    OnlyFirsts(first);
    OnlySeconds(second);
    AppendProjections(fs, [FirstClosed]);
    AppendProjections(fs + [FirstClosed], ss);
    AppendProjections(fs + [FirstClosed] + ss, [SecondClosed]);
    assert Firsts([FirstClosed]) == [] && Seconds([FirstClosed]) == [] by {
      assert [FirstClosed][..0] == [];
    }
    assert Firsts([SecondClosed]) == [] && Seconds([SecondClosed]) == [] by {
      assert [SecondClosed][..0] == [];
    }
  }

  /** The projections of a concatenation are the concatenations of the projections. */
  lemma {:induction false} AppendProjections(xs: seq<Event>, ys: seq<Event>)
    ensures Firsts(xs + ys) == Firsts(xs) + Firsts(ys)
    ensures Seconds(xs + ys) == Seconds(xs) + Seconds(ys)
    decreases |ys|
  {
    if ys == [] {
      assert xs + ys == xs;
    } else {
      var init := ys[..|ys| - 1];
      assert (xs + ys)[..|xs + ys| - 1] == xs + init;
      AppendProjections(xs, init);
    }
  }

  /** A schedule of first-channel keys projects back to those keys. */
  lemma {:induction false} OnlyFirsts(keys: seq<string>)
    ensures var events := seq(|keys|, i requires 0 <= i < |keys| => First(keys[i]));
      Firsts(events) == keys && Seconds(events) == []
    decreases |keys|
  {
    var events := seq(|keys|, i requires 0 <= i < |keys| => First(keys[i]));
    if keys != [] {
      var init := keys[..|keys| - 1];
      assert events[..|events| - 1] == seq(|init|, i requires 0 <= i < |init| => First(init[i]));
      OnlyFirsts(init);
      assert keys == init + [keys[|keys| - 1]];
    }
  }

  /** A schedule of second-channel keys projects back to those keys. */
  lemma {:induction false} OnlySeconds(keys: seq<string>)
    ensures var events := seq(|keys|, i requires 0 <= i < |keys| => Second(keys[i]));
      Seconds(events) == keys && Firsts(events) == []
    decreases |keys|
  {
    var events := seq(|keys|, i requires 0 <= i < |keys| => Second(keys[i]));
    if keys != [] {
      var init := keys[..|keys| - 1];
      assert events[..|events| - 1] == seq(|init|, i requires 0 <= i < |init| => Second(init[i]));
      OnlySeconds(init);
      assert keys == init + [keys[|keys| - 1]];
    }
  }

  /**
   * `findSetIntersectionV1`: a select loop that counts both channels into two
   * tables as their keys arrive, in any interleaving, then computes the overlaps.
   */
  method FindSetIntersectionV1(events: seq<Event>) returns (result: IntersectionResult, err: Option<string>)
    requires ValidSchedule(events)
    ensures err == None
    ensures result == Intersection(Firsts(events), Seconds(events))
  {
    var firstKeys: Counts := map[];
    var secondKeys: Counts := map[];
    var firstTotalKeyCount, secondTotalKeyCount := 0, 0;
    var firstDone, secondDone := false, false;
    // the keys received so far from each channel
    ghost var firstSeen: seq<string> := [];
    ghost var secondSeen: seq<string> := [];
    var i := 0;
    while !firstDone || !secondDone
      invariant 0 <= i <= |events|
      invariant Drains(events[i..], firstDone, secondDone)
      invariant firstSeen == Firsts(events[..i]) && secondSeen == Seconds(events[..i])
      invariant firstKeys == Frequencies(firstSeen) && secondKeys == Frequencies(secondSeen)
      invariant firstTotalKeyCount == |firstSeen| && secondTotalKeyCount == |secondSeen|
      decreases |events| - i
    {
      DrainsStep(events, i, firstDone, secondDone);
      ProjectionsStep(events, i);
      match events[i] {
        case First(firstVal) =>
          firstKeys := Tally(firstKeys, firstVal, firstSeen);
          firstTotalKeyCount := firstTotalKeyCount + 1;
          firstSeen := firstSeen + [firstVal];
        case FirstClosed =>
          firstDone := true;
        case Second(secondVal) =>
          secondKeys := Tally(secondKeys, secondVal, secondSeen);
          secondTotalKeyCount := secondTotalKeyCount + 1;
          secondSeen := secondSeen + [secondVal];
        case SecondClosed =>
          secondDone := true;
      }
      i := i + 1;
    }
    ScheduleDone(events, i);

    var distinctOverlap, totalOverlap := FindOverlaps(firstKeys, secondKeys);
    result := IntersectionResult(
      FileResult(firstTotalKeyCount, |firstKeys|),
      FileResult(secondTotalKeyCount, |secondKeys|),
      totalOverlap,
      distinctOverlap);
    err := None;
  }

  /**
   * The figures kept by `findSetIntersectionV4` stay those of the tables
   * after one more occurrence of `x` in the first table, when they change
   * as that loop changes them.
   */
  lemma ArrivalLink(mine: Counts, other: Counts, x: string, seen: seq<string>, otherSeen: seq<string>,
                    mine': Counts, distinct: int, distinctOverlap: int, totalOverlap: int,
                    distinct': int, distinctOverlap': int, totalOverlap': int)
    requires mine == Frequencies(seen) && other == Frequencies(otherSeen)
    requires distinct == |mine|
    requires distinctOverlap == DistinctOverlap(mine, other)
    requires totalOverlap == TotalOverlap(mine, other)
    requires mine' == mine[x := CountIn(mine, x) + 1]
    requires distinct' == distinct + (if x in mine then 0 else 1)
    requires distinctOverlap' == distinctOverlap + (if x !in mine && x in other then 1 else 0)
    requires totalOverlap' == totalOverlap + (if x in other && CountIn(mine, x) < other[x] then 1 else 0)
    ensures mine' == Frequencies(seen + [x])
    ensures distinct' == |mine'|
    ensures distinctOverlap' == DistinctOverlap(mine', other)
    ensures totalOverlap' == TotalOverlap(mine', other)
  {
    FrequenciesSnoc(seen, x);
    FrequenciesPositive(otherSeen);
    ArrivalSize(mine, x);
    ArrivalOnFirst(mine, other, x);
  }

  /** One more occurrence of `x` adds a key to the table exactly when `x` is new. */
  lemma ArrivalSize(a: Counts, x: string)
    ensures |a[x := CountIn(a, x) + 1]| == |a| + (if x in a then 0 else 1)
  {
  }

  /**
   * One key received by `findSetIntersectionV4` on one channel: `mine` is the
   * table of that channel and `other` the table of the other one. A new key is
   * entered with count 0 and counted as distinct, and as a distinct overlap when
   * the other table has it. When the other table has the key, the total overlap
   * grows by one if the smaller of the two counts grows. Then the count is
   * incremented.
   */
  method Arrive(mine: Counts, other: Counts, x: string, distinct: int, distinctOverlap: int, totalOverlap: int,
                ghost seen: seq<string>, ghost otherSeen: seq<string>)
    returns (mine': Counts, distinct': int, distinctOverlap': int, totalOverlap': int)
    requires mine == Frequencies(seen) && other == Frequencies(otherSeen)
    requires distinct == |mine|
    requires distinctOverlap == DistinctOverlap(mine, other)
    requires totalOverlap == TotalOverlap(mine, other)
    ensures mine' == Frequencies(seen + [x])
    ensures distinct' == |mine'|
    ensures distinctOverlap' == DistinctOverlap(mine', other)
    ensures totalOverlap' == TotalOverlap(mine', other)
  {
    ghost var target := mine[x := CountIn(mine, x) + 1];
    mine', distinct', distinctOverlap', totalOverlap' := mine, distinct, distinctOverlap, totalOverlap;
    if x !in mine' {
      mine' := mine'[x := 0];
      distinct' := distinct' + 1;
      if x in other {
        distinctOverlap' := distinctOverlap' + 1;
      }
    }
    if x in other {
      var countOnOther := other[x];
      var previousVal := FindMinimum(mine'[x], countOnOther);
      var newVal := FindMinimum(mine'[x] + 1, countOnOther);
      if newVal > previousVal {
        totalOverlap' := totalOverlap' + 1;
      }
    }
    mine' := mine'[x := mine'[x] + 1];
    assert mine' == target;
    ArrivalLink(mine, other, x, seen, otherSeen, mine', distinct, distinctOverlap, totalOverlap, distinct', distinctOverlap', totalOverlap');
  }

  /**
   * `findSetIntersectionV4`: a select loop that keeps every figure of the result
   * up to date as each key arrives, so no pass over the tables is needed at the end.
   */
  method FindSetIntersectionV4(events: seq<Event>) returns (result: IntersectionResult, err: Option<string>)
    requires ValidSchedule(events)
    ensures err == None
    ensures result == Intersection(Firsts(events), Seconds(events))
  {
    var firstTotalKeys, firstDistinctKeys, secondTotalKeys, secondDistinctKeys, totalOverlap, distinctOverlap := 0, 0, 0, 0, 0, 0;
    var firstMap: Counts := map[];
    var secondMap: Counts := map[];
    var firstDone, secondDone := false, false;
    ghost var firstSeen: seq<string> := [];
    ghost var secondSeen: seq<string> := [];
    assert Overlap(firstMap, secondMap) == map[];
    var i := 0;
    while !firstDone || !secondDone
      invariant 0 <= i <= |events|
      invariant Drains(events[i..], firstDone, secondDone)
      invariant firstSeen == Firsts(events[..i]) && secondSeen == Seconds(events[..i])
      invariant firstMap == Frequencies(firstSeen) && secondMap == Frequencies(secondSeen)
      invariant firstTotalKeys == |firstSeen| && secondTotalKeys == |secondSeen|
      invariant firstDistinctKeys == |firstMap| && secondDistinctKeys == |secondMap|
      invariant distinctOverlap == DistinctOverlap(firstMap, secondMap)
      invariant totalOverlap == TotalOverlap(firstMap, secondMap)
      decreases |events| - i
    {
      DrainsStep(events, i, firstDone, secondDone);
      ProjectionsStep(events, i);
      match events[i] {
        case First(firstVal) =>
          firstMap, firstDistinctKeys, distinctOverlap, totalOverlap :=
            Arrive(firstMap, secondMap, firstVal, firstDistinctKeys, distinctOverlap, totalOverlap, firstSeen, secondSeen);
          firstTotalKeys := firstTotalKeys + 1;
          firstSeen := firstSeen + [firstVal];
        case FirstClosed =>
          firstDone := true;
        case Second(secondVal) =>
          OverlapSymmetric(firstMap, secondMap);
          secondMap, secondDistinctKeys, distinctOverlap, totalOverlap :=
            Arrive(secondMap, firstMap, secondVal, secondDistinctKeys, distinctOverlap, totalOverlap, secondSeen, firstSeen);
          OverlapSymmetric(firstMap, secondMap);
          secondTotalKeys := secondTotalKeys + 1;
          secondSeen := secondSeen + [secondVal];
        case SecondClosed =>
          secondDone := true;
      }
      i := i + 1;
    }
    ScheduleDone(events, i);

    result := IntersectionResult(
      FileResult(firstTotalKeys, firstDistinctKeys),
      FileResult(secondTotalKeys, secondDistinctKeys),
      totalOverlap,
      distinctOverlap);
    err := None;
  }
}
