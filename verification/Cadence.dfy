/**
 * The cadence tracker: lifetime counters and a bounded window of recent sends. The ghost fields
 * record everything ever accepted; `Valid` says that each real field is what that record gives.
 */
module Cadence {
  import opened Options
  import opened CadenceHistory

  /** The scalar view of one moment. */
  datatype Snapshot = Snapshot(
    captureSequence: nat, gaps: nat, missing: int, unique: nat,
    updates: nat, reuses: nat, segmentations: nat, repeats: nat, sends: nat, misses: nat, serializedMisses: nat,
    sendFps: real, updateFps: real, reuseFps: real, segmentationFps: real, repeatFps: real, uniqueFps: real,
    reuseRatio: real, repeatRatio: real, ageMs: Option<real>, mismatch: bool)

  /** Events a second over a span of nanoseconds. */
  function Rate(count: nat, first: nat, last: nat): real {
    if count == 0 || last <= first then 0.0 else count as real * 1_000_000_000.0 / (last - first) as real
  }

  const MaxReportedMs := 86_400_000.0

  function BoundedMs(ns: int): (ms: real)
    ensures 0.0 <= ms <= MaxReportedMs && IsAge(ms, ns)
  {
    var exact := ns as real / 1_000_000.0;
    if exact < 0.0 then 0.0 else if exact > MaxReportedMs then MaxReportedMs else exact
  }

  /** The aspect's rate over the window: its occurrences after the first event, over the whole span. */
  function RateOf(window: seq<Event>, a: Aspect): real {
    if |window| < 2 then 0.0 else Rate(Count(window[1..], a), window[0].sent, window[|window| - 1].sent)
  }

  function SendRate(window: seq<Event>): real {
    if |window| < 2 then 0.0 else Rate(|window| - 1, window[0].sent, window[|window| - 1].sent)
  }

  /** The window lasts: at least two sends, not all at one instant. */
  predicate Spans(window: seq<Event>) {
    |window| >= 2 && window[0].sent < window[|window| - 1].sent
  }

  lemma RatesAdd(a: nat, b: nat, first: nat, last: nat)
    ensures Rate(a, first, last) + Rate(b, first, last) == Rate(a + b, first, last)
  {
    if last > first {
      var x, y, span := a as real, b as real, (last - first) as real;
      assert (x + y) * 1_000_000_000.0 / span == x * 1_000_000_000.0 / span + y * 1_000_000_000.0 / span;
      assert (a + b) as real == x + y;
    }
  }

  /** Every send after the window's first either updates the base or reuses it. */
  lemma RatesPartition(window: seq<Event>)
    ensures RateOf(window, Update) + RateOf(window, Reuse) == SendRate(window)
  {
    if |window| >= 2 {
      EachUpdatesOrReuses(window[1..]);
      RatesAdd(Count(window[1..], Update), Count(window[1..], Reuse), window[0].sent, window[|window| - 1].sent);
    }
  }

  lemma BelowNineTenths(u: nat, n: nat, span: nat)
    requires span > 0
    ensures u as real * 1_000_000_000.0 / span as real < (n as real * 1_000_000_000.0 / span as real) * 0.9
            <==> 10 * u < 9 * n
  {
    var x, y, d := u as real * 1_000_000_000.0, n as real * 1_000_000_000.0, span as real;
    assert (y / d) * 0.9 == (y * 0.9) / d;
    assert x / d < (y * 0.9) / d <==> x < y * 0.9 by {
      QuotientsCompare(x, y * 0.9, d);
    }
  }

  lemma QuotientsCompare(x: real, y: real, d: real)
    requires d > 0.0
    ensures x / d < y / d <==> x < y
  {
    var p, q := x / d, y / d;
    assert p * d == x && q * d == y;
    assert x - y == (p - q) * d;
  }

  /** The mismatch test in whole numbers. */
  lemma MismatchMeans(window: seq<Event>)
    ensures (|window| >= 3 && SendRate(window) > 0.0 && RateOf(window, Update) < SendRate(window) * 0.9)
            <==> (|window| >= 3 && Spans(window) && 10 * Count(window[1..], Update) < 9 * (|window| - 1))
  {
    if |window| >= 3 && Spans(window) {
      var span := window[|window| - 1].sent - window[0].sent;
      assert SendRate(window) > 0.0 by {
        QuotientsCompare(0.0, (|window| - 1) as real * 1_000_000_000.0, span as real);
      }
      BelowNineTenths(Count(window[1..], Update), |window| - 1, span);
    }
  }

  predicate Shows(e: Event) {
    e.advanced && e.update.Some?
  }

  /** When each capture first shown within the window was captured. */
  function FirstCaptures(window: seq<Event>): seq<nat> {
    if window == [] then []
    else
      var e := window[|window| - 1];
      FirstCaptures(window[..|window| - 1]) + (if Shows(e) then [e.update.value.captured] else [])
  }

  /** The rate at which new captures were taken, over the captures first shown within the window. */
  function UniqueRate(window: seq<Event>): real {
    var shown := FirstCaptures(window);
    if |shown| >= 2 then Rate(|shown| - 1, shown[0], shown[|shown| - 1]) else 0.0
  }

  /** Milliseconds for nanoseconds, between none and a day. */
  predicate IsAge(ms: real, ns: int) {
    && (ns <= 0 ==> ms == 0.0)
    && (0 < ns <= 86_400_000_000_000 ==> ms * 1_000_000.0 == ns as real)
    && (ns > 86_400_000_000_000 ==> ms == 86_400_000.0)
  }

  /** What a snapshot says of everything accepted: its lifetime counters recount the history. */
  ghost predicate Recounts(v: Snapshot, h: seq<Event>, now: int) {
    && v.sends == |h| == v.updates + v.reuses
    && v.updates == Count(h, Update) && v.segmentations == Count(h, CadenceHistory.Segmentation)
    && v.repeats == Count(h, Exact) && v.misses == Count(h, Missed) && v.serializedMisses == Count(h, Serialized)
    && v.unique == |Sequences(h)|
    && (h == [] ==> v.missing == v.gaps == 0 && v.ageMs == None)
    && (h != [] ==>
          && h[0].update.Some? && LastUpdate(h).Some?
          && var first, last := h[0].update.value.sequence, LastUpdate(h).value;
          && v.captureSequence == last.sequence && v.captureSequence - first == v.unique - 1 + v.missing
          && first <= last.sequence && v.missing == |Numbers(first, last.sequence + 1) - Sequences(h)|
          && v.gaps == |GapEnds(Sequences(h), first)|
          && v.ageMs.Some? && IsAge(v.ageMs.value, now - last.ready))
  }

  /** The places after the window's first at which the aspect occurs. */
  function Places(window: seq<Event>, a: Aspect): set<nat> {
    set i: nat | 0 < i < |window| && Has(window[i], a)
  }

  /** The places at which a capture is first shown. */
  function NewPlaces(window: seq<Event>): set<nat> {
    set i: nat | i < |window| && window[i].advanced && window[i].update.Some?
  }

  predicate IsFirstNew(window: seq<Event>, i: nat) {
    i in NewPlaces(window) && forall k | k in NewPlaces(window) :: i <= k
  }

  predicate IsLastNew(window: seq<Event>, j: nat) {
    j in NewPlaces(window) && forall k | k in NewPlaces(window) :: k <= j
  }

  /** `fps` times the nanoseconds of the window is `count` thousand million; a window without extent has no rate. */
  predicate PerSecond(fps: real, count: nat, window: seq<Event>) {
    if Spans(window) then fps * (window[|window| - 1].sent - window[0].sent) as real == count as real * 1_000_000_000.0
    else fps == 0.0
  }

  /** The new captures after the first one, over the time from the first one's capture to the last one's. */
  ghost predicate UniquePerSecond(fps: real, window: seq<Event>) {
    && (NewPlaces(window) == {} ==> fps == 0.0)
    && forall i: nat, j: nat | IsFirstNew(window, i) && IsLastNew(window, j) ::
         Over(fps, |NewPlaces(window)| - 1, window[i].update.value.captured, window[j].update.value.captured)
  }

  predicate Over(fps: real, count: int, first: nat, last: nat) {
    if first < last then fps * (last - first) as real == count as real * 1_000_000_000.0 else fps == 0.0
  }

  /** Every rate is the window's events over its span, and updates and reuses make up the sends. */
  ghost predicate RatesRight(v: Snapshot, window: seq<Event>) {
    && PerSecond(v.sendFps, if window == [] then 0 else |window| - 1, window)
    && PerSecond(v.updateFps, |Places(window, Update)|, window)
    && PerSecond(v.reuseFps, |Places(window, Reuse)|, window)
    && PerSecond(v.segmentationFps, |Places(window, CadenceHistory.Segmentation)|, window)
    && PerSecond(v.repeatFps, |Places(window, Exact)|, window)
    && v.updateFps + v.reuseFps == v.sendFps
    && UniquePerSecond(v.uniqueFps, window)
  }

  predicate RatiosRight(v: Snapshot) {
    && v.reuseRatio * v.sends as real == v.reuses as real
    && v.repeatRatio * (if v.sends > 1 then v.sends - 1 else 1) as real == v.repeats as real
    && (v.sends == 0 ==> v.reuseRatio == v.repeatRatio == 0.0)
  }

  /** What it says of the window: rates, ratios, and the mismatch flag, which compares whole numbers. */
  ghost predicate Rated(v: Snapshot, window: seq<Event>) {
    && RatesRight(v, window) && RatiosRight(v)
    && (v.mismatch <==>
        |window| >= 3 && Spans(window) && 10 * |Places(window, Update)| < 9 * (|window| - 1))
  }

  lemma OnePlaceMore(window: seq<Event>, a: Aspect)
    requires |window| > 1
    ensures var n := |window| - 1;
      Places(window, a) == Places(window[..n], a) + (if Has(window[n], a) then {n} else {}) && n !in Places(window[..n], a)
  {
    var n := |window| - 1;
    forall k: nat
      ensures k in Places(window, a) <==> k in Places(window[..n], a) + (if Has(window[n], a) then {n} else {})
    {
      if k < n {
        assert window[..n][k] == window[k];
      }
    }
  }

  lemma {:induction false} CountPlaces(window: seq<Event>, a: Aspect)
    requires window != []
    ensures Count(window[1..], a) == |Places(window, a)|
    decreases |window|
  {
    if |window| > 1 {
      hide Places, Has;
      var n := |window| - 1;
      CountPlaces(window[..n], a);
      assert window[1..][..n - 1] == window[..n][1..];
      OnePlaceMore(window, a);
    } else {
      assert Places(window, a) == {};
    }
  }

  lemma RateMeans(count: nat, window: seq<Event>)
    requires window != []
    ensures PerSecond(Rate(count, window[0].sent, window[|window| - 1].sent), if Spans(window) then count else 0, window)
  {
    if Spans(window) {
      var d := (window[|window| - 1].sent - window[0].sent) as real;
      var x := count as real * 1_000_000_000.0;
      assert (x / d) * d == x;
    } else if |window| >= 2 {
    }
  }

  lemma RatesAre(window: seq<Event>, a: Aspect)
    ensures PerSecond(RateOf(window, a), |Places(window, a)|, window)
    ensures PerSecond(SendRate(window), if window == [] then 0 else |window| - 1, window)
  {
    if |window| >= 2 {
      CountPlaces(window, a);
      RateMeans(Count(window[1..], a), window);
      RateMeans(|window| - 1, window);
    }
  }

  lemma CapturesGrow(window: seq<Event>, e: Event)
    ensures FirstCaptures(window + [e]) == FirstCaptures(window) + (if Shows(e) then [e.update.value.captured] else [])
  {
    assert (window + [e])[..|window|] == window;
  }

  lemma PlacesGrow(window: seq<Event>, e: Event)
    ensures NewPlaces(window + [e]) == NewPlaces(window) + (if Shows(e) then {|window|} else {})
    ensures |window| !in NewPlaces(window)
  {
    var longer, grown := window + [e], NewPlaces(window) + (if Shows(e) then {|window|} else {});
    forall k: nat
      ensures k in NewPlaces(longer) <==> k in grown
    {
      if k < |window| {
        assert longer[k] == window[k];
      }
    }
  }

  lemma NewPlacesGrow(window: seq<Event>, e: Event)
    ensures NewPlaces(window + [e]) == NewPlaces(window) + (if Shows(e) then {|window|} else {})
    ensures |window| !in NewPlaces(window)
    ensures FirstCaptures(window + [e]) == FirstCaptures(window) + (if Shows(e) then [e.update.value.captured] else [])
  {
    hide NewPlaces, FirstCaptures;
    PlacesGrow(window, e);
    CapturesGrow(window, e);
  }

  lemma {:induction false} FirstCapturesCount(window: seq<Event>)
    ensures |FirstCaptures(window)| == |NewPlaces(window)|
    decreases |window|
  {
    if window == [] {
      assert NewPlaces(window) == {};
    } else {
      var shorter, e := window[..|window| - 1], window[|window| - 1];
      assert window == shorter + [e];
      NewPlacesGrow(shorter, e);
      FirstCapturesCount(shorter);
    }
  }

  lemma {:induction false} FirstCapturesBegin(window: seq<Event>, i: nat)
    requires IsFirstNew(window, i)
    ensures FirstCaptures(window) != [] && FirstCaptures(window)[0] == window[i].update.value.captured
    decreases |window|
  {
    var shorter, e := window[..|window| - 1], window[|window| - 1];
    assert window == shorter + [e];
    NewPlacesGrow(shorter, e);
    FirstCapturesCount(shorter);
    if i < |shorter| {
      FirstCapturesBegin(shorter, i);
    } else {
      assert NewPlaces(shorter) == {} by {
        assert forall k | k in NewPlaces(shorter) :: k in NewPlaces(window);
      }
    }
  }

  lemma {:induction false} FirstCapturesEnd(window: seq<Event>, j: nat)
    requires IsLastNew(window, j)
    ensures FirstCaptures(window) != [] && FirstCaptures(window)[|FirstCaptures(window)| - 1] == window[j].update.value.captured
    decreases |window|
  {
    var shorter, e := window[..|window| - 1], window[|window| - 1];
    assert window == shorter + [e];
    NewPlacesGrow(shorter, e);
    if j < |shorter| {
      FirstCapturesEnd(shorter, j);
    }
  }

  lemma OverMeans(count: nat, first: nat, last: nat)
    ensures Over(Rate(count, first, last), count, first, last)
  {
    if first < last {
      var d, x := (last - first) as real, count as real * 1_000_000_000.0;
      assert (x / d) * d == x;
      assert count == 0 ==> 0.0 * d == 0.0;
    }
  }

  lemma UniqueAt(window: seq<Event>, i: nat, j: nat)
    requires IsFirstNew(window, i) && IsLastNew(window, j)
    ensures Over(UniqueRate(window), |NewPlaces(window)| - 1, window[i].update.value.captured, window[j].update.value.captured)
  {
    hide FirstCaptures, Rate, Over;
    FirstCapturesCount(window);
    FirstCapturesBegin(window, i);
    FirstCapturesEnd(window, j);
    var shown := FirstCaptures(window);
    OverMeans(|shown| - 1, shown[0], shown[|shown| - 1]);
    OverNothing(shown[0]);
  }

  lemma UniqueRateMeans(window: seq<Event>)
    ensures UniquePerSecond(UniqueRate(window), window)
  {
    FirstCapturesCount(window);
    hide FirstCaptures, Rate, Over, IsFirstNew, IsLastNew;
    forall i: nat, j: nat | IsFirstNew(window, i) && IsLastNew(window, j)
      ensures i < |window| && j < |window| && window[i].update.Some? && window[j].update.Some?
      ensures Over(UniqueRate(window), |NewPlaces(window)| - 1, window[i].update.value.captured, window[j].update.value.captured)
    {
      UniqueAt(window, i, j);
      NewAreShown(window, i, j);
    }
  }

  lemma NewAreShown(window: seq<Event>, i: nat, j: nat)
    requires IsFirstNew(window, i) && IsLastNew(window, j)
    ensures i < |window| && j < |window| && window[i].update.Some? && window[j].update.Some?
  {
  }

  lemma OverNothing(at: nat)
    ensures Over(0.0, 0, at, at)
  {
  }

  function Describe(window: seq<Event>, counts: Tally, captures: Totals, now: nat): Snapshot {
    var sendFps, updateFps := SendRate(window), RateOf(window, Update);
    Snapshot(
      captures.sequence, captures.gaps, captures.missing, captures.unique,
      counts.updates, counts.reuses, counts.segmentations, counts.repeats, counts.sends, counts.misses, counts.serialized,
      sendFps, updateFps, RateOf(window, Reuse), RateOf(window, CadenceHistory.Segmentation), RateOf(window, Exact),
      UniqueRate(window),
      if counts.sends == 0 then 0.0 else counts.reuses as real / counts.sends as real,
      if counts.sends == 0 then 0.0 else counts.repeats as real / (if counts.sends > 1 then counts.sends - 1 else 1) as real,
      if captures.ready.None? then None else Some(BoundedMs(now - captures.ready.value)),
      |window| >= 3 && sendFps > 0.0 && updateFps < sendFps * 0.9)
  }

  lemma DescribeRecounts(window: seq<Event>, h: seq<Event>, counts: Tally, captures: Totals, now: nat)
    requires Orderly(h) && Recount(h, counts, captures)
    ensures Recounts(Describe(window, counts, captures, now), h, now)
  {
    TalliedCounts(h);
    EachUpdatesOrReuses(h);
    if h != [] {
      MissingIsUnshown(h);
    }
  }

  lemma DescribeRatesRight(window: seq<Event>, counts: Tally, captures: Totals, now: nat)
    ensures RatesRight(Describe(window, counts, captures, now), window)
  {
    hide Rate, UniqueRate, UniquePerSecond, PerSecond, RateOf, SendRate, Places, Count, Spans, NewPlaces, FirstCaptures;
    RatesPartition(window);
    RatesAre(window, Update);
    RatesAre(window, Reuse);
    RatesAre(window, CadenceHistory.Segmentation);
    RatesAre(window, Exact);
    UniqueRateMeans(window);
  }

  lemma DescribeRatios(window: seq<Event>, counts: Tally, captures: Totals, now: nat)
    requires counts.sends == 0 ==> counts.reuses == counts.repeats == 0
    ensures RatiosRight(Describe(window, counts, captures, now))
  {
    hide UniqueRate, RateOf, SendRate, FirstCaptures;
    RatioOf(counts.reuses, counts.sends);
    RatioOf(counts.repeats, if counts.sends > 1 then counts.sends - 1 else 1);
  }

  lemma DescribeRates(window: seq<Event>, counts: Tally, captures: Totals, now: nat)
    requires counts.sends == 0 ==> counts.reuses == counts.repeats == 0
    ensures Rated(Describe(window, counts, captures, now), window)
  {
    hide UniqueRate, RateOf, SendRate, FirstCaptures, RatesRight, RatiosRight, Places, Count, Spans;
    DescribeRatesRight(window, counts, captures, now);
    DescribeRatios(window, counts, captures, now);
    MismatchMeans(window);
    if window != [] {
      CountPlaces(window, Update);
    }
  }

  lemma RatioOf(part: nat, whole: nat)
    ensures whole > 0 ==> (part as real / whole as real) * whole as real == part as real
  {
  }

  lemma DescribeShows(window: seq<Event>, h: seq<Event>, counts: Tally, captures: Totals, now: nat)
    requires Orderly(h) && Recount(h, counts, captures)
    ensures var v := Describe(window, counts, captures, now); Recounts(v, h, now) && Rated(v, window)
  {
    TalliedCounts(h);
    DescribeRecounts(window, h, counts, captures, now);
    DescribeRates(window, counts, captures, now);
  }

  /** The window begins at `start`: the events among the last 1024 that are at most two seconds old at `now`. */
  ghost predicate TwoSeconds(h: seq<Event>, start: nat, now: int) {
    start <= |h| && forall i | 0 <= i < |h| :: start <= i <==> |h| - i <= 1024 && now - h[i].sent <= 2_000_000_000
  }

  lemma PrunedNow(h: seq<Event>, start: nat, cutoffs: seq<int>, now: int)
    requires Windowed(h, start, cutoffs) && forall i | 0 <= i < |cutoffs| :: cutoffs[i] == now
    ensures TwoSeconds(h, start, now)
  {
    forall i | 0 <= i < |h|
      ensures start <= i <==> |h| - i <= 1024 && now - h[i].sent <= 2_000_000_000
    {
      assert start <= i <==> Kept(h, cutoffs, i);
    }
  }

  class Tracker {
    var events: seq<Event>
    var captures: Totals
    var counts: Tally
    var lastSent: Option<nat>

    /** Everything accepted; where the window starts in it; when it was pruned. */
    ghost var history: seq<Event>
    ghost var start: nat
    ghost var cutoffs: seq<int>
    ghost var latest: int

    ghost predicate Windows()
      reads this`events, this`history, this`start, this`cutoffs, this`latest
    {
      && Windowed(history, start, cutoffs) && events == history[start..]
      && forall i | 0 <= i < |cutoffs| :: cutoffs[i] <= latest
    }

    ghost predicate Valid()
      reads this
    {
      && Orderly(history) && Windows() && Recount(history, counts, captures)
      && lastSent == if history == [] then None else Some(history[|history| - 1].sent)
    }

    constructor ()
      ensures Valid() && history == [] && latest == 0
    {
      events, history, start, cutoffs, latest := [], [], 0, [], 0;
      captures := Totals(0, 0, 0, 0, None, None);
      counts := Tally(0, 0, 0, 0, 0, 0, 0);
      lastSent := None;
    }

    /** Events older than two seconds leave the front of the window. */
    method Prune(now: int)
      requires Orderly(history) && Windows()
      modifies this`events, this`start, this`cutoffs, this`latest
      ensures Windows()
      ensures cutoffs == Pruned(old(cutoffs), now) && latest == Later(old(latest), now)
    {
      var cutoff := now - Window;
      ghost var kept := start;
      while events != [] && events[0].sent < cutoff
        invariant start <= kept <= |history| && events == history[kept..]
        invariant forall i | start <= i < kept :: history[i].sent < cutoff
        decreases |events|
        modifies this`events
      {
        events := events[1..];
        kept := kept + 1;
      }
      forall i | kept <= i < |history|
        ensures history[i].sent >= cutoff
      {
        assert events[0] == history[kept];
        SentInOrder(history, kept, i);
      }
      PruneKeepsWindow(history, start, cutoffs, now, kept);
      start, cutoffs, latest := kept, Pruned(cutoffs, now), Later(latest, now);
    }

    /** Every reason for which a report is refused, tested against what the tracker remembers. */
    method Accepts(s: Submission) returns (ok: bool)
      requires Valid()
      ensures ok == Fits(history, s)
    {
      if s.sent < 0 || (s.segmentation && !s.base) || ((s.missed || s.serialized) && !s.base) {
        return false;
      }
      if s.sequence.Some? != s.captured.Some? || s.sequence.Some? != s.ready.Some? || s.sequence.Some? != s.base {
        return false;
      }
      if s.base && (s.sequence.value < 0 || s.captured.value < 0 || s.ready.value < 0
                    || s.captured.value > s.ready.value || s.ready.value > s.sent) {
        return false;
      }
      assert WellFormed(s);
      TalliedCounts(history);
      if counts.sends == 0 {
        return s.base && !s.exact;
      }
      FitsByLast(history, s);
      if s.sent < lastSent.value {
        return false;
      }
      if s.base {
        if s.sequence.value < captures.sequence
           || (s.sequence.value == captures.sequence && s.captured != captures.captured)
           || s.captured.value < captures.captured.value || s.ready.value < captures.ready.value {
          return false;
        }
      }
      ok := true;
    }

    /** The capture counters of an accepted send; tells whether its capture is new. */
    method CountCapture(s: Submission) returns (advanced: bool)
      requires WellFormed(s)
      modifies this`captures
      ensures advanced == Advances(old(captures), s) && captures == Moved(old(captures), s)
    {
      advanced := false;
      if s.base {
        advanced := captures.unique == 0 || s.sequence.value > captures.sequence;
        if advanced && captures.unique > 0 {
          var missing := s.sequence.value - captures.sequence - 1;
          if missing != 0 {
            captures := captures.(gaps := captures.gaps + 1, missing := captures.missing + missing);
          }
        }
        if advanced {
          captures := captures.(sequence := s.sequence.value, captured := Some(s.captured.value), unique := captures.unique + 1);
        }
        captures := captures.(ready := Some(s.ready.value));
      }
    }

    method CountEvent(s: Submission, ghost e: Event)
      requires WellFormed(s)
      requires e.update == IdentityOf(s)
      requires e.segmentation == s.segmentation && e.exact == s.exact && e.missed == s.missed && e.serialized == s.serialized
      modifies this`counts, this`lastSent
      ensures counts == WithOne(old(counts), e) && lastSent == Some(s.sent)
    {
      if s.base {
        counts := counts.(updates := counts.updates + 1);
        if s.segmentation {
          counts := counts.(segmentations := counts.segmentations + 1);
        }
      } else {
        counts := counts.(reuses := counts.reuses + 1);
      }
      if s.exact {
        counts := counts.(repeats := counts.repeats + 1);
      }
      if s.missed {
        counts := counts.(misses := counts.misses + 1);
      }
      if s.serialized {
        counts := counts.(serialized := counts.serialized + 1);
      }
      counts := counts.(sends := counts.sends + 1);
      lastSent := Some(s.sent);
    }

    /** The window's new end; a full window drops its first event. */
    method Append(e: Event)
      requires Windows()
      modifies this`events, this`history, this`start, this`cutoffs, this`latest
      ensures history == old(history) + [e] && cutoffs == old(cutoffs) + [e.sent] && latest == Later(old(latest), e.sent)
      ensures Windows()
    {
      AppendKeepsWindow(history, start, cutoffs, e);
      var full := |events| == Limit;
      start := if full then start + 1 else start;
      events := (if full then events[1..] else events) + [e];
      history, cutoffs, latest := history + [e], cutoffs + [e.sent], Later(latest, e.sent);
    }

    /** Appends and prunes at the send's own time. */
    method Retain(e: Event)
      requires Orderly(history) && Next(history, e) && Windows()
      modifies this`events, this`history, this`start, this`cutoffs, this`latest
      ensures Windows() && Orderly(history)
      ensures history == old(history) + [e] && cutoffs == Pruned(old(cutoffs) + [e.sent], e.sent)
      ensures latest == Later(old(latest), e.sent)
      ensures old(latest) <= e.sent ==> events == Recent(history, e.sent)
      ensures old(latest) <= e.sent ==> TwoSeconds(history, start, e.sent) && events == history[start..]
    {
      OneMore(history, e);
      Append(e);
      Refresh(e.sent);
    }

    /** All lifetime counters of a send that is accepted. */
    method CountSend(s: Submission) returns (e: Event)
      requires WellFormed(s)
      modifies this`captures, this`counts, this`lastSent
      ensures e == Event(s.sent, IdentityOf(s), Advances(old(captures), s), s.segmentation, s.exact, s.missed, s.serialized)
      ensures counts == WithOne(old(counts), e) && captures == Moved(old(captures), s) && lastSent == Some(s.sent)
    {
      var advanced := CountCapture(s);
      var update := if s.base then Some(Identity(s.sequence.value, s.captured.value, s.ready.value)) else None;
      e := Event(s.sent, update, advanced, s.segmentation, s.exact, s.missed, s.serialized);
      CountEvent(s, e);
    }

    /** A report is accepted exactly if it fits the whole history; a refused one changes nothing. */
    method RecordSend(s: Submission) returns (accepted: bool)
      requires Valid()
      modifies this
      ensures Valid()
      ensures accepted == Fits(old(history), s)
      ensures !accepted ==> unchanged(this)
      ensures accepted ==> history == old(history) + [Recorded(old(history), s)]
      ensures accepted ==> cutoffs == Pruned(old(cutoffs) + [s.sent], s.sent) && latest == Later(old(latest), s.sent)
      ensures accepted && old(latest) <= s.sent ==> events == Recent(history, s.sent)
      ensures accepted && old(latest) <= s.sent ==> TwoSeconds(history, start, s.sent) && events == history[start..]
    {
      hide Recent, WithOne, Moved, Sequences;
      accepted := Accepts(s);
      if accepted {
        CountersFollow(history, s, counts, captures);
        var e := CountSend(s);
        Retain(e);
      }
    }

    /** The counters and the window's rates at `now`, or nothing for a negative time. */
    method Look(now: int) returns (view: Option<Snapshot>)
      requires Valid()
      modifies this`events, this`start, this`cutoffs, this`latest
      ensures Valid()
      ensures view.Some? <==> now >= 0
      ensures view.None? ==> unchanged(this)
      ensures view.Some? ==> cutoffs == Pruned(old(cutoffs), now) && latest == Later(old(latest), now)
      ensures view.Some? && old(latest) <= now ==> events == Recent(history, now)
      ensures view.Some? && old(latest) <= now ==> TwoSeconds(history, start, now) && events == history[start..]
      ensures view.Some? ==> Recounts(view.value, history, now) && Rated(view.value, events)
    {
      if now < 0 {
        return None;
      }
      Refresh(now);
      view := Some(Describe(events, counts, captures, now));
      DescribeShows(events, history, counts, captures, now);
    }

    method Refresh(now: nat)
      requires Orderly(history) && Windows()
      modifies this`events, this`start, this`cutoffs, this`latest
      ensures Windows() && cutoffs == Pruned(old(cutoffs), now) && latest == Later(old(latest), now)
      ensures old(latest) <= now ==> events == Recent(history, now)
      ensures old(latest) <= now ==> TwoSeconds(history, start, now) && events == history[start..]
    {
      Prune(now);
      if old(latest) <= now {
        WindowIsRecent(history, start, cutoffs, now);
        PrunedNow(history, start, cutoffs, now);
      }
    }
  }
}
