/**
 * What the cadence tracker's counters and window mean, as functions of the full history of accepted
 * sends. The tracker itself, which never keeps that history, is in `Cadence`.
 */
module CadenceHistory {
  import opened Options
  import Capture

  const Window: int := 2_000_000_000
  const Limit: nat := 1024

  /** The capture a base update shows: its sequence, when it was captured, when its base was ready. */
  datatype Identity = Identity(sequence: nat, captured: nat, ready: nat)

  /** One accepted send; `advanced` says that its capture was not shown before. */
  datatype Event = Event(
    sent: nat, update: Option<Identity>, advanced: bool, segmentation: bool, exact: bool, missed: bool, serialized: bool)

  /** One send as reported: every number may be negative, every combination is possible. */
  datatype Submission = Submission(
    sent: int, base: bool, segmentation: bool, exact: bool,
    sequence: Option<int>, captured: Option<int>, ready: Option<int>, missed: bool, serialized: bool)

  datatype Aspect = Update | Reuse | Advance | Segmentation | Exact | Missed | Serialized

  predicate Has(e: Event, a: Aspect) {
    match a
    case Update => e.update.Some?
    case Reuse => e.update.None?
    case Advance => e.advanced
    case Segmentation => e.segmentation
    case Exact => e.exact
    case Missed => e.missed
    case Serialized => e.serialized
  }

  function Count(h: seq<Event>, a: Aspect): nat {
    if h == [] then 0 else Count(h[..|h| - 1], a) + (if Has(h[|h| - 1], a) then 1 else 0)
  }

  lemma {:induction false} EachUpdatesOrReuses(h: seq<Event>)
    ensures Count(h, Update) + Count(h, Reuse) == |h|
  {
    if h != [] {
      EachUpdatesOrReuses(h[..|h| - 1]);
    }
  }

  /** The plain lifetime counters. */
  datatype Tally = Tally(
    sends: nat, updates: nat, reuses: nat, segmentations: nat, repeats: nat, misses: nat, serialized: nat)

  function One(b: bool): nat {
    if b then 1 else 0
  }

  function Tallied(h: seq<Event>): Tally {
    if h == [] then Tally(0, 0, 0, 0, 0, 0, 0) else WithOne(Tallied(h[..|h| - 1]), h[|h| - 1])
  }

  function WithOne(t: Tally, e: Event): Tally {
    Tally(t.sends + 1, t.updates + One(e.update.Some?), t.reuses + One(e.update.None?),
          t.segmentations + One(e.segmentation), t.repeats + One(e.exact), t.misses + One(e.missed),
          t.serialized + One(e.serialized))
  }

  lemma TalliedOne(h: seq<Event>, e: Event)
    ensures Tallied(h + [e]) == WithOne(Tallied(h), e)
  {
    assert (h + [e])[..|h|] == h;
  }

  lemma {:induction false} TalliedCounts(h: seq<Event>)
    ensures Tallied(h) == Tally(|h|, Count(h, Update), Count(h, Reuse), Count(h, Segmentation), Count(h, Exact),
                                Count(h, Missed), Count(h, Serialized))
  {
    if h != [] {
      TalliedCounts(h[..|h| - 1]);
    }
  }

  /** The capture sequences ever shown. */
  function Sequences(h: seq<Event>): set<nat> {
    set e | e in h && e.update.Some? :: e.update.value.sequence
  }

  /** Shown captures whose immediate predecessor was never shown, other than the first. */
  function GapEnds(shown: set<nat>, first: nat): set<nat> {
    set q | q in shown && EndsGap(shown, first, q)
  }

  predicate EndsGap(shown: set<nat>, first: nat, q: nat) {
    q > first && q - 1 !in shown
  }

  function LastUpdate(h: seq<Event>): (u: Option<Identity>)
    ensures u.Some? ==> exists e :: e in h && e.update == u
    ensures u.None? ==> forall e | e in h :: e.update.None?
  {
    if h == [] then None
    else if h[|h| - 1].update.Some? then h[|h| - 1].update
    else LastUpdate(h[..|h| - 1])
  }

  lemma LastUpdateOf(h: seq<Event>, e: Event)
    ensures LastUpdate(h + [e]) == if e.update.Some? then e.update else LastUpdate(h)
  {
    assert (h + [e])[..|h|] == h;
  }

  // ---------------------------------------------------------------- what is accepted

  /** The report is consistent in itself. */
  predicate WellFormed(s: Submission) {
    && s.sent >= 0
    && (s.segmentation || s.missed || s.serialized ==> s.base)
    && s.base == s.sequence.Some? == s.captured.Some? == s.ready.Some?
    && (s.base ==> 0 <= s.sequence.value && 0 <= s.captured.value <= s.ready.value <= s.sent)
  }

  /** A later update shows the same capture or a newer one, and no clock runs backwards. */
  predicate Follows(u: Identity, v: Identity) {
    && u.sequence <= v.sequence && u.captured <= v.captured && u.ready <= v.ready
    && (u.sequence == v.sequence ==> u.captured == v.captured)
  }

  function IdentityOf(s: Submission): Option<Identity>
    requires WellFormed(s)
  {
    if s.base then Some(Identity(s.sequence.value, s.captured.value, s.ready.value)) else None
  }

  function Recorded(h: seq<Event>, s: Submission): Event
    requires WellFormed(s)
  {
    Event(s.sent, IdentityOf(s), s.base && s.sequence.value !in Sequences(h), s.segmentation, s.exact, s.missed, s.serialized)
  }

  /** The least report there is, and what makes it unacceptable. */
  lemma EdgeReports()
    ensures var least := Submission(0, true, false, false, Some(0), Some(0), Some(0), false, false);
      && WellFormed(least) && WellFormed(least.(segmentation := true, missed := true, serialized := true))
      && !WellFormed(least.(sent := -1)) && !WellFormed(least.(sequence := Some(-1))) && !WellFormed(least.(captured := Some(-1)))
      && !WellFormed(least.(sent := 2, captured := Some(2), ready := Some(1))) && !WellFormed(least.(sent := 1, ready := Some(2)))
      && !WellFormed(least.(base := false)) && !WellFormed(least.(sequence := None)) && !WellFormed(least.(captured := None))
      && !WellFormed(least.(ready := None))
      && var reuse := least.(base := false, sequence := None, captured := None, ready := None);
         && WellFormed(reuse) && !WellFormed(reuse.(segmentation := true)) && !WellFormed(reuse.(missed := true))
         && !WellFormed(reuse.(serialized := true))
  {
  }

  /** The event is consistent with every earlier one, and opens a history only as an update. */
  predicate Next(h: seq<Event>, e: Event) {
    && (forall d | d in h :: d.sent <= e.sent)
    && (e.update.Some? ==> forall d | d in h && d.update.Some? :: Follows(d.update.value, e.update.value))
    && (h == [] ==> e.update.Some? && !e.exact)
  }

  /** What is accepted after the history `h`. */
  predicate Fits(h: seq<Event>, s: Submission) {
    WellFormed(s) && Next(h, Recorded(h, s))
  }

  predicate Orderly(h: seq<Event>) {
    h != [] ==> Orderly(h[..|h| - 1]) && Next(h[..|h| - 1], h[|h| - 1])
  }

  lemma OneMore(h: seq<Event>, e: Event)
    requires Orderly(h) && Next(h, e)
    ensures Orderly(h + [e])
  {
    assert (h + [e])[..|h|] == h;
  }

  lemma {:induction false} FirstUpdates(h: seq<Event>)
    requires Orderly(h) && h != []
    ensures h[0].update.Some? && h[0].update.value.sequence in Sequences(h)
  {
    if |h| > 1 {
      FirstUpdates(h[..|h| - 1]);
    }
    assert h[0] in h;
  }

  lemma {:induction false} SentInOrder(h: seq<Event>, i: nat, j: nat)
    requires Orderly(h) && i <= j < |h|
    ensures h[i].sent <= h[j].sent
    decreases |h|
  {
    if j < |h| - 1 {
      SentInOrder(h[..|h| - 1], i, j);
    } else if i < j {
      assert h[i] in h[..|h| - 1];
    }
  }

  /** In an orderly history the last update is the newest. */
  lemma {:induction false} LastIsNewest(h: seq<Event>)
    requires Orderly(h) && h != []
    ensures LastUpdate(h).Some?
    ensures forall e | e in h && e.update.Some? :: Follows(e.update.value, LastUpdate(h).value)
    decreases |h|
  {
    var before, last := h[..|h| - 1], h[|h| - 1];
    assert h == before + [last];
    if last.update.None? {
      LastIsNewest(before);
    }
  }

  lemma {:induction false} FirstIsOldest(h: seq<Event>)
    requires Orderly(h) && h != []
    ensures h[0].update.Some?
    ensures forall e | e in h && e.update.Some? :: h[0].update.value.sequence <= e.update.value.sequence
    decreases |h|
  {
    var before, last := h[..|h| - 1], h[|h| - 1];
    assert h == before + [last];
    if before != [] {
      FirstIsOldest(before);
      assert before[0] in before;
    }
  }

  /** The shown sequences run from the first update's to the last's, both included. */
  lemma ShownRange(h: seq<Event>)
    requires Orderly(h) && h != []
    ensures h[0].update.Some? && LastUpdate(h).Some?
    ensures h[0].update.value.sequence in Sequences(h) && LastUpdate(h).value.sequence in Sequences(h)
    ensures forall q | q in Sequences(h) :: h[0].update.value.sequence <= q <= LastUpdate(h).value.sequence
  {
    FirstUpdates(h);
    LastIsNewest(h);
    FirstIsOldest(h);
  }

  // ---------------------------------------------------------------- missing inputs

  /** Captures between the first and the last shown that were never shown. */
  function Missing(h: seq<Event>): int
    requires h != [] && h[0].update.Some? && LastUpdate(h).Some?
  {
    LastUpdate(h).value.sequence - h[0].update.value.sequence + 1 - |Sequences(h)|
  }

  function Numbers(low: nat, high: nat): (s: set<nat>)
    requires low <= high
    ensures forall q :: q in s <==> low <= q < high
    ensures |s| == high - low
  {
    if low == high then {} else Numbers(low, high - 1) + {high - 1}
  }

  lemma PartCount(part: set<nat>, all: set<nat>)
    requires part <= all
    ensures |all| - |part| == |all - part|
  {
    assert all == (all - part) + part;
  }

  /** Missing counts exactly the numbers in the shown range that are not shown. */
  lemma MissingIsUnshown(h: seq<Event>)
    requires Orderly(h) && h != []
    ensures h[0].update.Some? && LastUpdate(h).Some?
    ensures var first, last := h[0].update.value.sequence, LastUpdate(h).value.sequence;
      first <= last && Missing(h) == |Numbers(first, last + 1) - Sequences(h)|
  {
    hide Sequences, Orderly;
    ShownRange(h);
    PartCount(Sequences(h), Numbers(h[0].update.value.sequence, LastUpdate(h).value.sequence + 1));
  }

  function Firsts(ds: seq<Capture.Delivery>): set<nat> {
    set d | d in ds :: d.sequence
  }

  lemma {:induction false} FirstsCount(ds: seq<Capture.Delivery>)
    requires forall i, j | 0 <= i < j < |ds| :: ds[i].sequence < ds[j].sequence
    ensures |Firsts(ds)| == |ds|
    decreases |ds|
  {
    if ds != [] {
      var n := |ds| - 1;
      FirstsCount(ds[..n]);
      FirstsGrow(ds[..n], ds[n]);
      assert ds[..n] + [ds[n]] == ds;
      assert forall d | d in ds[..n] :: d.sequence < ds[n].sequence;
    }
  }

  lemma FirstsGrow(ds: seq<Capture.Delivery>, d: Capture.Delivery)
    ensures Firsts(ds + [d]) == Firsts(ds) + {d.sequence}
  {
    assert forall x :: x in ds + [d] <==> x in ds || x == d;
  }

  /**
   * Camera and tracker agree: if exactly the frames the capture handed out were shown, the missing
   * count is the number of frames dropped up to the last delivery less those dropped before the first.
   */
  lemma MissingIsDropped(c: Capture.Config, events: seq<Capture.Event>, h: seq<Event>)
    requires Orderly(h) && h != []
    requires var ds := Capture.Deliveries(c, Capture.Init(), events); Sequences(h) == Firsts(ds)
    ensures h[0].update.Some? && LastUpdate(h).Some?
    ensures var ds := Capture.Deliveries(c, Capture.Init(), events);
      ds != [] && Missing(h) == ds[|ds| - 1].dropped - ds[0].dropped
  {
    var ds := Capture.Deliveries(c, Capture.Init(), events);
    Capture.DeliveriesAreNewest(c, Capture.Init(), events);
    FirstsCount(ds);
    ShownRange(h);
    EndsOf(ds, h[0].update.value.sequence, LastUpdate(h).value.sequence);
    assert Capture.Newest(ds[0], 0) && Capture.Newest(ds[|ds| - 1], |ds| - 1);
  }

  lemma EndsOf(ds: seq<Capture.Delivery>, first: nat, last: nat)
    requires forall i, j | 0 <= i < j < |ds| :: ds[i].sequence < ds[j].sequence
    requires first in Firsts(ds) && last in Firsts(ds)
    requires forall q | q in Firsts(ds) :: first <= q <= last
    ensures ds != [] && first == ds[0].sequence && last == ds[|ds| - 1].sequence
  {
    assert ds[0] in ds && ds[|ds| - 1] in ds;
    assert ds[0].sequence in Firsts(ds) && ds[|ds| - 1].sequence in Firsts(ds);
    var i :| 0 <= i < |ds| && ds[i].sequence == first;
    var j :| 0 <= j < |ds| && ds[j].sequence == last;
  }

  // ---------------------------------------------------------------- the window

  /** The last at most 1024 events, of those the ones no older than two seconds at `now`. */
  function Recent(h: seq<Event>, now: int): seq<Event> {
    NoOlder(if |h| > Limit then h[|h| - Limit..] else h, now - Window)
  }

  function NoOlder(h: seq<Event>, cutoff: int): seq<Event> {
    if h == [] then []
    else (if h[0].sent >= cutoff then [h[0]] else []) + NoOlder(h[1..], cutoff)
  }

  /** In sending order the young events are a suffix. */
  lemma {:induction false} YoungSuffix(h: seq<Event>, from: nat, cutoff: int)
    requires from <= |h|
    requires forall i | 0 <= i < |h| :: h[i].sent >= cutoff <==> i >= from
    ensures NoOlder(h, cutoff) == h[from..]
    decreases |h|
  {
    if h != [] {
      YoungSuffix(h[1..], if from == 0 then 0 else from - 1, cutoff);
      if from > 0 {
        assert h[1..][from - 1..] == h[from..];
      } else {
        assert [h[0]] + h[1..] == h;
        assert h[1..][0..] == h[1..];
      }
    }
  }

  function Later(a: int, b: int): int {
    if a < b then b else a
  }

  /** `cutoffs[i]` is the latest time at which the window was pruned since event i was recorded. */
  function Pruned(cutoffs: seq<int>, now: int): seq<int> {
    seq(|cutoffs|, i requires 0 <= i < |cutoffs| => Later(cutoffs[i], now))
  }

  /**
   * The window is the suffix that starts at `start`: exactly the events that are among the last
   * 1024 and were never older than two seconds when the window was pruned.
   */
  predicate Windowed(h: seq<Event>, start: nat, cutoffs: seq<int>) {
    && start <= |h| == |cutoffs|
    && forall i | 0 <= i < |h| :: i >= start <==> Kept(h, cutoffs, i)
  }

  predicate Kept(h: seq<Event>, cutoffs: seq<int>, i: nat)
    requires i < |h| == |cutoffs|
  {
    |h| - i <= Limit && h[i].sent >= cutoffs[i] - Window
  }

  lemma AppendKeepsWindow(h: seq<Event>, start: nat, cutoffs: seq<int>, e: Event)
    requires Windowed(h, start, cutoffs)
    ensures |h| - start <= Limit
    ensures Windowed(h + [e], if |h| - start == Limit then start + 1 else start, cutoffs + [e.sent])
  {
    assert start < |h| ==> Kept(h, cutoffs, start);
    var g, later := h + [e], cutoffs + [e.sent];
    assert forall i | 0 <= i < |h| :: Kept(g, later, i) == (Kept(h, cutoffs, i) && |h| - i < Limit);
    assert Kept(g, later, |h|);
  }

  lemma PruneKeepsWindow(h: seq<Event>, start: nat, cutoffs: seq<int>, now: int, later: nat)
    requires Windowed(h, start, cutoffs) && start <= later <= |h|
    requires forall i | start <= i < |h| :: i >= later <==> h[i].sent >= now - Window
    ensures Windowed(h, later, Pruned(cutoffs, now))
  {
    assert forall i | 0 <= i < |h| ::
        Kept(h, Pruned(cutoffs, now), i) == (Kept(h, cutoffs, i) && h[i].sent >= now - Window);
  }

  /** As long as nothing was pruned at a later time, the window is recomputed from the full history. */
  lemma WindowIsRecent(h: seq<Event>, start: nat, cutoffs: seq<int>, now: int)
    requires Windowed(h, start, cutoffs)
    requires forall i | 0 <= i < |h| :: cutoffs[i] == now
    ensures h[start..] == Recent(h, now)
  {
    var skipped := if |h| > Limit then |h| - Limit else 0;
    assert start < skipped ==> !Kept(h, cutoffs, start);
    forall i | skipped <= i < |h|
      ensures i >= start <==> h[i].sent >= now - Window
    {
      assert Kept(h, cutoffs, i) == (h[i].sent >= now - Window);
    }
    TailIsRecent(h, skipped, start, now - Window);
    assert skipped == 0 ==> h[skipped..] == h;
  }

  /** Pruned for a later time before, the window lacks an event that is not two seconds old. */
  lemma EarlyPruneForgets(e: Event)
    requires e.sent == 0
    ensures Windowed([e], 1, [Window + 1]) && [e][1..] != Recent([e], Window)
  {
    assert !Kept([e], [Window + 1], 0);
    assert NoOlder([e][1..], 0) == [];
  }

  lemma TailIsRecent(h: seq<Event>, skipped: nat, start: nat, cutoff: int)
    requires skipped <= start <= |h|
    requires forall i | skipped <= i < |h| :: i >= start <==> h[i].sent >= cutoff
    ensures h[start..] == NoOlder(h[skipped..], cutoff)
  {
    var tail := h[skipped..];
    YoungSuffix(tail, start - skipped, cutoff);
    assert tail[start - skipped..] == h[start..];
  }

  // ---------------------------------------------------------------- one more event

  lemma SequencesGrow(h: seq<Event>, e: Event)
    ensures Sequences(h + [e]) == Sequences(h) + (if e.update.Some? then {e.update.value.sequence} else {})
  {
    var g := h + [e];
    assert forall d :: d in g <==> d in h || d == e;
  }

  lemma GapsMove(shown: set<nat>, first: nat, last: nat, q: nat)
    requires first <= last < q && last in shown && (forall p | p in shown :: p <= last)
    ensures |GapEnds(shown + {q}, first)| == |GapEnds(shown, first)| + (if q - last > 1 then 1 else 0)
  {
    assert forall p | p in shown :: EndsGap(shown + {q}, first, p) == EndsGap(shown, first, p);
    assert EndsGap(shown + {q}, first, q) == (q - 1 != last);
    assert GapEnds(shown + {q}, first) == GapEnds(shown, first) + (if q - last > 1 then {q} else {});
  }

  lemma LastFits(h: seq<Event>, e: Event)
    requires Next(h, e) && LastUpdate(h).Some? && e.update.Some?
    ensures Follows(LastUpdate(h).value, e.update.value)
  {
  }

  /** How one accepted event moves the capture counters. */
  lemma CountersMove(h: seq<Event>, s: Submission)
    requires Orderly(h) && Fits(h, s) && h != []
    ensures h[0].update.Some? && LastUpdate(h).Some?
    ensures var e := Recorded(h, s);
      var g := h + [e];
      var last := LastUpdate(h).value.sequence;
      var first := h[0].update.value.sequence;
      var jump := if e.advanced then s.sequence.value - last else 1;
      && LastUpdate(g) == (if s.base then e.update else LastUpdate(h))
      && e.advanced == (s.base && s.sequence.value > last)
      && |Sequences(g)| == |Sequences(h)| + (if e.advanced then 1 else 0)
      && Missing(g) == Missing(h) + jump - 1
      && |GapEnds(Sequences(g), first)| == |GapEnds(Sequences(h), first)| + (if jump > 1 then 1 else 0)
  {
    var e := Recorded(h, s);
    ShownRange(h);
    SequencesGrow(h, e);
    LastUpdateOf(h, e);
    var first, last := h[0].update.value.sequence, LastUpdate(h).value.sequence;
    if s.base {
      LastFits(h, e);
    }
    if e.advanced {
      GapsMove(Sequences(h), first, last, e.update.value.sequence);
    } else {
      assert Sequences(h + [e]) == Sequences(h);
    }
  }

  /** Only the last send and the last update matter for what fits. */
  lemma FitsByLast(h: seq<Event>, s: Submission)
    requires Orderly(h) && h != [] && WellFormed(s)
    ensures LastUpdate(h).Some?
    ensures Fits(h, s) <==>
            h[|h| - 1].sent <= s.sent && (s.base ==> Follows(LastUpdate(h).value, IdentityOf(s).value))
  {
    LastIsNewest(h);
    var e := Recorded(h, s);
    if h[|h| - 1].sent <= s.sent {
      forall d | d in h
        ensures d.sent <= s.sent
      {
        var i :| 0 <= i < |h| && h[i] == d;
        SentInOrder(h, i, |h| - 1);
      }
    } else {
      assert h[|h| - 1] in h;
    }
    if Fits(h, s) && s.base {
      LastFits(h, e);
    }
  }

  /** The first accepted send shows a first capture and misses nothing. */
  lemma FirstCounts(s: Submission)
    requires Fits([], s)
    ensures var e := Recorded([], s);
      && e.update.Some? && e.advanced && LastUpdate([e]) == e.update
      && |Sequences([e])| == 1 && Missing([e]) == 0
      && GapEnds(Sequences([e]), e.update.value.sequence) == {}
  {
    var e := Recorded([], s);
    SequencesGrow([], e);
    assert [] + [e] == [e];
    assert Sequences([e]) == {e.update.value.sequence};
  }

  /** The capture counters. */
  datatype Totals = Totals(
    sequence: nat, gaps: nat, missing: int, unique: nat, captured: Option<nat>, ready: Option<nat>)

  predicate Anchored(h: seq<Event>) {
    h != [] ==> h[0].update.Some? && LastUpdate(h).Some?
  }

  /** The capture counters recomputed from the full history. */
  function TotalsOf(h: seq<Event>): Totals
    requires Anchored(h)
  {
    if h == [] then Totals(0, 0, 0, 0, None, None)
    else
      var u := LastUpdate(h).value;
      Totals(u.sequence, |GapEnds(Sequences(h), h[0].update.value.sequence)|, Missing(h), |Sequences(h)|,
             Some(u.captured), Some(u.ready))
  }

  predicate Advances(t: Totals, s: Submission)
    requires WellFormed(s)
  {
    s.base && (t.unique == 0 || s.sequence.value > t.sequence)
  }

  /** The capture counters after one accepted send. */
  function Moved(t: Totals, s: Submission): Totals
    requires WellFormed(s)
  {
    var ready := if s.base then Some(s.ready.value as nat) else t.ready;
    if !Advances(t, s) then t.(ready := ready)
    else
      var missing := if t.unique == 0 then 0 else s.sequence.value - t.sequence - 1;
      Totals(s.sequence.value, if missing > 0 then t.gaps + 1 else t.gaps, t.missing + missing, t.unique + 1,
             Some(s.captured.value), ready)
  }

  lemma TotalsMove(h: seq<Event>, s: Submission)
    requires Orderly(h) && Fits(h, s)
    ensures Anchored(h) && Anchored(h + [Recorded(h, s)])
    ensures Recorded(h, s).advanced == Advances(TotalsOf(h), s)
    ensures TotalsOf(h + [Recorded(h, s)]) == Moved(TotalsOf(h), s)
  {
    if h == [] {
      FirstCounts(s);
      assert h + [Recorded(h, s)] == [Recorded(h, s)];
    } else {
      ShownRange(h);
      CountersMove(h, s);
      LastFitsSame(h, s);
    }
  }

  /** A repeated capture keeps its capture time. */
  lemma LastFitsSame(h: seq<Event>, s: Submission)
    requires Orderly(h) && h != [] && Fits(h, s)
    ensures LastUpdate(h).Some?
    ensures s.base && s.sequence.value == LastUpdate(h).value.sequence ==> s.captured.value == LastUpdate(h).value.captured
  {
    LastIsNewest(h);
    if s.base {
      LastFits(h, Recorded(h, s));
    }
  }

  /** The counters are those of the full history. */
  predicate Recount(h: seq<Event>, tally: Tally, totals: Totals) {
    tally == Tallied(h) && Anchored(h) && totals == TotalsOf(h)
  }

  lemma CountersFollow(h: seq<Event>, s: Submission, tally: Tally, totals: Totals)
    requires Orderly(h) && Fits(h, s) && Recount(h, tally, totals)
    ensures Recorded(h, s).advanced == Advances(totals, s)
    ensures Recount(h + [Recorded(h, s)], WithOne(tally, Recorded(h, s)), Moved(totals, s))
  {
    TotalsMove(h, s);
    TalliedOne(h, Recorded(h, s));
  }
}
