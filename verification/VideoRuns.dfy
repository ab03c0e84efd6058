/**
 * Playback on the claimed frame rate: whole playbacks while container timing is off, and a decoder
 * that reports the same time for every frame, which leaves it off for good.
 */
module VideoRuns {
  import opened Options
  import opened VideoSchedule

  // ---------------------------------------------------------------- the same time for every frame

  ghost predicate Constant(f: Film, c: real) {
    c >= 0.0 && forall q, i :: f.stampOf(q, i) == Some(c)
  }

  predicate Flat(clock: Timing, f: Film, c: real) {
    && Nominal(clock, f.fps)
    && clock.origin == Some(Mark(c, 0)) && clock.last.Some? && clock.last.value.time == c && clock.last.value.index < f.n
  }

  /** Which frame the last reliable mark is at, and the duration believed in. */
  datatype Belief = Belief(mark: nat, duration: real)

  function BeliefOf(clock: Timing): Belief {
    Belief(if clock.last.Some? then clock.last.value.index else 0, clock.duration)
  }

  /** After looking ahead from frame `logical`: at the end of the file the mark shortens it. */
  function Ahead(b: Belief, logical: nat, f: Film): Belief
    requires f.n > 0 && b.mark < f.n
  {
    if !AtEnd(logical, f.n) then b
    else if f.n == 1 then b.(duration := f.n as real / f.fps)
    else Belief(0, (f.n - b.mark) as real / f.fps)
  }

  lemma FlatInside(f: Film, c: real, clock: Timing, i: nat)
    requires i + 1 < f.n && Flat(clock, f, c)
    ensures var u := Learned(clock, f.n, i, Some(c), i + 1).0;
      Flat(u, f, c) && BeliefOf(u) == BeliefOf(clock)
  {
  }

  /** At the end of the file the last mark and the step tell its length. */
  lemma LearnedFlat(clock: Timing, n: nat, c: real, mark: nat)
    requires clock.origin == Some(Mark(c, 0)) && clock.last == Some(Mark(c, mark)) && mark < n && clock.step > 0.0
    requires clock.step * (n - mark) as real > 0.0
    ensures Learned(clock, n, n - 1, Some(c), 0).0 ==
            clock.(last := Some(Mark(c, 0)), duration := if n == 1 then clock.duration else clock.step * (n - mark) as real)
  {
  }

  lemma TailStep(k: nat, fps: Rate)
    requires k > 0
    ensures 1.0 / fps > 0.0 && (1.0 / fps) * k as real == k as real / fps > 0.0
  {
    RatioPositive(1, fps);
    RatioPositive(k, fps);
    StepTimes(k, fps);
  }

  lemma FlatAtEnd(f: Film, c: real, clock: Timing)
    requires f.n > 0 && Flat(clock, f, c)
    ensures var u := Learned(clock.(duration := f.n as real / f.fps), f.n, f.n - 1, Some(c), 0).0;
      Flat(u, f, c) && BeliefOf(u) == Ahead(BeliefOf(clock), f.n - 1, f)
  {
    hide Learned;
    var mark, d := clock.last.value.index, f.n as real / f.fps;
    TailStep(f.n, f.fps);
    TailStep(f.n - mark, f.fps);
    LearnedFlat(clock.(duration := d), f.n, c, mark);
  }

  lemma FlatPrefetched(f: Film, c: real, logical: nat, deadline: real, clock: Timing, queries: nat)
    requires f.n > 0 && Constant(f, c) && Flat(clock, f, c)
    ensures var w := Prefetched(f, logical, deadline, clock, queries);
      && w.logical == logical && Flat(w.clock, f, c) && BeliefOf(w.clock) == Ahead(BeliefOf(clock), logical, f)
  {
    hide Learned, Flat;
    NextIndex(logical, f.n);
    assert StampAt(f, queries, (logical + 1) % f.n) == Some(c);
    if AtEnd(logical, f.n) {
      FlatAtEnd(f, c, clock);
    } else {
      FlatInside(f, c, clock, logical % f.n);
    }
  }

  /** What one call does to the shown frame and the belief: landing on a frame out of turn marks it. */
  function FlatNext(f: Film, logical: nat, b: Belief, elapsed: real): (int, Belief)
    requires f.n > 0 && b.mark < f.n
  {
    var due := Due(elapsed, f.fps);
    if due <= logical then (logical, b)
    else if due == logical + 1 then (due, Ahead(b, due, f))
    else
      var shown := if due - logical > MAX_SEQUENTIAL_SKIP then SeekIndex(elapsed, b.duration, f.n, f.fps) else due;
      (shown, Ahead(b.(mark := shown % f.n), shown, f))
  }

  lemma FlatCall(f: Film, c: real, v: View, elapsed: real)
    requires f.n > 0 && Constant(f, c) && Flat(v.clock, f, c)
    ensures var w := Next(f, v, elapsed);
      Flat(w.clock, f, c) && (w.logical, BeliefOf(w.clock)) == FlatNext(f, v.logical, BeliefOf(v.clock), elapsed)
  {
    hide Learned, Prefetched;
    DeadlineIsDue(elapsed, v.logical + 1, f.fps);
    if NextDeadline(f, v) <= elapsed {
      NominalStale(v.logical, elapsed, v.clock, f.fps);
      var due := Due(elapsed, f.fps);
      if due - v.logical > MAX_SEQUENTIAL_SKIP {
        var (i, q) := Landing(f, v, elapsed);
        var shown := SeekIndex(elapsed, v.clock.duration, f.n, f.fps);
        DivModUnique(shown, f.n, Loops(elapsed, v.clock.duration), i);
        FlatPrefetched(f, c, shown, elapsed, Marked(v.clock, StampAt(f, q, i), i), q + 1);
      } else if due - v.logical > 1 {
        FlatPrefetched(f, c, due, due as real / f.fps,
                       Marked(v.clock, StampAt(f, v.queries, due % f.n), due % f.n), v.queries + 1);
      } else {
        FlatPromoted(f, c, v, elapsed);
      }
    }
  }

  lemma FlatPromoted(f: Film, c: real, v: View, elapsed: real)
    requires f.n > 0 && Constant(f, c) && Flat(v.clock, f, c)
    requires Due(elapsed, f.fps) == v.logical + 1 && NextDeadline(f, v) <= elapsed
    ensures var w := PromotedWhileDue(f, v, elapsed, MAX_SEQUENTIAL_SKIP);
      && Flat(w.clock, f, c) && elapsed < NextDeadline(f, w)
      && w.logical == v.logical + 1 && BeliefOf(w.clock) == Ahead(BeliefOf(v.clock), v.logical + 1, f)
  {
    hide Learned, Prefetched;
    var p := Promoted(f, v);
    FlatPrefetched(f, c, v.logical + 1, NextDeadline(f, v), v.clock, v.queries);
    DeadlineIsDue(elapsed, v.logical + 2, f.fps);
    assert PromotedWhileDue(f, v, elapsed, MAX_SEQUENTIAL_SKIP) == PromotedWhileDue(f, p, elapsed, MAX_SEQUENTIAL_SKIP - 1);
  }

  lemma FlatFirst(f: Film, c: real, clock: Timing, queries: nat)
    requires f.n > 0 && Constant(f, c) && Nominal(clock, f.fps) && clock.duration == f.n as real / f.fps
    ensures var v := First(f, clock, queries);
      && v.logical == 0 && Flat(v.clock, f, c) && BeliefOf(v.clock) == Belief(0, f.n as real / f.fps)
  {
    hide Learned, Prefetched;
    assert StampAt(f, queries, 0) == Some(c);
    var mark := Some(Mark(c, 0));
    FlatPrefetched(f, c, 0, 0.0, clock.(origin := mark, last := mark), queries + 1);
  }

  /**
   * What a caller can tell before a call at which frame `due` is due: it will newly show the last frame
   * of the file, out of turn or with the last reliable mark away from the first frame.
   */
  predicate Shortens(f: Film, logical: nat, mark: nat, due: int)
    requires f.n > 0
  {
    due > logical && f.n > 1 && AtEnd(due, f.n) && (due == logical + 1 ==> mark != 0)
  }

  /** While the belief is right a call shows the due frame, and exactly such a call makes it wrong. */
  lemma BeliefBreaksExactly(f: Film, logical: nat, b: Belief, elapsed: real)
    requires f.n > 0 && b == Belief(b.mark, f.n as real / f.fps) && b.mark < f.n && elapsed >= 0.0 && logical <= Due(elapsed, f.fps)
    ensures var (shown, after) := FlatNext(f, logical, b, elapsed);
      && shown == Due(elapsed, f.fps)
      && (after.duration != f.n as real / f.fps <==> Shortens(f, logical, b.mark, shown))
  {
    hide SeekIndex, Due;
    SeekIndexIsDue(elapsed, f.n, f.fps);
    var due := Due(elapsed, f.fps);
    var k := if due <= logical + 1 then b.mark else due % f.n;
    assert (f.n - k) as real / f.fps == f.n as real / f.fps <==> k == 0 by {
      assert ((f.n - k) as real / f.fps) * f.fps == (f.n - k) as real;
      assert (f.n as real / f.fps) * f.fps == f.n as real;
    }
  }

  lemma FlatNextIsNominal(f: Film, logical: nat, b: Belief, elapsed: real)
    requires f.n > 0 && b.mark < f.n
    ensures FlatNext(f, logical, b, elapsed).0 == NominalNext(logical, b.duration, f.n, f.fps, elapsed)
  {
  }

  /**
   * With a decoder that reports one time for all frames, a call leaves the next one showing the due
   * frame, whenever that is made, if and only if it does not newly show the last frame of the file
   * after a skip or seek has landed inside the file since its last start, its own landing included.
   */
  lemma StaysDueExactly(f: Film, c: real, v: View, elapsed: real)
    requires f.n > 0 && Constant(f, c) && Flat(v.clock, f, c) && v.clock.duration == f.n as real / f.fps
    requires elapsed >= 0.0 && v.logical <= Due(elapsed, f.fps)
    ensures var w := Next(f, v, elapsed);
      && w.logical == Due(elapsed, f.fps)
      && ((forall later: real | later >= elapsed :: Next(f, w, later).logical == Due(later, f.fps)) <==>
          !Shortens(f, v.logical, v.clock.last.value.index, Due(elapsed, f.fps)))
  {
    hide Next, FlatNext, NominalNext;
    var w := Next(f, v, elapsed);
    FlatCall(f, c, v, elapsed);
    BeliefBreaksExactly(f, v.logical, BeliefOf(v.clock), elapsed);
    DueExactly(w.logical, w.clock.duration, f.n, f.fps, elapsed);
    forall later: real | later >= elapsed
      ensures Next(f, w, later).logical == NominalNext(w.logical, w.clock.duration, f.n, f.fps, later)
    {
      FlatCall(f, c, w, later);
      FlatNextIsNominal(f, w.logical, BeliefOf(w.clock), later);
    }
  }

  /** Where the last reliable mark is after a call at which frame `due` is due. */
  function MarkAfter(f: Film, logical: nat, mark: nat, due: int): nat
    requires f.n > 0
  {
    if due <= logical then mark
    else if f.n > 1 && AtEnd(due, f.n) then 0
    else if due == logical + 1 then mark
    else due % f.n
  }

  /** Whether one of the calls at these times shortens the believed duration, told from the times alone. */
  predicate SomeShortens(f: Film, logical: nat, mark: nat, times: seq<real>)
    requires f.n > 0
    decreases |times|
  {
    times != [] &&
    var due := Due(times[0], f.fps);
    Shortens(f, logical, mark, due) || (due >= 0 && SomeShortens(f, due, MarkAfter(f, logical, mark, due), times[1..]))
  }

  /** The due frame is shown at `elapsed`, and so it will be at the next call, whenever that is made. */
  ghost predicate DueNowAndNext(f: Film, w: View, elapsed: real)
    requires f.n > 0
  {
    w.logical == Due(elapsed, f.fps) && forall later: real | later >= elapsed :: Next(f, w, later).logical == Due(later, f.fps)
  }

  lemma MarkMoves(f: Film, logical: nat, b: Belief, elapsed: real)
    requires f.n > 0 && b == Belief(b.mark, f.n as real / f.fps) && b.mark < f.n && elapsed >= 0.0 && logical <= Due(elapsed, f.fps)
    ensures var due := Due(elapsed, f.fps);
      FlatNext(f, logical, b, elapsed).1.mark == MarkAfter(f, logical, b.mark, due) < f.n
  {
    hide SeekIndex, Due;
    SeekIndexIsDue(elapsed, f.n, f.fps);
  }

  /**
   * With a decoder that reports one time for all frames, every call of a playback shows the due frame,
   * and so would a next call after each, whenever made, if and only if no call shortens the believed
   * duration, which the times of the calls decide.
   */
  lemma {:induction false} PlaysDueExactly(f: Film, c: real, v: View, times: seq<real>, start: real)
    requires f.n > 0 && Constant(f, c) && Flat(v.clock, f, c) && v.clock.duration == f.n as real / f.fps
    requires start >= 0.0 && v.logical <= Due(start, f.fps) && (times != [] ==> start <= times[0])
    requires forall j, k | 0 <= j <= k < |times| :: times[j] <= times[k]
    ensures var views := Play(f, v, times);
      && |views| == |times|
      && ((forall i | 0 <= i < |times| :: DueNowAndNext(f, views[i], times[i]))
          <==> !SomeShortens(f, v.logical, v.clock.last.value.index, times))
    decreases |times|
  {
    hide Next, Shortens, MarkAfter, Due;
    PlayLength(f, v, times);
    if times != [] {
      var t, mark := times[0], v.clock.last.value.index;
      var w, views := Next(f, v, t), Play(f, v, times);
      DueMonotone(start, t, f.fps);
      StaysDueExactly(f, c, v, t);
      FlatCall(f, c, v, t);
      BeliefBreaksExactly(f, v.logical, BeliefOf(v.clock), t);
      MarkMoves(f, v.logical, BeliefOf(v.clock), t);
      assert DueNowAndNext(f, views[0], t) <==> !Shortens(f, v.logical, mark, Due(t, f.fps));
      if !Shortens(f, v.logical, mark, Due(t, f.fps)) {
        PlaysDueExactly(f, c, w, times[1..], t);
        var rest := Play(f, w, times[1..]);
        assert views == [w] + rest;
        assert forall i | 0 <= i < |times| - 1 :: views[i + 1] == rest[i] && times[i + 1] == times[1..][i];
      }
    }
  }

  /** From the first call on, which never shortens it. */
  lemma FlatPlaysDueExactly(f: Film, c: real, clock: Timing, queries: nat, times: seq<real>)
    requires f.n > 0 && Constant(f, c) && Nominal(clock, f.fps) && clock.duration == f.n as real / f.fps && times != []
    requires forall j, k | 0 <= j <= k < |times| :: times[j] <= times[k]
    ensures var v := First(f, clock, queries);
      var views := [v] + Play(f, v, SinceFirst(times));
      && |views| == |times|
      && ((forall i | 0 <= i < |times| :: DueNowAndNext(f, views[i], times[i] - times[0]))
          <==> !SomeShortens(f, 0, 0, SinceFirst(times)))
  {
    hide First, Next, SomeShortens, DueNowAndNext, Due, Constant;
    var v, since := First(f, clock, queries), SinceFirst(times);
    FlatFirst(f, c, clock, queries);
    DueAtStart(f.fps);
    PlaysDueExactly(f, c, v, since, 0.0);
    DueNowAtStart(f, c, v);
    var later := Play(f, v, since);
    var views := [v] + later;
    assert times[0] - times[0] == 0.0;
    forall i | 0 < i < |times|
      ensures DueNowAndNext(f, views[i], times[i] - times[0]) == DueNowAndNext(f, later[i - 1], since[i - 1])
    {
    }
    if forall i | 0 <= i < |times| :: DueNowAndNext(f, views[i], times[i] - times[0]) {
      forall i | 0 <= i < |since|
        ensures DueNowAndNext(f, later[i], since[i])
      {
        assert DueNowAndNext(f, views[i + 1], times[i + 1] - times[0]);
      }
    }
  }

  lemma DueNowAtStart(f: Film, c: real, v: View)
    requires f.n > 0 && Constant(f, c) && Flat(v.clock, f, c) && v.clock.duration == f.n as real / f.fps && v.logical == 0
    ensures DueNowAndNext(f, v, 0.0)
  {
    hide Next;
    DueAtStart(f.fps);
    forall later: real | later >= 0.0
      ensures Next(f, v, later).logical == Due(later, f.fps)
    {
      DueMonotone(0.0, later, f.fps);
      FlatCall(f, c, v, later);
      BeliefBreaksExactly(f, 0, BeliefOf(v.clock), later);
    }
  }

  /**
   * A playback that freezes: four frames at one a second, every time reported as `c`. A call three
   * seconds in skips to the last frame, which makes the file look one second long; the call at 20
   * seconds shows frame 80, and so do all calls before second 81.
   */
  lemma ConstantStampsFreeze(f: Film, c: real, clock: Timing, queries: nat, t: real)
    requires f.n == 4 && f.fps == 1.0 && Constant(f, c) && Nominal(clock, 1.0) && clock.duration == 4.0
    requires 20.0 <= t < 81.0
    ensures var v := First(f, clock, queries);
      var shown := Play(f, v, [3.0, 20.0, t]);
      && |shown| == 3 && shown[0].logical == Due(3.0, 1.0) == 3
      && shown[1].logical == 80 && Due(20.0, 1.0) == 20
      && shown[2].logical == 80 && Due(t, 1.0) <= 80
  {
    hide Next, First;
    var v := First(f, clock, queries);
    FlatFirst(f, c, clock, queries);
    var w := Next(f, v, 3.0);
    FlatCall(f, c, v, 3.0);
    assert FlatNext(f, 0, Belief(0, 4.0), 3.0) == (3, Belief(0, 1.0));
    var x := Next(f, w, 20.0);
    FlatCall(f, c, w, 20.0);
    assert SeekIndex(20.0, 1.0, 4, 1.0) == 80;
    FlatCall(f, c, x, t);
    assert [3.0, 20.0, t][1..] == [20.0, t] && [20.0, t][1..] == [t];
    assert Play(f, x, [t]) == [Next(f, x, t)];
  }

  // ---------------------------------------------------------------- playbacks from the first call

  /** The times of the later calls, counted from the first. */
  function SinceFirst(times: seq<real>): (since: seq<real>)
    requires times != []
    ensures |since| == |times| - 1
  {
    seq(|times| - 1, i requires 0 <= i < |times| - 1 => times[i + 1] - times[0])
  }

  predicate Ascending(views: seq<View>) {
    forall i, j | 0 <= i <= j < |views| :: views[i].logical <= views[j].logical
  }

  lemma AscendingBefore(views: seq<View>, v: View)
    requires views != []
    ensures Ascending(views + [v]) ==> Ascending(views) && views[|views| - 1].logical <= v.logical
  {
    var all := views + [v];
    assert forall i | 0 <= i < |views| :: all[i] == views[i];
    assert all[|views|] == v;
  }

  lemma FirstIsZero(f: Film, clock: Timing, queries: nat)
    requires f.n > 0
    ensures First(f, clock, queries).logical == 0
  {
    hide Learned;
  }

  lemma {:induction false} PlayOneMore(f: Film, v: View, times: seq<real>, t: real)
    requires f.n > 0
    ensures |Play(f, v, times)| == |times|
    ensures Play(f, v, times + [t]) ==
            Play(f, v, times) + [Next(f, ([v] + Play(f, v, times))[|times|], t)]
    decreases |times|
  {
    hide Next;
    if times == [] {
      assert (times + [t])[1..] == [];
    } else {
      var w := Next(f, v, times[0]);
      assert (times + [t])[1..] == times[1..] + [t];
      PlayOneMore(f, w, times[1..], t);
      assert ([v] + Play(f, v, times))[|times|] == ([w] + Play(f, w, times[1..]))[|times| - 1];
    }
  }

  /** Container timing is off after call `i`, and the believed duration was right before it. */
  predicate Undisturbed(f: Film, views: seq<View>, i: nat)
    requires i < |views|
  {
    !views[i].clock.container && forall j | 0 <= j < i :: views[j].clock.duration == f.n as real / f.fps
  }

  lemma FirstIsNominal(f: Film, clock: Timing, queries: nat)
    requires f.n > 0 && Nominal(clock, f.fps)
    ensures var v := First(f, clock, queries); Steady(v.clock, f.fps) && v.logical == 0 && v.deadline == 0.0
  {
    hide Prefetched;
    var pts := StampAt(f, queries, 0);
    var mark := if pts.Some? then Some(Mark(pts.value, 0)) else None;
    PrefetchedNominally(f, 0, 0.0, clock.(origin := mark, last := mark), queries + 1);
  }

  lemma DueAtStart(fps: Rate)
    ensures Due(0.0, fps) == 0
  {
  }

  lemma UndisturbedCall(f: Film, clock: Timing, queries: nat, times: seq<real>, i: nat)
    requires f.n > 0 && Nominal(clock, f.fps) && i < |times|
    requires forall j, k | 0 <= j <= k < |times| :: times[j] <= times[k]
    ensures var v := First(f, clock, queries);
      var views := [v] + Play(f, v, SinceFirst(times));
      |views| == |times| && (Undisturbed(f, views, i) ==> views[i].logical == Due(times[i] - times[0], f.fps))
  {
    hide First, Next;
    var v := First(f, clock, queries);
    var since := SinceFirst(times);
    var later := Play(f, v, since);
    var views := [v] + later;
    PlayLength(f, v, since);
    FirstIsNominal(f, clock, queries);
    DueAtStart(f.fps);
    if Undisturbed(f, views, i) && i > 0 {
      if v.clock.container {
        PlayStaysSteady(f, v, since, i - 1);
      }
      assert forall j | 0 <= j <= i - 1 :: Before(v, later, j) == views[j];
      PlayIsDue(f, v, since, 0.0, i - 1);
    }
  }

  /** Undisturbed calls show the due frame; when the last one is, the shown index never went back. */
  lemma UndisturbedIsDue(f: Film, clock: Timing, queries: nat, times: seq<real>)
    requires f.n > 0 && Nominal(clock, f.fps) && times != []
    requires forall j, k | 0 <= j <= k < |times| :: times[j] <= times[k]
    ensures var v := First(f, clock, queries);
      var views := [v] + Play(f, v, SinceFirst(times));
      && |views| == |times|
      && (forall i | 0 <= i < |times| && Undisturbed(f, views, i) :: views[i].logical == Due(times[i] - times[0], f.fps))
      && (Undisturbed(f, views, |times| - 1) ==> Ascending(views))
  {
    hide First, Next;
    var v := First(f, clock, queries);
    var views := [v] + Play(f, v, SinceFirst(times));
    PlayLength(f, v, SinceFirst(times));
    forall i | 0 <= i < |times|
      ensures Undisturbed(f, views, i) ==> views[i].logical == Due(times[i] - times[0], f.fps)
    {
      UndisturbedCall(f, clock, queries, times, i);
    }
    if Undisturbed(f, views, |times| - 1) {
      forall i, j | 0 <= i <= j < |times|
        ensures views[i].logical <= views[j].logical
      {
        UndisturbedEarlier(f, clock, queries, times, i);
        UndisturbedEarlier(f, clock, queries, times, j);
        DueMonotone(times[i] - times[0], times[j] - times[0], f.fps);
      }
    }
  }

  lemma UndisturbedEarlier(f: Film, clock: Timing, queries: nat, times: seq<real>, i: nat)
    requires f.n > 0 && Nominal(clock, f.fps) && i < |times|
    requires var v := First(f, clock, queries);
      var views := [v] + Play(f, v, SinceFirst(times));
      |views| == |times| && Undisturbed(f, views, |times| - 1)
    ensures var v := First(f, clock, queries);
      Undisturbed(f, [v] + Play(f, v, SinceFirst(times)), i)
  {
    hide First, Next;
    var v := First(f, clock, queries);
    var since := SinceFirst(times);
    FirstIsNominal(f, clock, queries);
    ContainerStays(f, v, since, i);
  }

  lemma {:induction false} ContainerStays(f: Film, v: View, times: seq<real>, i: nat)
    requires f.n > 0 && Steady(v.clock, f.fps) && i <= |times|
    ensures var views := [v] + Play(f, v, times);
      |views| == |times| + 1 && (views[i].clock.container ==> views[|times|].clock.container)
    decreases |times|
  {
    hide Next;
    PlayLength(f, v, times);
    if times != [] {
      var w := Next(f, v, times[0]);
      NextStaysSteady(f, v, times[0]);
      var views, rest := [v] + Play(f, v, times), [w] + Play(f, w, times[1..]);
      assert Play(f, v, times) == rest;
      ContainerStays(f, w, times[1..], if i == 0 then 0 else i - 1);
    }
  }
}
