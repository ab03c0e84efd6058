/**
 * Playback on the file's own clock: a decoder that reports each frame's own time, which turns
 * container timing on at the first look-ahead.
 */
module VideoContainer {
  import opened Options
  import opened VideoSchedule
  import opened VideoRuns

  // ---------------------------------------------------------------- the file's own schedule

  /** The time frame `i` is reported at. */
  function At(f: Film, i: nat): real {
    var t := f.stampOf(0, i);
    if t.Some? then t.value else 0.0
  }

  /** Frame `i` of the file is on screen at `t`; the last one for good. */
  predicate OnScreen(f: Film, i: nat, t: real) {
    i < f.n && At(f, i) <= t && (i + 1 < f.n ==> t < At(f, i + 1))
  }

  /** Every frame is reported at its own time, the times increase, and a seek by time finds the frame on screen then. */
  ghost predicate Timestamped(f: Film) {
    && f.n > 1 && At(f, 0) >= 0.0
    && (forall i: nat | i + 1 < f.n :: Plausible(At(f, i + 1) - At(f, i)))
    && (forall q: nat, i: nat | i < f.n :: f.stampOf(q, i) == Some(At(f, i)))
    && (forall i: nat, t: real | OnScreen(f, i, t) :: f.frameAt(t) == i)
  }

  /** The time from the frame before; the first frame follows the last one as that does its own predecessor. */
  function Gap(f: Film, i: nat): real
    requires i < f.n && f.n > 1
  {
    if i == 0 then At(f, f.n - 1) - At(f, f.n - 2) else At(f, i) - At(f, i - 1)
  }

  /** How long one loop lasts: the last frame stays as long as the one before it. */
  function Length(f: Film): real
    requires f.n > 1
  {
    At(f, f.n - 1) - At(f, 0) + Gap(f, f.n - 1)
  }

  /** When frame number `logical`, counted over all loops, is due on the file's own clock. */
  function Own(f: Film, logical: nat): real
    requires f.n > 1
  {
    (logical / f.n) as real * Length(f) + (At(f, logical % f.n) - At(f, 0))
  }

  /** The frame shown is the one due on the file's own clock; its successor is at most a tenth of a millisecond late. */
  predicate OnTime(f: Film, v: View, elapsed: real)
    requires f.n > 1
  {
    Own(f, v.logical) <= elapsed < Own(f, v.logical + 1) + MIN_TIMESTAMP_STEP
  }

  /** All frames are shown equally long. */
  predicate Even(f: Film)
    requires f.n > 1
  {
    forall i: nat | 0 < i < f.n :: Gap(f, i) == Gap(f, 1)
  }

  lemma {:induction false} TimesIncrease(f: Film, i: nat)
    requires Timestamped(f) && i < f.n
    ensures At(f, i) - At(f, 0) >= 0.0 && (i > 0 ==> At(f, i) - At(f, 0) >= MIN_TIMESTAMP_STEP)
    decreases i
  {
    if i > 0 {
      TimesIncrease(f, i - 1);
      assert Plausible(At(f, i - 1 + 1) - At(f, i - 1));
    }
  }

  lemma GapPlausible(f: Film, i: nat)
    requires Timestamped(f) && i < f.n
    ensures Plausible(Gap(f, i))
  {
    var k := if i == 0 then f.n - 2 else i - 1;
    assert Plausible(At(f, k + 1) - At(f, k));
  }

  lemma ReportsOwnTime(f: Film, q: nat, i: nat)
    requires Timestamped(f) && i < f.n
    ensures StampAt(f, q, i) == Some(At(f, i))
  {
    TimesIncrease(f, i);
    assert f.stampOf(q, i) == Some(At(f, i));
  }

  // ---------------------------------------------------------------- what is learnt

  /** The duration a look-ahead to frame `i` makes one believe in: the rest at the latest pace. */
  function Estimate(f: Film, i: nat): real
    requires i < f.n && f.n > 1
  {
    if i == 0 then Length(f) else At(f, i) - At(f, 0) + Gap(f, i) * (f.n - i) as real
  }

  lemma EstimatePositive(f: Film, i: nat)
    requires Timestamped(f) && i < f.n
    ensures Estimate(f, i) > 0.0
  {
    TimesIncrease(f, i);
    TimesIncrease(f, f.n - 1);
    GapPlausible(f, i);
    GapPlausible(f, f.n - 1);
    hide Gap, Timestamped;
    ProductPositive(Gap(f, i), f.n - i);
  }

  lemma ProductPositive(g: real, k: nat)
    requires g > 0.0 && k > 0
    ensures g * k as real > 0.0
  {
  }

  /** Container timing is on, and the look-ahead is the last thing learnt from. */
  predicate Tracking(f: Film, v: View)
    requires f.n > 1
  {
    var next := (v.logical + 1) % f.n;
    && v.clock == Timing(Some(Mark(At(f, 0), 0)), Some(Mark(At(f, next), next)), true, Gap(f, next), Estimate(f, next))
    && v.pts == Some(At(f, next))
  }

  lemma LearnedInside(f: Film, clock: Timing, i: nat)
    requires Timestamped(f) && i + 1 < f.n
    requires clock.origin == Some(Mark(At(f, 0), 0)) && clock.last == Some(Mark(At(f, i), i))
    ensures Learned(clock, f.n, i, Some(At(f, i + 1)), i + 1) ==
            (Timing(clock.origin, Some(Mark(At(f, i + 1), i + 1)), true, Gap(f, i + 1), Estimate(f, i + 1)), Some(At(f, i + 1)))
  {
    GapPlausible(f, i + 1);
    EstimatePositive(f, i + 1);
    var step := (At(f, i + 1) - At(f, i)) / (i + 1 - i) as real;
    assert (i + 1 - i) as real == 1.0 && step == Gap(f, i + 1);
    var t := Some(At(f, i + 1));
    assert Judged(clock, t, i + 1, false, clock.last) == (t, Some(step));
    assert Stepped(clock, f.n, step, t.value, i + 1) == Timing(clock.origin, clock.last, true, step, Estimate(f, i + 1));
  }

  lemma LearnedAtEnd(f: Film, clock: Timing)
    requires Timestamped(f)
    requires clock.origin == Some(Mark(At(f, 0), 0)) && clock.last == Some(Mark(At(f, f.n - 1), f.n - 1))
    requires clock.container && clock.step == Gap(f, f.n - 1)
    ensures Learned(clock, f.n, f.n - 1, Some(At(f, 0)), 0) ==
            (Timing(clock.origin, Some(Mark(At(f, 0), 0)), true, Gap(f, 0), Estimate(f, 0)), Some(At(f, 0)))
  {
    EstimatePositive(f, 0);
    assert (f.n - (f.n - 1)) as real == 1.0;
  }

  /** After a look-ahead everything follows the file's own times, if the step before the file's end did. */
  lemma PrefetchTracks(f: Film, logical: nat, deadline: real, clock: Timing, queries: nat)
    requires Timestamped(f)
    requires clock.origin == Some(Mark(At(f, 0), 0)) && clock.last == Some(Mark(At(f, logical % f.n), logical % f.n))
    requires AtEnd(logical, f.n) ==> clock.container && clock.step == Gap(f, f.n - 1)
    ensures var w := Prefetched(f, logical, deadline, clock, queries);
      w.logical == logical && w.deadline == deadline && Tracking(f, w)
  {
    hide Learned, Estimate;
    NextIndex(logical, f.n);
    ReportsOwnTime(f, queries, (logical + 1) % f.n);
    if AtEnd(logical, f.n) {
      LearnedAtEnd(f, clock.(duration := f.n as real / f.fps));
    } else {
      LearnedInside(f, clock, logical % f.n);
    }
  }

  lemma FirstTracks(f: Film, clock: Timing, queries: nat)
    requires Timestamped(f)
    ensures var v := First(f, clock, queries);
      Tracking(f, v) && v.logical == 0 && v.deadline == 0.0 == Own(f, 0)
  {
    hide Prefetched, Estimate;
    ReportsOwnTime(f, queries, 0);
    var mark := Some(Mark(At(f, 0), 0));
    PrefetchTracks(f, 0, 0.0, clock.(origin := mark, last := mark), queries + 1);
  }

  // ---------------------------------------------------------------- evenly spaced frames

  lemma {:induction false} EvenTimes(f: Film, i: nat)
    requires f.n > 1 && Even(f) && i < f.n
    ensures At(f, i) - At(f, 0) == i as real * Gap(f, 1)
    decreases i
  {
    if i > 0 {
      EvenTimes(f, i - 1);
      assert Gap(f, i) == Gap(f, 1);
    }
  }

  /** Then nothing that is learnt ever changes. */
  lemma EvenLearnt(f: Film, i: nat)
    requires f.n > 1 && Even(f) && i < f.n
    ensures Gap(f, i) == Gap(f, 1) && Estimate(f, i) == Length(f) == f.n as real * Gap(f, 1)
  {
    var g := Gap(f, 1);
    EvenTimes(f, i);
    EvenTimes(f, f.n - 1);
    assert Gap(f, f.n - 1) == g;
    assert i as real * g + g * (f.n - i) as real == f.n as real * g;
    assert (f.n - 1) as real * g + g == f.n as real * g;
  }

  lemma EvenOwn(f: Film, logical: nat)
    requires f.n > 1 && Even(f)
    ensures Own(f, logical) == logical as real * Gap(f, 1)
    ensures Own(f, logical + 1) == Own(f, logical) + Gap(f, 1)
  {
    EvenOwnAt(f, logical);
    EvenOwnAt(f, logical + 1);
    assert (logical + 1) as real == logical as real + 1.0;
  }

  lemma EvenOwnAt(f: Film, logical: nat)
    requires f.n > 1 && Even(f)
    ensures Own(f, logical) == logical as real * Gap(f, 1)
  {
    var g, loop, i := Gap(f, 1), logical / f.n, logical % f.n;
    EvenTimes(f, i);
    EvenLearnt(f, 0);
    LoopsTimes(loop, f.n, i, g);
    assert logical == loop * f.n + i;
  }

  lemma LoopsTimes(loop: nat, n: nat, i: nat, g: real)
    ensures loop as real * (n as real * g) + i as real * g == (loop * n + i) as real * g
  {
    assert (loop * n) as real == loop as real * n as real;
  }

  /** The look-ahead frame is due on the file's own clock, or a tenth of a millisecond after the shown one. */
  lemma EvenDeadline(f: Film, v: View)
    requires Timestamped(f) && Even(f) && Tracking(f, v)
    ensures NextDeadline(f, v) == Max(Own(f, v.logical + 1), v.deadline + MIN_TIMESTAMP_STEP)
  {
    hide Estimate, Length;
    var next := (v.logical + 1) % f.n;
    EvenLearnt(f, next);
    TimesIncrease(f, next);
  }

  /** What is shown was not shown early, and its successor is not due yet. */
  predicate InTime(f: Film, v: View, elapsed: real)
    requires f.n > 1
  {
    Tracking(f, v) && Own(f, v.logical) <= v.deadline < Own(f, v.logical + 1) && v.deadline <= elapsed
  }

  lemma {:induction false} EvenPromoted(f: Film, v: View, elapsed: real, most: nat)
    requires Timestamped(f) && Even(f) && InTime(f, v, elapsed)
    ensures InTime(f, PromotedWhileDue(f, v, elapsed, most), elapsed)
    decreases most
  {
    hide Prefetched, Own;
    if most > 0 && NextDeadline(f, v) <= elapsed {
      EvenDeadline(f, v);
      EvenOwn(f, v.logical + 1);
      GapPlausible(f, 1);
      PromotionTracks(f, v);
      EvenPromoted(f, Promoted(f, v), elapsed, most - 1);
    }
  }

  lemma PromotionTracks(f: Film, v: View)
    requires Timestamped(f) && Tracking(f, v)
    ensures var w := Promoted(f, v); w.logical == v.logical + 1 && w.deadline == NextDeadline(f, v) && Tracking(f, w)
  {
    hide Prefetched, Estimate;
    PrefetchTracks(f, v.logical + 1, NextDeadline(f, v), v.clock, v.queries);
  }

  lemma BelowOne(r: real, g: real)
    requires 0.0 <= r < 1.0 && g > 0.0
    ensures 0.0 <= r * g < g
  {
    var k := 1.0 - r;
    assert k * g > 0.0;
    assert r * g + k * g == g;
  }

  lemma Between(whole: real, q: real, g: real, x: real)
    requires whole <= q < whole + 1.0 && g > 0.0 && x == q * g
    ensures whole * g <= x < whole * g + g
  {
    var r := q - whole;
    BelowOne(r, g);
    assert x == whole * g + r * g;
  }

  lemma IndexBelow(i: nat, n: nat, g: real, x: real)
    requires g > 0.0 && i as real * g <= x < n as real * g
    ensures i < n
  {
    if n <= i {
      ProductAtMost(n as real, i as real, g);
      assert false;
    }
  }

  /** The whole steps of `g` in `x`. */
  lemma WholeSteps(x: real, g: real) returns (k: nat)
    requires x >= 0.0 && g > 0.0
    ensures k == (x / g).Floor && k as real * g <= x < k as real * g + g
  {
    var q := x / g;
    assert q * g == x;
    assert q >= 0.0;
    k := q.Floor;
    Between(k as real, q, g, x);
  }

  lemma FrameAtPhase(f: Film, phase: real) returns (i: nat)
    requires Timestamped(f) && Even(f) && 0.0 <= phase < f.n as real * Gap(f, 1)
    ensures i < f.n && f.frameAt(At(f, 0) + phase) == i
    ensures i as real * Gap(f, 1) <= phase < i as real * Gap(f, 1) + Gap(f, 1)
  {
    hide Gap;
    var g := Gap(f, 1);
    GapPlausible(f, 1);
    i := WholeSteps(phase, g);
    IndexBelow(i, f.n, g, phase);
    EvenTimes(f, i);
    if i + 1 < f.n {
      EvenTimes(f, i + 1);
      NextMultiple(i, g);
    }
    assert OnScreen(f, i, At(f, 0) + phase);
  }

  lemma NextMultiple(i: nat, g: real)
    ensures (i + 1) as real * g == i as real * g + g
  {
  }

  lemma PhaseInLoop(elapsed: real, d: real)
    requires elapsed >= 0.0 && d > 0.0
    ensures 0.0 <= Phase(elapsed, d) < d
  {
    var _ := WholeSteps(elapsed, d);
  }

  lemma ToleranceOfStep(clock: Timing, fps: Rate)
    requires clock.step >= 0.0
    ensures SeekTolerance(clock, fps) >= clock.step
  {
  }

  /** A seek by time lands on the frame that is on screen at the phase. */
  lemma EvenLanding(f: Film, v: View, elapsed: real) returns (i: nat)
    requires Timestamped(f) && Even(f) && Tracking(f, v) && elapsed >= 0.0
    ensures i < f.n && Landing(f, v, elapsed) == (i, v.queries)
    ensures i as real * Gap(f, 1) <= Phase(elapsed, v.clock.duration) < i as real * Gap(f, 1) + Gap(f, 1)
  {
    hide Estimate, Length, Phase, Gap, SeekTarget, SeekTolerance, Even;
    var d := v.clock.duration;
    EvenLearnt(f, (v.logical + 1) % f.n);
    GapPlausible(f, 1);
    ProductPositive(Gap(f, 1), f.n);
    PhaseInLoop(elapsed, d);
    i := FrameAtPhase(f, Phase(elapsed, d));
    ReportsOwnTime(f, v.queries, i);
    EvenTimes(f, i);
    ToleranceOfStep(v.clock, f.fps);
  }

  /** With the whole loops before it that is the frame that is due. */
  lemma EvenSeekIsOwn(f: Film, elapsed: real, loop: nat, i: nat)
    requires Timestamped(f) && Even(f) && i < f.n
    requires i as real * Gap(f, 1) <= elapsed - loop as real * Length(f) < i as real * Gap(f, 1) + Gap(f, 1)
    ensures (loop * f.n + i) % f.n == i && Own(f, loop * f.n + i) <= elapsed < Own(f, loop * f.n + i + 1)
  {
    hide Length, Gap, Own, Even;
    EvenLearnt(f, 0);
    DivModUnique(loop * f.n + i, f.n, loop, i);
    LoopsTimes(loop, f.n, i, Gap(f, 1));
    EvenOwn(f, loop * f.n + i);
  }

  lemma EvenSeeked(f: Film, v: View, elapsed: real)
    requires Timestamped(f) && Even(f) && Tracking(f, v) && elapsed >= 0.0
    ensures InTime(f, Seeked(f, v, elapsed), elapsed) && Seeked(f, v, elapsed).deadline == elapsed
  {
    hide Prefetched, Landing, Own, Estimate, Loops, Gap, Even, Length;
    var i := EvenLanding(f, v, elapsed);
    var loop := Loops(elapsed, v.clock.duration);
    EvenLearnt(f, (v.logical + 1) % f.n);
    EvenSeekIsOwn(f, elapsed, loop, i);
    ReportsOwnTime(f, v.queries, i);
    EvenLearnt(f, f.n - 1);
    PrefetchTracks(f, loop * f.n + i, elapsed, Marked(v.clock, StampAt(f, v.queries, i), i), v.queries + 1);
  }

  /** With evenly spaced frames every call is on time. */
  lemma EvenCall(f: Film, v: View, elapsed: real)
    requires Timestamped(f) && Even(f) && InTime(f, v, elapsed) && elapsed >= 0.0
    ensures var w := Next(f, v, elapsed); InTime(f, w, elapsed) && OnTime(f, w, elapsed)
  {
    hide Prefetched, Seeked, PromotedWhileDue, Skipped, Own, Stale, NextDeadline;
    EvenDeadline(f, v);
    if NextDeadline(f, v) <= elapsed {
      var p := PromotedWhileDue(f, v, elapsed, MAX_SEQUENTIAL_SKIP);
      EvenPromoted(f, v, elapsed, MAX_SEQUENTIAL_SKIP);
      EvenDeadline(f, p);
      EvenSeeked(f, v, elapsed);
      EvenSeeked(f, p, elapsed);
    }
  }

  predicate Sorted(times: seq<real>) {
    (forall j, k | 0 <= j <= k < |times| :: times[j] <= times[k]) && (times != [] ==> times[0] >= 0.0)
  }

  lemma {:induction false} EvenPlay(f: Film, v: View, times: seq<real>, i: nat)
    requires Timestamped(f) && Even(f) && Sorted(times) && i < |times| && InTime(f, v, times[0])
    ensures |Play(f, v, times)| == |times| && OnTime(f, Play(f, v, times)[i], times[i])
    decreases |times|
  {
    hide Next, Tracking, Own;
    PlayLength(f, v, times);
    EvenCall(f, v, times[0]);
    if i > 0 {
      EvenPlay(f, Next(f, v, times[0]), times[1..], i - 1);
    }
  }

  // ---------------------------------------------------------------- the first loop, any spacing

  lemma PlainMultiple(k: nat, n: nat)
    requires k < n
    ensures k / n == 0 && k % n == k
  {
  }

  lemma FirstLoopDeadline(f: Film, v: View)
    requires Timestamped(f) && Tracking(f, v) && v.deadline == Own(f, v.logical) && v.logical + 1 < f.n
    ensures NextDeadline(f, v) == Own(f, v.logical + 1)
  {
    hide Estimate, Length;
    PlainMultiple(v.logical, f.n);
    PlainMultiple(v.logical + 1, f.n);
    TimesIncrease(f, v.logical + 1);
    assert Plausible(At(f, v.logical + 1) - At(f, v.logical));
    assert 0.0 * v.clock.duration == 0.0 && 0.0 * Length(f) == 0.0;
  }

  /** A call at the look-ahead's deadline shows it and nothing else. */
  lemma ShownAtDeadline(f: Film, v: View)
    requires Timestamped(f) && Tracking(f, v)
    ensures Next(f, v, NextDeadline(f, v)) == Promoted(f, v) && Tracking(f, Promoted(f, v))
  {
    hide Prefetched, Estimate, SeekTarget;
    var t := NextDeadline(f, v);
    PromotionTracks(f, v);
    var p := Promoted(f, v);
    NextIsLater(f, p);
    assert 0.0 * Min(MAX_FPS, 1.0 / v.clock.step) == 0.0;
    assert Stale(v.clock, f.fps, t - t) == 1;
    assert PromotedWhileDue(f, v, t, MAX_SEQUENTIAL_SKIP) == PromotedWhileDue(f, p, t, MAX_SEQUENTIAL_SKIP - 1) == p;
  }

  lemma NextIsLater(f: Film, v: View)
    requires Timestamped(f) && Tracking(f, v)
    ensures NextDeadline(f, v) >= v.deadline + MIN_TIMESTAMP_STEP
  {
    hide Estimate;
  }

  /** The times frames 1 to `j` are due in the first loop. */
  function FirstLoopTimes(f: Film, j: nat): seq<real>
    requires f.n > 1
  {
    seq(j, i requires 0 <= i < j => Own(f, i + 1))
  }

  /** Called at just these times the first loop follows the file's own clock, whatever the spacing. */
  lemma {:induction false} FirstLoopTracks(f: Film, v: View, j: nat)
    requires Timestamped(f) && Tracking(f, v) && v.logical == 0 && v.deadline == Own(f, 0) && j < f.n
    ensures var views := [v] + Play(f, v, FirstLoopTimes(f, j));
      |views| == j + 1 && Tracking(f, views[j]) && views[j].logical == j && views[j].deadline == Own(f, j)
    decreases j
  {
    hide Next, Tracking, Own, NextDeadline;
    if j > 0 {
      FirstLoopTracks(f, v, j - 1);
      assert FirstLoopTimes(f, j) == FirstLoopTimes(f, j - 1) + [Own(f, j)];
      PlayOneMore(f, v, FirstLoopTimes(f, j - 1), Own(f, j));
      var u := ([v] + Play(f, v, FirstLoopTimes(f, j - 1)))[j - 1];
      FirstLoopDeadline(f, u);
      ShownAtDeadline(f, u);
      PromotionTracks(f, u);
    } else {
      assert Play(f, v, FirstLoopTimes(f, 0)) == [];
    }
  }

  lemma {:induction false} TimesOrdered(f: Film, i: nat, j: nat)
    requires Timestamped(f) && i <= j < f.n
    ensures At(f, i) <= At(f, j)
    decreases j - i
  {
    if i < j {
      assert Plausible(At(f, i + 1) - At(f, i));
      TimesOrdered(f, i + 1, j);
    }
  }

  lemma FirstLoopSorted(f: Film, j: nat, last: real)
    requires Timestamped(f) && j < f.n && last >= Own(f, j)
    ensures Sorted(FirstLoopTimes(f, j) + [last])
  {
    hide Length;
    var times := FirstLoopTimes(f, j) + [last];
    forall a, b | 0 <= a <= b < |times|
      ensures times[a] <= times[b]
    {
      if a < j {
        var c := if b < j then b + 1 else j;
        TimesOrdered(f, a + 1, c);
        PlainMultiple(a + 1, f.n);
        PlainMultiple(c, f.n);
      }
    }
    TimesIncrease(f, j);
    PlainMultiple(j, f.n);
    if j > 0 {
      TimesIncrease(f, 1);
      PlainMultiple(1, f.n);
    }
  }

  // ---------------------------------------------------------------- a seek with a wrong duration

  lemma StaleWhenLate(clock: Timing, fps: Rate, k: nat, late: real)
    requires clock.container && clock.step > 0.0 && late >= k as real
    requires Min(MAX_FPS, 1.0 / clock.step) > 0.0 && Min(MAX_FPS, 1.0 / clock.step) * k as real >= MAX_SEQUENTIAL_SKIP as real
    ensures Stale(clock, fps, late) > MAX_SEQUENTIAL_SKIP
  {
    var rate := Min(MAX_FPS, 1.0 / clock.step);
    ProductAtMost(k as real, late, rate);
    assert late * rate >= 8.0;
  }

  /** A call late enough seeks. */
  lemma LateSeeks(f: Film, v: View) returns (from: real)
    requires Timestamped(f) && Tracking(f, v)
    ensures from >= 0.0 && forall elapsed: real | elapsed >= from :: Next(f, v, elapsed) == Seeked(f, v, elapsed)
  {
    hide Estimate, Seeked, NextDeadline, Stale, PromotedWhileDue, Skipped, Min;
    GapPlausible(f, (v.logical + 1) % f.n);
    LookRate(v.clock.step);
    var k := StepsBeyond(MAX_SEQUENTIAL_SKIP as real, Min(MAX_FPS, 1.0 / v.clock.step));
    from := Max(0.0, NextDeadline(f, v) + k as real);
    forall elapsed: real | elapsed >= from
      ensures Next(f, v, elapsed) == Seeked(f, v, elapsed)
    {
      StaleWhenLate(v.clock, f.fps, k, elapsed - NextDeadline(f, v));
    }
  }

  lemma LookRate(step: real)
    requires step > 0.0
    ensures Min(MAX_FPS, 1.0 / step) > 0.0
  {
    assert 1.0 / step > 0.0;
  }

  lemma LandingInside(f: Film, v: View, elapsed: real)
    requires f.n > 0
    ensures Landing(f, v, elapsed).0 < f.n
    ensures Seeked(f, v, elapsed).logical == Loops(elapsed, v.clock.duration) * f.n + Landing(f, v, elapsed).0
  {
    hide Learned;
  }

  lemma OwnAt(f: Film, loop: nat, i: nat)
    requires Timestamped(f) && i < f.n
    ensures Own(f, loop * f.n + i) == loop as real * Length(f) + (At(f, i) - At(f, 0))
  {
    hide Length;
    DivModUnique(loop * f.n + i, f.n, loop, i);
  }

  /** A frame of a loop is due within it. */
  lemma OwnInLoop(f: Film, loop: nat, i: nat)
    requires Timestamped(f) && i < f.n
    ensures loop as real * Length(f) <= Own(f, loop * f.n + i)
    ensures Own(f, loop * f.n + i + 1) <= loop as real * Length(f) + Length(f)
  {
    hide Own;
    OwnAt(f, loop, i);
    TimesIncrease(f, i);
    if i + 1 < f.n {
      OwnAt(f, loop, i + 1);
      TimesOrdered(f, i + 1, f.n - 1);
      GapPlausible(f, f.n - 1);
    } else {
      hide Length;
      OwnAt(f, loop + 1, 0);
      NextMultiple(loop, Length(f));
      assert (loop + 1) * f.n == loop * f.n + f.n;
    }
  }

  /** With a wrong duration some call, however late, is not on time. */
  lemma WrongDurationSeeksWrong(f: Film, v: View, start: real) returns (elapsed: real)
    requires Timestamped(f) && Tracking(f, v) && v.clock.duration != Length(f) && start >= 0.0
    ensures elapsed >= start && !OnTime(f, Next(f, v, elapsed), elapsed)
  {
    hide Next, Seeked, Own, Length, Landing, Tracking;
    EstimateIsDuration(f, v);
    EstimatePositive(f, 0);
    var late := LateSeeks(f, v);
    if v.clock.duration < Length(f) {
      elapsed := ShortGoesWrong(f, v, Max(start, late));
    } else {
      elapsed := LongGoesWrong(f, v, Max(start, late));
    }
  }

  lemma EstimateIsDuration(f: Film, v: View)
    requires Timestamped(f) && Tracking(f, v)
    ensures v.clock.duration > 0.0 && Length(f) >= MIN_TIMESTAMP_STEP
  {
    EstimatePositive(f, (v.logical + 1) % f.n);
    TimesIncrease(f, f.n - 1);
    GapPlausible(f, f.n - 1);
  }

  lemma ShortGoesWrong(f: Film, v: View, from: real) returns (elapsed: real)
    requires Timestamped(f) && 0.0 < v.clock.duration < Length(f) && from >= 0.0
    ensures elapsed >= from && !OnTime(f, Seeked(f, v, elapsed), elapsed)
  {
    hide Seeked, Own, Length, Landing, Loops;
    var d, l := v.clock.duration, Length(f);
    var k := StepsBeyond(from, d);
    elapsed := d * k as real;
    WholeQuotient(k, d);
    LandingInside(f, v, elapsed);
    OwnInLoop(f, k, Landing(f, v, elapsed).0);
    ProductBelow(d, l, k);
    assert elapsed < Own(f, Seeked(f, v, elapsed).logical) by {
      assert k as real * l == l * k as real;
    }
  }

  lemma LongGoesWrong(f: Film, v: View, from: real) returns (elapsed: real)
    requires Timestamped(f) && v.clock.duration > Length(f) >= MIN_TIMESTAMP_STEP && from >= 0.0
    ensures elapsed >= from && !OnTime(f, Seeked(f, v, elapsed), elapsed)
  {
    hide Seeked, Own, Length, Landing, Loops;
    elapsed := LoopsTooFew(v.clock.duration, Length(f), from);
    LandingInside(f, v, elapsed);
    OwnInLoop(f, Loops(elapsed, v.clock.duration), Landing(f, v, elapsed).0);
  }

  /** Counting loops of `d` instead of the shorter `l` may come out more than one too low. */
  lemma LoopsTooFew(d: real, l: real, from: real) returns (elapsed: real)
    requires d > l > 0.0 && from >= 0.0
    ensures elapsed >= from && Loops(elapsed, d) as real * l + l <= elapsed - l
  {
    hide Loops;
    var a := StepsBeyond(from, l);
    var b := StepsBeyond(2.0 * d, d - l);
    elapsed := l * (a + b) as real;
    ProductAtMost(a as real, (a + b) as real, l);
    assert elapsed >= from;
    ProductAtMost(b as real, (a + b) as real, d - l);
    var k := a + b;
    assert elapsed == l * k as real && k as real * (d - l) >= 2.0 * d;
    FewLoops(d, l, k, elapsed);
  }

  lemma FewLoops(d: real, l: real, k: nat, elapsed: real)
    requires d > l > 0.0 && k > 0 && k as real * (d - l) >= 2.0 * d && elapsed == l * k as real
    ensures Loops(elapsed, d) as real * l + l <= elapsed - l
  {
    assert elapsed < d * (k - 1) as real by {
      assert k as real * (d - l) == d * k as real - elapsed;
      assert d * (k - 1) as real == d * k as real - d;
    }
    QuotientBelow(elapsed, d, (k - 1) as real);
    FloorAtMost(elapsed / d, k - 1);
    var loop := Loops(elapsed, d);
    assert loop <= k - 2;
    ProductAtMost(loop as real, (k - 2) as real, l);
    assert (k - 2) as real * l == l * k as real - l - l;
  }

  // ---------------------------------------------------------------- exactly the evenly spaced files

  /** If the rest at the pace `x` and `k` gaps of `g` with one more come to the same, the pace is `g`. */
  lemma SamePace(x: real, g: real, k: nat, rest: real)
    requires rest == k as real * g && x * (k + 1) as real == rest + g
    ensures x == g
  {
    NextMultiple(k, g);
    SameFactor(x, g, k + 1);
  }

  /** When every look-ahead of a loop estimates the same length, the frames are evenly spaced. */
  lemma {:induction false} SameEstimates(f: Film, i: nat)
    requires f.n > 1 && 0 < i < f.n && forall k: nat | 0 < k < f.n :: Estimate(f, k) == Length(f)
    ensures Gap(f, i) == Gap(f, f.n - 1) && At(f, f.n - 1) - At(f, i) == (f.n - 1 - i) as real * Gap(f, f.n - 1)
    decreases f.n - i
  {
    var g, k := Gap(f, f.n - 1), f.n - 1 - i;
    if k > 0 {
      SameEstimates(f, i + 1);
      var rest := At(f, f.n - 1) - At(f, i);
      assert k - 1 == f.n - 1 - (i + 1) && At(f, i + 1) - At(f, i) == g;
      NextMultiple(k - 1, g);
      assert rest == k as real * g;
      assert Estimate(f, i) == Length(f) && k + 1 == f.n - i;
      SamePace(Gap(f, i), g, k, rest);
    } else {
      assert 0 as real * g == 0.0;
    }
  }

  lemma SameFactor(x: real, y: real, k: nat)
    requires k > 0 && x * k as real == y * k as real
    ensures x == y
  {
    assert (x - y) * k as real == 0.0;
  }

  lemma UnevenEstimate(f: Film) returns (i: nat)
    requires f.n > 1 && !Even(f)
    ensures 0 < i < f.n && Estimate(f, i) != Length(f)
  {
    if forall k: nat | 0 < k < f.n :: Estimate(f, k) == Length(f) {
      forall k: nat | 0 < k < f.n
        ensures Gap(f, k) == Gap(f, 1)
      {
        SameEstimates(f, k);
        SameEstimates(f, 1);
      }
      assert false;
    }
    i :| 0 < i < f.n && Estimate(f, i) != Length(f);
  }

  predicate PlaysOnTime(f: Film, v: View, times: seq<real>, i: nat)
    requires f.n > 1 && i < |times|
  {
    |Play(f, v, times)| == |times| && OnTime(f, Play(f, v, times)[i], times[i])
  }

  /** Every call of every playback from `v` on is on time. */
  ghost predicate AlwaysOnTime(f: Film, v: View)
    requires f.n > 1
  {
    forall times: seq<real>, i: nat | Sorted(times) && i < |times| :: PlaysOnTime(f, v, times, i)
  }

  /**
   * A file that reports its frames' own times is played on time by all calls at all times if and only
   * if its frames are evenly spaced, whatever frame rate it claims: otherwise some look-ahead inside
   * the file replaces the length learnt at its end by another one, and a seek or a later loop uses that.
   */
  lemma OnTimeExactly(f: Film, clock: Timing, queries: nat)
    requires Timestamped(f)
    ensures AlwaysOnTime(f, First(f, clock, queries)) <==> Even(f)
  {
    hide First, Play;
    var v := First(f, clock, queries);
    FirstTracks(f, clock, queries);
    if Even(f) {
      forall times: seq<real>, i: nat | Sorted(times) && i < |times|
        ensures PlaysOnTime(f, v, times, i)
      {
        EvenOwn(f, 0);
        GapPlausible(f, 1);
        EvenPlay(f, v, times, i);
      }
    } else {
      UnevenBreaks(f, v);
    }
  }

  lemma UnevenBreaks(f: Film, v: View)
    requires Timestamped(f) && !Even(f) && Tracking(f, v) && v.logical == 0 && v.deadline == Own(f, 0)
    ensures !AlwaysOnTime(f, v)
  {
    hide Next, Own, Estimate, Length, Gap, Even;
    var i := UnevenEstimate(f);
    var j := i - 1;
    var times := FirstLoopTimes(f, j);
    FirstLoopTracks(f, v, j);
    var u := ([v] + Play(f, v, times))[j];
    PlainMultiple(i, f.n);
    var start := Max(0.0, Own(f, j));
    var late := WrongDurationSeeksWrong(f, u, start);
    FirstLoopSorted(f, j, late);
    PlayOneMore(f, v, times, late);
    assert !PlaysOnTime(f, v, times + [late], j);
  }

  /**
   * A variable-rate file, three frames at 0, 0.5 and 1.5 seconds, hurries from its second loop on: the
   * look-ahead to frame 1 replaces the learnt length of 2.5 seconds by 1.5, so the frame is shown a tenth
   * of a millisecond after frame 0 instead of half a second.
   */
  lemma UnevenFileHurries(f: Film, clock: Timing, queries: nat, t: real)
    requires Timestamped(f) && f.n == 3 && At(f, 0) == 0.0 && At(f, 1) == 0.5 && At(f, 2) == 1.5
    requires 2.5 + MIN_TIMESTAMP_STEP <= t < 3.0
    ensures var views := Play(f, First(f, clock, queries), [0.5, 1.5, 2.5, t]);
      && |views| == 4 && views[0].logical == 1 && views[1].logical == 2 && views[2].logical == 3
      && views[3].logical == 4 && Own(f, 4) == 3.0
  {
    hide Next, First, Play, Promoted, Stale;
    var v := First(f, clock, queries);
    FirstTracks(f, clock, queries);
    assert NextDeadline(f, v) == 0.5;
    var a := Shown(f, v, 0.5);
    assert NextDeadline(f, a) == 1.5;
    var b := Shown(f, a, 1.5);
    assert NextDeadline(f, b) == 2.5;
    var c := Shown(f, b, 2.5);
    assert NextDeadline(f, c) == 2.5 + MIN_TIMESTAMP_STEP;
    var d := HurriedFrame(f, c, t);
    FourCalls(f, v, 0.5, 1.5, 2.5, t);
  }

  /** There is such a file. */
  lemma UnevenFileExists() returns (f: Film)
    ensures Timestamped(f) && !Even(f) && f.n == 3 && At(f, 0) == 0.0 && At(f, 1) == 0.5 && At(f, 2) == 1.5
  {
    f := Film(3, 30.0,
              (q: nat, i: nat) => Some(if i == 0 then 0.0 else if i == 1 then 0.5 else 1.5),
              (t: real) => if t < 0.5 then 0 else if t < 1.5 then 1 else 2);
    assert Gap(f, 1) == 0.5 && Gap(f, 2) == 1.0;
  }

  lemma Shown(f: Film, v: View, t: real) returns (w: View)
    requires Timestamped(f) && Tracking(f, v) && t == NextDeadline(f, v)
    ensures w == Next(f, v, t) && w.logical == v.logical + 1 && w.deadline == t && Tracking(f, w)
  {
    hide Next, Prefetched;
    ShownAtDeadline(f, v);
    PromotionTracks(f, v);
    w := Next(f, v, t);
  }

  /** In the second loop of that file frame 1 is promoted at once, and frame 2 waits for its time. */
  lemma HurriedFrame(f: Film, c: View, t: real) returns (d: View)
    requires Timestamped(f) && f.n == 3 && At(f, 0) == 0.0 && At(f, 1) == 0.5 && At(f, 2) == 1.5
    requires Tracking(f, c) && c.logical == 3 && c.deadline == 2.5 && 2.5 + MIN_TIMESTAMP_STEP <= t < 3.0
    ensures d == Next(f, c, t) && d.logical == 4
  {
    hide Prefetched;
    d := Promoted(f, c);
    PromotionTracks(f, c);
    assert NextDeadline(f, c) == 2.5 + MIN_TIMESTAMP_STEP;
    assert NextDeadline(f, d) == 4.0;
    assert 1.0 / c.clock.step == 2.0;
    assert Stale(c.clock, f.fps, t - NextDeadline(f, c)) == 1;
    assert PromotedWhileDue(f, c, t, MAX_SEQUENTIAL_SKIP) == PromotedWhileDue(f, d, t, MAX_SEQUENTIAL_SKIP - 1) == d;
  }

  lemma FourCalls(f: Film, v: View, t0: real, t1: real, t2: real, t3: real)
    requires f.n > 0
    ensures var a := Next(f, v, t0); var b := Next(f, a, t1); var c := Next(f, b, t2);
      Play(f, v, [t0, t1, t2, t3]) == [a, b, c, Next(f, c, t3)]
  {
    hide Next;
    var a := Next(f, v, t0);
    var b := Next(f, a, t1);
    var c := Next(f, b, t2);
    assert [t0, t1, t2, t3][1..] == [t1, t2, t3] && [t1, t2, t3][1..] == [t2, t3] && [t2, t3][1..] == [t3];
    assert Play(f, c, [t3]) == [Next(f, c, t3)];
    assert Play(f, b, [t2, t3]) == [c] + [Next(f, c, t3)];
    assert Play(f, a, [t1, t2, t3]) == [b] + ([c] + [Next(f, c, t3)]);
  }

  /** Playbacks from the first call on: with evenly spaced frames each is on time. */
  lemma EvenIsOnTime(f: Film, clock: Timing, queries: nat, times: seq<real>)
    requires Timestamped(f) && Even(f) && times != []
    requires forall j, k | 0 <= j <= k < |times| :: times[j] <= times[k]
    ensures var v := First(f, clock, queries);
      var views := [v] + Play(f, v, SinceFirst(times));
      |views| == |times| && forall i | 0 <= i < |times| :: OnTime(f, views[i], times[i] - times[0])
  {
    hide First, Next, Tracking, Own;
    var v := First(f, clock, queries);
    var since := SinceFirst(times);
    var views := [v] + Play(f, v, since);
    PlayLength(f, v, since);
    FirstTracks(f, clock, queries);
    EvenOwn(f, 0);
    GapPlausible(f, 1);
    forall i | 0 <= i < |times|
      ensures OnTime(f, views[i], times[i] - times[0])
    {
      if i > 0 {
        EvenPlay(f, v, since, i - 1);
      }
    }
  }
}
