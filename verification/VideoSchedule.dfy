/**
 * The timing of a video backdrop: what timestamps teach about a file, when a frame is due, and, for
 * an exact decoder of a file of known length, what one call of `frame()` shows. Times are exact
 * reals; the nanosecond slack of the program's comparisons is dropped.
 */
module VideoSchedule {
  import opened Options

  const MAX_FPS: real := 240.0
  const MAX_SEQUENTIAL_SKIP: nat := 8
  const MIN_TIMESTAMP_STEP: real := 0.0001
  const MAX_TIMESTAMP_STEP: real := 60.0

  /** A timestamp and the source frame it came with. */
  datatype Mark = Mark(time: real, index: nat)

  type Rate = r: real | r > 0.0 witness 1.0

  function Max(a: real, b: real): real { if a < b then b else a }

  function Min(a: real, b: real): real { if a < b then a else b }

  function Abs(a: real): real { if a < 0.0 then -a else a }

  /** The index the wall clock asks for. */
  function Due(elapsed: real, fps: real): int {
    (elapsed * fps).Floor
  }

  // ---------------------------------------------------------------- arithmetic of the schedule

  lemma ScaledDifference(t: real, n: int, fps: real)
    requires fps > 0.0
    ensures (t - n as real / fps) * fps == t * fps - n as real
  {
    assert (n as real / fps) * fps == n as real;
  }

  lemma RatioPositive(n: nat, fps: real)
    requires fps > 0.0
    ensures n as real / fps >= 0.0 && (n > 0 ==> n as real / fps > 0.0)
  {
  }

  /** A frame's deadline has passed exactly when the wall clock asks for it or a later one. */
  lemma DeadlineIsDue(t: real, n: int, fps: real)
    requires fps > 0.0
    ensures n as real / fps <= t <==> n <= Due(t, fps)
  {
    ScaledDifference(t, n, fps);
    if n as real / fps <= t {
      assert (t - n as real / fps) * fps >= 0.0;
    } else {
      assert (t - n as real / fps) * fps < 0.0;
    }
  }

  lemma DueNatural(t: real, fps: real)
    requires t >= 0.0 && fps > 0.0
    ensures Due(t, fps) >= 0
  {
    assert t * fps >= 0.0;
  }

  lemma DueMonotone(t: real, u: real, fps: real)
    requires fps > 0.0 && t <= u
    ensures Due(t, fps) <= Due(u, fps)
  {
    assert t * fps <= u * fps;
  }

  lemma DivModUnique(x: int, n: nat, q: int, r: int)
    requires n > 0 && x == q * n + r && 0 <= r < n
    ensures x / n == q && x % n == r
  {
    var d := q - x / n;
    assert d * n == x % n - r;
    assert d >= 1 ==> d * n >= n;
    assert d <= -1 ==> d * n <= 0 - n;
  }

  /** The frame after frame `i mod n` in a looping file of `n` frames. */
  lemma NextIndex(i: int, n: nat)
    requires i >= 0 && n > 0
    ensures (i + 1) % n == if i % n + 1 < n then i % n + 1 else 0
  {
    var q := i / n;
    assert i == q * n + i % n;
    if i % n + 1 < n {
      DivModUnique(i + 1, n, q, i % n + 1);
    } else {
      assert (q + 1) * n == q * n + n;
      DivModUnique(i + 1, n, q + 1, 0);
    }
  }

  lemma LoopPhase(t: real, d: real)
    requires t >= 0.0 && d > 0.0
    ensures (t / d).Floor >= 0 && t - (t / d).Floor as real * d >= 0.0
  {
    var q := (t / d).Floor;
    assert t == (t / d) * d;
    assert t / d >= 0.0;
    assert q as real <= t / d;
    assert q as real * d <= (t / d) * d;
  }

  lemma QuotientUnique(x: real, y: real, z: real)
    requires y > 0.0 && x == z * y
    ensures x / y == z
  {
    var q := x / y;
    assert q * y == x;
    assert (q - z) * y == 0.0;
  }

  lemma QuotientBetween(x: real, y: real, lo: real, hi: real)
    requires y > 0.0 && lo * y <= x < hi * y
    ensures lo <= x / y < hi
  {
    var q := x / y;
    assert q * y == x;
    assert q < lo ==> q * y < lo * y;
    assert q >= hi ==> q * y >= hi * y;
  }

  /** Counting loops in seconds or in frames is the same. */
  lemma LoopsAreFrames(t: real, fps: real, n: nat)
    requires fps > 0.0 && n > 0 && t >= 0.0
    ensures n as real / fps > 0.0 && t / (n as real / fps) == t * fps / n as real
  {
    var duration := n as real / fps;
    assert duration * fps == n as real;
    assert duration > 0.0;
    var loops := t / duration;
    assert loops * duration == t;
    assert t * fps == loops * n as real by {
      assert (loops * duration) * fps == loops * (duration * fps);
    }
    QuotientUnique(t * fps, n as real, loops);
  }

  lemma FloorOfQuotient(f: real, n: nat)
    requires f >= 0.0 && n > 0
    ensures (f / n as real).Floor == f.Floor / n
  {
    var q := f.Floor / n;
    assert f.Floor == q * n + f.Floor % n;
    assert (q * n) as real <= f < (q * n + n) as real;
    assert (q * n) as real == q as real * n as real;
    assert (q * n + n) as real == (q + 1) as real * n as real;
    QuotientBetween(f, n as real, q as real, (q + 1) as real);
  }

  lemma WholeLoops(loop: int, n: nat, fps: real)
    requires fps > 0.0
    ensures loop as real * (n as real / fps) == (loop * n) as real / fps
  {
    var duration := n as real / fps;
    assert duration * fps == n as real;
    assert (loop as real * duration) * fps == loop as real * (duration * fps);
    assert (loop * n) as real == loop as real * n as real;
    QuotientUnique((loop * n) as real, fps, loop as real * duration);
  }

  /** Taking whole loops off the clock leaves the phase within the loop. */
  lemma PhaseIsDue(t: real, fps: real, n: nat, loop: int)
    requires fps > 0.0 && n > 0 && loop == Due(t, fps) / n
    ensures Due(t - loop as real * (n as real / fps), fps) == Due(t, fps) % n
  {
    WholeLoops(loop, n, fps);
    var whole := loop * n;
    ScaledDifference(t, whole, fps);
    var f := t * fps;
    assert (f - whole as real).Floor == f.Floor - whole;
    assert f.Floor == whole + f.Floor % n;
  }

  /** Seeking by whole loops of `n / fps` seconds lands on the due index. */
  lemma SeekPhase(t: real, fps: real, n: nat, duration: real, loop: int)
    requires fps > 0.0 && n > 0 && t >= 0.0 && duration == n as real / fps && duration > 0.0
    requires loop == (t / duration).Floor
    ensures loop == Due(t, fps) / n && Due(t - loop as real * duration, fps) == Due(t, fps) % n
  {
    LoopsAreFrames(t, fps, n);
    var f := t * fps;
    assert f >= 0.0;
    FloorOfQuotient(f, n);
    assert t / duration == f / n as real;
    assert Due(t, fps) == f.Floor;
    assert Due(t, fps) / n == f.Floor / n;
    assert loop == f.Floor / n;
    PhaseIsDue(t, fps, n, loop);
  }

  // ---------------------------------------------------------------- what timestamps teach

  /** The first and the last reliable timestamp, whether they are trusted, and the step and duration assumed. */
  datatype Timing = Timing(
    origin: Option<Mark>, last: Option<Mark>, container: bool, step: real, duration: real)

  /** Whether two timestamps that should agree are too far apart. */
  predicate FarApart(a: real, b: real, step: real) {
    Abs(a - b) > Max(0.05, 2.0 * step)
  }

  /** A wrapped read: the unseen tail is estimated from the last reliable timestamp. */
  function AfterTail(t: Timing, n: nat): Timing {
    if n == 0 || t.origin.None? || t.last.None? then t.(last := None)
    else
      var remaining := if n > t.last.value.index then n - t.last.value.index else 1;
      var candidate := t.last.value.time - t.origin.value.time + t.step * remaining as real;
      t.(last := None, duration := if candidate > 0.0 then candidate else t.duration)
  }

  predicate Wraps(index: nat, shown: int) {
    index == 0 && shown != 0
  }

  /**
   * What a timestamp is worth, given the last reliable one before it: the timestamp itself unless
   * it contradicts what is known, and the step per frame it implies when it can be compared.
   */
  function Judged(t: Timing, pts: Option<real>, index: nat, looped: bool, last: Option<Mark>): (Option<real>, Option<real>) {
    if pts.None? then (None, None)
    else if looped then
      (if t.origin.Some? && t.origin.value.index == 0 && FarApart(pts.value, t.origin.value.time, t.step) then None else pts, None)
    else if last.Some? && index > last.value.index then
      (pts, Some((pts.value - last.value.time) / (index - last.value.index) as real))
    else if last.None? && t.origin.Some? && index > t.origin.value.index then
      (pts, Some((pts.value - t.origin.value.time) / (index - t.origin.value.index) as real))
    else if last.Some? && last.value.index == index then
      (if FarApart(pts.value, last.value.time, t.step) then None else pts, None)
    else if last.Some? then (None, None)
    else (pts, None)
  }

  lemma JudgedStep(t: Timing, pts: Option<real>, index: nat, looped: bool, last: Option<Mark>)
    ensures Judged(t, pts, index, looped, last).1.Some? ==> pts.Some?
  {
  }

  predicate Plausible(step: real) {
    MIN_TIMESTAMP_STEP <= step <= MAX_TIMESTAMP_STEP
  }

  /** A plausible step turns container timing on. */
  function Stepped(t: Timing, n: nat, step: real, pts: real, index: nat): Timing {
    var t1 := t.(container := true, step := step);
    if n == 0 || t.origin.None? then t1
    else
      var candidate := pts - t.origin.value.time + step * (n - index) as real;
      if candidate > 0.0 then t1.(duration := candidate) else t1
  }

  function Marked(t: Timing, pts: Option<real>, index: nat): Timing {
    if pts.Some? then t.(last := Some(Mark(pts.value, index))) else t
  }

  /** What storing a look-ahead frame learns from its timestamp, and the timestamp it keeps. */
  function Learned(t: Timing, n: nat, shown: int, pts: Option<real>, index: nat): (Timing, Option<real>) {
    var t1 := if t.origin.None? && pts.Some? then t.(origin := Some(Mark(pts.value, index))) else t;
    var t2 := if Wraps(index, shown) then AfterTail(t1, n) else t1;
    var (kept, step) := Judged(t2, pts, index, Wraps(index, shown), t.last);
    if step.None? then (Marked(t2, kept, index), kept)
    else if !Plausible(step.value) || pts.None? then (t2, None)
    else (Marked(Stepped(t2, n, step.value, pts.value, index), kept, index), kept)
  }

  /** Container timing is never turned off, steps and durations stay positive. */
  lemma LearnedKeeps(t: Timing, n: nat, shown: int, pts: Option<real>, index: nat)
    requires t.step > 0.0
    ensures var (u, kept) := Learned(t, n, shown, pts, index);
      && (t.container ==> u.container) && u.step > 0.0
      && (t.duration > 0.0 ==> u.duration > 0.0) && (t.duration >= 0.0 ==> u.duration >= 0.0)
      && (kept.None? || kept == pts)
  {
  }

  /** The length a wrap teaches: up to the last reliable timestamp, and at least one more step. */
  lemma TailExactly(t: Timing, n: nat)
    requires n > 0 && t.origin.Some? && t.last.Some?
    ensures var u := AfterTail(t, n);
      var more := if n - t.last.value.index > 1 then n - t.last.value.index else 1;
      var length := t.last.value.time - t.origin.value.time + t.step * more as real;
      u == t.(last := None, duration := if length > 0.0 then length else t.duration)
  {
  }

  /** Two times that agree to a twentieth of a second or two steps, whichever is more. */
  predicate Agree(a: real, b: real, step: real) {
    -0.05 <= a - b <= 0.05 || -(2.0 * step) <= a - b <= 2.0 * step
  }

  /** The mark a timestamp is measured from: the last reliable one, or the origin while there is none. */
  predicate MeasuredFrom(t: Timing, index: nat, m: Mark) {
    m.index < index && (if t.last.Some? then t.last == Some(m) else t.origin == Some(m))
  }

  /**
   * Which timestamps are believed: after a wrap, one that agrees with an origin at the first frame; for
   * a later frame than the mark, one at a plausible distance from it; for the same frame, one that
   * agrees; for an earlier one, none.
   */
  lemma KeptExactly(t: Timing, n: nat, shown: int, time: real, index: nat)
    requires t.step > 0.0 && t.origin.Some?
    ensures var kept := Learned(t, n, shown, Some(time), index).1;
      && (kept.Some? ==> kept == Some(time))
      && (index == 0 != shown ==>
            (t.origin.value.index == 0 && (n == 0 || t.last.None?) ==> (kept.Some? <==> Agree(time, t.origin.value.time, t.step))))
      && (!(index == 0 != shown) ==>
            && (forall m | MeasuredFrom(t, index, m) ::
                  kept.Some? <==> 0.0001 <= (time - m.time) / (index - m.index) as real <= 60.0)
            && (t.last.Some? && t.last.value.index == index ==> (kept.Some? <==> Agree(time, t.last.value.time, t.step)))
            && (t.last.Some? && t.last.value.index > index ==> kept.None?))
  {
  }

  /** What a believed or implausible later timestamp changes: the pace and the length, or nothing. */
  lemma PaceExactly(t: Timing, n: nat, shown: int, time: real, index: nat, m: Mark)
    requires t.step > 0.0 && t.origin.Some? && MeasuredFrom(t, index, m) && !(index == 0 != shown)
    ensures var u := Learned(t, n, shown, Some(time), index).0;
      var pace := (time - m.time) / (index - m.index) as real;
      if 0.0001 <= pace <= 60.0 then
        && u.container && u.step == pace && u.last == Some(Mark(time, index)) && u.origin == t.origin
        && var length := time - t.origin.value.time + pace * (n - index) as real;
           u.duration == if n > 0 && length > 0.0 then length else t.duration
      else u == t
  {
  }

  // ---------------------------------------------------------------- one call on an exact decoder

  /** A file of known length behind an exact decoder, and the frame rate it is scheduled at. */
  datatype Film = Film(n: nat, fps: Rate, stampOf: (nat, nat) -> Option<real>, frameAt: real -> nat)

  /** What the decoder reports at its `q`-th query, when frame `i` was given last. */
  function StampAt(f: Film, q: nat, i: nat): Option<real> {
    var t := f.stampOf(q, i);
    if t.Some? && t.value < 0.0 then None else t
  }

  /** The shown frame, since when it is due, the timing, the look-ahead frame's timestamp, the queries made. */
  datatype View = View(logical: nat, deadline: real, clock: Timing, pts: Option<real>, queries: nat)

  /** Frame `logical` is on screen: look ahead to the next one, round the end of the file. */
  function Prefetched(f: Film, logical: nat, deadline: real, clock: Timing, queries: nat): View
    requires f.n > 0
  {
    var next := (logical + 1) % f.n;
    var rewound := if logical % f.n + 1 == f.n then clock.(duration := f.n as real / f.fps) else clock;
    var (learned, kept) := Learned(rewound, f.n, logical % f.n, StampAt(f, queries, next), next);
    View(logical, deadline, learned, kept, queries + 1)
  }

  /** When the look-ahead frame with number `logical` is due. */
  function DeadlineFor(clock: Timing, n: nat, fps: Rate, pts: Option<real>, logical: nat, deadline: real): real {
    if clock.container && pts.Some? && clock.origin.Some? then
      var media := Max(0.0, pts.value - clock.origin.value.time);
      var at := if n > 0 then (logical / n) as real * clock.duration + media else media;
      Max(at, deadline + MIN_TIMESTAMP_STEP)
    else if clock.container then deadline + 1.0 / fps
    else logical as real / fps
  }

  /**
   * With container timing a believed timestamp is due in the loop its frame's number names, a tenth of a
   * millisecond after the shown frame at the earliest.
   */
  lemma StampedDeadline(f: Film, v: View)
    requires f.n > 0 && v.clock.container && v.pts.Some? && v.clock.origin.Some?
    ensures var due := ((v.logical + 1) / f.n) as real * v.clock.duration + Max(0.0, v.pts.value - v.clock.origin.value.time);
      && NextDeadline(f, v) >= due && NextDeadline(f, v) >= v.deadline + 0.0001
      && (NextDeadline(f, v) == due || NextDeadline(f, v) == v.deadline + 0.0001)
  {
  }

  /** Once container timing is on, a frame without a believed timestamp is due one claimed interval after the shown one. */
  lemma MissingStampFallsBack(f: Film, v: View)
    requires v.clock.container && v.pts.None?
    ensures NextDeadline(f, v) == v.deadline + 1.0 / f.fps
  {
  }

  function NextDeadline(f: Film, v: View): real {
    DeadlineFor(v.clock, f.n, f.fps, v.pts, v.logical + 1, v.deadline)
  }

  function Promoted(f: Film, v: View): View
    requires f.n > 0
  {
    Prefetched(f, v.logical + 1, NextDeadline(f, v), v.clock, v.queries)
  }

  /** At most `most` promotions, as long as the look-ahead frame is due. */
  function PromotedWhileDue(f: Film, v: View, elapsed: real, most: nat): View
    requires f.n > 0
    decreases most
  {
    if most == 0 || elapsed < NextDeadline(f, v) then v else PromotedWhileDue(f, Promoted(f, v), elapsed, most - 1)
  }

  function Skipped(f: Film, v: View, steps: nat): View
    requires f.n > 0
  {
    var logical := v.logical + steps;
    Prefetched(f, logical, logical as real / f.fps,
               Marked(v.clock, StampAt(f, v.queries, logical % f.n), logical % f.n), v.queries + 1)
  }

  /** Whole loops of `duration` seconds before `elapsed`. */
  function Loops(elapsed: real, duration: real): nat {
    if duration > 0.0 && elapsed >= 0.0 then
      assert elapsed / duration >= 0.0;
      (elapsed / duration).Floor
    else 0
  }

  function Phase(elapsed: real, duration: real): real {
    elapsed - Loops(elapsed, duration) as real * duration
  }

  /** The frame of the file a seek asks for. */
  function SeekTarget(elapsed: real, duration: real, n: nat, fps: Rate): nat
    requires n > 0
  {
    var i := Due(Phase(elapsed, duration), fps);
    if i > n - 1 then n - 1 else if i < 0 then 0 else i
  }

  function SeekTolerance(clock: Timing, fps: Rate): real {
    Max(Max(0.05, 2.0 / fps), 2.0 * clock.step)
  }

  /** Where a seek lands: by time if that comes close enough, else by index; and the query that told. */
  function Landing(f: Film, v: View, elapsed: real): (nat, nat)
    requires f.n > 0
  {
    var target := SeekTarget(elapsed, v.clock.duration, f.n, f.fps);
    if v.clock.container && v.clock.origin.Some? then
      var at := v.clock.origin.value.time + Phase(elapsed, v.clock.duration);
      if f.frameAt(at) < f.n then
        var pts := StampAt(f, v.queries, f.frameAt(at));
        if pts.Some? && Abs(pts.value - at) <= SeekTolerance(v.clock, f.fps) then (f.frameAt(at), v.queries)
        else (target, v.queries + 1)
      else (target, v.queries)
    else (target, v.queries)
  }

  /**
   * With container timing a seek lands by time exactly if the reported time is near the one asked for: a
   * twentieth of a second, two claimed intervals or two steps; otherwise by index.
   */
  lemma LandsByTime(f: Film, v: View, elapsed: real)
    requires f.n > 0 && v.clock.container && v.clock.origin.Some? && v.clock.step > 0.0
    requires var at := v.clock.origin.value.time + Phase(elapsed, v.clock.duration); f.frameAt(at) < f.n
    ensures var at := v.clock.origin.value.time + Phase(elapsed, v.clock.duration);
      var pts := StampAt(f, v.queries, f.frameAt(at));
      var near := pts.Some? && (Agree(pts.value, at, v.clock.step) || Agree(pts.value, at, 1.0 / f.fps));
      && (near ==> Landing(f, v, elapsed) == (f.frameAt(at), v.queries))
      && (!near ==> Landing(f, v, elapsed).1 == v.queries + 1
                    && Landing(f, v, elapsed).0 == SeekTarget(elapsed, v.clock.duration, f.n, f.fps))
  {
    assert 2.0 / f.fps == 2.0 * (1.0 / f.fps);
  }

  function Seeked(f: Film, v: View, elapsed: real): View
    requires f.n > 0
  {
    var (i, q) := Landing(f, v, elapsed);
    Prefetched(f, Loops(elapsed, v.clock.duration) * f.n + i, elapsed, Marked(v.clock, StampAt(f, q, i), i), q + 1)
  }

  /** How many frames the look-ahead is behind the clock, itself included. */
  function Stale(clock: Timing, fps: Rate, late: real): int {
    var rate := if clock.container && clock.step > 0.0 then Min(MAX_FPS, 1.0 / clock.step) else fps;
    var whole := (late * rate).Floor + 1;
    if whole < 1 then 1 else whole
  }

  /** The estimate: at the step's pace, but at most 240 a second, `late` is worth all but one of the stale frames. */
  lemma StaleMeans(clock: Timing, fps: Rate, late: real)
    requires clock.container && clock.step > 0.0 && late >= 0.0
    ensures var stale := Stale(clock, fps, late) as real;
      && (240.0 * clock.step >= 1.0 ==> (stale - 1.0) * clock.step <= late < stale * clock.step)
      && (240.0 * clock.step < 1.0 ==> stale - 1.0 <= 240.0 * late < stale)
  {
    var rate := 1.0 / clock.step;
    assert rate * clock.step == 1.0;
    PaceLimit(rate, clock.step);
    StaleAtPace(late, rate, clock.step);
    assert late * 240.0 >= 0.0;
  }

  lemma PaceLimit(rate: real, step: real)
    requires step > 0.0 && rate * step == 1.0
    ensures rate > 0.0 && (240.0 * step >= 1.0 <==> rate <= 240.0)
  {
    assert (240.0 - rate) * step == 240.0 * step - 1.0;
  }

  lemma StaleAtPace(late: real, rate: real, step: real)
    requires late >= 0.0 && step > 0.0 && rate > 0.0 && rate * step == 1.0
    ensures (late * rate).Floor >= 0
    ensures ((late * rate).Floor + 1) as real * step > late >= (late * rate).Floor as real * step
  {
    var frames := late * rate;
    assert frames * step == late by {
      assert late * (rate * step) == frames * step;
    }
    assert frames >= 0.0;
    var whole := frames.Floor;
    ProductAtMost(whole as real, frames, step);
    ProductOrder(frames, (whole + 1) as real, step);
  }

  /** What one call at `elapsed` makes of what is shown. */
  function Next(f: Film, v: View, elapsed: real): View
    requires f.n > 0
  {
    if elapsed < NextDeadline(f, v) then v
    else
      var stale := Stale(v.clock, f.fps, elapsed - NextDeadline(f, v));
      if stale > MAX_SEQUENTIAL_SKIP then Seeked(f, v, elapsed)
      else if !v.clock.container && stale > 1 then Skipped(f, v, stale)
      else
        var w := PromotedWhileDue(f, v, elapsed, MAX_SEQUENTIAL_SKIP);
        if NextDeadline(f, w) <= elapsed then Seeked(f, w, elapsed) else w
  }

  lemma {:induction false} PromotionsEnd(f: Film, v: View, elapsed: real, most: nat)
    requires f.n > 0 && v.clock.container
    ensures PromotedWhileDue(f, v, elapsed, most).clock.container
    decreases most
  {
    hide Learned;
    if most > 0 && NextDeadline(f, v) <= elapsed {
      StaysContainer(f, v.logical + 1, NextDeadline(f, v), v.clock, v.queries);
      PromotionsEnd(f, Promoted(f, v), elapsed, most - 1);
    }
  }

  lemma StaysContainer(f: Film, logical: nat, deadline: real, clock: Timing, queries: nat)
    requires f.n > 0 && clock.container
    ensures var w := Prefetched(f, logical, deadline, clock, queries); w.clock.container && w.deadline == deadline
  {
  }

  lemma LaterThanShown(f: Film, v: View)
    requires v.clock.container
    ensures NextDeadline(f, v) > v.deadline
  {
    RatioPositive(1, f.fps);
  }

  /** After a call under container timing nothing more is due. */
  lemma NothingDueAfter(f: Film, v: View, elapsed: real)
    requires f.n > 0 && v.clock.container
    ensures elapsed < NextDeadline(f, Next(f, v, elapsed))
  {
    hide Prefetched, Stale, PromotedWhileDue;
    var w := PromotedWhileDue(f, v, elapsed, MAX_SEQUENTIAL_SKIP);
    PromotionsEnd(f, v, elapsed, MAX_SEQUENTIAL_SKIP);
    SeekedIsNow(f, v, elapsed);
    SeekedIsNow(f, w, elapsed);
  }

  lemma SeekedIsNow(f: Film, v: View, elapsed: real)
    requires f.n > 0 && v.clock.container
    ensures elapsed < NextDeadline(f, Seeked(f, v, elapsed))
  {
    hide Prefetched;
    var (i, q) := Landing(f, v, elapsed);
    StaysContainer(f, Loops(elapsed, v.clock.duration) * f.n + i, elapsed, Marked(v.clock, StampAt(f, q, i), i), q + 1);
    LaterThanShown(f, Seeked(f, v, elapsed));
  }

  /** What the first call shows. */
  function First(f: Film, clock: Timing, queries: nat): View
    requires f.n > 0
  {
    var pts := StampAt(f, queries, 0);
    var mark := if pts.Some? then Some(Mark(pts.value, 0)) else None;
    Prefetched(f, 0, 0.0, clock.(origin := mark, last := mark), queries + 1)
  }

  /** What the calls at these times since the first show, one after the other. */
  function Play(f: Film, v: View, times: seq<real>): seq<View>
    requires f.n > 0
    decreases |times|
  {
    if times == [] then []
    else
      var w := Next(f, v, times[0]);
      [w] + Play(f, w, times[1..])
  }

  // ---------------------------------------------------------------- nominal timing

  /** Container timing is off, so the step is still the frame rate's. */
  predicate Nominal(clock: Timing, fps: Rate) {
    !clock.container && clock.step == 1.0 / fps && clock.duration > 0.0
  }

  /** The logical frame a seek lands on while container timing is off. */
  function SeekIndex(elapsed: real, duration: real, n: nat, fps: Rate): nat
    requires n > 0
  {
    Loops(elapsed, duration) * n + SeekTarget(elapsed, duration, n, fps)
  }

  /** The logical frame a call shows while container timing is off: the duration matters to a seek only. */
  function NominalNext(logical: nat, duration: real, n: nat, fps: Rate, elapsed: real): int
    requires n > 0
  {
    var due := Due(elapsed, fps);
    if due <= logical then logical
    else if due - logical > MAX_SEQUENTIAL_SKIP then SeekIndex(elapsed, duration, n, fps)
    else due
  }

  lemma NominalStale(logical: nat, elapsed: real, clock: Timing, fps: Rate)
    requires !clock.container && (logical + 1) as real / fps <= elapsed
    ensures Stale(clock, fps, elapsed - (logical + 1) as real / fps) == Due(elapsed, fps) - logical >= 1
  {
    var late := elapsed - (logical + 1) as real / fps;
    ScaledDifference(elapsed, logical + 1, fps);
    DeadlineIsDue(elapsed, logical + 1, fps);
    assert late * fps == elapsed * fps - (logical + 1) as real;
    assert (late * fps).Floor == Due(elapsed, fps) - (logical + 1);
  }

  lemma LearnedNominally(t: Timing, n: nat, shown: int, pts: Option<real>, index: nat, fps: Rate)
    requires Nominal(t, fps) && !Learned(t, n, shown, pts, index).0.container
    ensures Nominal(Learned(t, n, shown, pts, index).0, fps)
  {
    LearnedKeeps(t, n, shown, pts, index);
  }

  /** Timing that is nominal or comes from the container. */
  predicate Steady(clock: Timing, fps: Rate) {
    clock.step > 0.0 && clock.duration > 0.0 && (clock.container || Nominal(clock, fps))
  }

  lemma PrefetchedNominally(f: Film, logical: nat, deadline: real, clock: Timing, queries: nat)
    requires f.n > 0 && Steady(clock, f.fps)
    ensures var v := Prefetched(f, logical, deadline, clock, queries);
      v.logical == logical && v.deadline == deadline && Steady(v.clock, f.fps) && (clock.container ==> v.clock.container)
  {
    var next := (logical + 1) % f.n;
    RatioPositive(f.n, f.fps);
    var rewound := if logical % f.n + 1 == f.n then clock.(duration := f.n as real / f.fps) else clock;
    LearnedKeeps(rewound, f.n, logical % f.n, StampAt(f, queries, next), next);
    if !Learned(rewound, f.n, logical % f.n, StampAt(f, queries, next), next).0.container {
      LearnedNominally(rewound, f.n, logical % f.n, StampAt(f, queries, next), next, f.fps);
    }
  }

  lemma SeekedNominally(f: Film, v: View, elapsed: real)
    requires f.n > 0 && Steady(v.clock, f.fps)
    ensures var w := Seeked(f, v, elapsed);
      && Steady(w.clock, f.fps) && (v.clock.container ==> w.clock.container)
      && w.deadline == elapsed
      && (!v.clock.container ==> w.logical == SeekIndex(elapsed, v.clock.duration, f.n, f.fps))
  {
    hide Learned;
    var (i, q) := Landing(f, v, elapsed);
    PrefetchedNominally(f, Loops(elapsed, v.clock.duration) * f.n + i, elapsed, Marked(v.clock, StampAt(f, q, i), i), q + 1);
  }

  lemma SkippedNominally(f: Film, v: View, steps: nat)
    requires f.n > 0 && Steady(v.clock, f.fps)
    ensures var w := Skipped(f, v, steps);
      && Steady(w.clock, f.fps) && (v.clock.container ==> w.clock.container)
      && w.logical == v.logical + steps && w.deadline == w.logical as real / f.fps
  {
    hide Learned;
    var logical := v.logical + steps;
    PrefetchedNominally(f, logical, logical as real / f.fps,
                        Marked(v.clock, StampAt(f, v.queries, logical % f.n), logical % f.n), v.queries + 1);
  }

  /**
   * Whatever the decoder reports: as long as container timing stays off, a call shows the frame the
   * wall clock asks for, except that a seek uses the duration it believes in.
   */
  lemma NominalCall(f: Film, v: View, elapsed: real)
    requires f.n > 0 && Nominal(v.clock, f.fps)
    ensures var w := Next(f, v, elapsed);
      !w.clock.container ==> Nominal(w.clock, f.fps)
                             && w.logical == NominalNext(v.logical, v.clock.duration, f.n, f.fps, elapsed)
  {
    hide Learned;
    DeadlineIsDue(elapsed, v.logical + 1, f.fps);
    if NextDeadline(f, v) <= elapsed {
      NominalStale(v.logical, elapsed, v.clock, f.fps);
      var stale := Due(elapsed, f.fps) - v.logical;
      assert stale == Stale(v.clock, f.fps, elapsed - NextDeadline(f, v));
      if stale > MAX_SEQUENTIAL_SKIP {
        SeekedNominally(f, v, elapsed);
      } else if stale > 1 {
        SkippedNominally(f, v, stale);
      } else {
        PromotedOnce(f, v, elapsed);
        var w := PromotedWhileDue(f, v, elapsed, MAX_SEQUENTIAL_SKIP);
        if w.clock.container {
          SeekedNominally(f, w, elapsed);
        }
      }
    }
  }

  lemma PromotedOnce(f: Film, v: View, elapsed: real)
    requires f.n > 0 && Nominal(v.clock, f.fps) && Due(elapsed, f.fps) == v.logical + 1 && NextDeadline(f, v) <= elapsed
    ensures var w := PromotedWhileDue(f, v, elapsed, MAX_SEQUENTIAL_SKIP);
      && Steady(w.clock, f.fps)
      && (!w.clock.container ==> w.logical == v.logical + 1 && elapsed < NextDeadline(f, w))
  {
    hide Learned, Prefetched;
    var p := Promoted(f, v);
    PrefetchedNominally(f, v.logical + 1, NextDeadline(f, v), v.clock, v.queries);
    DeadlineIsDue(elapsed, v.logical + 2, f.fps);
    assert PromotedWhileDue(f, v, elapsed, MAX_SEQUENTIAL_SKIP) == PromotedWhileDue(f, p, elapsed, MAX_SEQUENTIAL_SKIP - 1);
    PromotedStaysSteady(f, p, elapsed, MAX_SEQUENTIAL_SKIP - 1);
  }

  lemma {:induction false} PromotedStaysSteady(f: Film, v: View, elapsed: real, most: nat)
    requires f.n > 0 && Steady(v.clock, f.fps)
    ensures var w := PromotedWhileDue(f, v, elapsed, most);
      Steady(w.clock, f.fps) && (v.clock.container ==> w.clock.container)
    decreases most
  {
    hide Learned;
    if most > 0 {
      PrefetchedNominally(f, v.logical + 1, NextDeadline(f, v), v.clock, v.queries);
      PromotedStaysSteady(f, Promoted(f, v), elapsed, most - 1);
    }
  }

  /** With the file's real duration a seek lands on the frame the wall clock asks for. */
  lemma SeekIndexIsDue(elapsed: real, n: nat, fps: Rate)
    requires n > 0 && elapsed >= 0.0
    ensures n as real / fps > 0.0 && SeekIndex(elapsed, n as real / fps, n, fps) == Due(elapsed, fps)
  {
    RatioPositive(n, fps);
    var d := n as real / fps;
    SeekPhase(elapsed, fps, n, d, Loops(elapsed, d));
    assert Due(elapsed, fps) >= 0 by {
      assert elapsed * fps >= 0.0;
    }
    assert Due(elapsed, fps) == n * (Due(elapsed, fps) / n) + Due(elapsed, fps) % n;
  }

  lemma ProductBelow(x: real, y: real, k: nat)
    requires k > 0 && x < y
    ensures x * k as real < y * k as real
  {
  }

  /** A whole number of steps of `d` beyond any moment. */
  lemma StepsBeyond(from: real, d: real) returns (k: nat)
    requires from >= 0.0 && d > 0.0
    ensures k > 0 && d * k as real >= from
  {
    assert from / d >= 0.0;
    k := (from / d).Floor + 1;
    assert (from / d) * d == from;
    ProductAtMost(from / d, k as real, d);
  }

  lemma ProductAtMost(x: real, y: real, d: real)
    requires x <= y && d >= 0.0
    ensures x * d <= y * d
  {
  }

  lemma WholeQuotient(k: nat, d: real)
    requires d > 0.0
    ensures Loops(d * k as real, d) == k
  {
    QuotientUnique(d * k as real, d, k as real);
    assert d * k as real >= 0.0;
  }

  lemma FloorAtMost(x: real, k: int)
    requires x < k as real
    ensures x.Floor < k
  {
  }

  /** A shorter duration counts a loop too many. */
  lemma ShortDurationGoesWrong(from: real, duration: real, n: nat, fps: Rate) returns (elapsed: real)
    requires n > 0 && 0.0 < duration < n as real / fps && from >= 0.0
    ensures elapsed >= from && SeekIndex(elapsed, duration, n, fps) > Due(elapsed, fps)
  {
    hide SeekTarget, SeekIndex;
    var d := n as real / fps;
    var k := StepsBeyond(from, duration);
    elapsed := duration * k as real;
    WholeQuotient(k, duration);
    ProductBelow(duration, d, k);
    LoopFrames(k, n, fps);
    ProductOrder(elapsed, d * k as real, fps);
    FloorAtMost(elapsed * fps, k * n);
    SeekIndexBounds(elapsed, duration, n, fps);
  }

  lemma ProductOrder(x: real, y: real, d: real)
    requires x < y && d > 0.0
    ensures x * d < y * d
  {
  }

  /** `k` loops of the file last as long as their frames. */
  lemma LoopFrames(k: nat, n: nat, fps: Rate)
    ensures ((n as real / fps) * k as real) * fps == (k * n) as real
  {
    var d := n as real / fps;
    assert d * fps == n as real;
    assert (d * k as real) * fps == (d * fps) * k as real;
  }

  /** A longer one counts a loop too few. */
  lemma LongDurationGoesWrong(from: real, duration: real, n: nat, fps: Rate) returns (elapsed: real)
    requires n > 0 && duration > n as real / fps && from >= 0.0
    ensures elapsed >= from && SeekIndex(elapsed, duration, n, fps) < Due(elapsed, fps)
  {
    hide SeekTarget, SeekIndex;
    RatioPositive(n, fps);
    var d := n as real / fps;
    var k := StepsBeyond(from, d);
    elapsed := d * k as real;
    ProductBelow(d, duration, k);
    QuotientBelow(elapsed, duration, k as real);
    FloorAtMost(elapsed / duration, k);
    LoopFrames(k, n, fps);
    SeekIndexBounds(elapsed, duration, n, fps);
    MultiplesOrder(Loops(elapsed, duration), k, n);
  }

  lemma QuotientBelow(x: real, y: real, z: real)
    requires y > 0.0 && x < y * z
    ensures x / y < z
  {
    var q := x / y;
    assert q * y == x;
    assert q >= z ==> q * y >= z * y;
  }

  lemma MultiplesOrder(i: nat, k: nat, n: nat)
    requires i < k
    ensures i * n + n <= k * n
  {
    assert (i + 1) * n <= k * n;
  }

  /** With any other duration some seek, however late, lands on a frame that is not due. */
  lemma SeekGoesWrong(from: real, duration: real, n: nat, fps: Rate) returns (elapsed: real)
    requires n > 0 && duration > 0.0 && from >= 0.0 && duration != n as real / fps
    ensures elapsed >= from && SeekIndex(elapsed, duration, n, fps) != Due(elapsed, fps)
  {
    if duration < n as real / fps {
      elapsed := ShortDurationGoesWrong(from, duration, n, fps);
    } else {
      elapsed := LongDurationGoesWrong(from, duration, n, fps);
    }
  }

  lemma SeekIndexBounds(elapsed: real, duration: real, n: nat, fps: Rate)
    requires n > 0
    ensures Loops(elapsed, duration) * n <= SeekIndex(elapsed, duration, n, fps) < Loops(elapsed, duration) * n + n
  {
  }

  /**
   * As long as container timing stays off, the next call shows the frame the wall clock asks for,
   * whenever it is made, if and only if the believed duration is the file's.
   */
  lemma DueExactly(logical: nat, duration: real, n: nat, fps: Rate, from: real)
    requires n > 0 && duration > 0.0 && from >= 0.0 && logical <= Due(from, fps)
    ensures (forall elapsed: real | elapsed >= from :: NominalNext(logical, duration, n, fps, elapsed) == Due(elapsed, fps))
            <==> duration == n as real / fps
  {
    if duration == n as real / fps {
      forall elapsed: real | elapsed >= from
        ensures NominalNext(logical, duration, n, fps, elapsed) == Due(elapsed, fps)
      {
        DueMonotone(from, elapsed, fps);
        SeekIndexIsDue(elapsed, n, fps);
      }
    } else {
      var late := Max(from, (logical + MAX_SEQUENTIAL_SKIP + 1) as real / fps);
      var elapsed := SeekGoesWrong(late, duration, n, fps);
      DeadlineIsDue(elapsed, logical + MAX_SEQUENTIAL_SKIP + 1, fps);
      assert NominalNext(logical, duration, n, fps, elapsed) != Due(elapsed, fps);
    }
  }

  // ---------------------------------------------------------------- what changes the believed duration

  /** The file ends between the shown frame and the look-ahead. */
  predicate AtEnd(logical: nat, n: nat)
    requires n > 0
  {
    logical % n + 1 == n
  }

  /** A mark that lies where the frame rate puts it. */
  predicate OnSchedule(m: Mark, origin: Mark, fps: Rate) {
    m.time - origin.time == m.index as real / fps
  }

  /** The length the last mark lets one expect. */
  function TailEstimate(m: Mark, origin: Mark, n: nat, fps: Rate): real
    requires m.index < n
  {
    m.time - origin.time + (n - m.index) as real / fps
  }

  lemma EstimateIsRight(m: Mark, origin: Mark, n: nat, fps: Rate)
    requires m.index < n
    ensures TailEstimate(m, origin, n, fps) == n as real / fps <==> OnSchedule(m, origin, fps)
  {
    assert (n - m.index) as real == n as real - m.index as real;
    assert (n - m.index) as real / fps == n as real / fps - m.index as real / fps;
  }

  lemma StepTimes(k: nat, fps: Rate)
    ensures (1.0 / fps) * k as real == k as real / fps
  {
    QuotientUnique((1.0 / fps) * k as real * fps, fps, (1.0 / fps) * k as real);
    assert (1.0 / fps) * k as real * fps == k as real;
  }

  /**
   * As long as container timing stays off, the believed duration changes only at the end of the file,
   * to the file's length or to what the last mark lets one expect of it.
   */
  lemma DurationAfter(f: Film, logical: nat, deadline: real, clock: Timing, queries: nat)
    requires f.n > 0 && Nominal(clock, f.fps) && (clock.last.Some? ==> clock.origin.Some? && clock.last.value.index < f.n)
    requires !Prefetched(f, logical, deadline, clock, queries).clock.container
    ensures Prefetched(f, logical, deadline, clock, queries).clock.duration ==
            if !AtEnd(logical, f.n) then clock.duration
            else if f.n == 1 || clock.last.None? then f.n as real / f.fps
            else
              var estimate := TailEstimate(clock.last.value, clock.origin.value, f.n, f.fps);
              if estimate > 0.0 then estimate else f.n as real / f.fps
  {
    hide Judged;
    NextIndex(logical, f.n);
    if clock.last.Some? {
      StepTimes(f.n - clock.last.value.index, f.fps);
    }
  }

  /** So at the end of the file it becomes the file's if and only if no mark contradicts the frame rate. */
  lemma DurationIsRight(f: Film, logical: nat, deadline: real, clock: Timing, queries: nat)
    requires f.n > 1 && Nominal(clock, f.fps) && (clock.last.Some? ==> clock.origin.Some? && clock.last.value.index < f.n)
    requires !Prefetched(f, logical, deadline, clock, queries).clock.container && AtEnd(logical, f.n)
    ensures Prefetched(f, logical, deadline, clock, queries).clock.duration == f.n as real / f.fps <==>
            || clock.last.None?
            || OnSchedule(clock.last.value, clock.origin.value, f.fps)
            || TailEstimate(clock.last.value, clock.origin.value, f.n, f.fps) <= 0.0
  {
    hide Prefetched;
    DurationAfter(f, logical, deadline, clock, queries);
    if clock.last.Some? {
      EstimateIsRight(clock.last.value, clock.origin.value, f.n, f.fps);
    }
  }

  // ---------------------------------------------------------------- whole playbacks

  /** The view before call `i`. */
  function Before(v: View, views: seq<View>, i: nat): View
    requires i <= |views|
  {
    if i == 0 then v else views[i - 1]
  }

  lemma {:induction false} PlayLength(f: Film, v: View, times: seq<real>)
    requires f.n > 0
    ensures |Play(f, v, times)| == |times|
    decreases |times|
  {
    hide Next;
    if times != [] {
      PlayLength(f, Next(f, v, times[0]), times[1..]);
    }
  }

  lemma NextStaysSteady(f: Film, v: View, elapsed: real)
    requires f.n > 0 && Steady(v.clock, f.fps)
    ensures Steady(Next(f, v, elapsed).clock, f.fps) && (v.clock.container ==> Next(f, v, elapsed).clock.container)
  {
    hide Learned, Prefetched, Seeked, Skipped, PromotedWhileDue;
    if NextDeadline(f, v) <= elapsed {
      var stale := Stale(v.clock, f.fps, elapsed - NextDeadline(f, v));
      SeekedNominally(f, v, elapsed);
      SkippedNominally(f, v, stale);
      PromotedStaysSteady(f, v, elapsed, MAX_SEQUENTIAL_SKIP);
      SeekedNominally(f, PromotedWhileDue(f, v, elapsed, MAX_SEQUENTIAL_SKIP), elapsed);
    }
  }

  lemma {:induction false} PlayStaysSteady(f: Film, v: View, times: seq<real>, i: nat)
    requires f.n > 0 && Steady(v.clock, f.fps) && i < |times|
    ensures |Play(f, v, times)| == |times| && Steady(Play(f, v, times)[i].clock, f.fps)
    ensures v.clock.container ==> Play(f, v, times)[i].clock.container
    decreases |times|
  {
    hide Next;
    PlayLength(f, v, times);
    NextStaysSteady(f, v, times[0]);
    if i > 0 {
      PlayStaysSteady(f, Next(f, v, times[0]), times[1..], i - 1);
    }
  }

  /**
   * Whatever timestamps the decoder reports: call `i` shows the frame the wall clock asks for, if
   * container timing is still off after it and the believed duration was the file's before every call up to it.
   */
  lemma {:induction false} PlayIsDue(f: Film, v: View, times: seq<real>, start: real, i: nat)
    requires f.n > 0 && Nominal(v.clock, f.fps) && start >= 0.0 && v.logical == Due(start, f.fps)
    requires i < |times| && start <= times[0] && forall j, k | 0 <= j <= k < |times| :: times[j] <= times[k]
    requires |Play(f, v, times)| == |times| && !Play(f, v, times)[i].clock.container
    requires forall j | 0 <= j <= i :: Before(v, Play(f, v, times), j).clock.duration == f.n as real / f.fps
    ensures Play(f, v, times)[i].logical == Due(times[i], f.fps)
    decreases |times|
  {
    hide Next, NominalNext;
    var w := Next(f, v, times[0]);
    var rest := Play(f, w, times[1..]);
    assert Play(f, v, times) == [w] + rest;
    assert Before(v, Play(f, v, times), 0) == v;
    NextStaysSteady(f, v, times[0]);
    if w.clock.container && i > 0 {
      PlayStaysSteady(f, w, times[1..], i - 1);
    }
    NominalCall(f, v, times[0]);
    DueMonotone(start, times[0], f.fps);
    DueExactly(v.logical, v.clock.duration, f.n, f.fps, start);
    if i > 0 {
      PlayLength(f, w, times[1..]);
      forall j | 0 <= j <= i - 1
        ensures Before(w, rest, j).clock.duration == f.n as real / f.fps
      {
        assert Before(v, Play(f, v, times), j + 1) == Before(w, rest, j);
      }
      PlayIsDue(f, w, times[1..], times[0], i - 1);
    }
  }
}
