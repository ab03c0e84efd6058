/**
 * The video backdrop's scheduler: reuse the shown frame, promote the prefetched one, skip a few by
 * grabbing, or seek, so that what is on screen follows the wall clock. For any decoder its work and
 * its deadlines are bounded; on an exact decoder of a file of known length every call computes the
 * function `Next` of `VideoSchedule`.
 */
module VideoBackdrop {
  import opened Options
  import opened VideoDecoder
  import opened VideoSchedule
  import opened VideoRuns
  import opened VideoContainer

  datatype Pending = Pending(frame: Frame, source: nat, logical: nat, pts: Option<real>)

  /** What a call left on screen: whether anything is, under which timing, since when due, and the time. */
  datatype Shown = Shown(started: bool, container: bool, deadline: real, elapsed: real)

  /** Every picture is the frame of the looping file that its logical index names. */
  predicate Pictured(pictures: seq<Option<Frame>>, views: seq<View>, n: nat) {
    n > 0 && |pictures| == |views| && forall i | 0 <= i < |views| :: pictures[i] == Some(Picture(views[i].logical % n))
  }

  lemma FirstPicture(n: nat, picture: Option<Frame>, view: View)
    requires n > 0 && picture == Some(Picture(view.logical % n))
    ensures Pictured([picture], [view], n)
  {
  }

  lemma OnePicture(pictures: seq<Option<Frame>>, views: seq<View>, n: nat, picture: Option<Frame>, view: View)
    requires Pictured(pictures, views, n) && picture == Some(Picture(view.logical % n))
    ensures Pictured(pictures + [picture], views + [view], n)
  {
  }

  class Backdrop {
    const decoder: Decoder
    const fps: Rate
    var frameCount: nat                   // 0 when unknown
    var epoch: Option<real>
    var logical: int
    var source: int
    var deadline: real                    // of the shown frame
    var origin: Option<Mark>              // first timestamp and its frame
    var lastReliable: Option<Mark>
    var containerTiming: bool
    var lastStep: real
    var duration: real
    var pending: Option<Pending>          // the one-frame look-ahead
    var retryNotBefore: real
    var shown: Option<Frame>
    var fatal: bool
    var displayed: nat
    var skipped: nat
    var reused: nat
    var seeks: nat
    var discontinuities: nat
    var failures: nat
    var lastReturned: Option<int>

    predicate Valid()
      reads this
    {
      && lastStep > 0.0 && duration >= 0.0
      && (frameCount > 0 ==> duration > 0.0)
      && logical >= -1 && source >= -1
      && (epoch.Some? ==> logical >= 0 && source >= 0 && shown.Some?)
      && (pending.Some? ==> epoch.Some? && pending.value.logical == logical + 1)
      && (shown.Some? ==> shown.value.valid) && (pending.Some? ==> pending.value.frame.valid)
    }

    function Clock(): Timing
      reads `origin, `lastReliable, `containerTiming, `lastStep, `duration
    {
      Timing(origin, lastReliable, containerTiming, lastStep, duration)
    }

    function FilmOf(): Film {
      Film(decoder.length, fps, decoder.stampOf, decoder.frameAt)
    }

    /** On an exact decoder of known length: the shown picture is the logical one. */
    predicate Showing()
      reads this, decoder
    {
      && decoder.exact && frameCount == decoder.length > 0
      && !fatal && retryNotBefore == 0.0 && epoch.Some? && logical >= 0
      && source == logical % frameCount && shown == Some(Picture(source))
    }

    /** Showing, with the next frame prefetched and the decoder just after it. */
    predicate Ahead()
      reads this, decoder
    {
      && Showing() && pending.Some?
      && var next := (logical + 1) % frameCount;
         pending.value == Pending(Picture(next), next, logical + 1, pending.value.pts) && decoder.pos == next + 1
    }

    function Now(): View
      requires logical >= 0 && pending.Some?
      reads this, decoder
    {
      View(logical, deadline, Clock(), pending.value.pts, decoder.queries)
    }

    constructor (decoder: Decoder, fps: Rate, frameCount: nat)
      ensures Valid() && this.decoder == decoder && this.fps == fps && this.frameCount == frameCount
      ensures epoch.None? && shown.None? && pending.None? && !fatal && retryNotBefore == 0.0
      ensures Clock() == Timing(None, None, false, 1.0 / fps, frameCount as real / fps)
      ensures displayed == skipped == reused == 0 && lastReturned.None? && deadline == 0.0 && logical == -1
    {
      this.decoder, this.fps, this.frameCount := decoder, fps, frameCount;
      epoch, logical, source, deadline := None, -1, -1, 0.0;
      origin, lastReliable, containerTiming := None, None, false;
      lastStep := 1.0 / fps;
      duration := frameCount as real / fps;
      RatioPositive(frameCount, fps);
      pending, retryNotBefore, shown, fatal := None, 0.0, None, false;
      displayed, skipped, reused, seeks, discontinuities, failures := 0, 0, 0, 0, 0, 0;
      lastReturned := None;
    }

    // ------------------------------------------------------------ reading the decoder

    /** `_valid_decoded_frame`: an oversized frame also quarantines the decoder. */
    method Accept(frame: Frame) returns (ok: bool)
      modifies `fatal
      ensures ok == frame.valid && fatal == (old(fatal) || (!frame.valid && frame.oversize))
    {
      ok := frame.valid;
      if !ok && frame.oversize {
        fatal := true;
      }
    }

    method CaptureIndex(fallback: nat) returns (index: nat)
      modifies decoder`tape
      ensures decoder.exact && 0 < decoder.pos && (frameCount > 0 ==> decoder.pos <= frameCount) ==> index == decoder.pos - 1
    {
      var p := decoder.Position();
      index := fallback;
      if p.Some? && p.value >= 1 && (frameCount > 0 ==> p.value <= frameCount) {
        index := p.value - 1;
      }
    }

    /** Showing this frame begins another loop: told by its number, or without a known length by the wrap. */
    predicate BeginsLoop(sourceIndex: nat, logicalIndex: nat)
      reads this
    {
      if frameCount > 0 then logical >= 0 && logicalIndex / frameCount > logical / frameCount
      else sourceIndex == 0 && 0 < source && logical < logicalIndex
    }

    /** `_remember`: this frame is on screen now. */
    method Remember(frame: Frame, sourceIndex: nat, logicalIndex: nat, deadlineAt: real)
      modifies `discontinuities, `shown, `source, `logical, `deadline
      ensures shown == Some(frame) && source == sourceIndex && logical == logicalIndex && deadline == deadlineAt
      ensures discontinuities == old(discontinuities) + if old(BeginsLoop(sourceIndex, logicalIndex)) then 1 else 0
    {
      var knownLoop := frameCount > 0 && logical >= 0 && logicalIndex / frameCount > logical / frameCount;
      var unknownLoop := frameCount == 0 && sourceIndex == 0 && source > 0 && logicalIndex > logical;
      if knownLoop || unknownLoop {
        discontinuities := discontinuities + 1;
      }
      shown, source, logical, deadline := Some(frame), sourceIndex, logicalIndex, deadlineAt;
    }

    /** A wrapped read: estimate the unseen tail from the last reliable timestamp. */
    method LearnTail()
      modifies `duration, `lastReliable
      ensures Clock() == AfterTail(old(Clock()), frameCount)
    {
      if frameCount > 0 && origin.Some? && lastReliable.Some? {
        var last := lastReliable.value;
        var remaining := if frameCount > last.index then frameCount - last.index else 1;
        var candidate := last.time - origin.value.time + lastStep * remaining as real;
        if candidate > 0.0 {
          duration := candidate;
        }
      }
      lastReliable := None;
    }

    /** A plausible step turns container timing on; any other is refused. */
    method LearnStep(step: real, pts: real, sourceIndex: nat) returns (plausible: bool)
      modifies `duration, `lastStep, `containerTiming
      ensures plausible == Plausible(step)
      ensures Clock() == if plausible then Stepped(old(Clock()), frameCount, step, pts, sourceIndex) else old(Clock())
    {
      plausible := MIN_TIMESTAMP_STEP <= step <= MAX_TIMESTAMP_STEP;
      if plausible {
        containerTiming := true;
        lastStep := step;
        if frameCount > 0 && origin.Some? {
          var candidate := pts - origin.value.time + step * (frameCount - sourceIndex) as real;
          if candidate > 0.0 {
            duration := candidate;
          }
        }
      }
    }

    /** What `_store_pending` learns from one timestamp, and the timestamp it keeps. */
    method LearnTimestamp(pts: Option<real>, sourceIndex: nat) returns (kept: Option<real>)
      requires Valid()
      modifies `origin, `lastReliable, `containerTiming, `lastStep, `duration
      ensures Valid() && (old(containerTiming) ==> containerTiming)
      ensures (Clock(), kept) == Learned(old(Clock()), frameCount, source, pts, sourceIndex)
    {
      hide AfterTail, Judged, Stepped, Plausible, Due, DeadlineFor;
      LearnedKeeps(Clock(), frameCount, source, pts, sourceIndex);
      if origin.None? && pts.Some? {
        origin := Some(Mark(pts.value, sourceIndex));
      }
      var last := lastReliable;
      var looped := sourceIndex == 0 && source != 0;
      if looped {
        LearnTail();
      }
      JudgedStep(Clock(), pts, sourceIndex, looped, last);
      var judged := Judged(Clock(), pts, sourceIndex, looped, last);
      kept := Believe(judged.0, judged.1, pts, sourceIndex);
    }

    /** A timestamp that was judged is believed unless the step it implies is implausible. */
    method Believe(judged: Option<real>, step: Option<real>, pts: Option<real>, sourceIndex: nat) returns (kept: Option<real>)
      requires step.Some? ==> pts.Some?
      modifies `lastReliable, `containerTiming, `lastStep, `duration
      ensures (Clock(), kept) ==
              if step.None? then (Marked(old(Clock()), judged, sourceIndex), judged)
              else if !Plausible(step.value) then (old(Clock()), None)
              else (Marked(Stepped(old(Clock()), frameCount, step.value, pts.value, sourceIndex), judged, sourceIndex), judged)
    {
      hide Stepped, Plausible;
      kept := judged;
      if step.Some? {
        var plausible := LearnStep(step.value, pts.value, sourceIndex);
        kept := if plausible then judged else None;
      }
      if kept.Some? {
        lastReliable := Some(Mark(kept.value, sourceIndex));
      }
    }

    /** `_store_pending`: keep the frame as look-ahead and learn from its timestamp. */
    method StorePending(frame: Frame, expected: nat, logicalIndex: nat)
      requires Valid() && epoch.Some? && logicalIndex == logical + 1 && frame.valid
      modifies `origin, `lastReliable, `containerTiming, `lastStep, `duration, `pending, decoder`tape, decoder`queries
      ensures Valid() && pending.Some? && pending.value.frame == frame
      ensures old(containerTiming) ==> containerTiming
      ensures decoder.exact && 0 < decoder.pos && (frameCount > 0 ==> decoder.pos <= frameCount) ==>
        && pending.value == Pending(frame, decoder.pos - 1, logicalIndex, pending.value.pts)
        && (Clock(), pending.value.pts) == Learned(old(Clock()), frameCount, source, old(decoder.Stamp()), decoder.pos - 1)
        && decoder.queries == old(decoder.queries) + 1
    {
      hide Learned;
      var sourceIndex := CaptureIndex(expected);
      var pts := decoder.Timestamp();
      pts := LearnTimestamp(pts, sourceIndex);
      pending := Some(Pending(frame, sourceIndex, logicalIndex, pts));
    }

    /** The next frame, read again from its own position if that fails. */
    method ReadTwice(expected: nat) returns (frame: Option<Frame>)
      modifies decoder`tape, decoder`pos, decoder`decodes
      ensures decoder.decodes <= old(decoder.decodes) + 2
      ensures decoder.exact && old(decoder.pos) == expected <= decoder.length ==>
        if expected < decoder.length then frame == Some(Picture(expected)) && decoder.pos == expected + 1
        else frame.None? && decoder.pos == expected
      ensures !decoder.exact ==>
        var first, second := old(decoder.Coming(0)), old(decoder.Coming(2));
        frame == if first.ok && first.frame.Some? then first.frame
                 else if expected > 0 && old(decoder.Coming(1)).ok && second.ok then second.frame else None
    {
      frame := decoder.Read();
      if frame.None? && expected > 0 {
        var again := decoder.SeekFrame(expected);
        if again {
          frame := decoder.Read();
        }
      }
    }

    /**
     * The sequential read of `_prefetch_next`: retry the expected frame, then take a successful
     * rewind as the end of the file and learn its length, whatever length was believed before.
     */
    method ReadNext(expected: nat) returns (frame: Option<Frame>, at: nat)
      requires Valid()
      modifies `frameCount, `duration, decoder`tape, decoder`pos, decoder`decodes
      ensures Valid() && (frameCount != old(frameCount) ==> frameCount > 0)
      ensures decoder.decodes <= old(decoder.decodes) + 3
      ensures decoder.exact && old(decoder.pos) == expected <= decoder.length && decoder.length > 0 ==>
        && frameCount == (if expected < decoder.length then old(frameCount) else decoder.length)
        && duration == (if expected < decoder.length then old(duration) else decoder.length as real / fps)
        && at == (if expected < decoder.length then expected else 0)
        && frame == Some(Picture(at)) && decoder.pos == at + 1
    {
      at := expected;
      frame := ReadTwice(expected);
      if frame.None? {
        var rewound := decoder.SeekFrame(0);
        if rewound {
          frame := decoder.Read();
          if frame.Some? && expected > 0 {
            SetLength(expected);
            at := 0;
          }
        }
      }
    }

    method SetLength(n: nat)
      requires Valid() && n > 0
      modifies `frameCount, `duration
      ensures Valid() && frameCount == n && duration == n as real / fps
    {
      frameCount := n;
      RatioPositive(n, fps);
      duration := n as real / fps;
    }

    /** An understated length is corrected by the frame beyond it. */
    function Corrected(count: nat, at: nat): nat {
      if 0 < count <= at then at + 1 else count
    }

    /** The second half of `_prefetch_next`: judge the frame read, correct an understated length, keep it. */
    method KeepNext(frame: Frame, expected: nat) returns (ok: bool)
      requires Valid() && epoch.Some? && pending.None?
      modifies `frameCount, `duration, `fatal, `retryNotBefore, `origin, `lastReliable, `containerTiming, `lastStep,
               `pending, decoder`tape, decoder`queries
      ensures old(frameCount) > 0 ==> frameCount > 0
      ensures Valid() && ok == pending.Some?
      ensures old(containerTiming) ==> containerTiming
      ensures retryNotBefore == if ok then 0.0 else old(retryNotBefore)
      ensures decoder.exact && frame.valid && decoder.pos == expected + 1 ==>
        ok && fatal == old(fatal) && frameCount == Corrected(old(frameCount), expected)
        && pending.value.frame == frame && pending.value.source == expected
      ensures decoder.exact && frame.valid && expected < old(frameCount) == decoder.length && decoder.pos == expected + 1 ==>
        && pending.value == Pending(frame, expected, logical + 1, pending.value.pts)
        && (Clock(), pending.value.pts) == Learned(old(Clock()), frameCount, source, old(decoder.Stamp()), expected)
        && decoder.queries == old(decoder.queries) + 1
    {
      hide Learned;
      var logicalIndex := logical + 1;
      var accepted := Accept(frame);
      if !accepted {
        return false;
      }
      if frameCount > 0 && expected >= frameCount {
        SetLength(expected + 1);
      }
      StorePending(frame, expected, logicalIndex);
      retryNotBefore := 0.0;
      return true;
    }

    /**
     * `_prefetch_next`: at most three reads. Whatever length was advertised, or none, an exact decoder's
     * first end teaches the right one, and a frame beyond an understated length corrects it.
     */
    method PrefetchNext() returns (ok: bool)
      requires Valid() && epoch.Some? && pending.None?
      modifies `frameCount, `duration, `fatal, `retryNotBefore, `origin, `lastReliable, `containerTiming, `lastStep,
               `pending, decoder`tape, decoder`pos, decoder`queries, decoder`decodes
      ensures old(frameCount) > 0 ==> frameCount > 0
      ensures Valid() && ok == pending.Some?
      ensures old(containerTiming) ==> containerTiming
      ensures decoder.decodes <= old(decoder.decodes) + 3
      ensures retryNotBefore == if ok then 0.0 else old(retryNotBefore)
      ensures decoder.exact && old(decoder.pos) == source + 1 <= decoder.length ==>
        && ok
        && pending.value.source == (if source + 1 < decoder.length then source + 1 else 0)
        && pending.value.frame == Picture(pending.value.source)
        && frameCount == if source + 1 < decoder.length then Corrected(old(frameCount), source + 1) else decoder.length
      ensures old(Showing() && decoder.pos == source + 1) ==>
        ok && Ahead() && Now() == Prefetched(FilmOf(), logical, deadline, old(Clock()), old(decoder.queries))
    {
      hide Learned, StampAt;
      if decoder.length > 0 {
        NextIndex(logical, decoder.length);
      }
      var frame, expected := ReadNext(source + 1);
      if frame.None? {
        return false;
      }
      StampIsStampAt();
      ok := KeepNext(frame.value, expected);
    }

    lemma StampIsStampAt()
      ensures decoder.pos > 0 ==> decoder.Stamp() == StampAt(FilmOf(), decoder.queries, decoder.pos - 1)
    {
    }

    // ------------------------------------------------------------ deadlines and promotion

    /** `_deadline_s`: when a look-ahead frame is due. */
    function DeadlineOf(p: Pending): real
      reads this
    {
      DeadlineFor(Clock(), frameCount, fps, p.pts, p.logical, deadline)
    }

    /** Every later frame is due strictly after the shown one, once container timing is on. */
    lemma DeadlineAdvances(p: Pending)
      requires containerTiming
      ensures DeadlineOf(p) > deadline
    {
      assert 1.0 / fps > 0.0;
    }

    /** `_promote_pending`: the look-ahead frame is due, so show it. */
    method PromotePending(elapsed: real)
      requires Valid() && pending.Some? && DeadlineOf(pending.value) <= elapsed
      modifies `pending, `discontinuities, `shown, `source, `logical, `deadline
      ensures Valid() && pending.None?
      ensures shown == Some(old(pending).value.frame) && source == old(pending).value.source && logical == old(logical) + 1
      ensures deadline == old(DeadlineOf(pending.value)) <= elapsed
      ensures containerTiming ==> deadline > old(deadline)
      ensures old(Ahead()) ==> Showing() && decoder.pos == source + 1
    {
      if containerTiming {
        DeadlineAdvances(pending.value);
      }
      var p := pending.value;
      var at := DeadlineOf(p);
      pending := None;
      Remember(p.frame, p.source, p.logical, at);
    }

    // ------------------------------------------------------------ skipping

    /** After a failed skip the decoder stands behind the look-ahead frame again. */
    method RestoreAfterPending(p: Pending)
      modifies decoder`pos, decoder`tape
      ensures decoder.exact && frameCount == decoder.length > p.source ==>
        decoder.pos == if p.source + 1 < decoder.length then p.source + 1 else 0
    {
      var resume := if frameCount > 0 then (p.source + 1) % frameCount else p.source + 1;
      var _ := decoder.SeekFrame(resume);
    }

    /** Grab past the stale frames: offsets two to `steps`, rewinding once at a loop boundary. */
    method GrabStale(steps: nat) returns (ok: bool)
      requires Valid() && epoch.Some? && 2 <= steps <= MAX_SEQUENTIAL_SKIP
      modifies decoder`pos, decoder`tape, decoder`grabs, decoder`grabbed
      ensures decoder.grabs <= old(decoder.grabs) + 2 * (steps - 1)
      ensures ok ==> decoder.grabbed == old(decoder.grabbed) + (steps - 1)
      ensures decoder.exact && frameCount == decoder.length > 0 && old(decoder.pos) == (logical + 1) % frameCount + 1 ==>
        ok && decoder.pos == (logical + steps) % frameCount + 1
    {
      for offset := 2 to steps + 1
        invariant decoder.grabs <= old(decoder.grabs) + 2 * (offset - 2)
        invariant decoder.grabbed == old(decoder.grabbed) + (offset - 2)
        invariant decoder.exact && frameCount == decoder.length > 0 && old(decoder.pos) == (logical + 1) % frameCount + 1 ==>
          decoder.pos == (logical + offset - 1) % frameCount + 1
      {
        if frameCount > 0 {
          NextIndex(logical + offset - 1, frameCount);
        }
        var expected := if frameCount > 0 then (logical + offset) % frameCount else source + offset;
        ok := decoder.Grab();
        if !ok && frameCount > 0 && expected == 0 {
          var rewound := decoder.SeekFrame(0);
          if !rewound {
            return false;
          }
          ok := decoder.Grab();
        }
        if !ok {
          return false;
        }
      }
      return true;
    }

    /** Put a frame decoded out of turn on screen, dropping the look-ahead. */
    method Publish(frame: Frame, sourceIndex: nat, logicalIndex: nat, at: real, pts: Option<real>)
      requires Valid() && epoch.Some? && frame.valid
      modifies `pending, `discontinuities, `shown, `source, `logical, `deadline, `lastReliable
      ensures Valid() && pending.None? && deadline == at
      ensures shown == Some(frame) && source == sourceIndex && logical == logicalIndex
      ensures Clock() == Marked(old(Clock()), pts, sourceIndex)
    {
      pending := None;
      Remember(frame, sourceIndex, logicalIndex, at);
      if pts.Some? {
        lastReliable := Some(Mark(pts.value, sourceIndex));
      }
    }

    /** Decode what was grabbed last, if it is acceptable. */
    method DecodeGrabbed() returns (frame: Option<Frame>)
      modifies `fatal, decoder`tape
      ensures (old(fatal) ==> fatal) && (frame.Some? ==> frame.value.valid)
      ensures decoder.exact && 0 < decoder.pos ==> frame == Some(Picture(decoder.pos - 1)) && fatal == old(fatal)
    {
      frame := decoder.Retrieve();
      if frame.Some? {
        var accepted := Accept(frame.value);
        frame := if accepted then frame else None;
      }
    }

    /** Grab past the stale frames and decode the last one. */
    method GrabAndDecode(steps: nat) returns (frame: Option<Frame>)
      requires Valid() && epoch.Some? && 2 <= steps <= MAX_SEQUENTIAL_SKIP
      modifies `fatal, decoder`pos, decoder`tape, decoder`grabs, decoder`grabbed
      ensures frame.Some? ==> frame.value.valid && decoder.grabbed == old(decoder.grabbed) + (steps - 1)
      ensures decoder.grabs <= old(decoder.grabs) + 14
      ensures decoder.exact && frameCount == decoder.length > 0 && old(decoder.pos) == (logical + 1) % frameCount + 1 ==>
        && decoder.pos == (logical + steps) % frameCount + 1 && fatal == old(fatal)
        && frame == Some(Picture((logical + steps) % frameCount))
    {
      frame := None;
      var ok := GrabStale(steps);
      if ok {
        frame := DecodeGrabbed();
      }
    }

    /** Show a frame decoded out of turn and look ahead again. */
    method ShowAt(frame: Frame, sourceIndex: nat, logicalIndex: nat, at: real, pts: Option<real>)
      requires Valid() && epoch.Some? && frame.valid
      modifies `frameCount, `duration, `fatal, `retryNotBefore, `origin, `lastReliable, `containerTiming, `lastStep,
               `pending, `discontinuities, `shown, `source, `logical, `deadline,
               decoder`tape, decoder`pos, decoder`queries, decoder`decodes
      ensures old(frameCount) > 0 ==> frameCount > 0
      ensures Valid() && (old(containerTiming) ==> containerTiming) && deadline == at
      ensures decoder.decodes <= old(decoder.decodes) + 3 && shown == Some(frame) && source == sourceIndex && logical == logicalIndex
      ensures old(Showing()) && old(decoder.pos) == sourceIndex + 1 && sourceIndex == logicalIndex % decoder.length
              && frame == Picture(sourceIndex) ==>
        Ahead() && Now() == Prefetched(FilmOf(), logicalIndex, at, Marked(old(Clock()), pts, sourceIndex), old(decoder.queries))
    {
      hide Prefetched;
      Publish(frame, sourceIndex, logicalIndex, at, pts);
      var _ := PrefetchNext();
    }

    /** What is on screen, and the look-ahead, are still these. */
    predicate Untouched(shown0: Option<Frame>, source0: int, logical0: int, pending0: Option<Pending>)
      reads this
    {
      shown == shown0 && source == source0 && logical == logical0 && pending == pending0
    }

    /** `_skip_stale_nominal`: skip two to eight frames, decoding only the last. */
    method SkipStaleNominal(steps: nat, elapsed: real) returns (ok: bool)
      requires Valid() && pending.Some? && 2 <= steps <= MAX_SEQUENTIAL_SKIP && !containerTiming
      requires (logical + steps) as real / fps <= elapsed
      modifies `frameCount, `duration, `fatal, `retryNotBefore, `origin, `lastReliable, `containerTiming, `lastStep,
               `pending, `discontinuities, `shown, `source, `logical, `deadline,
               decoder`tape, decoder`pos, decoder`queries, decoder`decodes, decoder`grabs, decoder`grabbed
      ensures Valid()
      ensures decoder.decodes <= old(decoder.decodes) + 3 && decoder.grabs <= old(decoder.grabs) + 14
      ensures deadline <= elapsed || deadline == old(deadline)
      ensures if ok then logical == old(logical) + steps else Untouched(old(shown), old(source), old(logical), old(pending))
      ensures old(Ahead()) ==> ok && Ahead() && Now() == Skipped(FilmOf(), old(Now()), steps)
    {
      hide Prefetched, StampAt, Marked, Due;
      var p := pending.value;
      var targetLogical := logical + steps;
      var targetSource := if frameCount > 0 then targetLogical % frameCount else source + steps;
      var frame := GrabAndDecode(steps);
      if frame.None? {
        RestoreAfterPending(p);
        return false;
      }
      var sourceIndex := CaptureIndex(targetSource);
      StampIsStampAt();
      var pts := decoder.Timestamp();
      ShowAt(frame.value, sourceIndex, targetLogical, targetLogical as real / fps, pts);
      ok := true;
    }

    // ------------------------------------------------------------ seeking

    method ReadStamped() returns (frame: Option<Frame>, pts: Option<real>)
      modifies decoder`tape, decoder`pos, decoder`queries, decoder`decodes
      ensures decoder.decodes == old(decoder.decodes) + 1
      ensures decoder.exact && old(decoder.pos) < decoder.length ==>
        && frame == Some(Picture(old(decoder.pos))) && decoder.pos == old(decoder.pos) + 1
        && pts == StampAt(FilmOf(), old(decoder.queries), old(decoder.pos)) && decoder.queries == old(decoder.queries) + 1
    {
      frame := decoder.Read();
      pts := None;
      if frame.Some? {
        pts := decoder.Timestamp();
      }
    }

    /** Seek by timestamp when there is one to seek by and it lands close enough, else by index. */
    method SeekRead(elapsed: real, target: nat) returns (frame: Option<Frame>, pts: Option<real>)
      requires Valid()
      requires frameCount == decoder.length > 0 ==> target == SeekTarget(elapsed, duration, frameCount, fps)
      modifies decoder`tape, decoder`pos, decoder`queries, decoder`decodes
      ensures decoder.decodes <= old(decoder.decodes) + 2
      ensures old(Ahead()) ==>
        && var (i, q) := Landing(FilmOf(), old(Now()), elapsed);
        && frame == Some(Picture(i)) && i < decoder.length && decoder.pos == i + 1
        && pts == StampAt(FilmOf(), q, i) && decoder.queries == q + 1
    {
      var byTime := false;
      var at := (if origin.Some? then origin.value.time else 0.0) + PhaseOf(elapsed);
      frame, pts := None, None;
      if containerTiming && origin.Some? {
        byTime := decoder.SeekTime(at);
      }
      if byTime {
        frame, pts := ReadStamped();
        var tolerance := Max(Max(0.05, 2.0 / fps), 2.0 * lastStep);
        var accurate := pts.Some? && Abs(pts.value - at) <= tolerance;
        if frame.Some? && accurate {
          return;
        }
      }
      var found := decoder.SeekFrame(target);
      if !found {
        return None, None;
      }
      frame, pts := ReadStamped();
    }

    /** The time within the current loop, of a file of known length. */
    function PhaseOf(elapsed: real): real
      reads this
    {
      if frameCount > 0 then Phase(elapsed, duration) else elapsed
    }

    /** The loop and the frame of the file a seek asks for. */
    method SeekPlan(elapsed: real) returns (loop: nat, target: nat)
      requires Valid() && elapsed >= 0.0
      ensures frameCount > 0 ==> loop == Loops(elapsed, duration) && target == SeekTarget(elapsed, duration, frameCount, fps)
    {
      loop := 0;
      DueNatural(elapsed, fps);
      target := Due(elapsed, fps);
      if frameCount > 0 {
        loop := Loops(elapsed, duration);
        target := SeekTarget(elapsed, duration, frameCount, fps);
      }
    }

    /** `_seek_to_elapsed`: show the frame the wall clock asks for, or leave everything as it is. */
    method SeekToElapsed(elapsed: real) returns (ok: bool)
      requires Valid() && epoch.Some? && elapsed >= 0.0
      modifies `frameCount, `duration, `fatal, `retryNotBefore, `origin, `lastReliable, `containerTiming, `lastStep,
               `pending, `discontinuities, `shown, `source, `logical, `deadline, `seeks,
               decoder`tape, decoder`pos, decoder`queries, decoder`decodes
      ensures old(frameCount) > 0 ==> frameCount > 0
      ensures Valid() && (old(containerTiming) ==> containerTiming)
      ensures decoder.decodes <= old(decoder.decodes) + 5
      ensures deadline == if ok then elapsed else old(deadline)
      ensures !ok ==> Untouched(old(shown), old(source), old(logical), old(pending)) && seeks == old(seeks)
      ensures ok ==> seeks == old(seeks) + 1
      ensures old(Ahead()) ==> ok && Ahead() && Now() == Seeked(FilmOf(), old(Now()), elapsed)
    {
      hide Prefetched, Landing, SeekTarget, Loops, StampAt;
      ghost var exact := Ahead();
      ghost var landed := if exact then Landing(FilmOf(), Now(), elapsed) else (0, 0);
      var loop, target := SeekPlan(elapsed);
      var frame, pts := SeekRead(elapsed, target);
      if frame.None? {
        return false;
      }
      var accepted := Accept(frame.value);
      if !accepted {
        return false;
      }
      assert exact ==> Showing() && decoder.pos == landed.0 + 1 <= decoder.length && frame.value == Picture(landed.0);
      Land(frame.value, loop, target, elapsed, pts);
      return true;
    }

    /** What was found is shown, numbered by the whole loops before it. */
    method Land(frame: Frame, loop: nat, target: nat, elapsed: real, pts: Option<real>)
      requires Valid() && epoch.Some? && frame.valid
      modifies `frameCount, `duration, `fatal, `retryNotBefore, `origin, `lastReliable, `containerTiming, `lastStep,
               `pending, `discontinuities, `shown, `source, `logical, `deadline, `seeks,
               decoder`tape, decoder`pos, decoder`queries, decoder`decodes
      ensures old(frameCount) > 0 ==> frameCount > 0
      ensures Valid() && (old(containerTiming) ==> containerTiming) && deadline == elapsed
      ensures decoder.decodes <= old(decoder.decodes) + 3 && seeks == old(seeks) + 1 && shown == Some(frame)
      ensures logical == if old(frameCount) > 0 then loop * old(frameCount) + source else target
      ensures old(Showing()) && 0 < old(decoder.pos) <= decoder.length && frame == Picture(old(decoder.pos) - 1) ==>
        var i := old(decoder.pos) - 1;
        Ahead() && Now() == Prefetched(FilmOf(), loop * decoder.length + i, elapsed, Marked(old(Clock()), pts, i), old(decoder.queries))
    {
      hide Prefetched;
      var sourceIndex := CaptureIndex(target);
      var logicalIndex := target;
      if frameCount > 0 {
        logicalIndex := loop * frameCount + sourceIndex;
        if sourceIndex < frameCount {
          DivModUnique(logicalIndex, frameCount, loop, sourceIndex);
        }
      }
      ShowAt(frame, sourceIndex, logicalIndex, elapsed, pts);
      seeks, discontinuities := seeks + 1, discontinuities + 1;
    }

    // ------------------------------------------------------------ one call

    function Elapsed(now: real): real
      reads this
    {
      if epoch.None? then 0.0 else Max(0.0, now - epoch.value)
    }

    /** The first acceptable frame, with one rewind. */
    method ReadFirst() returns (frame: Option<Frame>)
      modifies `fatal, decoder`tape, decoder`pos, decoder`decodes
      ensures decoder.decodes <= old(decoder.decodes) + 2
      ensures frame.Some? ==> frame.value.valid
      ensures decoder.exact && 0 < decoder.length ==>
        var at := if old(decoder.pos) < decoder.length then old(decoder.pos) else 0;
        frame == Some(Picture(at)) && decoder.pos == at + 1 && fatal == old(fatal)
    {
      frame := decoder.Read();
      if frame.None? {
        var _ := decoder.SeekFrame(0);
        frame := decoder.Read();
      }
      if frame.Some? {
        var accepted := Accept(frame.value);
        frame := if accepted then frame else None;
      }
    }

    /** The first frame is on screen and the clock starts. */
    method StartClock(frame: Frame, now: real)
      requires Valid() && epoch.None? && frame.valid
      modifies `origin, `lastReliable, `discontinuities, `shown, `source, `logical, `deadline, `epoch,
               decoder`tape, decoder`queries
      ensures Valid() && epoch == Some(now) && deadline == 0.0 && logical == 0
      ensures decoder.exact && decoder.pos == 1 && frameCount == decoder.length > 0 && frame == Picture(0) ==>
        && source == 0 && shown == Some(Picture(0)) && decoder.queries == old(decoder.queries) + 1
        && var pts := StampAt(FilmOf(), old(decoder.queries), 0);
           var mark := if pts.Some? then Some(Mark(pts.value, 0)) else None;
           Clock() == old(Clock()).(origin := mark, last := mark)
    {
      var sourceIndex := CaptureIndex(0);
      var pts := decoder.Timestamp();
      origin := if pts.Some? then Some(Mark(pts.value, sourceIndex)) else None;
      lastReliable := origin;
      Remember(frame, sourceIndex, 0, 0.0);
      epoch := Some(now);
    }

    /** `_decode_first`. */
    method DecodeFirst(now: real) returns (raised: bool)
      requires Valid() && epoch.None?
      modifies `frameCount, `duration, `fatal, `retryNotBefore, `origin, `lastReliable, `containerTiming, `lastStep,
               `pending, `discontinuities, `shown, `source, `logical, `deadline, `epoch, `failures,
               decoder`tape, decoder`pos, decoder`queries, decoder`decodes
      ensures Valid() && (old(containerTiming) ==> containerTiming)
      ensures decoder.decodes <= old(decoder.decodes) + 5
      ensures epoch.Some? ==> epoch == Some(now) && deadline == 0.0
      ensures epoch.None? ==> deadline == old(deadline)
      ensures raised == (epoch.Some? && fatal) && failures == old(failures) + if epoch.None? then 1 else 0
      ensures old(AtStart()) ==>
        epoch.Some? && Ahead() && !raised && Now() == First(FilmOf(), old(Clock()), old(decoder.queries))
    {
      hide Prefetched;
      raised := false;
      var frame := ReadFirst();
      if frame.None? {
        failures := failures + 1;
        return;
      }
      StartClock(frame.value, now);
      var _ := PrefetchNext();
      raised := fatal;
    }

    /** Before the first call, on an exact decoder of known length. */
    predicate AtStart()
      reads this, decoder
    {
      && decoder.exact && frameCount == decoder.length > 0 && decoder.pos == 0
      && epoch.None? && pending.None? && !fatal && retryNotBefore == 0.0
    }

    method Postpone(elapsed: real)
      modifies `retryNotBefore, `failures
      ensures failures == old(failures) + 1 && retryNotBefore == elapsed + 1.0 / fps
    {
      retryNotBefore, failures := elapsed + 1.0 / fps, failures + 1;
    }

    /** The sequential branch: promote at most eight due frames, prefetching after each. */
    method PromoteDue(elapsed: real)
      requires Valid() && pending.Some? && deadline <= elapsed
      modifies `frameCount, `duration, `fatal, `retryNotBefore, `origin, `lastReliable, `containerTiming, `lastStep,
               `pending, `discontinuities, `shown, `source, `logical, `deadline,
               decoder`tape, decoder`pos, decoder`queries, decoder`decodes
      ensures Valid() && deadline <= elapsed && (old(containerTiming) ==> containerTiming && old(deadline) <= deadline)
      ensures decoder.decodes <= old(decoder.decodes) + 24
      ensures pending.None? ==> retryNotBefore == elapsed + 1.0 / fps
      ensures old(Ahead()) ==>
        Ahead() && Now() == PromotedWhileDue(FilmOf(), old(Now()), elapsed, MAX_SEQUENTIAL_SKIP)
    {
      hide Prefetched;
      ghost var exact := Ahead();
      ghost var goal := if exact then PromotedWhileDue(FilmOf(), Now(), elapsed, MAX_SEQUENTIAL_SKIP)
                        else View(0, 0.0, Clock(), None, 0);
      var left: nat := MAX_SEQUENTIAL_SKIP;
      while pending.Some? && left > 0
        invariant Valid() && deadline <= elapsed && (old(containerTiming) ==> containerTiming && old(deadline) <= deadline)
        invariant left <= MAX_SEQUENTIAL_SKIP && pending.Some?
        invariant decoder.decodes <= old(decoder.decodes) + 3 * (MAX_SEQUENTIAL_SKIP - left)
        invariant exact ==> Ahead() && goal == PromotedWhileDue(FilmOf(), Now(), elapsed, left)
        decreases left
      {
        if elapsed < DeadlineOf(pending.value) {
          break;
        }
        PromotePending(elapsed);
        left := left - 1;
        var more := PrefetchNext();
        if !more {
          retryNotBefore := elapsed + 1.0 / fps;
          break;
        }
      }
    }

    /** How many frames the wall clock is ahead of the look-ahead frame, at least one. */
    method EstimateStale(elapsed: real) returns (stale: nat)
      requires Valid() && pending.Some?
      ensures stale == Stale(Clock(), fps, elapsed - DeadlineOf(pending.value)) >= 1
    {
      var late := elapsed - DeadlineOf(pending.value);
      var rate: real := fps;
      if containerTiming {
        rate := Min(MAX_FPS, 1.0 / lastStep);
      }
      var whole := (late * rate).Floor + 1;
      stale := if whole < 1 then 1 else whole;
    }

    /** In nominal timing the estimate is the distance to the due frame, whose deadline has passed. */
    lemma StaleIsDue(elapsed: real)
      requires Valid() && pending.Some? && DeadlineOf(pending.value) <= elapsed && !containerTiming
      ensures var stale := Stale(Clock(), fps, elapsed - DeadlineOf(pending.value));
        logical + stale == Due(elapsed, fps) && (logical + stale) as real / fps <= elapsed
    {
      hide Stale;
      NominalStale(logical, elapsed, Clock(), fps);
      DeadlineIsDue(elapsed, Due(elapsed, fps), fps);
    }

    /** Seek, or wait for a frame's length when that fails. */
    method SeekOrWait(elapsed: real)
      requires Valid() && epoch.Some? && elapsed >= 0.0 && frameCount > 0 && deadline <= elapsed
      modifies `frameCount, `duration, `fatal, `retryNotBefore, `origin, `lastReliable, `containerTiming, `lastStep,
               `pending, `discontinuities, `shown, `source, `logical, `deadline, `seeks, `failures,
               decoder`tape, decoder`pos, decoder`queries, decoder`decodes
      ensures Valid() && (old(containerTiming) ==> containerTiming) && frameCount > 0
      ensures old(deadline) <= deadline <= elapsed
      ensures decoder.decodes <= old(decoder.decodes) + 5
      ensures if seeks == old(seeks) + 1 then failures == old(failures)
              else seeks == old(seeks) && failures == old(failures) + 1 && retryNotBefore == elapsed + 1.0 / fps
                   && Untouched(old(shown), old(source), old(logical), old(pending))
      ensures old(Ahead()) ==> Ahead() && Now() == Seeked(FilmOf(), old(Now()), elapsed)
    {
      hide Seeked;
      var found := SeekToElapsed(elapsed);
      if !found {
        Postpone(elapsed);
      }
    }

    method SkipOrWait(steps: nat, elapsed: real)
      requires Valid() && pending.Some? && 2 <= steps <= MAX_SEQUENTIAL_SKIP && !containerTiming
      requires (logical + steps) as real / fps <= elapsed && deadline <= elapsed
      modifies `frameCount, `duration, `fatal, `retryNotBefore, `origin, `lastReliable, `containerTiming, `lastStep,
               `pending, `discontinuities, `shown, `source, `logical, `deadline, `failures,
               decoder`tape, decoder`pos, decoder`queries, decoder`decodes, decoder`grabs, decoder`grabbed
      ensures Valid() && deadline <= elapsed
      ensures decoder.decodes <= old(decoder.decodes) + 3 && decoder.grabs <= old(decoder.grabs) + 14
      ensures if logical == old(logical) + steps then failures == old(failures)
              else failures == old(failures) + 1 && retryNotBefore == elapsed + 1.0 / fps
                   && Untouched(old(shown), old(source), old(logical), old(pending))
      ensures old(Ahead()) ==> Ahead() && Now() == Skipped(FilmOf(), old(Now()), steps)
    {
      hide Skipped;
      var skippedTo := SkipStaleNominal(steps, elapsed);
      if !skippedTo {
        Postpone(elapsed);
      }
    }

    /**
     * Bring the shown frame up to the wall clock, by whichever way the lateness calls for; without a
     * known length never by a seek.
     */
    method CatchUp(elapsed: real)
      requires Valid() && pending.Some? && 0.0 <= elapsed && deadline <= elapsed && DeadlineOf(pending.value) <= elapsed
      modifies `frameCount, `duration, `fatal, `retryNotBefore, `origin, `lastReliable, `containerTiming, `lastStep,
               `pending, `discontinuities, `shown, `source, `logical, `deadline, `seeks, `failures,
               decoder`tape, decoder`pos, decoder`queries, decoder`decodes, decoder`grabs, decoder`grabbed
      ensures Valid() && deadline <= elapsed && (old(containerTiming) ==> containerTiming && old(deadline) <= deadline)
      ensures decoder.decodes <= old(decoder.decodes) + 29 && decoder.grabs <= old(decoder.grabs) + 14
      ensures failures == old(failures) || (failures == old(failures) + 1 && retryNotBefore == elapsed + 1.0 / fps)
      ensures old(frameCount) == 0 && frameCount == 0 ==> seeks == old(seeks)
      ensures old(Ahead()) ==> Ahead() && Now() == Next(FilmOf(), old(Now()), elapsed)
    {
      hide Prefetched, Seeked, Skipped, Stale, PromotedWhileDue, DeadlineFor, Due;
      var stale := EstimateStale(elapsed);
      if stale > MAX_SEQUENTIAL_SKIP && frameCount > 0 {
        SeekOrWait(elapsed);
        return;
      }
      if !containerTiming && stale > 1 && frameCount > 0 {
        StaleIsDue(elapsed);
        SkipOrWait(stale, elapsed);
        return;
      }
      PromoteDue(elapsed);
      if pending.Some? {
        if DeadlineOf(pending.value) <= elapsed && frameCount > 0 {
          SeekOrWait(elapsed);
        }
      }
    }

    /** `_advance_to_time`. */
    method AdvanceToTime(now: real) returns (raised: bool)
      requires Valid() && (epoch.Some? ==> deadline <= Elapsed(now))
      modifies `frameCount, `duration, `fatal, `retryNotBefore, `origin, `lastReliable, `containerTiming, `lastStep,
               `pending, `discontinuities, `shown, `source, `logical, `deadline, `seeks, `failures, `epoch,
               decoder`tape, decoder`pos, decoder`queries, decoder`decodes, decoder`grabs, decoder`grabbed
      ensures Valid() && (epoch.Some? ==> deadline <= Elapsed(now))
      ensures old(epoch).Some? ==> epoch == old(epoch)
      ensures epoch.Some? ==> old(epoch).Some? || epoch == Some(now)
      ensures old(containerTiming) ==> containerTiming
      ensures old(containerTiming) && old(epoch).Some? ==> old(deadline) <= deadline
      ensures decoder.decodes <= old(decoder.decodes) + 32 && decoder.grabs <= old(decoder.grabs) + 14
      ensures old(epoch).Some? && failures != old(failures) ==>
        failures == old(failures) + 1 && retryNotBefore == Elapsed(now) + 1.0 / fps
      ensures old(epoch).Some? && Elapsed(now) < old(retryNotBefore) ==>
        Untouched(old(shown), old(source), old(logical), old(pending)) && decoder.decodes == old(decoder.decodes)
      ensures old(AtStart()) ==>
        epoch == Some(now) && Ahead() && !raised && Now() == First(FilmOf(), old(Clock()), old(decoder.queries))
      ensures old(Ahead()) ==> Ahead() && !raised && Now() == Next(FilmOf(), old(Now()), Elapsed(now))
    {
      hide First, DeadlineFor, Stale, Seeked, Skipped, PromotedWhileDue;
      raised := false;
      if fatal {
        return;
      }
      if epoch.None? {
        raised := DecodeFirst(now);
        return;
      }
      var elapsed := Elapsed(now);
      if elapsed < retryNotBefore {
        return;
      }
      if pending.None? {
        var ok := PrefetchNext();
        if !ok {
          Postpone(elapsed);
          return;
        }
      }
      if elapsed < DeadlineOf(pending.value) {
        return;
      }
      hide Next;
      CatchUp(elapsed);
    }

    /** The bookkeeping of `frame()` agrees with what it returned. */
    predicate Tallied()
      reads this
    {
      displayed + skipped == (if lastReturned.None? then 0 else lastReturned.value + 1)
    }

    /** The counters of `frame()`. */
    method Count()
      requires logical >= 0
      modifies `displayed, `skipped, `reused, `lastReturned
      ensures lastReturned == Some(logical) && displayed + reused == old(displayed + reused) + 1
      ensures old(Tallied()) && (old(lastReturned).Some? ==> old(lastReturned).value <= logical) && (old(lastReturned).None? ==> logical == 0) ==>
        Tallied()
    {
      var previous := lastReturned;
      if previous.None? || logical != previous.value {
        displayed := displayed + 1;
        if previous.Some? && logical - previous.value - 1 > 0 {
          skipped := skipped + (logical - previous.value - 1);
        }
        lastReturned := Some(logical);
      } else {
        reused := reused + 1;
      }
    }

    /**
     * `frame()`, up to fitting the picture. Every call costs at most 32 reads and 14 grabs; no frame
     * is on screen before its deadline; with container timing deadlines never go back; and on an
     * exact decoder the call shows what `Next` says.
     */
    method Show(now: real) returns (frame: Option<Frame>)
      requires Valid() && (epoch.Some? ==> deadline <= Elapsed(now))
      modifies this, decoder`tape, decoder`pos, decoder`queries, decoder`decodes, decoder`grabs, decoder`grabbed
      ensures Valid() && (epoch.Some? ==> deadline <= Elapsed(now))
      ensures old(epoch).Some? ==> epoch == old(epoch)
      ensures epoch.Some? ==> old(epoch).Some? || epoch == Some(now)
      ensures old(containerTiming) ==> containerTiming
      ensures old(containerTiming) && old(epoch).Some? ==> old(deadline) <= deadline
      ensures decoder.decodes <= old(decoder.decodes) + 32 && decoder.grabs <= old(decoder.grabs) + 14
      ensures displayed + reused == old(displayed + reused) + if frame.Some? then 1 else 0
      ensures frame.Some? ==> frame == shown && frame.value.valid && lastReturned == Some(logical)
      ensures old(AtStart()) ==>
        epoch == Some(now) && Ahead() && frame == shown && Now() == First(FilmOf(), old(Clock()), old(decoder.queries))
      ensures old(Ahead()) ==> Ahead() && frame == shown && Now() == Next(FilmOf(), old(Now()), Elapsed(now))
      ensures frame.Some? && old(Tallied()) && (if old(lastReturned).None? then logical == 0 else old(lastReturned).value <= logical) ==>
        Tallied()
    {
      hide First, Next;
      var raised := AdvanceToTime(now);
      if raised || shown.None? || logical < 0 {
        return None;
      }
      Count();
      return shown;
    }

    // ------------------------------------------------------------ whole playbacks

    /** The first call on an exact decoder. */
    method ShowFirst(now: real) returns (frame: Option<Frame>, view: View)
      requires Valid() && AtStart() && lastReturned.None? && displayed == skipped == reused == 0
      modifies this, decoder`tape, decoder`pos, decoder`queries, decoder`decodes, decoder`grabs, decoder`grabbed
      ensures Valid() && Ahead() && lastReturned == Some(logical) && epoch == Some(now) && deadline <= 0.0
      ensures view == Now() == First(FilmOf(), old(Clock()), old(decoder.queries))
      ensures decoder.length > 0 && frame == Some(Picture(view.logical % decoder.length))
      ensures displayed + reused == 1 && Tallied()
    {
      hide First, Next;
      FirstIsZero(FilmOf(), Clock(), decoder.queries);
      frame := Show(now);
      view := Now();
    }

    /** One later call on an exact decoder. */
    method ShowNext(now: real) returns (frame: Option<Frame>, view: View)
      requires Valid() && Ahead() && lastReturned == Some(logical) && deadline <= Elapsed(now)
      modifies this, decoder`tape, decoder`pos, decoder`queries, decoder`decodes, decoder`grabs, decoder`grabbed
      ensures Valid() && Ahead() && lastReturned == Some(logical) && epoch == old(epoch) && deadline <= Elapsed(now)
      ensures view == Now() == Next(FilmOf(), old(Now()), Elapsed(now))
      ensures decoder.length > 0 && frame == Some(Picture(view.logical % decoder.length))
      ensures displayed + reused == old(displayed + reused) + 1
      ensures old(Tallied()) && old(logical) <= logical ==> Tallied()
    {
      hide Next;
      frame := Show(now);
      view := Now();
    }

    /**
     * On an exact decoder of known length, whatever timestamps it reports: the calls compute the
     * function `Play`, every picture is the one the logical index names, and the counters account
     * for every call and, as long as the index does not go back, for every frame.
     */
    method PlayExact(times: seq<real>) returns (pictures: seq<Option<Frame>>, views: seq<View>)
      requires Valid() && AtStart() && lastReturned.None? && displayed == skipped == reused == 0
      requires times != [] && forall i, j | 0 <= i <= j < |times| :: times[i] <= times[j]
      modifies this, decoder`tape, decoder`pos, decoder`queries, decoder`decodes, decoder`grabs, decoder`grabbed
      ensures |pictures| == |views| == |times|
      ensures var v := First(FilmOf(), old(Clock()), old(decoder.queries));
        views == [v] + Play(FilmOf(), v, SinceFirst(times))
      ensures Pictured(pictures, views, decoder.length)
      ensures displayed + reused == |times|
      ensures Ascending(views) ==> displayed + skipped == views[|times| - 1].logical + 1
    {
      hide First, Next, Pictured, Ascending, Due, Showing;
      ghost var v := First(FilmOf(), Clock(), decoder.queries);
      var frame, view := ShowFirst(times[0]);
      FirstPicture(decoder.length, frame, view);
      pictures, views := [frame], [view];
      ghost var since := [];
      for k := 1 to |times|
        invariant |pictures| == |views| == k && Valid() && Ahead() && displayed + reused == k
        invariant epoch == Some(times[0]) && lastReturned == Some(logical) && deadline <= times[k - 1] - times[0]
        invariant since == SinceFirst(times)[..k - 1] && views == [v] + Play(FilmOf(), v, since) && views[k - 1] == Now()
        invariant Pictured(pictures, views, decoder.length)
        invariant Ascending(views) ==> Tallied()
      {
        var t := times[k] - times[0];
        assert Elapsed(times[k]) == t;
        PlayOneMore(FilmOf(), v, since, t);
        AscendingBefore(views, Next(FilmOf(), Now(), t));
        frame, view := ShowNext(times[k]);
        OnePicture(pictures, views, decoder.length, frame, view);
        pictures, views := pictures + [frame], views + [view];
        since := since + [t];
      }
      assert SinceFirst(times)[..|times| - 1] == SinceFirst(times);
    }

    /**
     * The one-line specification refined, for every decoder that reads, grabs and seeks by index
     * truthfully: call `i` shows frame floor(elapsed * fps) of the looping file, if container timing
     * is off after it and the duration believed in was right before it. When the decoder reports one
     * time for all frames, all calls and any call after each show the due frame exactly if no call
     * shortens the believed duration, which the times of the calls decide. When it reports every
     * frame's own time and these are evenly spaced, all calls follow those times.
     */
    method PlayNominal(times: seq<real>) returns (pictures: seq<Option<Frame>>, views: seq<View>)
      requires Valid() && AtStart() && lastReturned.None? && displayed == skipped == reused == 0
      requires Nominal(Clock(), fps) && duration == frameCount as real / fps
      requires times != [] && forall i, j | 0 <= i <= j < |times| :: times[i] <= times[j]
      modifies this, decoder`tape, decoder`pos, decoder`queries, decoder`decodes, decoder`grabs, decoder`grabbed
      ensures |pictures| == |views| == |times|
      ensures Pictured(pictures, views, decoder.length)
      ensures forall i | 0 <= i < |times| && Undisturbed(FilmOf(), views, i) :: views[i].logical == Due(times[i] - times[0], fps)
      ensures Undisturbed(FilmOf(), views, |times| - 1) ==>
        displayed + skipped == Due(times[|times| - 1] - times[0], fps) + 1
      ensures forall c | Constant(FilmOf(), c) ::
        (forall i | 0 <= i < |times| :: DueNowAndNext(FilmOf(), views[i], times[i] - times[0])) <==>
        !SomeShortens(FilmOf(), 0, 0, SinceFirst(times))
      ensures Timestamped(FilmOf()) && Even(FilmOf()) ==>
        forall i | 0 <= i < |times| :: OnTime(FilmOf(), views[i], times[i] - times[0])
      ensures displayed + reused == |times|
    {
      hide First, Next, Even, SomeShortens, DueNowAndNext;
      ghost var f, clock, queries := FilmOf(), Clock(), decoder.queries;
      UndisturbedIsDue(f, clock, queries, times);
      forall c | Constant(f, c)
        ensures (forall i | 0 <= i < |times| :: DueNowAndNext(f, ([First(f, clock, queries)] + Play(f, First(f, clock, queries), SinceFirst(times)))[i], times[i] - times[0]))
                <==> !SomeShortens(f, 0, 0, SinceFirst(times))
      {
        FlatPlaysDueExactly(f, c, clock, queries, times);
      }
      if Timestamped(f) && Even(f) {
        EvenIsOnTime(f, clock, queries, times);
      }
      pictures, views := PlayExact(times);
    }

    /**
     * Any decoder at all: no shown frame's deadline is ahead of the clock, deadlines never go back
     * once container timing is on, it stays on, and the decoder work is bounded by the calls.
     */
    method PlayAny(times: seq<real>) returns (log: seq<Shown>)
      requires Valid() && epoch.None?
      requires forall i, j | 0 <= i <= j < |times| :: times[i] <= times[j]
      modifies this, decoder`tape, decoder`pos, decoder`queries, decoder`decodes, decoder`grabs, decoder`grabbed
      ensures |log| == |times|
      ensures forall i | 0 <= i < |log| :: log[i].started ==> log[i].deadline <= log[i].elapsed
      ensures forall i, j | 0 <= i < j < |log| :: log[i].started && log[i].container ==>
        log[j].started && log[j].container && log[i].deadline <= log[j].deadline
      ensures decoder.decodes <= old(decoder.decodes) + 32 * |times| && decoder.grabs <= old(decoder.grabs) + 14 * |times|
    {
      log := [];
      for k := 0 to |times|
        invariant |log| == k && Valid()
        invariant epoch.Some? ==> k > 0 && epoch.value <= times[k - 1] && deadline <= Elapsed(times[k - 1])
        invariant k > 0 ==> log[k - 1] == Shown(epoch.Some?, containerTiming, deadline, Elapsed(times[k - 1]))
        invariant forall i | 0 <= i < k :: log[i].started ==> log[i].deadline <= log[i].elapsed
        invariant forall i, j | 0 <= i < j < k :: log[i].started && log[i].container ==>
          log[j].started && log[j].container && log[i].deadline <= log[j].deadline
        invariant decoder.decodes <= old(decoder.decodes) + 32 * k && decoder.grabs <= old(decoder.grabs) + 14 * k
      {
        var _ := Show(times[k]);
        log := log + [Shown(epoch.Some?, containerTiming, deadline, Elapsed(times[k]))];
      }
    }
  }
}
