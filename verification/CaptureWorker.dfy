/**
 * The camera worker as the object it is: the fields that controller, readers and consumer share, the
 * sections that update them under the lock, and the controller's loop over those sections. Between
 * any two sections the other threads do whatever the schedule says. A ghost state machine makes the
 * corresponding step of `Capture` at each section, so what `Capture` proves of every run holds of the
 * fields at every moment.
 */
module CaptureWorker {
  import opened Options
  import opened Capture

  class Worker {
    const c: Config
    // shared fields
    var generation: nat
    var readerThread: Option<nat>
    var slot: Option<Frame>
    var slotSequence: nat
    var deliveredSequence: nat
    var framesRead: nat
    var droppedFrames: nat
    var generationStartedAt: real
    var generationHasFrame: bool
    var lastFrameAt: Option<real>
    var recovering: bool
    var recoveryStartedAt: Option<real>
    var nextReopenAt: Option<real>
    var backoffIndex: nat
    var closed: bool
    var fatalError: Option<Error>
    var stopping: bool
    // the world around: clock, threads, where the consumer is, and what is still to come
    var clock: real
    var threads: map<nat, Reader>
    var consumer: Consumer
    var schedule: seq<seq<Event>>
    var answers: seq<bool>
    // the state machine, where it started, and the steps it has made
    ghost const start: State
    ghost var m: State
    ghost var run: seq<Event>

    function Own(): Ownership
      reads `generation, `readerThread, `threads
    {
      Ownership(generation, readerThread, threads)
    }

    function FramesNow(): Frames
      reads `slot, `slotSequence, `deliveredSequence, `framesRead, `droppedFrames
    {
      Frames(slot, slotSequence, deliveredSequence, framesRead, droppedFrames)
    }

    function TimingNow(): Timing
      reads `generationStartedAt, `generationHasFrame, `lastFrameAt, `recovering, `recoveryStartedAt,
            `nextReopenAt, `backoffIndex
    {
      Timing(generationStartedAt, generationHasFrame, lastFrameAt, recovering, recoveryStartedAt, nextReopenAt, backoffIndex)
    }

    ghost predicate Matches(s: State)
      reads this
    {
      && s.own == Own() && s.frames == FramesNow() && s.timing == TimingNow()
      && s.status == Status(closed, fatalError, stopping) && s.now == clock && s.consumer == consumer
    }

    ghost predicate Running()
      reads this
    {
      start == Init() && m == Run(c, start, run)
    }

    /** The fields are those of the state machine, which has only made steps of `Capture`. */
    ghost predicate InStep()
      reads this
    {
      Matches(m) && Running()
    }

    constructor (c: Config, schedule: seq<seq<Event>>, answers: seq<bool>)
      ensures InStep() && m.ctl == Waiting && run == [] && this.c == c
    {
      this.c, this.schedule, this.answers := c, schedule, answers;
      generation, readerThread, threads := 0, None, map[];
      slot, slotSequence, deliveredSequence, framesRead, droppedFrames := None, 0, 0, 0, 0;
      generationStartedAt, generationHasFrame, lastFrameAt := 0.0, false, None;
      recovering, recoveryStartedAt, nextReopenAt, backoffIndex := true, Some(0.0), Some(0.0), 0;
      closed, fatalError, stopping := false, None, false;
      clock, consumer := 0.0, Resting;
      start, m, run := Init(), Init(), [];
    }

    /** The machine makes the step whose effect the fields already show. */
    ghost method Did(e: Event)
      requires Running() && Matches(Apply(c, m, e))
      modifies `m, `run
      ensures InStep() && m == Apply(c, old(m), e) && run == old(run) + [e]
    {
      hide Apply, Run;
      RunAppends(c, start, run, e);
      m, run := Apply(c, m, e), run + [e];
    }

    method Answer() returns (yes: bool)
      modifies `answers
    {
      yes := false;
      if answers != [] {
        yes, answers := answers[0], answers[1..];
      }
    }

    // ------------------------------------------------------------ what the fields promise

    /** At most one reader thread runs, and it is the one the object refers to. */
    lemma OneReaderRuns()
      requires InStep()
      ensures forall g, h | g in threads && h in threads && threads[g].Running? && threads[h].Running? :: g == h
      ensures forall g | g in threads && threads[g].Running? :: g == generation && readerThread == Some(g)
      ensures m.ctl.Adopt? || m.ctl.StartThread? ==> forall g | g in threads :: !threads[g].Running?
    {
      hide Run;
      StartIsSafe(c, run);
    }

    /** Frames read are delivered, dropped or unread. */
    lemma FramesAddUp()
      requires InStep()
      ensures framesRead == m.hist.delivered + droppedFrames + Unread(FramesNow())
    {
      hide Run;
      FramesAreConserved(c, run);
    }

    /** No open of a runtime outage is early, and the controller looked before the timeout. */
    lemma OpensArePaced(now: real)
      requires InStep() && m.ctl == CommitOpen(now)
      ensures !closed && fatalError.None? && recovering && m.hist.runtime ==>
        && recoveryStartedAt.Some?
        && recoveryStartedAt.value + c.stall + BackoffSum(m.hist.opens + 1) <= now < recoveryStartedAt.value + c.timeout
        && (!m.hist.raced ==> recoveryStartedAt == lastFrameAt)
    {
      hide Run;
      ReopensArePaced(c, run);
    }

    // ------------------------------------------------------------ sections shared by all threads

    method SetFatalFields(error: Error)
      modifies `fatalError, `recovering, `stopping
      ensures fatalError == (if old(fatalError).None? then Some(error) else old(fatalError)) && !recovering && stopping
    {
      if fatalError.None? {
        fatalError := Some(error);
      }
      recovering := false;
      stopping := true;
    }

    method ScheduleReopen(now: real)
      modifies `backoffIndex, `nextReopenAt
      ensures TimingNow() == Rescheduled(old(TimingNow()), now)
    {
      var delay := Delay(backoffIndex);
      backoffIndex := backoffIndex + 1;
      nextReopenAt := Some(now + delay);
    }

    /** The first section of `_expire_recovery`. */
    method PastTimeout(now: real) returns (expired: bool)
      requires InStep()
      ensures expired == Expired(c, m, now)
    {
      expired := !(closed || fatalError.Some? || !recovering || recoveryStartedAt.None?)
                 && now - recoveryStartedAt.value >= c.timeout;
    }

    // ------------------------------------------------------------ readers and consumer

    /** A newer frame takes the slot. */
    method Overwrite(reader: nat)
      modifies `slot, `slotSequence, `framesRead, `droppedFrames
      ensures FramesNow() == Overwritten(old(FramesNow()), reader)
    {
      if slot.Some? && slot.value.sequence != deliveredSequence {
        droppedFrames := droppedFrames + 1;
      }
      slotSequence := slotSequence + 1;
      slot := Some(Frame(slotSequence, reader));
      framesRead := framesRead + 1;
    }

    /** A frame ends an outage. */
    method NoteFrame(finished: real)
      modifies `generationHasFrame, `lastFrameAt, `recovering, `recoveryStartedAt, `nextReopenAt, `backoffIndex
      ensures TimingNow() == Noted(old(TimingNow()), finished)
    {
      generationHasFrame := true;
      lastFrameAt := Some(finished);
      if recovering {
        recovering := false;
        recoveryStartedAt := None;
        nextReopenAt := None;
        backoffIndex := 0;
      }
    }

    method Store(reader: nat, finished: real)
      modifies `slot, `slotSequence, `framesRead, `droppedFrames,
               `generationHasFrame, `lastFrameAt, `recovering, `recoveryStartedAt, `nextReopenAt, `backoffIndex
      ensures FramesNow() == Overwritten(old(FramesNow()), reader) && TimingNow() == Noted(old(TimingNow()), finished)
    {
      hide Overwritten, Noted;
      Overwrite(reader);
      NoteFrame(finished);
    }

    /** The publication section of a running reader. */
    method Publish(reader: nat, finished: real)
      requires InStep()
      modifies this
      ensures |old(run)| < |run|
      ensures InStep() && m == Apply(c, old(m), Capture.Publish(reader, finished))
      ensures schedule == old(schedule)
    {
      hide Run, Apply, Overwritten, Noted;
      PublishIs(c, m, reader, finished);
      if reader in threads && threads[reader].Running? && finished <= clock {
        if reader != generation || closed {
          threads := threads[reader := Over];
        } else {
          Store(reader, finished);
        }
      }
      Did(Capture.Publish(reader, finished));
    }

    method EndReader(reader: nat)
      requires InStep()
      modifies this
      ensures |old(run)| < |run|
      ensures InStep() && m == Apply(c, old(m), ReaderEnds(reader))
      ensures schedule == old(schedule)
    {
      hide Run, ControlStep;
      if reader in threads && threads[reader].Running? {
        threads := threads[reader := Over];
      }
      Did(ReaderEnds(reader));
    }

    method FailReader(reader: nat)
      requires InStep()
      modifies this
      ensures |old(run)| < |run|
      ensures InStep() && m == Apply(c, old(m), ReaderFatal(reader))
      ensures schedule == old(schedule)
    {
      hide Run, Apply;
      FailureIs(c, m, reader);
      if reader in threads && threads[reader].Running? {
        threads := threads[reader := Over];
        SetFatalFields(ReaderFault);
      }
      Did(ReaderFatal(reader));
    }

    /** `read` begins with the expiry test. */
    method BeginReading()
      requires InStep()
      modifies this
      ensures |old(run)| < |run|
      ensures InStep() && m == Apply(c, old(m), BeginRead)
      ensures schedule == old(schedule)
    {
      hide Run, ControlStep;
      if consumer.Resting? {
        var expired := PastTimeout(clock);
        consumer := if expired then LatchRead else Take;
      }
      Did(BeginRead);
    }

    /** The newest unread frame, unless the capture has ended. */
    method TakeFrame() returns (frame: Option<Frame>)
      modifies `deliveredSequence
      ensures frame.Some? <==> !closed && fatalError.None? && old(Unread(FramesNow())) == 1
      ensures frame.Some? ==> frame == slot && deliveredSequence == frame.value.sequence
      ensures frame.None? ==> deliveredSequence == old(deliveredSequence)
    {
      frame := None;
      if !closed && fatalError.None? && slot.Some? && slot.value.sequence != deliveredSequence {
        frame := slot;
        deliveredSequence := slot.value.sequence;
      }
    }

    method LatchOutage()
      requires InStep() && consumer.LatchRead?
      modifies this
      ensures |old(run)| < |run|
      ensures InStep() && m == Apply(c, old(m), ContinueRead) && schedule == old(schedule)
    {
      hide Run, Apply;
      ReadingIs(c, m);
      SetFatalFields(Outage);
      consumer := Take;
      Did(ContinueRead);
    }

    method HandOut() returns (frame: Option<Frame>)
      requires InStep() && consumer.Take?
      modifies this
      ensures |old(run)| < |run|
      ensures InStep() && m == Apply(c, old(m), ContinueRead) && schedule == old(schedule)
      ensures frame.Some? <==> m.hist.delivered == old(m.hist.delivered) + 1
      ensures frame.Some? ==> frame == slot && frame.value.sequence == slotSequence == deliveredSequence > old(deliveredSequence)
    {
      hide Run, Apply;
      ReadingIs(c, m);
      FramesInOrder();
      consumer := Resting;
      frame := TakeFrame();
      Did(ContinueRead);
    }

    /** Then it latches the outage, or hands out the newest unread frame. */
    method ContinueReading() returns (frame: Option<Frame>)
      requires InStep()
      modifies this
      ensures |old(run)| < |run|
      ensures InStep() && m == Apply(c, old(m), ContinueRead) && schedule == old(schedule)
      ensures frame.Some? <==> m.hist.delivered == old(m.hist.delivered) + 1
      ensures frame.Some? ==> frame == slot && frame.value.sequence == slotSequence == deliveredSequence > old(deliveredSequence)
    {
      hide Run, Apply;
      ReadingIs(c, m);
      frame := None;
      match consumer
      case Resting => Did(ContinueRead);
      case LatchRead => LatchOutage();
      case Take => frame := HandOut();
    }

    lemma FramesInOrder()
      requires InStep()
      ensures slot.Some? ==> slot.value.sequence == slotSequence
      ensures deliveredSequence <= slotSequence
    {
      hide Run;
      StartIsSafe(c, run);
    }

    method CloseNow()
      requires InStep()
      modifies this
      ensures |old(run)| < |run|
      ensures InStep() && m == Apply(c, old(m), Close)
      ensures schedule == old(schedule)
    {
      hide Run, ControlStep;
      closed := true;
      stopping := true;
      Did(Close);
    }

    method PassTime(seconds: real)
      requires InStep()
      modifies this
      ensures |old(run)| < |run|
      ensures InStep() && m == Apply(c, old(m), Tick(seconds))
      ensures schedule == old(schedule)
    {
      hide Run, ControlStep;
      if seconds >= 0.0 {
        clock := clock + seconds;
      }
      Did(Tick(seconds));
    }

    /** One thing another thread does. */
    method Handle(e: Event)
      requires InStep() && !e.Control?
      modifies this
      ensures |old(run)| < |run|
      ensures InStep() && m == Apply(c, old(m), e)
      ensures schedule == old(schedule)
    {
      hide Apply, Run;
      match e
      case Tick(seconds) => PassTime(seconds);
      case Publish(reader, stamp) => Publish(reader, stamp);
      case ReaderEnds(reader) => EndReader(reader);
      case ReaderFatal(reader) => FailReader(reader);
      case BeginRead => BeginReading();
      case ContinueRead => var _ := ContinueReading();
      case Close => CloseNow();
    }

    /** Whatever the other threads do now; the controller stays where it is. */
    method Others()
      requires InStep()
      modifies this
      ensures |old(run)| <= |run|
      ensures InStep() && m.ctl == old(m.ctl)
    {
      hide Apply, Run;
      if schedule == [] {
        return;
      }
      var events := schedule[0];
      schedule := schedule[1..];
      for k := 0 to |events|
        invariant InStep() && m.ctl == old(m.ctl) && |old(run)| <= |run|
      {
        if !events[k].Control? {
          OthersLeaveController(c, m, events[k]);
          Handle(events[k]);
        }
      }
    }

    // ------------------------------------------------------------ the controller's sections

    method TakeClock() returns (quit: bool, now: real)
      requires InStep() && m.ctl.Waiting?
      modifies this
      ensures |old(run)| < |run|
      ensures InStep() && m.ctl == if quit then Signal(now, Quit) else CheckExpiry(now)
    {
      hide Run, Published, Delivered;
      quit, now := stopping, clock;
      Did(Control(true, false));
    }

    /** The expiry test; past the timeout the outage is latched, after others may have run. */
    method Expire(now: real) returns (over: bool)
      requires InStep() && m.ctl == CheckExpiry(now)
      modifies this
      ensures |old(run)| < |run|
      ensures InStep() && m.ctl == if over then Waiting else Snapshot(now)
    {
      hide Run, Apply;
      ExpiryIs(c, m, now);
      var expired := PastTimeout(now);
      over := expired || fatalError.Some?;
      Did(Control(true, false));
      if expired {
        Others();
        ExpiryIs(c, m, now);
        SetFatalFields(Outage);
        Did(Control(true, false));
      }
    }

    /** The snapshot and what follows from it. */
    method TakeSnapshot(now: real) returns (decision: Controller)
      requires InStep() && m.ctl == Snapshot(now)
      modifies this
      ensures |old(run)| < |run|
      ensures InStep() && m.ctl == decision
      ensures decision in {Waiting, Signal(now, Reschedule), Signal(now, TryOpen), Decide(now)}
              || (decision.BeginRecovery? && decision.now == now)
    {
      hide Run, Published, Delivered;
      var baseline := if lastFrameAt.Some? then lastFrameAt.value else generationStartedAt;
      var alive := readerThread.Some? && readerThread.value in threads && threads[readerThread.value].Running?;
      if closed || fatalError.Some? {
        decision := Waiting;
      } else if !recovering {
        decision := if now - baseline >= c.stall then BeginRecovery(now, baseline) else Waiting;
      } else if alive {
        decision := if generationHasFrame || now - generationStartedAt < c.stall then Waiting else Signal(now, Reschedule);
      } else {
        decision := if readerThread.Some? then Signal(now, TryOpen) else Decide(now);
      }
      Did(Control(true, false));
    }

    method BeginOutage(now: real, baseline: real) returns (begun: bool)
      requires InStep() && m.ctl == BeginRecovery(now, baseline)
      modifies this
      ensures |old(run)| < |run|
      ensures InStep() && m.ctl == if begun then Signal(now, Reschedule) else Waiting
    {
      hide Run, Published, Delivered;
      begun := !recovering && !closed;
      if begun {
        recovering := true;
        recoveryStartedAt := Some(baseline);
        backoffIndex := 0;
      }
      Did(Control(true, false));
    }

    method SignalReader(now: real, next: After)
      requires InStep() && m.ctl == Signal(now, next)
      modifies this
      ensures |old(run)| < |run|
      ensures InStep() && m.ctl == Join(now, next)
    {
      hide Run, Published, Delivered;
      if readerThread.Some? && readerThread.value in threads && threads[readerThread.value].Running? {
        threads := threads[readerThread.value := Reader.Running(true)];
      }
      Did(Control(true, false));
    }

    /** One look at the thread being joined: gone, still running, or given up on. */
    method TryJoin(now: real, next: After, giveUp: bool) returns (joined: bool)
      requires InStep() && m.ctl == Join(now, next)
      modifies this
      ensures |old(run)| < |run|
      ensures InStep()
      ensures m.ctl == if joined then Joined(now, next)
                       else if giveUp then (if next.Quit? then Stopped else Waiting) else Join(now, next)
      ensures joined <==> old(readerThread.None? || readerThread.value !in threads || !threads[readerThread.value].Running?)
      ensures readerThread == (if joined then None else old(readerThread)) && threads == old(threads)
      ensures !joined && giveUp ==> fatalError.Some? && stopping && (old(fatalError).None? ==> fatalError == Some(StuckReader))
    {
      hide Run, Apply;
      JoinIs(c, m, now, next, !giveUp);
      joined := readerThread.None? || readerThread.value !in threads || !threads[readerThread.value].Running?;
      if joined {
        readerThread := None;
      } else if giveUp {
        SetFatalFields(StuckReader);
      }
      Did(Control(!giveUp, false));
    }

    method ScheduleSection(now: real)
      requires InStep() && m.ctl == Schedule(now)
      modifies this
      ensures |old(run)| < |run|
      ensures InStep() && m.ctl == Waiting
    {
      hide Run, Published, Delivered;
      ScheduleReopen(now);
      Did(Control(true, false));
    }

    /** Whether the next open is due; an outage without an appointment gets one. */
    method OpenIsDue(now: real) returns (due: bool)
      requires InStep() && m.ctl == Capture.Decide(now)
      modifies this
      ensures |old(run)| < |run|
      ensures InStep() && m.ctl == if due then CommitOpen(now) else Waiting
    {
      hide Run, Published, Delivered;
      due := !closed && fatalError.None?;
      if due {
        if nextReopenAt.None? {
          ScheduleReopen(now);
        }
        due := now >= nextReopenAt.value;
      }
      Did(Control(true, false));
    }

    /** The open begins. */
    method BeginOpen(now: real)
      requires InStep() && m.ctl == CommitOpen(now)
      modifies this
      ensures |old(run)| < |run|
      ensures InStep() && m.ctl == Opening(now)
      ensures !closed && fatalError.None? && recovering && m.hist.runtime ==>
        && recoveryStartedAt.Some?
        && recoveryStartedAt.value + c.stall + BackoffSum(m.hist.opens) <= now < recoveryStartedAt.value + c.timeout
    {
      hide Run, BackoffSum, Published, Delivered;
      OpensArePaced(now);
      nextReopenAt := None;
      Did(Control(true, false));
    }

    /** A mode that cannot be had is fatal. */
    method RefuseMode(now: real)
      requires InStep() && m.ctl == Opening(now)
      modifies this
      ensures |old(run)| < |run|
      ensures InStep() && m.ctl == Waiting && fatalError.Some?
    {
      hide Run, Apply;
      OpeningIs(c, m, now, false, true);
      SetFatalFields(BadMode);
      Did(Control(false, true));
    }

    /** The native open: a device, a mode that cannot be had, or a failure. */
    method NativeOpen(now: real) returns (device: bool, badMode: bool)
      requires InStep() && m.ctl == Opening(now)
      modifies this
      ensures |old(run)| < |run|
      ensures InStep() && m.ctl == if device then Adopt(now) else if badMode then Waiting else OpenFailed
    {
      hide Run, Apply;
      device := Answer();
      badMode := Answer();
      OpeningIs(c, m, now, device, badMode);
      if !device && badMode {
        RefuseMode(now);
      } else {
        Did(Control(device, badMode));
      }
    }

    method NewGeneration()
      modifies `generation, `generationStartedAt, `generationHasFrame, `nextReopenAt, `readerThread, `threads
      ensures Own() == var g := old(generation) + 1; Ownership(g, Some(g), old(threads)[g := Unstarted])
      ensures TimingNow() == old(TimingNow()).(started := clock, hasFrame := false, reopenAt := None)
    {
      generation := generation + 1;
      generationStartedAt := clock;
      generationHasFrame := false;
      nextReopenAt := None;
      readerThread := Some(generation);
      threads := threads[generation := Unstarted];
    }

    /** A freshly opened device becomes the next generation, unless the capture ended meanwhile. */
    method AdoptDevice(now: real) returns (adopted: bool)
      requires InStep() && m.ctl == Adopt(now)
      modifies this
      ensures |old(run)| < |run|
      ensures InStep() && m.ctl == if adopted then StartThread(now) else OpenFailed
      ensures adopted <==> !old(closed) && old(fatalError).None?
      ensures adopted ==> generation == old(generation) + 1 && readerThread == Some(generation)
                          && threads == old(threads)[generation := Unstarted] && !generationHasFrame && nextReopenAt.None?
      ensures !adopted ==> Own() == old(Own()) && TimingNow() == old(TimingNow())
    {
      hide Run, Apply;
      AdoptionIs(c, m, now);
      adopted := !closed && fatalError.None?;
      if adopted {
        NewGeneration();
      }
      Did(Control(true, false));
    }

    method StartReader(now: real) returns (started: bool)
      requires InStep() && m.ctl == StartThread(now)
      modifies this
      ensures |old(run)| < |run|
      ensures InStep() && m.ctl == if started then Waiting else OpenFailed
    {
      hide Run, Published, Delivered;
      started := Answer();
      threads := threads[generation := if started then Reader.Running(false) else Over];
      Did(Control(started, false));
    }

    method OpenHasFailed()
      requires InStep() && m.ctl == OpenFailed
      modifies this
      ensures |old(run)| < |run|
      ensures InStep() && m.ctl == Waiting
    {
      hide Run, Published, Delivered;
      if !closed && fatalError.None? {
        ScheduleReopen(clock);
      }
      Did(Control(true, false));
    }

    // ------------------------------------------------------------ the controller

    function Joined(now: real, next: After): Controller {
      match next case Reschedule => Schedule(now) case TryOpen => Capture.Decide(now) case Quit => Stopped
    }

    /** `_stop_current_worker`: tell the reader to stop and wait for it, but not for ever. */
    method StopReader(now: real, next: After) returns (joined: bool)
      requires InStep() && m.ctl == Signal(now, next)
      modifies this
      ensures |old(run)| < |run|
      ensures InStep()
      ensures m.ctl == if joined then Joined(now, next) else if next.Quit? then Stopped else Waiting
      ensures if joined then readerThread.None? else readerThread.Some? && fatalError.Some? && stopping
    {
      hide Apply, Run;
      Others();
      SignalReader(now, next);
      Others();
      var patience: nat := |answers|;
      joined := TryJoin(now, next, patience == 0);
      while !joined && patience > 0
        invariant InStep()
        invariant m.ctl == if joined then Joined(now, next)
                           else if patience == 0 then (if next.Quit? then Stopped else Waiting) else Join(now, next)
        invariant joined ==> readerThread.None?
        invariant |old(run)| < |run|
        invariant !joined && patience == 0 ==> readerThread.Some? && fatalError.Some? && stopping
        decreases patience
      {
        Others();
        patience := patience - 1;
        joined := TryJoin(now, next, patience == 0);
      }
    }

    /** The last part of `_controller_step`: open when it is due. */
    method TryToOpen(now: real)
      requires InStep() && m.ctl == Capture.Decide(now)
      modifies this
      ensures |old(run)| < |run|
      ensures InStep() && m.ctl == Waiting
    {
      hide Apply, Run, BackoffSum;
      Others();
      var due := OpenIsDue(now);
      if !due {
        return;
      }
      Others();
      BeginOpen(now);
      Others();
      var device, badMode := NativeOpen(now);
      if device {
        Others();
        var adopted := AdoptDevice(now);
        if adopted {
          Others();
          device := StartReader(now);
        } else {
          device := false;
        }
      } else if badMode {
        return;
      }
      if !device {
        Others();
        OpenHasFailed();
      }
    }

    /** `_controller_step`, between whose sections the other threads run. */
    method ControllerStep() returns (stopped: bool)
      requires InStep() && m.ctl.Waiting?
      modifies this
      ensures |old(run)| < |run|
      ensures InStep() && m.ctl == if stopped then Stopped else Waiting
    {
      hide Apply, Run;
      stopped := false;
      var quit, now := TakeClock();
      if quit {
        var _ := StopReader(now, Quit);
        return true;
      }
      Others();
      var over := Expire(now);
      if over {
        return;
      }
      Others();
      var decision := TakeSnapshot(now);
      if decision.BeginRecovery? {
        Others();
        var begun := BeginOutage(now, decision.baseline);
        if !begun {
          return;
        }
        decision := Signal(now, Reschedule);
      }
      if decision.Signal? {
        var joined := StopReader(now, decision.next);
        if !joined {
          return;
        }
        if decision.next.Reschedule? {
          Others();
          ScheduleSection(now);
          return;
        }
        decision := Capture.Decide(now);
      }
      if decision.Decide? {
        TryToOpen(now);
      }
    }

    /**
     * `_controller_loop`, for as many turns as are asked for: at every moment the fields are in a
     * state some run of `Capture` reaches, so at the end, as in between, at most one reader runs and every
     * frame read is accounted for.
     */
    method ControllerLoop(turns: nat) returns (stopped: bool)
      requires InStep() && m.ctl.Waiting?
      modifies this
      ensures |old(run)| <= |run| && (!stopped ==> |run| >= |old(run)| + turns)
      ensures InStep() && m.ctl == if stopped then Stopped else Waiting
      ensures forall g, h | g in threads && h in threads && threads[g].Running? && threads[h].Running? :: g == h
      ensures framesRead == m.hist.delivered + droppedFrames + Unread(FramesNow())
    {
      hide Apply, Run;
      stopped := false;
      for k := 0 to turns
        invariant InStep() && m.ctl == if stopped then Stopped else Waiting
        invariant |old(run)| <= |run| && (!stopped ==> |run| >= |old(run)| + k)
      {
        Others();
        if !stopped {
          stopped := ControllerStep();
        }
      }
      OneReaderRuns();
      FramesAddUp();
    }
  }
}
