/**
 * The camera capture worker: one controller thread that opens, stops and joins readers, reader
 * threads that publish into a one-frame slot, and a consumer. Each step is a section the program
 * runs under its lock, or one call outside it; steps of different threads interleave freely.
 */
module Capture {
  import opened Options

  /** Seconds: when a silent camera counts as stalled, and how long an outage may last. */
  datatype Config = Config(stall: real, timeout: real)

  datatype Error = Outage | StuckReader | BadMode | ReaderFault

  datatype Frame = Frame(sequence: nat, generation: nat)

  /** A reader thread: made but not started, running (perhaps told to stop), or over. */
  datatype Reader = Unstarted | Running(stop: bool) | Over

  /** What the controller does once the current reader is out of the way. */
  datatype After = Reschedule | TryOpen | Quit

  datatype Controller =
    | Waiting
    | CheckExpiry(now: real)
    | LatchExpiry
    | Snapshot(now: real)
    | BeginRecovery(now: real, baseline: real)
    | Signal(now: real, next: After)
    | Join(now: real, next: After)
    | Schedule(now: real)
    | Decide(now: real)
    | CommitOpen(now: real)
    | Opening(now: real)
    | Adopt(now: real)
    | StartThread(now: real)
    | OpenFailed
    | Stopped

  datatype Consumer = Resting | LatchRead | Take

  /**
   * Records the program does not keep: how many frames were delivered; how many opens this outage
   * has seen; whether it is a runtime outage rather than the first acquisition; and whether a frame
   * arrived between the snapshot that found the camera silent and the start of recovery.
   */
  datatype History = History(delivered: nat, opens: nat, runtime: bool, raced: bool)

  /** Who owns the device: the generation counter, the thread referred to, and all threads ever made. */
  datatype Ownership = Ownership(generation: nat, thread: Option<nat>, readers: map<nat, Reader>)

  /** The one-frame slot and its counters. */
  datatype Frames = Frames(
    slot: Option<Frame>, sequence: nat, deliveredSequence: nat, framesRead: nat, dropped: nat)

  /** The outage clockwork. */
  datatype Timing = Timing(
    started: real, hasFrame: bool, lastFrame: Option<real>,
    recovering: bool, since: Option<real>, reopenAt: Option<real>, backoff: nat)

  datatype Status = Status(closed: bool, fatal: Option<Error>, stopping: bool)

  datatype State = State(
    now: real, own: Ownership, frames: Frames, timing: Timing, status: Status,
    ctl: Controller, consumer: Consumer, hist: History)

  datatype Event =
    | Tick(seconds: real)
    | Control(ok: bool, mode: bool)     // one controller step; the flags choose its outcome
    | Publish(reader: nat, stamp: real) // a reader thread has a frame it finished reading at `stamp`
    | ReaderEnds(reader: nat)
    | ReaderFatal(reader: nat)
    | BeginRead
    | ContinueRead
    | Close

  function Init(): State {
    State(0.0, Ownership(0, None, map[]), Frames(None, 0, 0, 0, 0),
          Timing(0.0, false, None, true, Some(0.0), Some(0.0), 0), Status(false, None, false),
          Waiting, Resting, History(0, 0, false, false))
  }

  // ---------------------------------------------------------------- backoff

  /** 0.5, 1, 2, 4, 4, ... seconds. */
  function Delay(k: nat): real {
    if k == 0 then 0.5 else if k == 1 then 1.0 else if k == 2 then 2.0 else 4.0
  }

  function BackoffSum(k: nat): (total: real)
    ensures total >= 0.0
  {
    if k == 0 then 0.0 else BackoffSum(k - 1) + Delay(k - 1)
  }

  lemma {:induction false} BackoffSumMonotone(j: nat, k: nat)
    requires j <= k
    ensures BackoffSum(j) <= BackoffSum(k)
    decreases k
  {
    if j < k {
      BackoffSumMonotone(j, k - 1);
    }
  }

  /** Half a second, one, two; from then on every further reopen costs four seconds. */
  lemma {:induction false} BackoffSumGrows(k: nat)
    ensures BackoffSum(1) == 0.5 && BackoffSum(2) == 1.5
    ensures k >= 3 ==> BackoffSum(k) == 3.5 + 4.0 * (k - 3) as real
    decreases k
  {
    assert BackoffSum(1) == 0.5 && BackoffSum(2) == 1.5;
    if k > 3 {
      BackoffSumGrows(k - 1);
    }
  }

  // ---------------------------------------------------------------- steps

  function Rescheduled(t: Timing, at: real): Timing {
    t.(reopenAt := Some(at + Delay(t.backoff)), backoff := t.backoff + 1)
  }

  predicate Ended(st: Status) {
    st.closed || st.fatal.Some?
  }

  /** `_expire_recovery`'s test. */
  predicate Expired(c: Config, s: State, now: real) {
    !Ended(s.status) && s.timing.recovering && s.timing.since.Some? && now - s.timing.since.value >= c.timeout
  }

  predicate Alive(own: Ownership, g: nat) {
    g in own.readers && own.readers[g].Running?
  }

  /** The reader the controller refers to is still running. */
  predicate Busy(own: Ownership) {
    own.thread.Some? && Alive(own, own.thread.value)
  }

  function Becomes(own: Ownership, g: nat, r: Reader): Ownership {
    own.(readers := own.readers[g := r])
  }

  /** `_set_fatal`: the first error stays, recovery ends, the controller is told to stop. */
  function Fails(s: State, e: Error): State {
    s.(status := s.status.(fatal := if s.status.fatal.None? then Some(e) else s.status.fatal, stopping := true),
       timing := s.timing.(recovering := false))
  }

  function Goes(s: State, pc: Controller): State {
    s.(ctl := pc)
  }

  /** What the snapshot decides: `_controller_step` after the expiry check. */
  function Decision(c: Config, s: State, now: real): Controller {
    var t := s.timing;
    var baseline := if t.lastFrame.Some? then t.lastFrame.value else t.started;
    if Ended(s.status) then Waiting
    else if !t.recovering then
      if now - baseline >= c.stall then BeginRecovery(now, baseline) else Waiting
    else if Busy(s.own) then
      if t.hasFrame || now - t.started < c.stall then Waiting else Signal(now, Reschedule)
    else if s.own.thread.Some? then Signal(now, TryOpen)
    else Decide(now)
  }

  function ControlStep(c: Config, s: State, ok: bool, mode: bool): State {
    match s.ctl
    case Waiting => Goes(s, if s.status.stopping then Signal(s.now, Quit) else CheckExpiry(s.now))
    case CheckExpiry(now) =>
      Goes(s, if Expired(c, s, now) then LatchExpiry else if s.status.fatal.Some? then Waiting else Snapshot(now))
    case LatchExpiry => Goes(Fails(s, Outage), Waiting)
    case Snapshot(now) => Goes(s, Decision(c, s, now))
    case BeginRecovery(now, baseline) =>
      if s.timing.recovering || s.status.closed then Goes(s, Waiting)
      else
        Goes(s, Signal(now, Reschedule)).(
          timing := s.timing.(recovering := true, since := Some(baseline), backoff := 0),
          hist := s.hist.(opens := 0, runtime := true, raced := s.timing.lastFrame != Some(baseline)))
    case Signal(now, next) =>
      Goes(s, Join(now, next)).(own := if Busy(s.own) then Becomes(s.own, s.own.thread.value, Running(true)) else s.own)
    case Join(now, next) =>
      if !Busy(s.own) then
        Goes(s, match next case Reschedule => Schedule(now) case TryOpen => Decide(now) case Quit => Stopped).(
          own := s.own.(thread := None))
      else if ok then s      // still within the second the join may take
      else Goes(Fails(s, StuckReader), if next.Quit? then Stopped else Waiting)
    case Schedule(now) => Goes(s, Waiting).(timing := Rescheduled(s.timing, now))
    case Decide(now) =>
      if Ended(s.status) then Goes(s, Waiting)
      else
        var t := if s.timing.reopenAt.None? then Rescheduled(s.timing, now) else s.timing;
        Goes(s, if now < t.reopenAt.value then Waiting else CommitOpen(now)).(timing := t)
    case CommitOpen(now) =>
      Goes(s, Opening(now)).(timing := s.timing.(reopenAt := None), hist := s.hist.(opens := s.hist.opens + 1))
    case Opening(now) =>
      if ok then Goes(s, Adopt(now)) else if mode then Goes(Fails(s, BadMode), Waiting) else Goes(s, OpenFailed)
    case Adopt(now) =>
      if Ended(s.status) then Goes(s, OpenFailed)
      else
        var g := s.own.generation + 1;
        Goes(s, StartThread(now)).(
          own := Ownership(g, Some(g), s.own.readers[g := Unstarted]),
          timing := s.timing.(started := s.now, hasFrame := false, reopenAt := None))
    case StartThread(now) =>
      Goes(s, if ok then Waiting else OpenFailed).(own := Becomes(s.own, s.own.generation, if ok then Running(false) else Over))
    case OpenFailed =>
      if Ended(s.status) then Goes(s, Waiting) else Goes(s, Waiting).(timing := Rescheduled(s.timing, s.now))
    case Stopped => s
  }

  /** The reader's publication section: only the current generation's reader, and not once closed. */
  function Published(s: State, g: nat, stamp: real): State {
    if g != s.own.generation || s.status.closed then s.(own := Becomes(s.own, g, Over))
    else
      s.(frames := Overwritten(s.frames, g), timing := Noted(s.timing, stamp),
         hist := if s.timing.recovering then s.hist.(runtime := false) else s.hist)
  }

  /** A frame ends an outage. */
  function Noted(was: Timing, stamp: real): Timing {
    var t := was.(hasFrame := true, lastFrame := Some(stamp));
    if t.recovering then t.(recovering := false, since := None, reopenAt := None, backoff := 0) else t
  }

  function Unread(f: Frames): nat {
    if f.slot.Some? && f.slot.value.sequence != f.deliveredSequence then 1 else 0
  }

  /** A newer frame takes the slot; an unread one is lost. */
  function Overwritten(f: Frames, g: nat): Frames {
    Frames(Some(Frame(f.sequence + 1, g)), f.sequence + 1, f.deliveredSequence, f.framesRead + 1, f.dropped + Unread(f))
  }

  /** The section of `read` that hands out the newest unread frame. */
  function Delivered(s: State): State {
    if Ended(s.status) || Unread(s.frames) == 0 then s.(consumer := Resting)
    else s.(frames := s.frames.(deliveredSequence := s.frames.slot.value.sequence), consumer := Resting,
            hist := s.hist.(delivered := s.hist.delivered + 1))
  }

  function Apply(c: Config, s: State, e: Event): State {
    match e
    case Tick(d) => if d >= 0.0 then s.(now := s.now + d) else s
    case Control(ok, mode) => ControlStep(c, s, ok, mode)
    case Publish(g, stamp) => if Alive(s.own, g) && stamp <= s.now then Published(s, g, stamp) else s
    case ReaderEnds(g) => if Alive(s.own, g) then s.(own := Becomes(s.own, g, Over)) else s
    case ReaderFatal(g) => if Alive(s.own, g) then Fails(s.(own := Becomes(s.own, g, Over)), ReaderFault) else s
    case BeginRead => if s.consumer.Resting? then s.(consumer := if Expired(c, s, s.now) then LatchRead else Take) else s
    case ContinueRead => (
      match s.consumer
      case Resting => s
      case LatchRead => Fails(s.(consumer := Take), Outage)
      case Take => Delivered(s))
    case Close => s.(status := s.status.(closed := true, stopping := true))
  }

  function Run(c: Config, s: State, events: seq<Event>): State
    decreases |events|
  {
    if events == [] then s else Run(c, Apply(c, s, events[0]), events[1..])
  }

  /** What single steps are, taken out of the case analysis. */
  lemma PublishIs(c: Config, s: State, g: nat, stamp: real)
    ensures var t := Apply(c, s, Publish(g, stamp));
      if !Alive(s.own, g) || stamp > s.now then t == s
      else if g != s.own.generation || s.status.closed then t == s.(own := Becomes(s.own, g, Over))
      else
        && t.own == s.own && t.frames == Overwritten(s.frames, g) && t.timing == Noted(s.timing, stamp)
        && t.status == s.status && t.now == s.now && t.consumer == s.consumer
  {
  }

  lemma FailureIs(c: Config, s: State, g: nat)
    ensures Apply(c, s, ReaderFatal(g)) == if Alive(s.own, g) then Fails(s.(own := Becomes(s.own, g, Over)), ReaderFault) else s
  {
  }

  lemma ReadingIs(c: Config, s: State)
    ensures Apply(c, s, ContinueRead) ==
            match s.consumer
            case Resting => s
            case LatchRead => Fails(s.(consumer := Take), Outage)
            case Take => Delivered(s)
  {
  }

  lemma ExpiryIs(c: Config, s: State, now: real)
    ensures s.ctl == CheckExpiry(now) ==>
      Apply(c, s, Control(true, false)) ==
      Goes(s, if Expired(c, s, now) then LatchExpiry else if s.status.fatal.Some? then Waiting else Snapshot(now))
    ensures s.ctl == LatchExpiry ==> Apply(c, s, Control(true, false)) == Goes(Fails(s, Outage), Waiting)
  {
  }

  lemma JoinIs(c: Config, s: State, now: real, next: After, ok: bool)
    requires s.ctl == Join(now, next)
    ensures Apply(c, s, Control(ok, false)) ==
            if !Busy(s.own) then
              Goes(s, match next case Reschedule => Schedule(now) case TryOpen => Decide(now) case Quit => Stopped).(
                own := s.own.(thread := None))
            else if ok then s
            else Goes(Fails(s, StuckReader), if next.Quit? then Stopped else Waiting)
  {
  }

  lemma OpeningIs(c: Config, s: State, now: real, ok: bool, mode: bool)
    requires s.ctl == Opening(now)
    ensures Apply(c, s, Control(ok, mode)) ==
            if ok then Goes(s, Adopt(now)) else if mode then Goes(Fails(s, BadMode), Waiting) else Goes(s, OpenFailed)
  {
  }

  lemma AdoptionIs(c: Config, s: State, now: real)
    requires s.ctl == Adopt(now)
    ensures var g := s.own.generation + 1;
      Apply(c, s, Control(true, false)) ==
      if Ended(s.status) then Goes(s, OpenFailed)
      else
        Goes(s, StartThread(now)).(
          own := Ownership(g, Some(g), s.own.readers[g := Unstarted]),
          timing := s.timing.(started := s.now, hasFrame := false, reopenAt := None))
  {
  }

  /** Only the controller moves the controller. */
  lemma OthersLeaveController(c: Config, s: State, e: Event)
    requires !e.Control?
    ensures Apply(c, s, e).ctl == s.ctl
  {
  }

  // ---------------------------------------------------------------- at most one reader

  predicate HandsFree(ctl: Controller) {
    ctl.Schedule? || ctl.Decide? || ctl.CommitOpen? || ctl.Opening? || ctl.Adopt?
  }

  /** Readers belong to past generations and are over, except the one the controller refers to. */
  predicate OneReader(own: Ownership, ctl: Controller) {
    && (forall g | g in own.readers :: g <= own.generation)
    && (forall g | g in own.readers && !own.readers[g].Over? :: own.thread == Some(g) && g == own.generation)
    && (forall g | g in own.readers && own.readers[g].Unstarted? :: ctl.StartThread?)
    && (own.thread.Some? ==> own.thread.value in own.readers && own.thread.value == own.generation)
    && (HandsFree(ctl) ==> own.thread.None?)
    && (ctl.OpenFailed? ==> !Busy(own))
    && (ctl.StartThread? ==> own.thread.Some? && own.readers[own.thread.value].Unstarted?)
  }

  lemma StoppingKeepsOneReader(c: Config, s: State, ok: bool, mode: bool)
    requires OneReader(s.own, s.ctl) && (s.ctl.Signal? || s.ctl.Join?)
    ensures var t := ControlStep(c, s, ok, mode); OneReader(t.own, t.ctl)
  {
  }

  lemma OpeningKeepsOneReader(c: Config, s: State, ok: bool, mode: bool)
    requires OneReader(s.own, s.ctl) && (s.ctl.Adopt? || s.ctl.StartThread?)
    ensures var t := ControlStep(c, s, ok, mode); OneReader(t.own, t.ctl)
  {
  }

  /** The other controller steps leave threads and references alone. */
  lemma DecidingKeepsOneReader(c: Config, s: State, ok: bool, mode: bool)
    requires OneReader(s.own, s.ctl) && !(s.ctl.Signal? || s.ctl.Join? || s.ctl.Adopt? || s.ctl.StartThread?)
    ensures var t := ControlStep(c, s, ok, mode); t.own == s.own && OneReader(t.own, t.ctl)
  {
  }

  lemma StepKeepsOneReader(c: Config, s: State, e: Event)
    requires OneReader(s.own, s.ctl)
    ensures var t := Apply(c, s, e); OneReader(t.own, t.ctl)
  {
    if e.Control? {
      match s.ctl
      case Signal(_, _) | Join(_, _) => StoppingKeepsOneReader(c, s, e.ok, e.mode);
      case Adopt(_) | StartThread(_) => OpeningKeepsOneReader(c, s, e.ok, e.mode);
      case _ => DecidingKeepsOneReader(c, s, e.ok, e.mode);
    }
  }

  // ---------------------------------------------------------------- frame conservation

  predicate Conserved(f: Frames, delivered: nat) {
    && f.framesRead == f.sequence == delivered + f.dropped + Unread(f)
    && (if f.slot.None? then f.sequence == 0 else f.slot.value.sequence == f.sequence > 0)
    && f.deliveredSequence <= f.sequence
  }

  lemma StepKeepsConserved(c: Config, s: State, e: Event)
    requires Conserved(s.frames, s.hist.delivered)
    ensures var t := Apply(c, s, e); Conserved(t.frames, t.hist.delivered)
  {
  }

  // ---------------------------------------------------------------- the outage clock

  /** No k-th reopen of the running outage is due before this moment. */
  function Earliest(c: Config, t: Timing, k: nat): real
    requires t.since.Some?
  {
    t.since.value + c.stall + BackoffSum(k)
  }

  /** The clock reading a controller step works with. */
  function Carried(ctl: Controller): (at: Option<real>) {
    match ctl
    case CheckExpiry(now) => Some(now)
    case Snapshot(now) => Some(now)
    case Signal(now, _) => Some(now)
    case Join(now, _) => Some(now)
    case Schedule(now) => Some(now)
    case Decide(now) => Some(now)
    case _ => None
  }

  /** The controller is committed to stopping the reader and asking for another open. */
  predicate Rescheduling(ctl: Controller) {
    ctl.Schedule? || ((ctl.Signal? || ctl.Join?) && ctl.next.Reschedule?)
  }

  /** The controller has passed the expiry test of this step and may yet open. */
  predicate PassedExpiry(ctl: Controller) {
    ctl.Decide? || ctl.CommitOpen? || ((ctl.Signal? || ctl.Join?) && ctl.next.TryOpen?)
  }

  /** An open has begun and its outcome is not settled. */
  predicate Attempting(ctl: Controller) {
    ctl.Opening? || ctl.Adopt? || ctl.StartThread? || ctl.OpenFailed?
  }

  predicate Past(c: Config, t: Timing, at: Option<real>, k: nat)
    requires t.since.Some?
  {
    at.Some? ==> Earliest(c, t, k) <= at.value
  }

  /** What a runtime outage keeps between its steps. */
  predicate Paced(c: Config, s: State) {
    var t := s.timing;
    t.recovering && s.hist.runtime ==>
      && t.since.Some?
      && s.hist.opens <= t.backoff
      && (t.reopenAt.Some? && !Rescheduling(s.ctl) ==> s.hist.opens < t.backoff && Past(c, t, t.reopenAt, t.backoff))
      && (t.reopenAt.None? ==> Past(c, t, Some(s.now), t.backoff) && Past(c, t, Carried(s.ctl), t.backoff))
      && (Rescheduling(s.ctl) ==> Past(c, t, Carried(s.ctl), t.backoff))
      && (Busy(s.own) && !Rescheduling(s.ctl) ==> t.reopenAt.None?)
      && (Attempting(s.ctl) ==> t.reopenAt.None?)
      && (s.ctl.CommitOpen? ==> t.reopenAt.Some? && t.reopenAt.value <= s.ctl.now)
      && (s.ctl.Snapshot? && !Ended(s.status) ==> s.ctl.now - t.since.value < c.timeout)
      && (PassedExpiry(s.ctl) ==> s.ctl.now - t.since.value < c.timeout)
      && (!s.hist.raced ==> t.lastFrame == t.since)
  }

  /** Readings of the clock are never ahead of it. */
  predicate ClockRead(s: State) {
    && (Carried(s.ctl).Some? ==> Carried(s.ctl).value <= s.now)
    && (s.ctl.BeginRecovery? ==> s.ctl.now <= s.now)
    && (s.ctl.CommitOpen? ==> s.ctl.now <= s.now)
  }

  lemma StepReadsClock(c: Config, s: State, e: Event)
    requires ClockRead(s)
    ensures ClockRead(Apply(c, s, e))
  {
  }

  /** Nothing but the stall test leads to `BeginRecovery`. */
  predicate Silent(c: Config, ctl: Controller) {
    ctl.BeginRecovery? ==> ctl.now - ctl.baseline >= c.stall
  }

  lemma StepKeepsSilent(c: Config, s: State, e: Event)
    requires Silent(c, s.ctl)
    ensures Silent(c, Apply(c, s, e).ctl)
  {
  }

  lemma InspectingKeepsPaced(c: Config, s: State, ok: bool, mode: bool)
    requires OneReader(s.own, s.ctl) && ClockRead(s) && Silent(c, s.ctl) && Paced(c, s)
    requires s.ctl.Waiting? || s.ctl.CheckExpiry? || s.ctl.LatchExpiry? || s.ctl.Snapshot? || s.ctl.BeginRecovery?
    ensures Paced(c, ControlStep(c, s, ok, mode))
  {
    assert BackoffSum(0) == 0.0;
  }

  lemma StoppingKeepsPaced(c: Config, s: State, ok: bool, mode: bool)
    requires OneReader(s.own, s.ctl) && Paced(c, s)
    requires s.ctl.Signal? || s.ctl.Join? || s.ctl.Stopped?
    ensures Paced(c, ControlStep(c, s, ok, mode))
  {
  }

  lemma SchedulingKeepsPaced(c: Config, s: State, ok: bool, mode: bool)
    requires OneReader(s.own, s.ctl) && ClockRead(s) && Paced(c, s)
    requires s.ctl.Schedule? || s.ctl.Decide? || s.ctl.OpenFailed?
    ensures Paced(c, ControlStep(c, s, ok, mode))
  {
    assert BackoffSum(s.timing.backoff + 1) == BackoffSum(s.timing.backoff) + Delay(s.timing.backoff);
  }

  lemma OpeningKeepsPaced(c: Config, s: State, ok: bool, mode: bool)
    requires OneReader(s.own, s.ctl) && ClockRead(s) && Paced(c, s)
    requires s.ctl.CommitOpen? || s.ctl.Opening? || s.ctl.Adopt? || s.ctl.StartThread?
    ensures Paced(c, ControlStep(c, s, ok, mode))
  {
  }

  lemma StepKeepsPaced(c: Config, s: State, e: Event)
    requires OneReader(s.own, s.ctl) && ClockRead(s) && Silent(c, s.ctl) && Paced(c, s)
    ensures Paced(c, Apply(c, s, e))
  {
    if e.Control? {
      match s.ctl
      case Waiting | CheckExpiry(_) | LatchExpiry | Snapshot(_) | BeginRecovery(_, _) =>
        InspectingKeepsPaced(c, s, e.ok, e.mode);
      case Signal(_, _) | Join(_, _) | Stopped => StoppingKeepsPaced(c, s, e.ok, e.mode);
      case CommitOpen(_) | Opening(_) | Adopt(_) | StartThread(_) => OpeningKeepsPaced(c, s, e.ok, e.mode);
      case _ => SchedulingKeepsPaced(c, s, e.ok, e.mode);
    }
  }

  /** During an outage the running reader, unless it is being stopped, has not given a frame. */
  predicate Fruitless(s: State) {
    && (s.timing.recovering && Busy(s.own) && !Rescheduling(s.ctl) ==> !s.timing.hasFrame)
    && (s.ctl.StartThread? ==> !s.timing.hasFrame)
  }

  lemma StepKeepsFruitless(c: Config, s: State, e: Event)
    requires OneReader(s.own, s.ctl) && Fruitless(s)
    ensures Fruitless(Apply(c, s, e))
  {
  }

  // ---------------------------------------------------------------- whole runs

  predicate Safe(c: Config, s: State) {
    && OneReader(s.own, s.ctl)
    && Conserved(s.frames, s.hist.delivered)
    && ClockRead(s)
    && Silent(c, s.ctl)
    && Paced(c, s)
    && Fruitless(s)
  }

  lemma StepIsSafe(c: Config, s: State, e: Event)
    requires Safe(c, s)
    ensures Safe(c, Apply(c, s, e))
  {
    StepKeepsOneReader(c, s, e);
    StepKeepsConserved(c, s, e);
    StepReadsClock(c, s, e);
    StepKeepsSilent(c, s, e);
    StepKeepsPaced(c, s, e);
    StepKeepsFruitless(c, s, e);
  }

  lemma {:induction false} RunIsSafe(c: Config, s: State, events: seq<Event>)
    requires Safe(c, s)
    ensures Safe(c, Run(c, s, events))
    decreases |events|
  {
    if events != [] {
      StepIsSafe(c, s, events[0]);
      RunIsSafe(c, Apply(c, s, events[0]), events[1..]);
    }
  }

  lemma UnpacedIsSafe(c: Config, s: State)
    requires OneReader(s.own, s.ctl) && Conserved(s.frames, s.hist.delivered)
    requires s.ctl.Waiting? && !s.hist.runtime && s.own.thread.None?
    ensures Safe(c, s)
  {
  }

  lemma InitIsSafe(c: Config, s: State)
    requires s == Init()
    ensures Safe(c, s)
  {
    assert s.frames == Frames(None, 0, 0, 0, 0) && s.own == Ownership(0, None, map[]);
    UnpacedIsSafe(c, s);
  }

  lemma StartIsSafe(c: Config, events: seq<Event>)
    ensures Safe(c, Run(c, Init(), events))
  {
    InitIsSafe(c, Init());
    RunIsSafe(c, Init(), events);
  }

  /**
   * However the threads interleave, at most one reader runs, it is the newest generation's, and
   * none runs from the moment the previous one was joined until its replacement has been opened.
   */
  lemma AtMostOneReader(c: Config, events: seq<Event>)
    ensures var s := Run(c, Init(), events);
      && (forall g, h :: Alive(s.own, g) && Alive(s.own, h) ==> g == h)
      && (forall g :: Alive(s.own, g) ==> g == s.own.generation && !HandsFree(s.ctl))
      && (s.ctl.StartThread? ==> forall g :: !Alive(s.own, g))
  {
    StartIsSafe(c, events);
  }

  /** A frame reaches the slot only from the current generation's reader, and takes the next number. */
  lemma OnlyCurrentPublishes(c: Config, events: seq<Event>, e: Event)
    ensures var s := Run(c, Init(), events);
      var t := Apply(c, s, e);
      s.frames.slot != t.frames.slot ==>
        && e.Publish? && e.reader == s.own.generation && !s.status.closed
        && t.frames.slot == Some(Frame(s.frames.sequence + 1, s.own.generation))
  {
  }

  /** Every frame read has been delivered, was dropped, or waits in the slot. */
  lemma FramesAreConserved(c: Config, events: seq<Event>)
    ensures var s := Run(c, Init(), events);
      s.frames.framesRead == s.hist.delivered + s.frames.dropped + Unread(s.frames)
  {
    StartIsSafe(c, events);
  }

  // ---------------------------------------------------------------- deliveries

  /** One frame handed out: its number, and the frames read and dropped up to then. */
  datatype Delivery = Delivery(sequence: nat, framesRead: nat, dropped: nat)

  function Deliveries(c: Config, s: State, events: seq<Event>): seq<Delivery>
    decreases |events|
  {
    if events == [] then []
    else
      var t := Apply(c, s, events[0]);
      (if t.hist.delivered == s.hist.delivered then []
       else [Delivery(t.frames.deliveredSequence, t.frames.framesRead, t.frames.dropped)])
      + Deliveries(c, t, events[1..])
  }

  /** The i-th frame handed out is the newest one read, and its number counts itself, those before it and the drops. */
  predicate Newest(d: Delivery, before: nat) {
    d.sequence == d.framesRead == before + 1 + d.dropped
  }

  /** Deliveries numbered from `before`, all newer than `last`. */
  predicate Ascending(ds: seq<Delivery>, before: nat, last: nat) {
    && (forall i | 0 <= i < |ds| :: Newest(ds[i], before + i) && last < ds[i].sequence)
    && (forall i, j | 0 <= i < j < |ds| :: ds[i].sequence < ds[j].sequence)
  }

  lemma OneBefore(d: Delivery, rest: seq<Delivery>, before: nat, last: nat)
    requires Newest(d, before) && last < d.sequence && Ascending(rest, before + 1, d.sequence)
    ensures Ascending([d] + rest, before, last)
  {
    var ds := [d] + rest;
    forall i | 0 <= i < |ds|
      ensures Newest(ds[i], before + i) && d.sequence <= ds[i].sequence
    {
      if i > 0 {
        assert Newest(rest[i - 1], before + 1 + (i - 1));
      }
    }
  }

  lemma {:induction false} DeliveriesAreNewest(c: Config, s: State, events: seq<Event>)
    requires Conserved(s.frames, s.hist.delivered)
    ensures Ascending(Deliveries(c, s, events), s.hist.delivered, s.frames.deliveredSequence)
    decreases |events|
  {
    if events != [] {
      var t := Apply(c, s, events[0]);
      StepKeepsConserved(c, s, events[0]);
      StepDelivers(c, s, events[0]);
      DeliveriesAreNewest(c, t, events[1..]);
      var rest := Deliveries(c, t, events[1..]);
      if t.hist.delivered == s.hist.delivered {
        assert Deliveries(c, s, events) == rest;
      } else {
        OneBefore(Delivery(t.frames.deliveredSequence, t.frames.framesRead, t.frames.dropped), rest,
                  s.hist.delivered, s.frames.deliveredSequence);
      }
    }
  }

  lemma StepDelivers(c: Config, s: State, e: Event)
    requires Conserved(s.frames, s.hist.delivered)
    ensures var t := Apply(c, s, e);
      if t.hist.delivered == s.hist.delivered then t.frames.deliveredSequence == s.frames.deliveredSequence
      else && t.hist.delivered == s.hist.delivered + 1
           && s.frames.deliveredSequence < t.frames.deliveredSequence == s.frames.sequence == t.frames.framesRead
           && t.frames.dropped == s.frames.dropped && Unread(t.frames) == 0
  {
  }

  // ---------------------------------------------------------------- one outage

  /**
   * A reopened camera is left running during an outage only while it is younger than the stall
   * threshold; then it is stopped and the next open is scheduled.
   */
  lemma SilentReaderIsReplaced(c: Config, events: seq<Event>, ok: bool, mode: bool)
    ensures var s := Run(c, Init(), events);
      s.ctl.Snapshot? && !Ended(s.status) && s.timing.recovering && Busy(s.own) ==>
        ControlStep(c, s, ok, mode).ctl ==
        if s.ctl.now - s.timing.started < c.stall then Waiting else Signal(s.ctl.now, Reschedule)
  {
    StartIsSafe(c, events);
  }

  /**
   * The open that would be the k-th of a runtime outage is decided on, and so starts, no earlier than
   * the stall threshold and the first k backoffs after the outage's baseline. The clock reading it is
   * decided on lies within the recovery timeout; the open itself may start later. The baseline is the
   * last frame unless one arrived just as the outage was declared.
   */
  lemma ReopensArePaced(c: Config, events: seq<Event>)
    ensures var s := Run(c, Init(), events);
      s.ctl.CommitOpen? && !Ended(s.status) && s.hist.runtime && s.timing.recovering ==>
        && var k := s.hist.opens + 1;
           var since := s.timing.since;
        && since.Some?
        && since.value + c.stall + BackoffSum(k) <= s.ctl.now < since.value + c.timeout
        && s.ctl.now <= s.now
        && (!s.hist.raced ==> since == s.timing.lastFrame)
  {
    StartIsSafe(c, events);
    var s := Run(c, Init(), events);
    if s.ctl.CommitOpen? && s.timing.recovering && s.hist.runtime {
      BackoffSumMonotone(s.hist.opens + 1, s.timing.backoff);
    }
  }

  /** So one runtime outage sees fewer than (timeout - stall + 8.5) / 4 opens, or none past the third. */
  lemma ReopensAreBounded(c: Config, events: seq<Event>)
    ensures var s := Run(c, Init(), events);
      s.ctl.CommitOpen? && !Ended(s.status) && s.hist.runtime && s.timing.recovering && s.hist.opens + 1 >= 3 ==>
        4.0 * (s.hist.opens + 1) as real < c.timeout - c.stall + 8.5
  {
    ReopensArePaced(c, events);
    var k := Run(c, Init(), events).hist.opens + 1;
    if k >= 3 {
      BackoffSumGrows(k);
      assert 4.0 * (k - 3) as real == 4.0 * k as real - 12.0;
    }
  }

  // ---------------------------------------------------------------- the end

  /** How often the native open is called. */
  function Opens(c: Config, s: State, events: seq<Event>): nat
    decreases |events|
  {
    if events == [] then 0
    else (if events[0].Control? && s.ctl.CommitOpen? then 1 else 0) + Opens(c, Apply(c, s, events[0]), events[1..])
  }

  lemma FatalStays(c: Config, s: State, e: Event)
    requires s.status.fatal.Some?
    ensures var t := Apply(c, s, e);
      && t.status.fatal == s.status.fatal && t.own.generation == s.own.generation
      && t.hist.delivered == s.hist.delivered
      && (t.ctl.CommitOpen? ==> s.ctl.CommitOpen? && !e.Control?)
  {
  }

  /**
   * A fatal error is never replaced, no reader is adopted after it, nothing is delivered, and
   * the only open it does not prevent is the one the controller had already committed to.
   */
  lemma {:induction false} FatalIsFinal(c: Config, s: State, events: seq<Event>)
    requires s.status.fatal.Some?
    ensures var t := Run(c, s, events);
      && t.status.fatal == s.status.fatal
      && t.own.generation == s.own.generation
      && t.hist.delivered == s.hist.delivered
      && Opens(c, s, events) <= (if s.ctl.CommitOpen? then 1 else 0)
    decreases |events|
  {
    if events != [] {
      FatalStays(c, s, events[0]);
      FatalIsFinal(c, Apply(c, s, events[0]), events[1..]);
    }
  }

  /** After a reader that could not be joined nothing is opened any more. */
  lemma StuckReaderIsLast(c: Config, s: State, mode: bool, events: seq<Event>)
    requires s.ctl.Join? && Busy(s.own)
    ensures var t := Apply(c, s, Control(false, mode));
      && t.status.fatal == Some(if s.status.fatal.Some? then s.status.fatal.value else StuckReader)
      && Opens(c, t, events) == 0
      && Run(c, t, events).own.generation == s.own.generation
  {
    FatalIsFinal(c, Apply(c, s, Control(false, mode)), events);
  }

  /**
   * Once a controller step or a read has seen the timeout passed, that thread's next step finds
   * or latches a fatal error, whatever else happens in between, and it stays.
   */
  lemma {:induction false} TimeoutLatches(c: Config, s: State, events: seq<Event>)
    requires s.ctl.LatchExpiry? || s.consumer.LatchRead?
    requires exists i :: 0 <= i < |events|
                         && ((s.ctl.LatchExpiry? && events[i].Control?) || (s.consumer.LatchRead? && events[i].ContinueRead?))
    ensures Run(c, s, events).status.fatal.Some?
    decreases |events|
  {
    var t := Apply(c, s, events[0]);
    if t.status.fatal.Some? {
      FatalIsFinal(c, t, events[1..]);
    } else {
      var i :| 0 <= i < |events|
               && ((s.ctl.LatchExpiry? && events[i].Control?) || (s.consumer.LatchRead? && events[i].ContinueRead?));
      assert i > 0 && events[1..][i - 1] == events[i];
      TimeoutLatches(c, t, events[1..]);
    }
  }

  /** A read or a controller's test sees the timeout exactly when the outage has lasted that long. */
  lemma TimeoutIsSeen(c: Config, s: State, mode: bool)
    requires !Ended(s.status) && s.timing.recovering && s.timing.since.Some?
    ensures s.consumer.Resting? ==>
              (Apply(c, s, BeginRead).consumer.LatchRead? <==> s.now - s.timing.since.value >= c.timeout)
    ensures s.ctl.CheckExpiry? ==>
              (Apply(c, s, Control(true, mode)).ctl.LatchExpiry? <==> s.ctl.now - s.timing.since.value >= c.timeout)
  {
  }

  /**
   * So a read, or a controller step, that begins when the outage has lasted the timeout leaves a fatal
   * error for good, whatever the other threads do before its next step and after it.
   */
  lemma OverdueOutageEnds(c: Config, s: State, mode: bool, events: seq<Event>)
    requires !Ended(s.status) && s.timing.recovering && s.timing.since.Some?
    ensures s.consumer.Resting? && s.now - s.timing.since.value >= c.timeout && (exists i :: 0 <= i < |events| && events[i].ContinueRead?)
            ==> Run(c, s, [BeginRead] + events).status.fatal.Some?
    ensures s.ctl.CheckExpiry? && s.ctl.now - s.timing.since.value >= c.timeout && (exists i :: 0 <= i < |events| && events[i].Control?)
            ==> Run(c, s, [Control(true, mode)] + events).status.fatal.Some?
  {
    hide Apply;
    TimeoutIsSeen(c, s, mode);
    assert ([BeginRead] + events)[1..] == events && ([Control(true, mode)] + events)[1..] == events;
    if s.consumer.Resting? && s.now - s.timing.since.value >= c.timeout && exists i :: 0 <= i < |events| && events[i].ContinueRead? {
      TimeoutLatches(c, Apply(c, s, BeginRead), events);
    }
    if s.ctl.CheckExpiry? && s.ctl.now - s.timing.since.value >= c.timeout && exists i :: 0 <= i < |events| && events[i].Control? {
      TimeoutLatches(c, Apply(c, s, Control(true, mode)), events);
    }
  }

  /**
   * Once closed, nothing is opened for use, no frame is taken or handed out, and no outage begins.
   */
  lemma {:induction false} ClosedIsFinal(c: Config, s: State, events: seq<Event>)
    requires s.status.closed
    ensures var t := Run(c, s, events);
      && t.status.closed && t.own.generation == s.own.generation
      && t.frames == s.frames && t.hist.delivered == s.hist.delivered
      && (t.timing.recovering ==> s.timing.recovering)
    decreases |events|
  {
    hide Run;
    if events != [] {
      ClosedStays(c, s, events[0]);
      ClosedIsFinal(c, Apply(c, s, events[0]), events[1..]);
    }
    RunUnfolds(c, s, events);
  }

  lemma RunUnfolds(c: Config, s: State, events: seq<Event>)
    ensures Run(c, s, events) == if events == [] then s else Run(c, Apply(c, s, events[0]), events[1..])
  {
  }

  lemma ClosedStays(c: Config, s: State, e: Event)
    requires s.status.closed
    ensures var t := Apply(c, s, e);
      && t.status.closed && t.own.generation == s.own.generation
      && t.frames == s.frames && t.hist.delivered == s.hist.delivered
      && (t.timing.recovering ==> s.timing.recovering)
  {
  }

  // ---------------------------------------------------------------- a stall is recovered from

  lemma {:induction false} RunAfter(c: Config, s: State, first: seq<Event>, second: seq<Event>)
    ensures Run(c, s, first + second) == Run(c, Run(c, s, first), second)
    decreases |first|
  {
    if first == [] {
      assert first + second == second;
    } else {
      assert (first + second)[1..] == first[1..] + second;
      RunAfter(c, Apply(c, s, first[0]), first[1..], second);
    }
  }

  const GoOn := Control(true, false)

  lemma Two(c: Config, s: State, a: Event, b: Event)
    ensures Run(c, s, [a, b]) == Apply(c, Apply(c, s, a), b)
  {
    assert [a, b][1..] == [b] && [b][1..] == [];
    assert Run(c, Apply(c, s, a), [b]) == Run(c, Apply(c, Apply(c, s, a), b), []);
  }

  lemma Four(c: Config, s: State, e: Event, f: Event, g: Event, h: Event)
    ensures Run(c, s, [e, f, g, h]) == Apply(c, Apply(c, Apply(c, Apply(c, s, e), f), g), h)
  {
    assert [e, f, g, h] == [e, f] + [g, h];
    RunAfter(c, s, [e, f], [g, h]);
    Two(c, s, e, f);
    Two(c, Run(c, s, [e, f]), g, h);
  }

  /** The camera of a running reader has been silent for the stall time. */
  predicate Stalled(c: Config, s: State) {
    && s.ctl.Waiting? && !Ended(s.status) && !s.status.stopping && !s.timing.recovering
    && Busy(s.own) && s.timing.lastFrame.Some? && s.now - s.timing.lastFrame.value >= c.stall
  }

  /** The outage is known, its reader is gone, and the next open is due half a second after `at`. */
  predicate Awaiting(s: State, at: real, silent: real) {
    && s.ctl.Waiting? && !Ended(s.status) && !s.status.stopping
    && s.timing.recovering && s.timing.since == Some(silent) && s.own.thread.None?
    && s.timing.reopenAt == Some(at + 0.5) && s.timing.backoff == 1
  }

  lemma StallIsDeclared(c: Config, s: State)
    requires Stalled(c, s)
    ensures var t := Run(c, s, [GoOn, GoOn, GoOn, GoOn]);
      && t.ctl == Signal(s.now, Reschedule) && t.status == s.status && t.own == s.own && t.now == s.now
      && t.timing == s.timing.(recovering := true, since := s.timing.lastFrame, backoff := 0)
  {
    hide Run;
    Four(c, s, GoOn, GoOn, GoOn, GoOn);
  }

  lemma ReaderIsStopped(c: Config, s: State)
    requires s.ctl.Signal? && s.ctl.next.Reschedule? && Busy(s.own)
    ensures var t := Run(c, s, [GoOn, ReaderEnds(s.own.thread.value), GoOn, GoOn]);
      && t.ctl.Waiting? && t.status == s.status && t.now == s.now && t.own.thread.None?
      && t.own.generation == s.own.generation && t.timing == Rescheduled(s.timing, s.ctl.now)
  {
    hide Run;
    var g := s.own.thread.value;
    Four(c, s, GoOn, ReaderEnds(g), GoOn, GoOn);
    assert Apply(c, s, GoOn).own == Becomes(s.own, g, Running(true));
  }

  /** The controller notices a stall, and once the reader obeys and ends, the next open is due in half a second. */
  lemma StallStartsOutage(c: Config, s: State) returns (events: seq<Event>)
    requires Stalled(c, s)
    ensures var t := Run(c, s, events);
      Awaiting(t, s.now, s.timing.lastFrame.value) && t.own.generation == s.own.generation && t.now == s.now
  {
    hide Run;
    var first := [GoOn, GoOn, GoOn, GoOn];
    StallIsDeclared(c, s);
    var t := Run(c, s, first);
    var second := [GoOn, ReaderEnds(s.own.thread.value), GoOn, GoOn];
    ReaderIsStopped(c, t);
    RunAfter(c, s, first, second);
    events := first + second;
  }

  lemma OpenIsDecided(c: Config, s: State, at: real, silent: real)
    requires Awaiting(s, at, silent) && at + 0.5 <= s.now && s.now - silent < c.timeout
    ensures var t := Run(c, s, [GoOn, GoOn, GoOn, GoOn]);
      t == Goes(s, CommitOpen(s.now))
  {
    hide Run;
    Four(c, s, GoOn, GoOn, GoOn, GoOn);
  }

  lemma OpenSucceeds(c: Config, s: State)
    requires s.ctl.CommitOpen? && !Ended(s.status)
    ensures var t := Run(c, s, [GoOn, GoOn, GoOn, GoOn]);
      && t.ctl.Waiting? && t.status == s.status && t.now == s.now && t.own.generation == s.own.generation + 1
      && t.own.thread == Some(t.own.generation) && Alive(t.own, t.own.generation)
      && t.timing == s.timing.(started := s.now, hasFrame := false, reopenAt := None)
  {
    hide Run;
    Four(c, s, GoOn, GoOn, GoOn, GoOn);
  }

  /** Then, within the timeout, an open that works gives a running reader of the next generation, whose first frame ends the outage. */
  lemma OutageIsRecovered(c: Config, s: State, at: real, silent: real) returns (events: seq<Event>)
    requires Awaiting(s, at, silent) && at + 0.5 <= s.now && s.now - silent < c.timeout
    ensures var t := Run(c, s, events);
      && t.ctl.Waiting? && t.own.generation == s.own.generation + 1 && Busy(t.own) && t.own.thread == Some(t.own.generation)
      && t.timing.recovering
      && var u := Apply(c, t, Publish(t.own.generation, t.now));
         && !u.timing.recovering && u.timing.lastFrame == Some(t.now) && u.timing.backoff == 0 && u.timing.reopenAt.None?
         && u.frames.slot == Some(Frame(t.frames.sequence + 1, t.own.generation))
  {
    hide Run;
    var four := [GoOn, GoOn, GoOn, GoOn];
    OpenIsDecided(c, s, at, silent);
    var t := Run(c, s, four);
    OpenSucceeds(c, t);
    RunAfter(c, s, four, four);
    events := four + four;
  }

  /** The very first open is tried at once, and if it fails again after half a second. */
  lemma FirstOpenIsPrompt(c: Config)
    requires c.timeout > 0.0
    ensures var t := Run(c, Init(), [GoOn, GoOn, GoOn, GoOn]);
      && t == Goes(Init(), CommitOpen(0.0))
      && Run(c, t, [GoOn, Control(false, false), GoOn, Tick(0.0)]).timing.reopenAt == Some(0.5)
  {
    hide Run;
    var s := Init();
    Four(c, s, GoOn, GoOn, GoOn, GoOn);
    FailedOpenWaits(c, Goes(s, CommitOpen(0.0)));
  }

  /** An open that fails asks for the next one after the next longer pause: half a second, one, two, then always four. */
  lemma FailedOpenWaits(c: Config, s: State)
    requires s.ctl.CommitOpen? && !Ended(s.status)
    ensures var t := Run(c, s, [GoOn, Control(false, false), GoOn, Tick(0.0)]);
      var k := s.timing.backoff;
      && t.ctl.Waiting? && t.own == s.own && t.timing.backoff == k + 1
      && t.timing.reopenAt == Some(s.now + (if k == 0 then 0.5 else if k == 1 then 1.0 else if k == 2 then 2.0 else 4.0))
  {
    hide Run;
    Four(c, s, GoOn, Control(false, false), GoOn, Tick(0.0));
  }

  // ---------------------------------------------------------------- two races

  lemma {:induction false} RunAppends(c: Config, s: State, events: seq<Event>, e: Event)
    ensures Run(c, s, events + [e]) == Apply(c, Run(c, s, events), e)
    decreases |events|
  {
    if events == [] {
      assert Run(c, Apply(c, s, e), []) == Apply(c, s, e);
      assert (events + [e])[1..] == [];
    } else {
      assert (events + [e])[1..] == events[1..] + [e];
      RunAppends(c, Apply(c, s, events[0]), events[1..], e);
    }
  }

  /** Extends a run that leads from `i` to `s`. */
  lemma Then(c: Config, i: State, events: seq<Event>, s: State, e: Event) returns (more: seq<Event>, t: State)
    requires Run(c, i, events) == s
    ensures Run(c, i, more) == t == Apply(c, s, e)
  {
    more, t := events + [e], Apply(c, s, e);
    RunAppends(c, i, events, e);
  }

  lemma Controlled(c: Config, i: State, events: seq<Event>, s: State) returns (more: seq<Event>, t: State)
    requires Run(c, i, events) == s
    ensures Run(c, i, more) == t == ControlStep(c, s, true, false)
  {
    more, t := Then(c, i, events, s, Control(true, false));
  }

  /** A controller step that is neither told to stop nor past the timeout acts on its snapshot. */
  lemma Inspect(c: Config, i: State, events: seq<Event>, s: State) returns (more: seq<Event>, t: State)
    requires Run(c, i, events) == s
    requires s.ctl.Waiting? && s.status == Status(false, None, false) && !Expired(c, s, s.now)
    ensures Run(c, i, more) == t == Goes(s, Decision(c, s, s.now))
  {
    more, t := Controlled(c, i, events, s);
    more, t := Controlled(c, i, more, t);
    more, t := Controlled(c, i, more, t);
  }

  lemma FirstOpen(c: Config, i: State) returns (events: seq<Event>, s: State)
    requires c.timeout > 0.0 && i == Init()
    ensures Run(c, i, events) == s == i.(ctl := CommitOpen(0.0))
  {
    events, s := Inspect(c, i, [], i);
    assert s == i.(ctl := Decide(0.0));
    events, s := Controlled(c, i, events, s);
  }

  /** A fatal error latched by a read after the controller's last look does not stop that one open. */
  lemma OneOpenAfterFatal(c: Config, i: State)
    requires c.timeout > 0.0 && i == Init()
    ensures exists before, after ::
              Run(c, i, before).status.fatal.Some? && Opens(c, Run(c, i, before), after) == 1
  {
    var events, s := FirstOpen(c, i);
    events, s := Then(c, i, events, s, Tick(c.timeout));
    events, s := Then(c, i, events, s, BeginRead);
    assert s.consumer.LatchRead?;
    events, s := Then(c, i, events, s, ContinueRead);
    assert s.status.fatal == Some(Outage) && s.ctl.CommitOpen?;
    var after := [Control(true, false)];
    assert Opens(c, Apply(c, s, after[0]), after[1..]) == 0;
    assert Opens(c, s, after) == 1;
  }

  /** The first camera has been opened and runs. */
  lemma FirstReader(c: Config, i: State) returns (events: seq<Event>, s: State)
    requires c.timeout > 0.0 && i == Init()
    ensures Run(c, i, events) == s
    ensures s == i.(own := Ownership(1, Some(1), map[1 := Running(false)]),
                    timing := i.timing.(reopenAt := None), hist := i.hist.(opens := 1))
  {
    events, s := FirstOpen(c, i);
    events, s := Controlled(c, i, events, s);
    events, s := Controlled(c, i, events, s);
    assert s.ctl == Adopt(0.0);
    events, s := Controlled(c, i, events, s);
    assert s.ctl == StartThread(0.0) && s.own == Ownership(1, Some(1), map[1 := Unstarted]);
    events, s := Controlled(c, i, events, s);
    assert s.own.readers == map[1 := Running(false)];
  }

  /** The camera has given its only frame at time 0. */
  lemma FellSilent(c: Config, i: State) returns (events: seq<Event>, s: State)
    requires 0.0 < c.stall < c.timeout && i == Init()
    ensures Run(c, i, events) == s
    ensures s.now == c.stall && s.ctl == Waiting && s.status == i.status
    ensures s.own == Ownership(1, Some(1), map[1 := Running(false)])
    ensures s.timing == Timing(0.0, true, Some(0.0), false, None, None, 0)
  {
    events, s := FirstReader(c, i);
    events, s := Then(c, i, events, s, Publish(1, 0.0));
    assert s.timing == Timing(0.0, true, Some(0.0), false, None, None, 0);
    events, s := Then(c, i, events, s, Tick(c.stall));
  }

  /** The controller finds the camera silent. */
  lemma FoundSilent(c: Config, i: State) returns (events: seq<Event>, s: State)
    requires 0.0 < c.stall < c.timeout && i == Init()
    ensures Run(c, i, events) == s
    ensures s.now == c.stall && s.ctl == BeginRecovery(c.stall, 0.0) && s.status == i.status
    ensures s.own == Ownership(1, Some(1), map[1 := Running(false)])
    ensures s.timing == Timing(0.0, true, Some(0.0), false, None, None, 0)
  {
    events, s := FellSilent(c, i);
    events, s := Inspect(c, i, events, s);
  }

  /** One more frame arrives, and the outage is declared all the same. */
  lemma RacedOutage(c: Config, i: State) returns (events: seq<Event>, s: State)
    requires 0.0 < c.stall < c.timeout && i == Init()
    ensures Run(c, i, events) == s
    ensures s.now == c.stall && s.ctl.Waiting? && s.status == i.status && s.own.thread.None? && s.hist.raced
    ensures s.timing == Timing(0.0, true, Some(c.stall), true, Some(0.0), Some(c.stall + 0.5), 1)
  {
    events, s := FoundSilent(c, i);
    events, s := Then(c, i, events, s, Publish(1, c.stall));
    events, s := Controlled(c, i, events, s);
    assert s.ctl == Signal(c.stall, Reschedule) && s.hist.raced;
    events, s := Controlled(c, i, events, s);
    events, s := Then(c, i, events, s, ReaderEnds(1));
    events, s := Controlled(c, i, events, s);
    assert s.ctl == Schedule(c.stall);
    events, s := Controlled(c, i, events, s);
  }

  /**
   * The baseline is not always the last frame: one that arrives between the silent snapshot and
   * the declaration of the outage is followed by a reopen half a second later.
   */
  lemma RacedReopenIsEarly(c: Config, i: State)
    requires 0.5 < c.stall && c.stall + 0.5 < c.timeout && i == Init()
    ensures exists events ::
              var s := Run(c, i, events);
              && s.ctl.CommitOpen? && s.hist.raced && s.timing.lastFrame.Some?
              && s.ctl.now < s.timing.lastFrame.value + c.stall
  {
    var events, s := RacedOutage(c, i);
    events, s := Then(c, i, events, s, Tick(0.5));
    events, s := Inspect(c, i, events, s);
    assert s.ctl == Decide(c.stall + 0.5);
    events, s := Controlled(c, i, events, s);
    assert s.ctl == CommitOpen(c.stall + 0.5);
  }
}
