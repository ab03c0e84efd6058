/**
 * The install lock of the managed-runtime installer, as a state machine over the file-system
 * calls that `withInstallLock` and `reclaimStaleLock` make.
 *
 * Any number of participants run the protocol; each may stop for ever at any call. A participant
 * is one call of `withInstallLock` by one process. Its private owner record is a file of its own
 * with an inode that no other file ever has, so a participant's number also names that inode, and
 * "which inode does the canonical lock name hold" is an `Option<Pid>`.
 */
module InstallLock {
  import opened Options

  type Pid = nat

  /** Why a call of `withInstallLock` threw. */
  datatype Failure = Deadline | NotOwned | CannotPublish | OwnershipChanged

  /** The next file-system call a participant makes. */
  datatype Pc =
    | TestInode                                          // top of the loop: is the lock our inode?
    | ScanBarriers(owns: bool, clean: bool)              // `clean` is history: see Clean
    | LinkLock                                           // link the private record to the lock name
    | RetestInode                                        // the name was taken: is it ours?
    | WaiterStat                                         // inspectInstallLock: lstat
    | WaiterRead                                         // inspectInstallLock: read the record
    | PublishBarrier                                     // reclaimStaleLock begins
    | BreakerStat
    | BreakerRead(stat: Pid)
    | Quarantine(stat: Pid, owner: Pid)                  // rename the lock away
    | Compare(stat: Pid, owner: Pid, moved: Pid)         // is the moved inode the inspected one?
    | CheckVacant(moved: Pid)                            // no: is the lock name free?
    | Restore(moved: Pid)                                // then rename it back
    | UnlinkRecord(owner: Pid, moved: Pid)               // yes: remove the dead owner's record
    | UnlinkQuarantine
    | WithdrawBarrier
    | Callback
    | ReleaseTest
    | ReleaseUnlink
    | DropRecord(outcome: Option<Failure>)
    | Ended(outcome: Option<Failure>)

  datatype Participant = Participant(pc: Pc, published: bool)

  /** The lock files of the generations root; `records` and `barriers` are named by their writers. */
  datatype Files = Files(lock: Option<Pid>, records: set<Pid>, barriers: set<Pid>)

  datatype State = State(files: Files, dead: set<Pid>, parts: map<Pid, Participant>)

  const Init := State(Files(None, {}, {}), {}, map[])

  /** What the clock says at a step: the inspected record is old enough; our deadline has passed. */
  datatype Clock = Clock(aged: bool, expired: bool)

  datatype Event =
    | Arrive(p: Pid)
    | Step(p: Pid, clock: Clock)
    | Poll(p: Pid, clock: Clock)      // inode test and barrier scan at one instant
    | Crash(p: Pid)

  predicate Live(s: State, p: Pid) {
    p in s.parts && p !in s.dead
  }

  /** Between judging a lock stale and withdrawing the barrier, still able to touch the lock name. */
  predicate Armed(pc: Pc) {
    pc.Quarantine? || pc.Compare? || pc.CheckVacant? || pc.Restore?
  }

  predicate Reclaiming(pc: Pc) {
    || Armed(pc) || pc.BreakerStat? || pc.BreakerRead? || pc.UnlinkRecord? || pc.UnlinkQuarantine?
    || pc.WithdrawBarrier?
  }

  /** The timing fact the settle delay is there to provide: no live breaker is armed now. */
  predicate Clean(s: State) {
    forall q | q in s.parts :: q !in s.dead ==> !Armed(s.parts[q].pc)
  }

  predicate Same(f: Files, p: Pid) {
    f.lock == Some(p) && p in f.records
  }

  datatype Effect = Effect(files: Files, me: Participant)

  /** One call made by live participant `p`, given the files, who is dead, and whether nobody is armed. */
  function Call(f: Files, dead: set<Pid>, p: Pid, me: Participant, clean: bool, clock: Clock): Effect {
    var go := (pc: Pc) => Effect(f, me.(pc := pc));
    match me.pc
    case TestInode => go(ScanBarriers(Same(f, p), clean))
    case ScanBarriers(owns, _) =>
      var f1 := f.(barriers := f.barriers - dead);
      var next :=
        if f1.barriers != {} then
          if !me.published && clock.expired then DropRecord(Some(Deadline)) else TestInode
        else if owns then Callback
        else LinkLock;
      Effect(f1, me.(pc := next))
    case LinkLock =>
      if p !in f.records then go(DropRecord(Some(CannotPublish)))
      else if f.lock.None? then Effect(f.(lock := Some(p)), Participant(TestInode, true))
      else go(RetestInode)
    case RetestInode => go(if Same(f, p) then TestInode else WaiterStat)
    case WaiterStat =>
      if f.lock.Some? then go(WaiterRead)
      else go(if clock.expired then DropRecord(Some(Deadline)) else TestInode)
    case WaiterRead =>
      if f.lock.None? then go(DropRecord(Some(NotOwned)))
      else if f.lock.value in dead && clock.aged then go(PublishBarrier)
      else go(if clock.expired then DropRecord(Some(Deadline)) else TestInode)
    case PublishBarrier => Effect(f.(barriers := f.barriers + {p}), me.(pc := BreakerStat))
    case BreakerStat => go(if f.lock.None? then WithdrawBarrier else BreakerRead(f.lock.value))
    case BreakerRead(stat) =>
      if f.lock.Some? && f.lock.value in dead && clock.aged then go(Quarantine(stat, f.lock.value))
      else go(WithdrawBarrier)
    case Quarantine(stat, owner) =>
      if f.lock.None? then go(WithdrawBarrier)
      else Effect(f.(lock := None), me.(pc := Compare(stat, owner, f.lock.value)))
    case Compare(stat, owner, moved) =>
      go(if moved == stat then UnlinkRecord(owner, moved) else CheckVacant(moved))
    case CheckVacant(moved) => go(if f.lock.None? then Restore(moved) else WithdrawBarrier)
    case Restore(moved) => Effect(f.(lock := Some(moved)), me.(pc := WithdrawBarrier))
    case UnlinkRecord(owner, moved) =>
      Effect(if owner == moved then f.(records := f.records - {owner}) else f, me.(pc := UnlinkQuarantine))
    case UnlinkQuarantine => go(WithdrawBarrier)
    case WithdrawBarrier => Effect(f.(barriers := f.barriers - {p}), me.(pc := TestInode))
    case Callback => go(ReleaseTest)
    case ReleaseTest => go(if Same(f, p) then ReleaseUnlink else DropRecord(Some(OwnershipChanged)))
    case ReleaseUnlink => Effect(f.(lock := None), me.(pc := DropRecord(None)))
    case DropRecord(outcome) => Effect(f.(records := f.records - {p}), me.(pc := Ended(outcome)))
    case Ended(_) => go(me.pc)
  }

  function Move(s: State, p: Pid, clock: Clock): State
    requires p in s.parts
  {
    var e := Call(s.files, s.dead, p, s.parts[p], Clean(s), clock);
    State(e.files, s.dead, s.parts[p := e.me])
  }

  /** Any event may be proposed at any time; one that is not enabled changes nothing. */
  function Apply(s: State, e: Event): State {
    match e
    case Arrive(p) =>
      if p in s.parts then s
      else State(s.files.(records := s.files.records + {p}), s.dead, s.parts[p := Participant(TestInode, false)])
    case Step(p, clock) => if Live(s, p) then Move(s, p, clock) else s
    case Poll(p, clock) =>
      if Live(s, p) && s.parts[p].pc.TestInode? then Move(Move(s, p, clock), p, clock) else s
    case Crash(p) => if p in s.parts then s.(dead := s.dead + {p}) else s
  }

  function Run(s: State, events: seq<Event>): State
    decreases |events|
  {
    if events == [] then s else Run(Apply(s, events[0]), events[1..])
  }

  /** The step makes `p` enter the callback. */
  predicate Enters(s: State, e: Event, p: Pid) {
    var t := Apply(s, e);
    p in s.parts && p in t.parts && !s.parts[p].pc.Callback? && t.parts[p].pc.Callback?
  }

  /**
   * The timing assumption on a run whose inode test and barrier scan are separate calls: whoever
   * enters the callback tested its inode at a moment when no live breaker was armed.
   */
  predicate TimelyStep(s: State, e: Event) {
    e.Step? && Live(s, e.p) && s.parts[e.p].pc.ScanBarriers? && Enters(s, e, e.p) ==> s.parts[e.p].pc.clean
  }

  predicate Timely(s: State, events: seq<Event>)
    decreases |events|
  {
    events == [] || (TimelyStep(s, events[0]) && Timely(Apply(s, events[0]), events[1..]))
  }

  /** A run in which the inode test and the barrier scan always happen at one instant. */
  predicate Coarse(s: State, events: seq<Event>)
    decreases |events|
  {
    events == [] ||
    ((events[0].Step? && Live(s, events[0].p) ==> !s.parts[events[0].p].pc.TestInode?) &&
     Coarse(Apply(s, events[0]), events[1..]))
  }

  // ---------------------------------------------------------------- invariants

  /** Holds in every run, timely or not. */
  predicate Sound(s: State) {
    && s.dead <= s.parts.Keys
    && s.files.records <= s.parts.Keys && s.files.barriers <= s.parts.Keys
    && (s.files.lock.Some? ==> s.files.lock.value in s.parts)
    && (forall p | p in s.parts :: SoundPart(s.files, s.dead, s.parts.Keys, p, s.parts[p]))
  }

  predicate SoundPart(f: Files, dead: set<Pid>, known: set<Pid>, p: Pid, me: Participant) {
    var pc := me.pc;
    && (p !in dead && !pc.Ended? ==> p in f.records)
    && (p !in dead ==> (p in f.barriers <==> Reclaiming(pc)))
    && (pc.Quarantine? || pc.Compare? || pc.UnlinkRecord? ==> pc.owner in dead)
    && (pc.Compare? || pc.CheckVacant? || pc.Restore? ==> pc.moved in known)
    && (pc.DropRecord? || pc.Ended? ==> pc.outcome != Some(CannotPublish))
  }

  /** What one call can do to the files everybody else relies on. */
  lemma CallFrame(f: Files, dead: set<Pid>, known: set<Pid>, p: Pid, me: Participant, clean: bool, clock: Clock)
    requires SoundPart(f, dead, known, p, me) && p !in dead && p in known
    requires f.lock.Some? ==> f.lock.value in known
    ensures var e := Call(f, dead, p, me, clean, clock);
      && (e.files.lock.Some? ==> e.files.lock.value in known)
      && (forall q | q !in dead && q != p :: q in f.records ==> q in e.files.records)
      && (forall q | q !in dead && q != p :: q in f.barriers ==> q in e.files.barriers)
      && e.files.records <= f.records && e.files.barriers <= f.barriers + {p}
  {
  }

  lemma BreakerCallSound(f: Files, dead: set<Pid>, known: set<Pid>, p: Pid, me: Participant, clean: bool, clock: Clock)
    requires SoundPart(f, dead, known, p, me) && p !in dead && p in known && Reclaiming(me.pc)
    requires f.lock.Some? ==> f.lock.value in known
    ensures var e := Call(f, dead, p, me, clean, clock); SoundPart(e.files, dead, known, p, e.me)
  {
  }

  lemma OtherCallSound(f: Files, dead: set<Pid>, known: set<Pid>, p: Pid, me: Participant, clean: bool, clock: Clock)
    requires SoundPart(f, dead, known, p, me) && p !in dead && p in known && !Reclaiming(me.pc)
    ensures var e := Call(f, dead, p, me, clean, clock); SoundPart(e.files, dead, known, p, e.me)
  {
  }

  lemma CallSound(f: Files, dead: set<Pid>, known: set<Pid>, p: Pid, me: Participant, clean: bool, clock: Clock)
    requires SoundPart(f, dead, known, p, me) && p !in dead && p in known
    requires f.lock.Some? ==> f.lock.value in known
    ensures var e := Call(f, dead, p, me, clean, clock); SoundPart(e.files, dead, known, p, e.me)
  {
    hide Call, SoundPart;
    if Reclaiming(me.pc) {
      BreakerCallSound(f, dead, known, p, me, clean, clock);
    } else {
      OtherCallSound(f, dead, known, p, me, clean, clock);
    }
  }

  lemma MoveSound(s: State, p: Pid, clock: Clock)
    requires Sound(s) && Live(s, p)
    ensures Sound(Move(s, p, clock))
  {
    var t := Move(s, p, clock);
    assert t.parts.Keys == s.parts.Keys;
    CallFrame(s.files, s.dead, s.parts.Keys, p, s.parts[p], Clean(s), clock);
    CallSound(s.files, s.dead, s.parts.Keys, p, s.parts[p], Clean(s), clock);
    forall q | q in t.parts ensures SoundPart(t.files, t.dead, t.parts.Keys, q, t.parts[q]) {
      assert SoundPart(s.files, s.dead, s.parts.Keys, q, s.parts[q]);
    }
  }

  lemma ApplySound(s: State, e: Event)
    requires Sound(s)
    ensures Sound(Apply(s, e))
  {
    match e
    case Step(p, clock) => if Live(s, p) { MoveSound(s, p, clock); }
    case Poll(p, clock) =>
      if Live(s, p) && s.parts[p].pc.TestInode? {
        MoveSound(s, p, clock);
        MoveSound(Move(s, p, clock), p, clock);
      }
    case Arrive(p) =>
      var t := Apply(s, e);
      forall q | q in t.parts ensures SoundPart(t.files, t.dead, t.parts.Keys, q, t.parts[q]) {
        assert q in s.parts ==> SoundPart(s.files, s.dead, s.parts.Keys, q, s.parts[q]);
      }
    case Crash(p) =>
      var t := Apply(s, e);
      forall q | q in t.parts ensures SoundPart(t.files, t.dead, t.parts.Keys, q, t.parts[q]) {
        assert SoundPart(s.files, s.dead, s.parts.Keys, q, s.parts[q]);
      }
  }

  lemma {:induction false} RunSound(s: State, events: seq<Event>)
    requires Sound(s)
    ensures Sound(Run(s, events))
    decreases |events|
  {
    if events != [] {
      ApplySound(s, events[0]);
      RunSound(Apply(s, events[0]), events[1..]);
    }
  }

  // ---------------------------------------------------------------- mutual exclusion

  /** Inside the callback or still releasing: the lock must stay ours. */
  predicate Holds(pc: Pc) {
    pc.Callback? || pc.ReleaseTest? || pc.ReleaseUnlink?
  }

  /** Holding the lock, or one barrier scan away from it after a clean test. */
  predicate Claims(pc: Pc) {
    Holds(pc) || (pc.ScanBarriers? && pc.owns && pc.clean)
  }

  /** Whoever claims the lock has it, and nobody alive is able to move it. */
  predicate Exclusive(s: State) {
    && (forall p | p in s.parts :: p !in s.dead && Claims(s.parts[p].pc) ==> s.files.lock == Some(p) && Clean(s))
    && (forall p | p in s.parts :: NotUsurped(s.parts[p].pc))
  }

  predicate NotUsurped(pc: Pc) {
    pc.DropRecord? || pc.Ended? ==> pc.outcome != Some(OwnershipChanged)
  }

  /** While live `w` claims the lock and nobody is armed, no call of another participant moves it or arms. */
  lemma CallRespects(f: Files, dead: set<Pid>, p: Pid, me: Participant, clean: bool, clock: Clock, w: Pid)
    requires f.lock == Some(w) && w !in dead && w != p
    requires !Armed(me.pc) && !Claims(me.pc) && NotUsurped(me.pc)
    ensures var e := Call(f, dead, p, me, clean, clock);
      e.files.lock == f.lock && !Armed(e.me.pc) && NotUsurped(e.me.pc)
      && (Claims(e.me.pc) ==> me.pc == ScanBarriers(true, false))
  {
  }

  /** A participant that claims the lock after its own call has it and found nobody armed. */
  lemma CallClaims(f: Files, dead: set<Pid>, p: Pid, me: Participant, clean: bool, clock: Clock)
    requires p in f.records || me.pc.Ended?
    requires Claims(me.pc) ==> f.lock == Some(p) && clean
    requires NotUsurped(me.pc)
    requires var e := Call(f, dead, p, me, clean, clock);
      me.pc.ScanBarriers? && e.me.pc.Callback? ==> me.pc.clean
    ensures var e := Call(f, dead, p, me, clean, clock);
      && (Claims(e.me.pc) ==> e.files.lock == Some(p) && clean)
      && NotUsurped(e.me.pc)
  {
  }

  lemma CleanKept(s: State, t: State, p: Pid)
    requires Clean(s) && p in t.parts && !Armed(t.parts[p].pc) && t.dead >= s.dead
    requires forall q | q in t.parts && q != p :: q in s.parts && t.parts[q] == s.parts[q]
    ensures Clean(t)
  {
  }

  lemma MoveExclusive(s: State, p: Pid, clock: Clock)
    requires Sound(s) && Exclusive(s) && Live(s, p)
    requires TimelyStep(s, Step(p, clock))
    ensures Exclusive(Move(s, p, clock))
  {
    var t := Move(s, p, clock);
    var me := s.parts[p];
    assert SoundPart(s.files, s.dead, s.parts.Keys, p, me);
    assert Apply(s, Step(p, clock)) == t;
    CallClaims(s.files, s.dead, p, me, Clean(s), clock);
    if Claims(t.parts[p].pc) {
      CleanKept(s, t, p);
    }
    forall w | w in t.parts && w !in t.dead && Claims(t.parts[w].pc)
      ensures t.files.lock == Some(w) && Clean(t)
    {
      if w != p {
        CallRespects(s.files, s.dead, p, me, Clean(s), clock, w);
        CleanKept(s, t, p);
      }
    }
  }

  /** Seeing no live barrier and nobody armed are the same instant's facts in a Poll. */
  lemma NoBarrierIsClean(s: State)
    requires Sound(s) && s.files.barriers - s.dead == {}
    ensures Clean(s)
  {
    forall q | q in s.parts && q !in s.dead ensures !Armed(s.parts[q].pc) {
      assert SoundPart(s.files, s.dead, s.parts.Keys, q, s.parts[q]);
      assert q !in s.files.barriers - s.dead;
    }
  }

  lemma ApplyExclusive(s: State, e: Event)
    requires Sound(s) && Exclusive(s) && TimelyStep(s, e)
    ensures Exclusive(Apply(s, e))
  {
    match e
    case Step(p, clock) => if Live(s, p) { MoveExclusive(s, p, clock); }
    case Poll(p, clock) =>
      if Live(s, p) && s.parts[p].pc.TestInode? {
        MoveExclusive(s, p, clock);
        MoveSound(s, p, clock);
        var t := Move(s, p, clock);
        if t.files.barriers - t.dead == {} {
          NoBarrierIsClean(s);
        }
        MoveExclusive(t, p, clock);
      }
    case Arrive(p) =>
      var t := Apply(s, e);
      if p !in s.parts && Clean(s) {
        CleanKept(s, t, p);
      }
    case Crash(p) =>
      var t := Apply(s, e);
      if p in s.parts && Clean(s) {
        assert Clean(t);
      }
  }

  lemma {:induction false} RunExclusive(s: State, events: seq<Event>)
    requires Sound(s) && Exclusive(s) && Timely(s, events)
    ensures Exclusive(Run(s, events))
    decreases |events|
  {
    if events != [] {
      ApplyExclusive(s, events[0]);
      ApplySound(s, events[0]);
      RunExclusive(Apply(s, events[0]), events[1..]);
    }
  }

  predicate InCallback(s: State, p: Pid) {
    Live(s, p) && s.parts[p].pc.Callback?
  }

  /**
   * Mutual exclusion, in every timely run of any number of participants crashing anywhere. The
   * live participant in the callback owns the canonical lock, the release unlinks that participant's
   * own lock, and nobody ever throws "ownership changed unexpectedly".
   */
  lemma MutualExclusion(events: seq<Event>)
    requires Timely(Init, events)
    ensures var s := Run(Init, events);
      && (forall p, q | InCallback(s, p) && InCallback(s, q) :: p == q)
      && (forall p | Live(s, p) && Holds(s.parts[p].pc) :: s.files.lock == Some(p) && p in s.files.records)
      && (forall p | p in s.parts :: s.parts[p].pc != Ended(Some(OwnershipChanged)))
      && (forall p | p in s.parts :: s.parts[p].pc != Ended(Some(CannotPublish)))
  {
    RunSound(Init, events);
    RunExclusive(Init, events);
    var s := Run(Init, events);
    forall p | p in s.parts ensures SoundPart(s.files, s.dead, s.parts.Keys, p, s.parts[p]) && NotUsurped(s.parts[p].pc) {}
  }

  /** `q` is acting on an inspection of the lock `p`, which it judged to be a dead owner's. */
  predicate Inspected(pc: Pc, p: Pid) {
    (pc.Quarantine? || pc.Compare?) && pc.stat == p && pc.owner == p
  }

  /**
   * The timing assumption placed at the inode test: a participant that finds its own lock in place
   * meets no live breaker that is armed on another lock. As none is armed on a live participant's
   * lock, this says that nobody is armed at all (`SettledExactly`); `InstallLockTiming` derives it
   * from the settle delay.
   */
  predicate SettledStep(s: State, e: Event) {
    e.Step? && Live(s, e.p) && s.parts[e.p].pc.TestInode? && Same(s.files, e.p) ==>
      forall q | q in s.parts :: q !in s.dead && Armed(s.parts[q].pc) ==> Inspected(s.parts[q].pc, e.p)
  }

  predicate Settled(s: State, events: seq<Event>)
    decreases |events|
  {
    events == [] || (SettledStep(s, events[0]) && Settled(Apply(s, events[0]), events[1..]))
  }

  /** Whoever is about to scan for barriers with its lock in place found nobody armed. */
  predicate OwnsCleanly(s: State) {
    forall p | p in s.parts :: s.parts[p].pc.ScanBarriers? && s.parts[p].pc.owns ==> s.parts[p].pc.clean
  }

  /** In a reachable state the assumption at the inode test is that no live breaker is armed. */
  lemma SettledExactly(s: State, e: Event)
    requires Sound(s)
    requires e.Step? && Live(s, e.p) && s.parts[e.p].pc.TestInode? && Same(s.files, e.p)
    ensures SettledStep(s, e) <==> Clean(s)
  {
    if SettledStep(s, e) {
      forall q | q in s.parts && q !in s.dead
        ensures !Armed(s.parts[q].pc)
      {
        assert SoundPart(s.files, s.dead, s.parts.Keys, q, s.parts[q]);
      }
    }
  }

  lemma SettledStepKeeps(s: State, e: Event)
    requires Sound(s) && SettledStep(s, e) && OwnsCleanly(s)
    ensures OwnsCleanly(Apply(s, e)) && TimelyStep(s, e)
  {
    if e.Step? && Live(s, e.p) && s.parts[e.p].pc.TestInode? && Same(s.files, e.p) {
      SettledExactly(s, e);
    }
  }

  /** With that assumption every run is timely. */
  lemma {:induction false} SettledIsTimely(s: State, events: seq<Event>)
    requires Sound(s) && OwnsCleanly(s) && Settled(s, events)
    ensures Timely(s, events)
    decreases |events|
  {
    if events != [] {
      SettledStepKeeps(s, events[0]);
      ApplySound(s, events[0]);
      SettledIsTimely(Apply(s, events[0]), events[1..]);
    }
  }

  /** Mutual exclusion under it, in every run of any number of participants crashing anywhere. */
  lemma SettledMutualExclusion(events: seq<Event>)
    requires Settled(Init, events)
    ensures var s := Run(Init, events);
      && (forall p, q | InCallback(s, p) && InCallback(s, q) :: p == q)
      && (forall p | Live(s, p) && Holds(s.parts[p].pc) :: s.files.lock == Some(p) && p in s.files.records)
      && (forall p | p in s.parts :: s.parts[p].pc != Ended(Some(OwnershipChanged)))
      && (forall p | p in s.parts :: s.parts[p].pc != Ended(Some(CannotPublish)))
  {
    hide Run;
    SettledIsTimely(Init, events);
    MutualExclusion(events);
  }

  predicate NobodyScanning(s: State) {
    forall p | p in s.parts :: !s.parts[p].pc.ScanBarriers?
  }

  lemma CoarseStepKeeps(s: State, e: Event)
    requires NobodyScanning(s)
    requires e.Step? && Live(s, e.p) ==> !s.parts[e.p].pc.TestInode?
    ensures NobodyScanning(Apply(s, e)) && TimelyStep(s, e)
  {
  }

  /** Taking the inode test and the barrier scan as one step makes every run timely. */
  lemma {:induction false} CoarseIsTimely(s: State, events: seq<Event>)
    requires NobodyScanning(s) && Coarse(s, events)
    ensures Timely(s, events)
    decreases |events|
  {
    if events != [] {
      CoarseStepKeeps(s, events[0]);
      CoarseIsTimely(Apply(s, events[0]), events[1..]);
    }
  }

  lemma CoarseMutualExclusion(events: seq<Event>, p: Pid, q: Pid)
    requires Coarse(Init, events)
    requires InCallback(Run(Init, events), p) && InCallback(Run(Init, events), q)
    ensures p == q
  {
    CoarseIsTimely(Init, events);
    RunSound(Init, events);
    RunExclusive(Init, events);
    var s := Run(Init, events);
    assert Claims(s.parts[p].pc) && Claims(s.parts[q].pc);
  }

  // ---------------------------------------------------------------- without the timing assumption

  const TICK := Clock(true, false)

  lemma {:induction false} RunSnoc(s: State, events: seq<Event>, e: Event)
    ensures Run(s, events + [e]) == Apply(Run(s, events), e)
    decreases |events|
  {
    if events == [] {
      assert [] + [e] == [e];
    } else {
      assert (events + [e])[1..] == events[1..] + [e];
      RunSnoc(Apply(s, events[0]), events[1..], e);
    }
  }

  lemma Then(events: seq<Event>, e: Event) returns (more: seq<Event>)
    ensures more == events + [e] && Run(Init, more) == Apply(Run(Init, events), e)
  {
    RunSnoc(Init, events, e);
    more := events + [e];
  }

  // ---------------------------------------------------------------- one participant on its own

  /** Nobody but `p` is armed: what `p` finds at an inode test. */
  predicate OthersClean(s: State, p: Pid) {
    forall q | q in s.parts :: q != p && q !in s.dead ==> !Armed(s.parts[q].pc)
  }

  /** The files and the participant after `n` calls in a row of `p`, everybody else standing still. */
  function Alone(f: Files, dead: set<Pid>, p: Pid, me: Participant, clean: bool, n: nat): Effect
    decreases n
  {
    if n == 0 then Effect(f, me)
    else
      var e := Call(f, dead, p, me, clean, TICK);
      Alone(e.files, dead, p, e.me, clean, n - 1)
  }

  /** `s` with `p` moved on by `n` calls. */
  function Advance(s: State, p: Pid, n: nat): State
    requires p in s.parts
  {
    var e := Alone(s.files, s.dead, p, s.parts[p], OthersClean(s, p), n);
    State(e.files, s.dead, s.parts[p := e.me])
  }

  lemma MoveIsAdvance(s: State, p: Pid)
    requires Live(s, p)
    ensures Apply(s, Step(p, TICK)) == Advance(s, p, 1)
  {
    if s.parts[p].pc.TestInode? {
      assert Clean(s) == OthersClean(s, p);
    }
    var e := Call(s.files, s.dead, p, s.parts[p], Clean(s), TICK);
    assert e == Call(s.files, s.dead, p, s.parts[p], OthersClean(s, p), TICK);
    assert Alone(e.files, s.dead, p, e.me, OthersClean(s, p), 0) == e;
    assert Alone(s.files, s.dead, p, s.parts[p], OthersClean(s, p), 1) == e;
  }

  lemma {:induction false} AdvanceMore(s: State, p: Pid, n: nat)
    requires Live(s, p) && n > 0
    ensures Advance(s, p, n) == Advance(Advance(s, p, 1), p, n - 1)
  {
    var t := Advance(s, p, 1);
    var clean := OthersClean(s, p);
    assert OthersClean(t, p) == clean by {
      assert forall q | q in s.parts && q != p :: t.parts[q] == s.parts[q];
    }
    var e := Call(s.files, s.dead, p, s.parts[p], clean, TICK);
    assert Alone(s.files, s.dead, p, s.parts[p], clean, 1) == Alone(e.files, s.dead, p, e.me, clean, 0) == e;
  }

  /** A run that goes on with `n` calls of `p`. */
  lemma {:induction false} Calls(events: seq<Event>, p: Pid, n: nat) returns (more: seq<Event>)
    requires Live(Run(Init, events), p)
    ensures Run(Init, more) == Advance(Run(Init, events), p, n)
    decreases n
  {
    more := events;
    if n > 0 {
      var s := Run(Init, events);
      more := Then(events, Step(p, TICK));
      MoveIsAdvance(s, p);
      AdvanceMore(s, p, n);
      more := Calls(more, p, n - 1);
    }
  }

  /** A run that goes on with `n` calls of `p` whose outcome is known. */
  lemma Go(events: seq<Event>, p: Pid, n: nat, e: Effect) returns (more: seq<Event>)
    requires Live(Run(Init, events), p)
    requires var s := Run(Init, events); e == Alone(s.files, s.dead, p, s.parts[p], OthersClean(s, p), n)
    ensures var s := Run(Init, events); Run(Init, more) == State(e.files, s.dead, s.parts[p := e.me])
  {
    more := Calls(events, p, n);
  }

  /** A run that goes on with one call whose outcome is known, unless it is an inode test. */
  lemma GoOne(events: seq<Event>, p: Pid, e: Effect) returns (more: seq<Event>)
    requires Live(Run(Init, events), p)
    requires var s := Run(Init, events);
      !s.parts[p].pc.TestInode? && e == Call(s.files, s.dead, p, s.parts[p], false, TICK)
    ensures var s := Run(Init, events); Run(Init, more) == State(e.files, s.dead, s.parts[p := e.me])
  {
    more := Then(events, Step(p, TICK));
  }

  lemma WalkToLink(f: Files, dead: set<Pid>, p: Pid, me: Participant, clean: bool)
    requires me.pc.TestInode? && f.lock != Some(p) && f.barriers == {}
    ensures Alone(f, dead, p, me, clean, 2) == Effect(f, me.(pc := LinkLock))
  {
    assert Alone(f, dead, p, me.(pc := ScanBarriers(false, clean)), clean, 1) == Effect(f, me.(pc := LinkLock));
  }

  lemma WalkToBarrier(f: Files, dead: set<Pid>, p: Pid, me: Participant, clean: bool, j: Pid)
    requires me.pc.LinkLock? && p in f.records && f.lock == Some(j) && j != p && j in dead
    ensures Alone(f, dead, p, me, clean, 4) == Effect(f, me.(pc := PublishBarrier))
  {
    assert Alone(f, dead, p, me.(pc := WaiterRead), clean, 1) == Effect(f, me.(pc := PublishBarrier));
    assert Alone(f, dead, p, me.(pc := WaiterStat), clean, 2) == Effect(f, me.(pc := PublishBarrier));
    assert Alone(f, dead, p, me.(pc := RetestInode), clean, 3) == Effect(f, me.(pc := PublishBarrier));
  }

  lemma WalkToArmed(f: Files, dead: set<Pid>, p: Pid, me: Participant, clean: bool, j: Pid)
    requires me.pc.PublishBarrier? && f.lock == Some(j) && j in dead
    ensures Alone(f, dead, p, me, clean, 3) == Effect(f.(barriers := f.barriers + {p}), me.(pc := Quarantine(j, j)))
  {
    var g := f.(barriers := f.barriers + {p});
    assert Alone(g, dead, p, me.(pc := BreakerRead(j)), clean, 1) == Effect(g, me.(pc := Quarantine(j, j)));
    assert Alone(g, dead, p, me.(pc := BreakerStat), clean, 2) == Effect(g, me.(pc := Quarantine(j, j)));
  }

  /** A breaker that moved away the very lock it inspected removes it and leaves. */
  lemma WalkReclaim(f: Files, dead: set<Pid>, p: Pid, me: Participant, clean: bool, j: Pid)
    requires me.pc == Quarantine(j, j) && f.lock == Some(j)
    ensures Alone(f, dead, p, me, clean, 5)
         == Effect(Files(None, f.records - {j}, f.barriers - {p}), me.(pc := TestInode))
  {
    var g := Files(None, f.records - {j}, f.barriers);
    var done := Effect(Files(None, f.records - {j}, f.barriers - {p}), me.(pc := TestInode));
    assert Alone(g, dead, p, me.(pc := WithdrawBarrier), clean, 1) == done;
    assert Alone(g, dead, p, me.(pc := UnlinkQuarantine), clean, 2) == done;
    assert Alone(f.(lock := None), dead, p, me.(pc := UnlinkRecord(j, j)), clean, 3) == done;
    assert Alone(f.(lock := None), dead, p, me.(pc := Compare(j, j, j)), clean, 4) == done;
  }

  lemma WalkToCallback(f: Files, dead: set<Pid>, p: Pid, me: Participant, clean: bool)
    requires me.pc.TestInode? && f.lock == Some(p) && p in f.records && f.barriers == {}
    ensures Alone(f, dead, p, me, clean, 2) == Effect(f, me.(pc := Callback))
  {
    assert Alone(f, dead, p, me.(pc := ScanBarriers(true, clean)), clean, 1) == Effect(f, me.(pc := Callback));
  }

  lemma FirstEnters() returns (events: seq<Event>)
    ensures Run(Init, events) == State(Files(Some(0), {0}, {}), {}, map[0 := Participant(Callback, true)])
  {
    events := Then([], Arrive(0));
    var f := Files(None, {0}, {});
    var me := Participant(TestInode, false);
    assert Run(Init, events) == State(f, {}, map[0 := me]);
    WalkToLink(f, {}, 0, me, OthersClean(Run(Init, events), 0));
    events := Go(events, 0, 2, Effect(f, me.(pc := LinkLock)));
    f, me := f.(lock := Some(0)), Participant(TestInode, true);
    events := GoOne(events, 0, Effect(f, me));
    WalkToCallback(f, {}, 0, me, OthersClean(Run(Init, events), 0));
    events := Go(events, 0, 2, Effect(f, me.(pc := Callback)));
    assert Run(Init, events).parts == map[0 := Participant(Callback, true)];
  }

  lemma GoArrive(events: seq<Event>, p: Pid) returns (more: seq<Event>)
    requires p !in Run(Init, events).parts
    ensures var s := Run(Init, events);
      Run(Init, more) == State(s.files.(records := s.files.records + {p}), s.dead, s.parts[p := Participant(TestInode, false)])
  {
    more := Then(events, Arrive(p));
  }

  /** Participant 0 died holding the lock; 1 and 2 are about to ask for it. */
  lemma HolderDied() returns (events: seq<Event>)
    ensures Run(Init, events) ==
            State(Files(Some(0), {0, 1, 2}, {}), {0},
                  map[0 := Participant(Callback, true), 1 := Participant(TestInode, false), 2 := Participant(TestInode, false)])
  {
    events := FirstEnters();
    events := Then(events, Crash(0));
    assert Run(Init, events) == State(Files(Some(0), {0}, {}), {0}, map[0 := Participant(Callback, true)]);
    events := GoArrive(events, 1);
    events := GoArrive(events, 2);
    assert Run(Init, events).files.records == {0, 1, 2};
  }

  /** And so are 3 and 4. */
  lemma AbandonedLock() returns (events: seq<Event>)
    ensures var s := Run(Init, events);
      && s.files == Files(Some(0), {0, 1, 2, 3, 4}, {}) && s.dead == {0} && s.parts.Keys == {0, 1, 2, 3, 4}
      && forall p | 1 <= p <= 4 :: s.parts[p] == Participant(TestInode, false)
  {
    events := HolderDied();
    events := GoArrive(events, 3);
    events := GoArrive(events, 4);
    assert Run(Init, events).files.records == {0, 1, 2, 3, 4};
  }

  /** 1 to 4 have all scanned and found no barrier. */
  lemma AllPastScan() returns (events: seq<Event>)
    ensures var s := Run(Init, events);
      && s.files == Files(Some(0), {0, 1, 2, 3, 4}, {}) && s.dead == {0} && s.parts.Keys == {0, 1, 2, 3, 4}
      && forall p | 1 <= p <= 4 :: s.parts[p] == Participant(LinkLock, false)
  {
    events := AbandonedLock();
    var f := Run(Init, events).files;
    var start := Participant(TestInode, false);
    for p: nat := 1 to 5
      invariant Run(Init, events).files == f && Run(Init, events).dead == {0}
      invariant Run(Init, events).parts.Keys == {0, 1, 2, 3, 4}
      invariant forall q: nat | 1 <= q <= 4 :: Run(Init, events).parts[q] == if q < p then start.(pc := LinkLock) else start
    {
      WalkToLink(f, {0}, p, start, OthersClean(Run(Init, events), p));
      events := Go(events, p, 2, Effect(f, start.(pc := LinkLock)));
    }
  }

  /** 1 and 2 found the dead owner's lock in the way. */
  lemma TwoWantToBreak() returns (events: seq<Event>)
    ensures var s := Run(Init, events);
      && s.files == Files(Some(0), {0, 1, 2, 3, 4}, {}) && s.dead == {0} && s.parts.Keys == {0, 1, 2, 3, 4}
      && s.parts[1].pc == s.parts[2].pc == PublishBarrier
      && s.parts[3].pc == s.parts[4].pc == LinkLock
  {
    events := AllPastScan();
    var f := Run(Init, events).files;
    var me := Participant(LinkLock, false);
    WalkToBarrier(f, {0}, 1, me, OthersClean(Run(Init, events), 1), 0);
    events := Go(events, 1, 4, Effect(f, me.(pc := PublishBarrier)));
    WalkToBarrier(f, {0}, 2, me, OthersClean(Run(Init, events), 2), 0);
    events := Go(events, 2, 4, Effect(f, me.(pc := PublishBarrier)));
  }

  /** The first of them is armed. */
  lemma OneBreakerArmed() returns (events: seq<Event>)
    ensures var s := Run(Init, events);
      && s.files == Files(Some(0), {0, 1, 2, 3, 4}, {1}) && s.dead == {0} && s.parts.Keys == {0, 1, 2, 3, 4}
      && s.parts[1].pc == Quarantine(0, 0) && s.parts[2].pc == PublishBarrier
      && s.parts[3].pc == s.parts[4].pc == LinkLock
  {
    events := TwoWantToBreak();
    var s := Run(Init, events);
    WalkToArmed(s.files, {0}, 1, s.parts[1], OthersClean(s, 1), 0);
    events := Go(events, 1, 3, Effect(s.files.(barriers := {} + {1}), s.parts[1].(pc := Quarantine(0, 0))));
  }

  /** Both judged it stale, each behind its own barrier; 3 and 4 scanned before either appeared. */
  lemma TwoBreakersArmed() returns (events: seq<Event>)
    ensures var s := Run(Init, events);
      && s.files == Files(Some(0), {0, 1, 2, 3, 4}, {1, 2}) && s.dead == {0} && s.parts.Keys == {0, 1, 2, 3, 4}
      && s.parts[1].pc == s.parts[2].pc == Quarantine(0, 0)
      && s.parts[3].pc == s.parts[4].pc == LinkLock
  {
    events := OneBreakerArmed();
    var s := Run(Init, events);
    WalkToArmed(s.files, {0}, 2, s.parts[2], OthersClean(s, 2), 0);
    events := Go(events, 2, 3, Effect(s.files.(barriers := {1} + {2}), s.parts[2].(pc := Quarantine(0, 0))));
  }

  /** Breaker 1 clears the dead lock and 3 links its own; breaker 2 is still armed. */
  lemma LinkedUnderArmedBreaker() returns (events: seq<Event>)
    ensures var s := Run(Init, events);
      && s.files == Files(Some(3), {1, 2, 3, 4}, {2}) && s.dead == {0} && s.parts.Keys == {0, 1, 2, 3, 4}
      && s.parts[2].pc == Quarantine(0, 0) && s.parts[3].pc == TestInode && s.parts[4].pc == LinkLock
  {
    events := TwoBreakersArmed();
    var s := Run(Init, events);
    WalkReclaim(s.files, {0}, 1, s.parts[1], OthersClean(s, 1), 0);
    var f := Files(None, {1, 2, 3, 4}, {2});
    assert f == Files(None, s.files.records - {0}, s.files.barriers - {1});
    events := Go(events, 1, 5, Effect(f, s.parts[1].(pc := TestInode)));
    events := GoOne(events, 3, Effect(f.(lock := Some(3)), Participant(TestInode, true)));
  }

  /** 3 reads the lock as its own; then breaker 2 carries it away. */
  lemma LockCarriedAway() returns (events: seq<Event>)
    ensures var s := Run(Init, events);
      && s.files == Files(None, {1, 2, 3, 4}, {2}) && s.dead == {0} && s.parts.Keys == {0, 1, 2, 3, 4}
      && s.parts[2].pc == Compare(0, 0, 3)
      && s.parts[3].pc == ScanBarriers(true, false) && s.parts[4].pc == LinkLock
  {
    events := LinkedUnderArmedBreaker();
    var s := Run(Init, events);
    assert !Clean(s) by {
      assert Armed(s.parts[2].pc);
    }
    events := Then(events, Step(3, TICK));
    assert Run(Init, events) == State(s.files, {0}, s.parts[3 := s.parts[3].(pc := ScanBarriers(true, false))]);
    events := GoOne(events, 2, Effect(s.files.(lock := None), s.parts[2].(pc := Compare(0, 0, 3))));
  }

  /** 4 links its own lock, so breaker 2 has nothing to restore 3's to. */
  lemma VacancyTaken() returns (events: seq<Event>)
    ensures var s := Run(Init, events);
      && s.files == Files(Some(4), {1, 2, 3, 4}, {2}) && s.dead == {0} && s.parts.Keys == {0, 1, 2, 3, 4}
      && s.parts[2].pc == CheckVacant(3)
      && s.parts[3].pc == ScanBarriers(true, false) && s.parts[4].pc == TestInode
  {
    events := LockCarriedAway();
    var s := Run(Init, events);
    events := GoOne(events, 4, Effect(s.files.(lock := Some(4)), Participant(TestInode, true)));
    s := Run(Init, events);
    events := GoOne(events, 2, Effect(s.files, s.parts[2].(pc := CheckVacant(3))));
  }

  /** The breaker withdraws. */
  lemma LockSwappedUnderReader() returns (events: seq<Event>)
    ensures var s := Run(Init, events);
      && s.files == Files(Some(4), {1, 2, 3, 4}, {}) && s.dead == {0} && s.parts.Keys == {0, 1, 2, 3, 4}
      && s.parts[3].pc == ScanBarriers(true, false) && s.parts[4].pc == TestInode
  {
    events := VacancyTaken();
    var s := Run(Init, events);
    events := GoOne(events, 2, Effect(s.files, s.parts[2].(pc := WithdrawBarrier)));
    events := GoOne(events, 2, Effect(s.files.(barriers := {2} - {2}), s.parts[2].(pc := TestInode)));
  }

  /**
   * With the inode test and the barrier scan as separate calls and no assumption on how long a
   * breaker takes, two live participants can be in the callback together. So the settle delay is
   * what exclusion rests on.
   */
  lemma ExclusionNeedsTiming()
    ensures exists events ::
              InCallback(Run(Init, events), 3) && InCallback(Run(Init, events), 4) && !Timely(Init, events)
  {
    var events := LockSwappedUnderReader();
    var s := Run(Init, events);
    events := GoOne(events, 3, Effect(s.files, s.parts[3].(pc := Callback)));
    WalkToCallback(s.files, {0}, 4, s.parts[4], OthersClean(Run(Init, events), 4));
    events := Go(events, 4, 2, Effect(s.files, s.parts[4].(pc := Callback)));
    assert InCallback(Run(Init, events), 3) && InCallback(Run(Init, events), 4);
    if Timely(Init, events) {
      MutualExclusion(events);
      assert false;
    }
  }

  /** 0 is in the callback and 1 is about to try the lock. */
  lemma SecondArrives() returns (events: seq<Event>)
    ensures var s := Run(Init, events);
      && s.files == Files(Some(0), {0, 1}, {}) && s.dead == {} && s.parts.Keys == {0, 1}
      && s.parts[0].pc == Callback && s.parts[1] == Participant(LinkLock, false)
  {
    events := FirstEnters();
    events := Then(events, Arrive(1));
    var f := Files(Some(0), {0, 1}, {});
    var me := Participant(TestInode, false);
    assert Run(Init, events) == State(f, {}, map[0 := Participant(Callback, true), 1 := me]);
    WalkToLink(f, {}, 1, me, OthersClean(Run(Init, events), 1));
    events := Go(events, 1, 2, Effect(f, me.(pc := LinkLock)));
  }

  /** 0 is in the callback and 1 has found its lock there, but not read it yet. */
  lemma ReaderBehindHolder() returns (events: seq<Event>)
    ensures var s := Run(Init, events);
      && s.files == Files(Some(0), {0, 1}, {}) && s.dead == {} && s.parts.Keys == {0, 1}
      && s.parts[0].pc == Callback && s.parts[1].pc == WaiterRead
  {
    events := SecondArrives();
    var s := Run(Init, events);
    events := GoOne(events, 1, Effect(s.files, s.parts[1].(pc := RetestInode)));
    events := GoOne(events, 1, Effect(s.files, s.parts[1].(pc := WaiterStat)));
    events := GoOne(events, 1, Effect(s.files, s.parts[1].(pc := WaiterRead)));
  }

  lemma HolderReleases() returns (events: seq<Event>)
    ensures var s := Run(Init, events);
      && s.files.lock == Some(0) && s.dead == {} && s.parts.Keys == {0, 1}
      && s.parts[0].pc == ReleaseUnlink && s.parts[1].pc == WaiterRead
  {
    events := ReaderBehindHolder();
    var s := Run(Init, events);
    events := GoOne(events, 0, Effect(s.files, s.parts[0].(pc := ReleaseTest)));
    events := GoOne(events, 0, Effect(s.files, s.parts[0].(pc := ReleaseUnlink)));
  }

  lemma HolderLeaves() returns (events: seq<Event>)
    ensures var s := Run(Init, events);
      s.files.lock == None && s.dead == {} && s.parts.Keys == {0, 1} && s.parts[1].pc == WaiterRead
  {
    events := HolderReleases();
    var s := Run(Init, events);
    events := GoOne(events, 0, Effect(s.files.(lock := None), s.parts[0].(pc := DropRecord(None))));
  }

  /**
   * A waiter that reads the lock just after its owner released it takes the missing file for
   * foreign metadata and throws, although every file was written by this protocol.
   */
  lemma WaiterMayMisreadRelease()
    ensures exists events ::
              Live(Run(Init, events), 1) && Run(Init, events).parts[1].pc == Ended(Some(NotOwned))
  {
    var events := HolderLeaves();
    var s := Run(Init, events);
    events := GoOne(events, 1, Effect(s.files, s.parts[1].(pc := DropRecord(Some(NotOwned)))));
    events := Then(events, Step(1, TICK));
    assert Live(Run(Init, events), 1) && Run(Init, events).parts[1].pc == Ended(Some(NotOwned));
  }

  // ---------------------------------------------------------------- deadlines

  /** The waiter has been refused for lateness. */
  predicate Refused(pc: Pc) {
    (pc.DropRecord? || pc.Ended?) && pc.outcome == Some(Deadline)
  }

  /** None of `p`'s readings is past its deadline. */
  predicate Patient(events: seq<Event>, p: Pid) {
    forall e | e in events && (e.Step? || e.Poll?) && e.p == p :: !e.clock.expired
  }

  /** In any interleaving a waiter is refused for lateness only after a reading past its deadline. */
  lemma {:induction false} PatientIsNotRefused(s: State, events: seq<Event>, p: Pid)
    requires Patient(events, p) && (p in s.parts ==> !Refused(s.parts[p].pc))
    ensures p in Run(s, events).parts ==> !Refused(Run(s, events).parts[p].pc)
    decreases |events|
  {
    hide Call;
    if events != [] {
      var e := events[0];
      assert e in events && forall x | x in events[1..] :: x in events;
      if (e.Step? || e.Poll?) && e.p == p && Live(s, p) {
        CallInTime(s.files, s.dead, e.p, s.parts[e.p], Clean(s), e.clock);
        var t := Move(s, e.p, e.clock);
        CallInTime(t.files, t.dead, e.p, t.parts[e.p], Clean(t), e.clock);
      }
      PatientIsNotRefused(Apply(s, e), events[1..], p);
    }
  }

  lemma CallInTime(f: Files, dead: set<Pid>, p: Pid, me: Participant, clean: bool, clock: Clock)
    requires !clock.expired && !Refused(me.pc)
    ensures !Refused(Call(f, dead, p, me, clean, clock).me.pc)
  {
  }

  /**
   * And past its deadline a waiter that has not published goes round again only if it has just found
   * its own lock, or has just been breaking a dead owner's.
   */
  lemma LateWaiterStops(s: State, p: Pid, clock: Clock)
    requires Live(s, p) && clock.expired && !s.parts[p].pc.TestInode?
    requires var t := Move(s, p, clock); t.parts[p].pc.TestInode? && !t.parts[p].published
    ensures (s.parts[p].pc.RetestInode? && Same(s.files, p)) || s.parts[p].pc.WithdrawBarrier?
  {
  }

  // ---------------------------------------------------------------- progress after crashes

  /** Everybody else who ever took part is dead, and `p` is still asking for the lock. */
  predicate LeftAlone(s: State, p: Pid) {
    && Live(s, p)
    && (forall q | q in s.parts :: q != p ==> q in s.dead)
    && Asking(s.parts[p].pc)
  }

  predicate Asking(pc: Pc) {
    !Holds(pc) && !pc.DropRecord? && !pc.Ended?
  }

  /** The one state a lone waiter cannot get out of: it saw a lock that vanished before it read it. */
  predicate Misled(f: Files, pc: Pc) {
    pc.WaiterRead? && f.lock.None?
  }

  /** How many calls a waiter at the top of the loop is away from the callback. */
  function FromTop(lock: Option<Pid>, p: Pid): nat {
    if lock == Some(p) then 2 else if lock.None? then 5 else 19
  }

  /** How many calls a lone waiter anywhere in the protocol is away from the callback. */
  function Distance(lock: Option<Pid>, p: Pid, pc: Pc): (calls: nat)
    ensures calls <= 25
  {
    var top := FromTop(lock, p);
    var own := lock == Some(p);
    match pc
    case TestInode => top
    case ScanBarriers(owns, _) => if owns then 1 else if lock.None? then 4 else if own then 5 else 18
    case LinkLock => if lock.None? then 3 else if own then 4 else 17
    case RetestInode => if lock.None? then 7 else if own then 3 else 16
    case WaiterStat => if lock.None? then 6 else if own then 4 else 15
    case WaiterRead => if own then 3 else 14
    case PublishBarrier => if lock.None? then 8 else if own then 6 else 13
    case BreakerStat => if lock.None? then 7 else if own then 5 else 12
    case BreakerRead(stat) =>
      if lock.None? || own then 2 + top else if lock == Some(stat) then 11 else 25
    case Quarantine(stat, _) =>
      if lock.None? then 7 else if lock == Some(stat) then 10 else 5 + top
    case Compare(stat, _, moved) =>
      if moved == stat then 4 + top else if lock.None? then 4 + FromTop(Some(moved), p) else 3 + top
    case CheckVacant(moved) => if lock.None? then 3 + FromTop(Some(moved), p) else 2 + top
    case Restore(moved) => 2 + FromTop(Some(moved), p)
    case UnlinkRecord(_, _) => 3 + top
    case UnlinkQuarantine => 2 + top
    case WithdrawBarrier => 1 + top
    case Callback => 0
    case _ => 0
  }

  /** What a lone waiter may rely on when it makes its next call. */
  predicate LoneView(f: Files, dead: set<Pid>, p: Pid, pc: Pc) {
    && Asking(pc) && !Misled(f, pc) && p in f.records && p !in dead
    && f.barriers <= dead + {p} && (p in f.barriers ==> Reclaiming(pc))
    && (f.lock.Some? && f.lock.value != p ==> f.lock.value in dead)
    && (pc.Compare? || pc.CheckVacant? || pc.Restore? ==> pc.moved == p || pc.moved in dead)
  }

  /** Every call of a lone waiter brings it exactly one call closer. */
  predicate Approaches(f: Files, dead: set<Pid>, p: Pid, me: Participant, clean: bool) {
    var e := Call(f, dead, p, me, clean, TICK);
    && Distance(f.lock, p, me.pc) == Distance(e.files.lock, p, e.me.pc) + 1
    && (e.me.pc.Callback? || Asking(e.me.pc)) && !Misled(e.files, e.me.pc)
  }

  lemma WaiterApproaches(f: Files, dead: set<Pid>, p: Pid, me: Participant, clean: bool)
    requires LoneView(f, dead, p, me.pc) && !Reclaiming(me.pc)
    ensures Approaches(f, dead, p, me, clean)
  {
  }

  lemma ArmedApproaches(f: Files, dead: set<Pid>, p: Pid, me: Participant, clean: bool)
    requires Armed(me.pc)
    ensures Approaches(f, dead, p, me, clean)
  {
    if me.pc.Quarantine? {
      var e := Call(f, dead, p, me, clean, TICK);
      assert f.lock.Some? ==> e.files.lock == None && e.me.pc == Compare(me.pc.stat, me.pc.owner, f.lock.value);
    }
  }

  lemma BreakerApproaches(f: Files, dead: set<Pid>, p: Pid, me: Participant, clean: bool)
    requires LoneView(f, dead, p, me.pc) && Reclaiming(me.pc) && !Armed(me.pc)
    ensures Approaches(f, dead, p, me, clean)
  {
  }

  /** `n` calls of `p`. */
  function Ticks(p: Pid, n: nat): seq<Event> {
    seq(n, _ => Step(p, TICK))
  }

  lemma AloneStays(s: State, p: Pid)
    requires Sound(s) && LeftAlone(s, p) && !Misled(s.files, s.parts[p].pc)
    ensures var t := Apply(s, Step(p, TICK));
      && Sound(t) && (InCallback(t, p) || LeftAlone(t, p)) && !Misled(t.files, t.parts[p].pc)
      && Distance(s.files.lock, p, s.parts[p].pc) == Distance(t.files.lock, p, t.parts[p].pc) + 1
  {
    ApplySound(s, Step(p, TICK));
    assert SoundPart(s.files, s.dead, s.parts.Keys, p, s.parts[p]);
    if Armed(s.parts[p].pc) {
      ArmedApproaches(s.files, s.dead, p, s.parts[p], Clean(s));
    } else if Reclaiming(s.parts[p].pc) {
      BreakerApproaches(s.files, s.dead, p, s.parts[p], Clean(s));
    } else {
      WaiterApproaches(s.files, s.dead, p, s.parts[p], Clean(s));
    }
  }

  lemma {:induction false} AloneEnters(s: State, p: Pid)
    requires Sound(s) && (InCallback(s, p) || LeftAlone(s, p)) && !Misled(s.files, s.parts[p].pc)
    ensures InCallback(Run(s, Ticks(p, Distance(s.files.lock, p, s.parts[p].pc))), p)
    decreases Distance(s.files.lock, p, s.parts[p].pc)
  {
    var n := Distance(s.files.lock, p, s.parts[p].pc);
    if !InCallback(s, p) {
      AloneStays(s, p);
      assert Ticks(p, n)[0] == Step(p, TICK) && Ticks(p, n)[1..] == Ticks(p, n - 1);
      AloneEnters(Apply(s, Step(p, TICK)), p);
    }
  }

  /**
   * Progress after any crashes: from any reachable state in which everybody else is dead, wherever
   * they died, a waiter whose deadline has not passed and for whom a dead owner's record counts as
   * old enough enters the callback, after exactly `Distance` (at most 25) calls of its own, unless
   * it is about to read a lock that vanished after it saw it; then it throws.
   */
  lemma LoneWaiterEnters(events: seq<Event>, p: Pid)
    requires LeftAlone(Run(Init, events), p)
    ensures var s := Run(Init, events);
      var n := Distance(s.files.lock, p, s.parts[p].pc);
      if Misled(s.files, s.parts[p].pc) then Advance(s, p, 2).parts[p].pc == Ended(Some(NotOwned))
      else n <= 25 && InCallback(Run(s, Ticks(p, n)), p)
  {
    RunSound(Init, events);
    var s := Run(Init, events);
    if Misled(s.files, s.parts[p].pc) {
      var e := Effect(s.files, s.parts[p].(pc := DropRecord(Some(NotOwned))));
      assert Alone(e.files, s.dead, p, e.me, OthersClean(s, p), 1).me.pc == Ended(Some(NotOwned));
    } else {
      AloneEnters(s, p);
    }
  }
}
