/**
 * What the install lock's settle delay is for, with time: runs whose events carry the time they
 * happen at, in which every breaker acts promptly on what it inspected, are exclusive.
 */
module InstallLockTiming {
  import opened Options
  import opened InstallLock

  datatype Timed = Timed(now: int, event: Event)

  /**
   * A state and what has happened when: `linked` is when a participant last linked the lock,
   * `entered` when the lock name was last filled, by a link or a restore; for a breaker `since` is
   * when it looked at the lock, and `base` what `entered` was then.
   */
  datatype History = History(
    s: State, now: int, linked: map<Pid, int>, entered: int, since: map<Pid, int>, base: map<Pid, int>)

  /** A breaker that has looked at the lock and may still touch it. */
  predicate Inspecting(pc: Pc) {
    pc.BreakerRead? || Armed(pc)
  }

  predicate Steps(s: State, e: Event, pc: Pc) {
    e.Step? && Live(s, e.p) && s.parts[e.p].pc == pc
  }

  predicate Links(s: State, e: Event) {
    Steps(s, e, LinkLock) && s.files.lock.None? && e.p in s.files.records
  }

  predicate Restores(s: State, e: Event) {
    e.Step? && Live(s, e.p) && s.parts[e.p].pc.Restore?
  }

  predicate Looks(s: State, e: Event) {
    Steps(s, e, BreakerStat) && s.files.lock.Some?
  }

  function After(h: History, t: Timed): History {
    var s, e := h.s, t.event;
    History(
      Apply(s, e), t.now,
      if Links(s, e) then h.linked[e.p := t.now] else h.linked,
      if Links(s, e) || Restores(s, e) then t.now else h.entered,
      if Looks(s, e) then h.since[e.p := t.now] else h.since,
      if Looks(s, e) then h.base[e.p := h.entered] else h.base)
  }

  const Start := History(Init, 0, map[], 0, map[], map[])

  /**
   * The timing of one event. Clocks do not run backwards; a live breaker that has looked at the lock is
   * done with it within the settle delay; who has linked the lock tests its inode no earlier than the
   * settle delay later; and a record that counts as old enough to break was linked at least two settle
   * delays ago (the program asks for fifteen minutes from its creation, and lets a contended waiter go
   * on for five seconds).
   */
  predicate Punctual(h: History, t: Timed, settle: nat) {
    && h.now <= t.now
    && (forall q | q in h.s.parts && q in h.since :: q !in h.s.dead && Inspecting(h.s.parts[q].pc) ==> t.now < h.since[q] + settle)
    && (Steps(h.s, t.event, TestInode) && t.event.p in h.linked ==> h.linked[t.event.p] + settle <= t.now)
    && (t.event.Step? && Live(h.s, t.event.p) && h.s.parts[t.event.p].pc.BreakerRead? && t.event.clock.aged
        && h.s.files.lock.Some? && h.s.files.lock.value in h.linked ==>
          h.linked[h.s.files.lock.value] + 2 * settle <= t.now)
  }

  predicate PunctualRun(h: History, run: seq<Timed>, settle: nat)
    decreases |run|
  {
    run == [] || (Punctual(h, run[0], settle) && PunctualRun(After(h, run[0]), run[1..], settle))
  }

  function Events(run: seq<Timed>): seq<Event> {
    seq(|run|, i requires 0 <= i < |run| => run[i].event)
  }

  // ---------------------------------------------------------------- what holds in punctual runs

  /** When locks were linked, and since when the name holds what it holds. */
  predicate Dated(lock: Option<Pid>, linked: map<Pid, int>, entered: int, now: int, settle: nat) {
    && (lock.Some? ==> lock.value in linked && entered < linked[lock.value] + settle)
    && (forall x | x in linked :: linked[x] <= entered)
    && entered <= now
  }

  /** No lock was linked between the last entry before a breaker's look, at `base`, and the look. */
  predicate NoneBetween(linked: map<Pid, int>, base: int, since: int) {
    forall x | x in linked :: linked[x] <= base || since <= linked[x]
  }

  /**
   * What a live breaker knows that looked at `since`: while it reads, another lock than the one it saw
   * came after its look; once armed it has judged the very lock it saw, and every other lock it can
   * meet or has moved was linked after its look.
   */
  predicate Knows(lock: Option<Pid>, linked: map<Pid, int>, entered: int, now: int, settle: nat, pc: Pc, since: int, base: int) {
    && since <= now && NoneBetween(linked, base, since)
    && (pc.BreakerRead? ==>
          && pc.stat in linked && base < linked[pc.stat] + settle
          && (lock.Some? && lock.value != pc.stat ==> since <= entered))
    && (Armed(pc) ==>
          && base + settle < now
          && (lock.Some? ==>
                (lock.value in linked && since <= linked[lock.value]) || (pc.Quarantine? && lock.value == pc.stat)))
    && (pc.Quarantine? ==> pc.owner == pc.stat)
    && (pc.CheckVacant? || pc.Restore? || (pc.Compare? && pc.moved != pc.stat) ==>
          pc.moved in linked && since <= linked[pc.moved])
  }

  predicate KnowsAt(h: History, settle: nat, q: Pid)
    requires q in h.s.parts
  {
    q !in h.s.dead && Inspecting(h.s.parts[q].pc) ==>
      && q in h.since && q in h.base
      && Knows(h.s.files.lock, h.linked, h.entered, h.now, settle, h.s.parts[q].pc, h.since[q], h.base[q])
  }

  predicate Chronicle(h: History, settle: nat) {
    && settle > 0 && Sound(h.s)
    && Dated(h.s.files.lock, h.linked, h.entered, h.now, settle)
    && (forall q | q in h.s.parts :: KnowsAt(h, settle, q))
  }

  /** What a call does to the lock name. */
  lemma CallLock(f: Files, dead: set<Pid>, p: Pid, me: Participant, clean: bool, clock: Clock)
    ensures var e := Call(f, dead, p, me, clean, clock);
      && (me.pc.LinkLock? && f.lock.None? && p in f.records ==> e.files.lock == Some(p))
      && (me.pc.Restore? ==> e.files.lock == Some(me.pc.moved))
      && (!(me.pc.LinkLock? && f.lock.None? && p in f.records) && !me.pc.Restore? ==>
            e.files.lock == f.lock || e.files.lock == None)
  {
  }

  /** The breaker that restores a lock which is not the one it judged did so within the delay of its link. */
  lemma RestoreIsFresh(h: History, t: Timed, settle: nat)
    requires Chronicle(h, settle) && Punctual(h, t, settle) && Restores(h.s, t.event)
    ensures var m := h.s.parts[t.event.p].pc.moved; m in h.linked && t.now < h.linked[m] + settle
  {
    assert KnowsAt(h, settle, t.event.p);
  }

  lemma StaysDated(h: History, t: Timed, settle: nat)
    requires Chronicle(h, settle) && Punctual(h, t, settle)
    ensures var g := After(h, t); Dated(g.s.files.lock, g.linked, g.entered, g.now, settle)
  {
    var e := t.event;
    if e.Step? && Live(h.s, e.p) {
      CallLock(h.s.files, h.s.dead, e.p, h.s.parts[e.p], Clean(h.s), e.clock);
      if Restores(h.s, e) {
        RestoreIsFresh(h, t, settle);
      }
    } else {
      QuietLock(h.s, e);
    }
  }

  lemma QuietLock(s: State, e: Event)
    requires !(e.Step? && Live(s, e.p))
    ensures Apply(s, e).files.lock == s.files.lock
    ensures forall q | q in Apply(s, e).parts && !(q in s.parts && Apply(s, e).parts[q] == s.parts[q]) ::
              !Inspecting(Apply(s, e).parts[q].pc)
  {
  }

  /** What a breaker knows survives a link, a restore of a freshly linked lock, and every removal. */
  lemma KnowsThroughLink(lock: Option<Pid>, linked: map<Pid, int>, entered: int, was: int, now: int, settle: nat, pc: Pc, since: int, base: int, x: Pid)
    requires Knows(lock, linked, entered, was, settle, pc, since, base) && was <= now
    requires Dated(lock, linked, entered, was, settle)
    ensures Knows(Some(x), linked[x := now], now, now, settle, pc, since, base)
  {
  }

  lemma KnowsThroughRestore(lock: Option<Pid>, linked: map<Pid, int>, entered: int, was: int, now: int, settle: nat, pc: Pc, since: int, base: int, m: Pid)
    requires Knows(lock, linked, entered, was, settle, pc, since, base) && was <= now
    requires m in linked && now < linked[m] + settle
    ensures Knows(Some(m), linked, now, now, settle, pc, since, base)
  {
  }

  lemma KnowsThroughTime(lock: Option<Pid>, linked: map<Pid, int>, entered: int, was: int, now: int, settle: nat, pc: Pc, since: int, base: int)
    requires Knows(lock, linked, entered, was, settle, pc, since, base) && was <= now
    ensures Knows(lock, linked, entered, now, settle, pc, since, base) && Knows(None, linked, entered, now, settle, pc, since, base)
  {
  }

  /** A breaker that does nothing itself goes on knowing what it knows. */
  lemma OthersKnow(h: History, t: Timed, settle: nat, q: Pid)
    requires Chronicle(h, settle) && Punctual(h, t, settle)
    requires q in h.s.parts && q != t.event.p
    ensures KnowsAt(After(h, t), settle, q)
  {
    hide Knows;
    var e := t.event;
    assert KnowsAt(h, settle, q);
    if q !in h.s.dead && Inspecting(h.s.parts[q].pc) {
      var f, pc, since, base := h.s.files, h.s.parts[q].pc, h.since[q], h.base[q];
      KnowsThroughTime(f.lock, h.linked, h.entered, h.now, t.now, settle, pc, since, base);
      if e.Step? && Live(h.s, e.p) {
        CallLock(f, h.s.dead, e.p, h.s.parts[e.p], Clean(h.s), e.clock);
        KnowsThroughLink(f.lock, h.linked, h.entered, h.now, t.now, settle, pc, since, base, e.p);
        if Restores(h.s, e) {
          RestoreIsFresh(h, t, settle);
          KnowsThroughRestore(f.lock, h.linked, h.entered, h.now, t.now, settle, pc, since, base, h.s.parts[e.p].pc.moved);
        }
      } else {
        QuietLock(h.s, e);
      }
    }
  }

  /** A look at the lock. */
  lemma LookKnows(f: Files, dead: set<Pid>, p: Pid, me: Participant, clean: bool, clock: Clock, linked: map<Pid, int>, entered: int, was: int, now: int, settle: nat)
    requires Dated(f.lock, linked, entered, was, settle) && was <= now && me.pc.BreakerStat?
    ensures var e := Call(f, dead, p, me, clean, clock);
      Inspecting(e.me.pc) ==> Knows(e.files.lock, linked, entered, now, settle, e.me.pc, now, entered)
  {
  }

  /** What follows it. */
  lemma CallKnows(f: Files, dead: set<Pid>, p: Pid, me: Participant, clean: bool, clock: Clock, linked: map<Pid, int>, entered: int, was: int, now: int, settle: nat, since: int, base: int)
    requires Dated(f.lock, linked, entered, was, settle) && was <= now < since + settle
    requires Inspecting(me.pc) && Knows(f.lock, linked, entered, was, settle, me.pc, since, base)
    requires me.pc.BreakerRead? && clock.aged && f.lock.Some? && f.lock.value in linked ==> linked[f.lock.value] + 2 * settle <= now
    ensures var e := Call(f, dead, p, me, clean, clock);
      Inspecting(e.me.pc) ==> Knows(e.files.lock, linked, entered, now, settle, e.me.pc, since, base)
  {
    if me.pc.BreakerRead? {
    } else if me.pc.Quarantine? {
    } else if me.pc.Compare? {
    } else {
    }
  }

  lemma OtherwiseNotInspecting(f: Files, dead: set<Pid>, p: Pid, me: Participant, clean: bool, clock: Clock)
    requires !me.pc.BreakerStat? && !Inspecting(me.pc)
    ensures !Inspecting(Call(f, dead, p, me, clean, clock).me.pc)
  {
  }

  /** A breaker that makes a call of its own knows what that call needs. */
  lemma StepperKnows(h: History, t: Timed, settle: nat)
    requires Chronicle(h, settle) && Punctual(h, t, settle)
    requires t.event.Step? && Live(h.s, t.event.p)
    ensures KnowsAt(After(h, t), settle, t.event.p)
  {
    hide Knows, Dated, Call;
    var p, f, me, clock := t.event.p, h.s.files, h.s.parts[t.event.p], t.event.clock;
    assert KnowsAt(h, settle, p);
    if me.pc.BreakerStat? {
      StatLooks(f, h.s.dead, p, me, Clean(h.s), clock);
      LookKnows(f, h.s.dead, p, me, Clean(h.s), clock, h.linked, h.entered, h.now, t.now, settle);
    } else if Inspecting(me.pc) {
      if me.pc.Restore? {
        RestoreEnds(f, h.s.dead, p, me, Clean(h.s), clock);
      } else {
        CallKnows(f, h.s.dead, p, me, Clean(h.s), clock, h.linked, h.entered, h.now, t.now, settle, h.since[p], h.base[p]);
      }
    } else {
      OtherwiseNotInspecting(f, h.s.dead, p, me, Clean(h.s), clock);
    }
  }

  lemma StatLooks(f: Files, dead: set<Pid>, p: Pid, me: Participant, clean: bool, clock: Clock)
    requires me.pc.BreakerStat?
    ensures Inspecting(Call(f, dead, p, me, clean, clock).me.pc) ==> f.lock.Some?
  {
  }

  lemma RestoreEnds(f: Files, dead: set<Pid>, p: Pid, me: Participant, clean: bool, clock: Clock)
    requires me.pc.Restore?
    ensures !Inspecting(Call(f, dead, p, me, clean, clock).me.pc)
  {
  }

  lemma ChronicleStep(h: History, t: Timed, settle: nat)
    requires Chronicle(h, settle) && Punctual(h, t, settle)
    ensures Chronicle(After(h, t), settle)
  {
    var g, e := After(h, t), t.event;
    ApplySound(h.s, e);
    StaysDated(h, t, settle);
    forall q | q in g.s.parts
      ensures KnowsAt(g, settle, q)
    {
      if q in h.s.parts && q != e.p {
        OthersKnow(h, t, settle, q);
      } else if e.Step? && Live(h.s, e.p) {
        StepperKnows(h, t, settle);
      } else {
        QuietLock(h.s, e);
      }
    }
  }

  /** Who finds its own lock in place after the delay finds no live breaker armed. */
  lemma PunctualIsSettled(h: History, t: Timed, settle: nat)
    requires Chronicle(h, settle) && Punctual(h, t, settle)
    ensures SettledStep(h.s, t.event)
  {
    var e := t.event;
    if e.Step? && Live(h.s, e.p) && h.s.parts[e.p].pc.TestInode? && Same(h.s.files, e.p) {
      forall q | q in h.s.parts && q !in h.s.dead
        ensures !Armed(h.s.parts[q].pc)
      {
        assert KnowsAt(h, settle, q);
        assert SoundPart(h.s.files, h.s.dead, h.s.parts.Keys, q, h.s.parts[q]);
      }
    }
  }

  lemma {:induction false} PunctualIsTimely(h: History, run: seq<Timed>, settle: nat)
    requires Chronicle(h, settle) && OwnsCleanly(h.s) && PunctualRun(h, run, settle)
    ensures Timely(h.s, Events(run))
    decreases |run|
  {
    if run != [] {
      assert Events(run)[0] == run[0].event && Events(run)[1..] == Events(run[1..]);
      PunctualIsSettled(h, run[0], settle);
      SettledStepKeeps(h.s, run[0].event);
      ChronicleStep(h, run[0], settle);
      PunctualIsTimely(After(h, run[0]), run[1..], settle);
    }
  }

  /**
   * Mutual exclusion from the settle delay, in every punctual run of any number of participants
   * crashing anywhere.
   */
  lemma PunctualMutualExclusion(run: seq<Timed>, settle: nat)
    requires settle > 0 && PunctualRun(Start, run, settle)
    ensures var s := Run(Init, Events(run));
      && (forall p, q | InCallback(s, p) && InCallback(s, q) :: p == q)
      && (forall p | Live(s, p) && Holds(s.parts[p].pc) :: s.files.lock == Some(p) && p in s.files.records)
      && (forall p | p in s.parts :: s.parts[p].pc != Ended(Some(OwnershipChanged)))
      && (forall p | p in s.parts :: s.parts[p].pc != Ended(Some(CannotPublish)))
  {
    hide Run;
    PunctualIsTimely(Start, run, settle);
    MutualExclusion(Events(run));
  }
}
