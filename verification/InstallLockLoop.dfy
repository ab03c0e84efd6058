/**
 * One participant's own run of `withInstallLock` and `reclaimStaleLock`, written as the loop it is,
 * while everybody else stands still. The loop makes exactly the calls of the step machine in
 * `InstallLock`, in its order and with its effects.
 */
module InstallLockLoop {
  import opened Options
  import opened InstallLock

  /** The files and the participant after one call for each clock reading. */
  function Played(f: Files, dead: set<Pid>, p: Pid, me: Participant, clean: bool, clocks: seq<Clock>): Effect {
    if clocks == [] then Effect(f, me)
    else
      var e := Played(f, dead, p, me, clean, clocks[..|clocks| - 1]);
      Call(e.files, dead, p, e.me, clean, clocks[|clocks| - 1])
  }

  lemma PlayedOne(f: Files, dead: set<Pid>, p: Pid, me: Participant, clean: bool, clocks: seq<Clock>, c: Clock)
    ensures var e := Played(f, dead, p, me, clean, clocks);
      Played(f, dead, p, me, clean, clocks + [c]) == Call(e.files, dead, p, e.me, clean, c)
  {
    assert (clocks + [c])[..|clocks|] == clocks;
  }

  /** Readings at which every record is old enough and the deadline has not passed are the lone waiter's. */
  lemma {:induction false} PlayedAlone(f: Files, dead: set<Pid>, p: Pid, me: Participant, clean: bool, n: nat)
    ensures Played(f, dead, p, me, clean, seq(n, _ => TICK)) == Alone(f, dead, p, me, clean, n)
    decreases n
  {
    if n > 0 {
      var e := Call(f, dead, p, me, clean, TICK);
      PlayedFirst(f, dead, p, me, clean, n);
      PlayedAlone(e.files, dead, p, e.me, clean, n - 1);
    }
  }

  lemma {:induction false} PlayedFirst(f: Files, dead: set<Pid>, p: Pid, me: Participant, clean: bool, n: nat)
    requires n > 0
    ensures var e := Call(f, dead, p, me, clean, TICK);
      Played(f, dead, p, me, clean, seq(n, _ => TICK)) == Played(e.files, dead, p, e.me, clean, seq(n - 1, _ => TICK))
    decreases n
  {
    var all := seq(n, _ => TICK);
    assert all[..n - 1] == seq(n - 1, _ => TICK);
    if n > 1 {
      PlayedFirst(f, dead, p, me, clean, n - 1);
      assert seq(n - 1, _ => TICK)[..n - 2] == seq(n - 2, _ => TICK);
    }
  }

  /** What the clock says at the `i`-th call, given its coming readings and what it says after them. */
  function Said(readings: seq<Clock>, rest: Clock, i: nat): Clock {
    if i < |readings| then readings[i] else rest
  }

  /** The readings left after `k` calls. */
  function Left(readings: seq<Clock>, k: nat): seq<Clock> {
    if k <= |readings| then readings[k..] else []
  }

  /** No reading says that the deadline has passed. */
  predicate InTime(readings: seq<Clock>, rest: Clock) {
    !rest.expired && forall c | c in readings :: !c.expired
  }

  /** Every reading says that a record is old enough. */
  predicate AllAged(readings: seq<Clock>, rest: Clock) {
    rest.aged && forall c | c in readings :: c.aged
  }

  /** How one turn of the polling loop ends. */
  datatype Turn = Again | Acquired | Failed(failure: Failure)

  class Waiter {
    const p: Pid
    const dead: set<Pid>
    var lock: Option<Pid>
    var records: set<Pid>
    var barriers: set<Pid>
    var published: bool
    var readings: seq<Clock>      // what the clock will say
    const rest: Clock             // and what it says after that

    /** Where the step machine is, what it started from, and the readings it has used. */
    ghost const start: Files
    ghost const clean: bool
    ghost var pc: Pc
    ghost var used: seq<Clock>

    function Now(): Files
      reads this`lock, this`records, this`barriers
    {
      Files(lock, records, barriers)
    }

    /** The step machine has made the same calls and is in the same state. */
    ghost predicate InStep()
      reads this
    {
      Played(start, dead, p, Participant(TestInode, false), clean, used) == Effect(Now(), Participant(pc, published))
    }

    constructor (p: Pid, dead: set<Pid>, files: Files, readings: seq<Clock>, rest: Clock, ghost clean: bool)
      ensures InStep() && pc == TestInode && !published && used == [] && Now() == files
      ensures this.p == p && this.dead == dead && start == files && this.clean == clean
      ensures this.readings == readings && this.rest == rest
    {
      this.p, this.dead, this.readings, this.rest := p, dead, readings, rest;
      lock, records, barriers, published := files.lock, files.records, files.barriers, false;
      start, this.clean, pc, used := files, clean, TestInode, [];
    }

    method ReadClock() returns (c: Clock)
      modifies this`readings
      ensures (old(InTime(readings, rest)) ==> InTime(readings, rest)) && (old(AllAged(readings, rest)) ==> AllAged(readings, rest))
      ensures c == Said(old(readings), rest, 0) && readings == Left(old(readings), 1)
      ensures (old(InTime(readings, rest)) ==> !c.expired) && (old(AllAged(readings, rest)) ==> c.aged)
    {
      c := rest;
      if readings != [] {
        c, readings := readings[0], readings[1..];
      }
    }

    /** The step machine makes the call that has just been made here. */
    ghost method Step(before: Files, was: bool, c: Clock)
      requires Played(start, dead, p, Participant(TestInode, false), clean, used) == Effect(before, Participant(pc, was))
      requires var e := Call(before, dead, p, Participant(pc, was), clean, c);
        e.files == Now() && e.me.published == published
      modifies this`pc, this`used
      ensures InStep() && pc == Call(before, dead, p, Participant(old(pc), was), clean, c).me.pc
    {
      hide Call, Played;
      PlayedOne(start, dead, p, Participant(TestInode, false), clean, used, c);
      pc, used := Call(before, dead, p, Participant(pc, was), clean, c).me.pc, used + [c];
    }

    method ScanBarriers() returns (active: bool, c: Clock)
      requires InStep() && pc.ScanBarriers?
      modifies this`barriers, this`readings, this`pc, this`used
      ensures (old(InTime(readings, rest)) ==> InTime(readings, rest)) && (old(AllAged(readings, rest)) ==> AllAged(readings, rest))
      ensures InStep() && active == (barriers != {}) && barriers == old(barriers) - dead
      ensures old(InTime(readings, rest)) ==> !c.expired
      ensures c == Said(old(readings), rest, 0) && readings == Left(old(readings), 1)
      ensures pc == if active then (if !published && c.expired then DropRecord(Some(Deadline)) else TestInode)
                    else if old(pc).owns then Callback else LinkLock
    {
      hide InTime, AllAged;
      ghost var before := Now();
      c := ReadClock();
      barriers := barriers - dead;
      active := barriers != {};
      Step(before, published, c);
    }

    /** Link the private record to the lock name; `blocked` when the name is taken. */
    method Link() returns (failed: bool, blocked: bool)
      requires InStep() && pc.LinkLock?
      modifies this`lock, this`published, this`readings, this`pc, this`used
      ensures (old(InTime(readings, rest)) ==> InTime(readings, rest)) && (old(AllAged(readings, rest)) ==> AllAged(readings, rest))
      ensures InStep()
      ensures pc == if failed then DropRecord(Some(CannotPublish)) else if blocked then RetestInode else TestInode
      ensures failed == (p !in records) && blocked == old(lock).Some? && readings == Left(old(readings), 1)
      ensures if failed || blocked then lock == old(lock) && published == old(published) else lock == Some(p) && published
    {
      hide InTime, AllAged;
      ghost var before, was := Now(), published;
      var c := ReadClock();
      failed := p !in records;
      blocked := lock.Some?;
      if !failed && !blocked {
        lock, published := Some(p), true;
      }
      Step(before, was, c);
    }

    ghost method StepStat(c: Clock)
      requires InStep() && pc.WaiterStat?
      modifies this`pc, this`used
      ensures InStep()
      ensures pc == if lock.Some? then WaiterRead else if c.expired then DropRecord(Some(Deadline)) else TestInode
    {
      hide InTime, AllAged;
      Step(Now(), published, c);
    }

    ghost method StepRead(c: Clock)
      requires InStep() && pc.WaiterRead?
      modifies this`pc, this`used
      ensures InStep()
      ensures pc == if lock.None? then DropRecord(Some(NotOwned))
                    else if lock.value in dead && c.aged then PublishBarrier
                    else if c.expired then DropRecord(Some(Deadline)) else TestInode
    {
      Step(Now(), published, c);
    }

    /** What inspection of the lock by a waiter comes to: stale, or a reason to stop, or neither. */
    method InspectAsWaiter() returns (stale: bool, failure: Option<Failure>)
      requires InStep() && pc.WaiterStat?
      modifies this`readings, this`pc, this`used
      ensures (old(InTime(readings, rest)) ==> InTime(readings, rest)) && (old(AllAged(readings, rest)) ==> AllAged(readings, rest))
      ensures InStep() && (stale ==> failure.None?)
      ensures pc == if stale then PublishBarrier else if failure.Some? then DropRecord(failure) else TestInode
      ensures old(InTime(readings, rest)) ==> failure != Some(Deadline)
      ensures lock.Some? ==>
        && readings == Left(old(readings), 2)
        && stale == (lock.value in dead && Said(old(readings), rest, 1).aged)
        && failure == if !stale && Said(old(readings), rest, 1).expired then Some(Deadline) else None
    {
      hide InTime, AllAged, Said, Left, Call, Played;
      ReadAhead(readings, 1, 0);
      ReadAhead(readings, 1, 1);
      stale, failure := false, None;
      var c := ReadClock();
      var found := lock.Some?;
      StepStat(c);
      if !found {
        failure := if c.expired then Some(Deadline) else None;
        return;
      }
      c := ReadClock();
      if lock.None? {
        failure := Some(NotOwned);
      } else if lock.value in dead && c.aged {
        stale := true;
      } else if c.expired {
        failure := Some(Deadline);
      }
      StepRead(c);
    }

    /** Inspection by a breaker, behind its barrier: the inode and the owner of a stale lock. */
    method InspectAsBreaker() returns (current: Option<Pid>)
      requires InStep() && pc.BreakerStat?
      modifies this`readings, this`pc, this`used
      ensures (old(InTime(readings, rest)) ==> InTime(readings, rest)) && (old(AllAged(readings, rest)) ==> AllAged(readings, rest))
      ensures InStep()
      ensures pc == if current.Some? then Quarantine(current.value, current.value) else WithdrawBarrier
      ensures lock.Some? ==> current == if lock.value in dead && Said(old(readings), rest, 1).aged then lock else None
    {
      hide InTime, AllAged;
      current := None;
      var c := ReadClock();
      var stat := lock;
      Step(Now(), published, c);
      if stat.None? {
        return;
      }
      c := ReadClock();
      if lock.Some? && lock.value in dead && c.aged {
        current := lock;
      }
      Step(Now(), published, c);
    }

    /** Rename whatever has the lock name away. */
    method RenameAway(current: Pid) returns (moved: Option<Pid>)
      requires InStep() && pc == Quarantine(current, current)
      modifies this`lock, this`readings, this`pc, this`used
      ensures (old(InTime(readings, rest)) ==> InTime(readings, rest)) && (old(AllAged(readings, rest)) ==> AllAged(readings, rest))
      ensures InStep() && lock.None? && moved == old(lock)
      ensures pc == if moved.Some? then Compare(current, current, moved.value) else WithdrawBarrier
    {
      hide InTime, AllAged;
      ghost var before := Now();
      var c := ReadClock();
      moved := lock;
      lock := None;
      Step(before, published, c);
    }

    ghost method StepVacant(c: Clock)
      requires InStep() && pc.CheckVacant?
      modifies this`pc, this`used
      ensures InStep() && pc == if lock.None? then Restore(old(pc).moved) else WithdrawBarrier
    {
      Step(Now(), published, c);
    }

    method RenameBack(moved: Pid)
      requires InStep() && pc == Restore(moved)
      modifies this`lock, this`readings, this`pc, this`used
      ensures (old(InTime(readings, rest)) ==> InTime(readings, rest)) && (old(AllAged(readings, rest)) ==> AllAged(readings, rest))
      ensures InStep() && pc == WithdrawBarrier && lock == Some(moved)
    {
      hide InTime, AllAged, Said, Left;
      ghost var before := Now();
      var c := ReadClock();
      lock := Some(moved);
      Step(before, published, c);
    }

    /** Another inode than the inspected one goes back, if the name is still free. */
    method PutBack(moved: Pid)
      requires InStep() && pc == CheckVacant(moved)
      modifies this`lock, this`readings, this`pc, this`used
      ensures (old(InTime(readings, rest)) ==> InTime(readings, rest)) && (old(AllAged(readings, rest)) ==> AllAged(readings, rest))
      ensures InStep() && pc == WithdrawBarrier
      ensures lock == if old(lock).None? then Some(moved) else old(lock)
    {
      hide InTime, AllAged, Said, Left, Call, Played;
      var c := ReadClock();
      var vacant := lock.None?;
      StepVacant(c);
      if vacant {
        RenameBack(moved);
      }
    }

    method UnlinkOwnerRecord(current: Pid)
      requires InStep() && pc == UnlinkRecord(current, current)
      modifies this`records, this`readings, this`pc, this`used
      ensures (old(InTime(readings, rest)) ==> InTime(readings, rest)) && (old(AllAged(readings, rest)) ==> AllAged(readings, rest))
      ensures InStep() && pc == UnlinkQuarantine && records == old(records) - {current}
    {
      hide InTime, AllAged, Said, Left;
      ghost var before := Now();
      var c := ReadClock();
      records := records - {current};
      Step(before, published, c);
    }

    ghost method StepUnlinked(c: Clock)
      requires InStep() && pc.UnlinkQuarantine?
      modifies this`pc, this`used
      ensures InStep() && pc == WithdrawBarrier
    {
      Step(Now(), published, c);
    }

    /** The dead owner's record and its quarantined lock are removed. */
    method RemoveDead(current: Pid)
      requires InStep() && pc == UnlinkRecord(current, current)
      modifies this`records, this`readings, this`pc, this`used
      ensures (old(InTime(readings, rest)) ==> InTime(readings, rest)) && (old(AllAged(readings, rest)) ==> AllAged(readings, rest))
      ensures InStep() && pc == WithdrawBarrier && records == old(records) - {current}
    {
      hide InTime, AllAged, Said, Left, Call, Played;
      UnlinkOwnerRecord(current);
      var c := ReadClock();
      StepUnlinked(c);
    }

    ghost method StepCompare(c: Clock)
      requires InStep() && pc.Compare?
      modifies this`pc, this`used
      ensures InStep()
      ensures pc == if old(pc).moved == old(pc).stat then UnlinkRecord(old(pc).owner, old(pc).moved) else CheckVacant(old(pc).moved)
    {
      Step(Now(), published, c);
    }

    method TakeAway(current: Pid)
      requires InStep() && pc == Quarantine(current, current)
      modifies this`lock, this`records, this`readings, this`pc, this`used
      ensures (old(InTime(readings, rest)) ==> InTime(readings, rest)) && (old(AllAged(readings, rest)) ==> AllAged(readings, rest))
      ensures InStep() && pc == WithdrawBarrier
      ensures old(lock) == Some(current) ==> lock.None? && records == old(records) - {current}
    {
      hide InTime, AllAged, Said, Left, Call, Played;
      var moved := RenameAway(current);
      if moved.None? {
        return;
      }
      var c := ReadClock();
      StepCompare(c);
      if moved.value != current {
        PutBack(moved.value);
      } else {
        RemoveDead(current);
      }
    }

    method RaiseBarrier()
      requires InStep() && pc == PublishBarrier
      modifies this`barriers, this`readings, this`pc, this`used
      ensures (old(InTime(readings, rest)) ==> InTime(readings, rest)) && (old(AllAged(readings, rest)) ==> AllAged(readings, rest))
      ensures InStep() && pc == BreakerStat && barriers == old(barriers) + {p} && readings == Left(old(readings), 1)
    {
      hide InTime, AllAged;
      ghost var before := Now();
      var c := ReadClock();
      barriers := barriers + {p};
      Step(before, published, c);
    }

    method LowerBarrier()
      requires InStep() && pc == WithdrawBarrier
      modifies this`barriers, this`readings, this`pc, this`used
      ensures (old(InTime(readings, rest)) ==> InTime(readings, rest)) && (old(AllAged(readings, rest)) ==> AllAged(readings, rest))
      ensures InStep() && pc == TestInode && barriers == old(barriers) - {p}
    {
      hide InTime, AllAged;
      ghost var before := Now();
      var c := ReadClock();
      barriers := barriers - {p};
      Step(before, published, c);
    }

    /** `reclaimStaleLock`: the barrier goes up first and comes down however it ends. */
    method Reclaim()
      requires InStep() && pc == PublishBarrier
      modifies this`lock, this`records, this`barriers, this`readings, this`pc, this`used
      ensures (old(InTime(readings, rest)) ==> InTime(readings, rest)) && (old(AllAged(readings, rest)) ==> AllAged(readings, rest))
      ensures InStep() && pc == TestInode && barriers == old(barriers) - {p}
      ensures old(lock).Some? ==>
        if old(lock).value in dead && Said(old(readings), rest, 2).aged
        then lock.None? && records == old(records) - {old(lock).value}
        else lock == old(lock) && records == old(records)
    {
      hide InTime, AllAged;
      RaiseBarrier();
      var current := InspectAsBreaker();
      if current.Some? {
        TakeAway(current.value);
      }
      LowerBarrier();
    }

    /** Somebody else's lock is in place, no live barrier stands, and the own record is there. */
    predicate Behind()
      reads this`lock, this`records, this`barriers
    {
      lock.Some? && lock.value != p && p in records && barriers <= dead
    }

    predicate SameLock(files: Files)
      reads this`lock, this`records
    {
      lock == files.lock && records == files.records
    }

    /** The name is taken: unless it is ours by now, the lock is inspected and, if stale, reclaimed. */
    method Contend() returns (turn: Turn)
      requires InStep() && pc.RetestInode? && lock.Some? && p in records
      modifies this`lock, this`records, this`barriers, this`readings, this`pc, this`used
      ensures (old(InTime(readings, rest)) ==> InTime(readings, rest)) && (old(AllAged(readings, rest)) ==> AllAged(readings, rest))
      ensures InStep() && !turn.Acquired? && (barriers == old(barriers) || barriers == old(barriers) - {p})
      ensures pc == if turn.Failed? then DropRecord(Some(turn.failure)) else TestInode
      ensures turn == Failed(Deadline) ==> lock != Some(p) && !old(InTime(readings, rest))
      ensures old(Behind()) && !(old(lock).value in dead && Said(old(readings), rest, 2).aged) ==>
        && turn == (if Said(old(readings), rest, 2).expired then Failed(Deadline) else Again)
        && SameLock(old(Now())) && readings == Left(old(readings), 3) && barriers == old(barriers)
      ensures old(Behind()) && old(lock).value in dead && Said(old(readings), rest, 2).aged ==>
        && turn == Again
        && if Said(old(readings), rest, 5).aged then lock.None? && records == old(records) - {old(lock).value} else SameLock(old(Now()))
    {
      hide Call, Played, Said, Left, InTime, AllAged;
      ReadAhead(readings, 1, 2);
      ReadAhead(readings, 3, 2);
      ReadAhead(readings, 1, 1);
      var c := ReadClock();
      var ours := Same(Now(), p);
      StepRetest(c);
      if ours {
        return Again;
      }
      var stale, failure := InspectAsWaiter();
      if stale {
        Reclaim();
        return Again;
      }
      return if failure.Some? then Failed(failure.value) else Again;
    }

    lemma ReadAhead(readings: seq<Clock>, k: nat, i: nat)
      ensures Said(Left(readings, k), rest, i) == Said(readings, rest, k + i)
      ensures Left(Left(readings, k), i) == Left(readings, k + i)
    {
    }

    lemma LiveBarriers(barriers: set<Pid>)
      ensures barriers - dead == {} <==> barriers <= dead
    {
      assert barriers - dead == {} ==> forall q | q in barriers :: q in dead || q in barriers - dead;
    }

    /** The inode is looked at again; the step machine makes that call. */
    ghost method StepRetest(c: Clock)
      requires InStep() && pc.RetestInode?
      modifies this`pc, this`used
      ensures InStep() && pc == if Same(Now(), p) then TestInode else WaiterStat
    {
      Step(Now(), published, c);
    }

    ghost method StepTest(c: Clock)
      requires InStep() && pc.TestInode?
      modifies this`pc, this`used
      ensures InStep() && pc == Pc.ScanBarriers(Same(Now(), p), clean)
    {
      Step(Now(), published, c);
    }

    /** No barrier stands and the lock is not ours: link it, or deal with the one in place. */
    method TryLink() returns (turn: Turn)
      requires InStep() && pc.LinkLock? && barriers == {}
      modifies this`lock, this`records, this`barriers, this`published, this`readings, this`pc, this`used
      ensures (old(InTime(readings, rest)) ==> InTime(readings, rest)) && (old(AllAged(readings, rest)) ==> AllAged(readings, rest))
      ensures InStep() && !turn.Acquired? && barriers == {}
      ensures pc == if turn.Failed? then DropRecord(Some(turn.failure)) else TestInode
      ensures turn == Failed(Deadline) ==> lock != Some(p) && !old(InTime(readings, rest))
      ensures (lock == Some(p) ==> published || old(lock) == Some(p)) && (old(published) ==> published)
      ensures p !in old(records) ==> turn == Failed(CannotPublish) && SameLock(old(Now()))
      ensures p in old(records) && old(lock).None? ==>
        turn == Again && lock == Some(p) && published && records == old(records)
      ensures old(Behind()) && !(old(lock).value in dead && Said(old(readings), rest, 3).aged) ==>
        && turn == (if Said(old(readings), rest, 3).expired then Failed(Deadline) else Again)
        && SameLock(old(Now())) && published == old(published) && readings == Left(old(readings), 4)
      ensures old(Behind()) && old(lock).value in dead && Said(old(readings), rest, 3).aged ==>
        && turn == Again && published == old(published)
        && if Said(old(readings), rest, 6).aged then lock.None? && records == old(records) - {old(lock).value} else SameLock(old(Now()))
    {
      hide Call, Played, Said, Left, InTime, AllAged;
      ReadAhead(readings, 1, 2);
      ReadAhead(readings, 1, 3);
      ReadAhead(readings, 1, 5);
      var failed, blocked := Link();
      if failed {
        return Failed(CannotPublish);
      }
      if !blocked {
        return Again;
      }
      turn := Contend();
    }

    /**
     * One turn of the polling loop, as the files and the clock decide it: a live barrier is waited for, by
     * a waiter that has never published only up to its deadline; the own lock is entered; a free name
     * is linked; a dead owner's old lock is broken; and behind any other lock the deadline counts.
     */
    method Poll() returns (turn: Turn)
      requires InStep() && pc == TestInode
      modifies this`lock, this`records, this`barriers, this`published, this`readings, this`pc, this`used
      ensures (old(InTime(readings, rest)) ==> InTime(readings, rest)) && (old(AllAged(readings, rest)) ==> AllAged(readings, rest))
      ensures InStep()
      ensures pc == match turn case Again => TestInode case Acquired => Callback case Failed(f) => DropRecord(Some(f))
      ensures barriers == old(barriers) - dead
      ensures turn == Failed(Deadline) ==> !old(InTime(readings, rest)) && (lock == Some(p) ==> !published && SameLock(old(Now())))
      ensures (lock == Some(p) ==> published || old(lock) == Some(p)) && (old(published) ==> published)
      ensures !(old(barriers) <= dead) ==>
        && turn == (if !old(published) && Said(old(readings), rest, 1).expired then Failed(Deadline) else Again)
        && SameLock(old(Now())) && published == old(published)
      ensures old(barriers) <= dead && Same(old(Now()), p) ==> turn == Acquired && SameLock(old(Now()))
      ensures old(barriers) <= dead && p !in old(records) ==> turn == Failed(CannotPublish) && SameLock(old(Now()))
      ensures old(barriers) <= dead && p in old(records) && old(lock).None? ==>
        turn == Again && lock == Some(p) && published && records == old(records)
      ensures old(Behind()) && !(old(lock).value in dead && Said(old(readings), rest, 5).aged) ==>
        && turn == (if Said(old(readings), rest, 5).expired then Failed(Deadline) else Again)
        && SameLock(old(Now())) && published == old(published) && readings == Left(old(readings), 6)
      ensures old(Behind()) && old(lock).value in dead && Said(old(readings), rest, 5).aged ==>
        && turn == Again && published == old(published)
        && if Said(old(readings), rest, 8).aged then lock.None? && records == old(records) - {old(lock).value} else SameLock(old(Now()))
    {
      hide Call, Played, Said, Left, InTime, AllAged;
      ReadAhead(readings, 1, 0);
      ReadAhead(readings, 1, 1);
      ReadAhead(readings, 2, 3);
      ReadAhead(readings, 2, 4);
      ReadAhead(readings, 2, 6);
      LiveBarriers(barriers);
      var c := ReadClock();
      var ownsCanonical := Same(Now(), p);
      StepTest(c);
      var active: bool;
      active, c := ScanBarriers();
      if active {
        return if !published && c.expired then Failed(Deadline) else Again;
      }
      if ownsCanonical {
        return Acquired;
      }
      turn := TryLink();
    }

    ghost method StepRelease(c: Clock)
      requires InStep() && pc == ReleaseTest
      modifies this`pc, this`used
      ensures InStep() && pc == if Same(Now(), p) then ReleaseUnlink else DropRecord(Some(OwnershipChanged))
    {
      Step(Now(), published, c);
    }

    method UnlinkLock()
      requires InStep() && pc == ReleaseUnlink
      modifies this`lock, this`readings, this`pc, this`used
      ensures (old(InTime(readings, rest)) ==> InTime(readings, rest)) && (old(AllAged(readings, rest)) ==> AllAged(readings, rest))
      ensures InStep() && pc == DropRecord(None) && lock.None?
    {
      hide InTime, AllAged, Said, Left;
      ghost var before := Now();
      var c := ReadClock();
      lock := None;
      Step(before, published, c);
    }

    /** A lock that is still ours is unlinked. */
    method Unlock() returns (outcome: Option<Failure>)
      requires InStep() && pc == ReleaseTest
      modifies this`lock, this`readings, this`pc, this`used
      ensures (old(InTime(readings, rest)) ==> InTime(readings, rest)) && (old(AllAged(readings, rest)) ==> AllAged(readings, rest))
      ensures InStep() && pc == DropRecord(outcome)
      ensures outcome == if Same(old(Now()), p) then None else Some(OwnershipChanged)
      ensures lock == if outcome.None? then None else old(lock)
    {
      hide InTime, AllAged, Said, Left, Call, Played;
      var c := ReadClock();
      var ours := Same(Now(), p);
      StepRelease(c);
      if !ours {
        return Some(OwnershipChanged);
      }
      UnlinkLock();
      outcome := None;
    }

    /** Leaving: our own record always goes. */
    method DropOwnRecord(outcome: Option<Failure>)
      requires InStep() && pc == DropRecord(outcome)
      modifies this`records, this`readings, this`pc, this`used
      ensures (old(InTime(readings, rest)) ==> InTime(readings, rest)) && (old(AllAged(readings, rest)) ==> AllAged(readings, rest))
      ensures InStep() && pc == Ended(outcome) && records == old(records) - {p}
    {
      hide InTime, AllAged;
      ghost var before := Now();
      var c := ReadClock();
      records := records - {p};
      Step(before, published, c);
    }

    /** The callback is the caller's business; afterwards the release begins. */
    method RunCallback()
      requires InStep() && pc == Callback
      modifies this`readings, this`pc, this`used
      ensures (old(InTime(readings, rest)) ==> InTime(readings, rest)) && (old(AllAged(readings, rest)) ==> AllAged(readings, rest))
      ensures InStep() && pc == ReleaseTest
    {
      hide InTime, AllAged;
      var c := ReadClock();
      Step(Now(), published, c);
    }

    /** After the loop: the callback and the release, or only the own record to drop. */
    method Leave(failure: Option<Failure>) returns (outcome: Option<Failure>)
      requires InStep() && pc == if failure.None? then Callback else DropRecord(failure)
      modifies this`lock, this`records, this`readings, this`pc, this`used
      ensures (old(InTime(readings, rest)) ==> InTime(readings, rest)) && (old(AllAged(readings, rest)) ==> AllAged(readings, rest))
      ensures InStep() && pc == Ended(outcome) && p !in records
      ensures outcome.None? ==> lock.None?
      ensures records == old(records) - {p}
      ensures outcome == if failure.Some? then failure else if Same(old(Now()), p) then None else Some(OwnershipChanged)
      ensures lock == if outcome.None? then None else old(lock)
    {
      hide InTime, AllAged;
      outcome := failure;
      if failure.None? {
        RunCallback();
        outcome := Unlock();
      }
      DropOwnRecord(outcome);
    }

    /** Nothing but dead owners' leftovers is in the way. */
    predicate Free()
      reads this`lock, this`records, this`barriers
    {
      p in records && barriers <= dead && (lock.Some? ==> lock.value == p || lock.value in dead)
    }

    /** The turns it then takes to enter: break, link, enter. */
    function TurnsAway(): nat
      reads this`lock
    {
      if lock.None? then 2 else if lock.value == p then 1 else 3
    }

    /** The records without the one a dead owner's lock names. */
    function Cleared(): set<Pid>
      reads this`lock, this`records
    {
      if lock.Some? && lock.value != p then records - {lock.value} else records
    }

    /** Behind a live owner the last reading of turn `i` is past the deadline. */
    predicate LateAt(readings: seq<Clock>, i: nat) {
      Said(readings, rest, 6 * i + 5).expired
    }

    /** The polling loop, for at most `turns` turns. */
    method TakeTurns(turns: nat) returns (turn: Turn)
      requires InStep() && pc == TestInode
      modifies this`lock, this`records, this`barriers, this`published, this`readings, this`pc, this`used
      ensures InStep()
      ensures pc == match turn case Again => TestInode case Acquired => Callback case Failed(f) => DropRecord(Some(f))
      ensures old(Behind()) && old(lock).value !in dead ==>
        && turn == (if exists i: nat | i < turns :: LateAt(old(readings), i) then Failed(Deadline) else Again)
        && SameLock(old(Now()))
      ensures old(Free()) && old(AllAged(readings, rest)) && old(TurnsAway()) <= turns ==>
        turn == Acquired && lock == Some(p) && p in records && records == old(Cleared())
      ensures turn == Failed(Deadline) ==> !old(InTime(readings, rest))
      ensures turn == Failed(Deadline) && (old(lock) == Some(p) ==> old(published)) ==> lock != Some(p)
    {
      hide InStep, InTime, AllAged, Said, Left;
      NoneRead(readings);
      turn := Again;
      var k: nat := 0;
      while turn.Again? && k < turns
        invariant k <= turns && InStep()
        invariant pc == match turn case Again => TestInode case Acquired => Callback case Failed(f) => DropRecord(Some(f))
        invariant old(InTime(readings, rest)) ==> InTime(readings, rest)
        invariant old(AllAged(readings, rest)) ==> AllAged(readings, rest)
        invariant old(Behind()) && old(lock).value !in dead ==>
          && Behind() && SameLock(old(Now()))
          && (turn.Again? ==> readings == Left(old(readings), 6 * k) && forall i: nat | i < k :: !LateAt(old(readings), i))
          && (!turn.Again? ==> k > 0 && turn == Failed(Deadline) && LateAt(old(readings), k - 1))
        invariant old(Free()) && old(AllAged(readings, rest)) ==>
          if turn.Again? then Free() && k + TurnsAway() == old(TurnsAway()) && Cleared() == old(Cleared())
          else turn == Acquired && lock == Some(p) && p in records && records == old(Cleared())
        invariant turn == Failed(Deadline) ==> !old(InTime(readings, rest))
        invariant (old(lock) == Some(p) ==> old(published)) ==>
          (lock == Some(p) ==> published) && (turn == Failed(Deadline) ==> lock != Some(p))
        decreases turns - k
      {
        ReadAhead(old(readings), 6 * k, 5);
        ReadAhead(old(readings), 6 * k, 6);
        Agings(readings);
        turn := Poll();
        k := k + 1;
      }
    }

    lemma NoneRead(readings: seq<Clock>)
      ensures Left(readings, 0) == readings
    {
    }

    lemma Agings(readings: seq<Clock>)
      ensures AllAged(readings, rest) ==> forall i: nat :: Said(readings, rest, i).aged
    {
    }

    /**
     * `withInstallLock`, for at most `turns` turns of its loop: however it ends it has made exactly
     * the step machine's calls; `outcome` is none as long as it is still polling. Behind a live owner
     * it gives up at the first turn whose last reading is past the deadline, leaving the lock alone;
     * with nothing but dead owners' old leftovers in the way it enters and releases. The deadline is
     * never the reason while it lasts, nor for a waiter whose lock is in place.
     */
    method WithInstallLock(turns: nat) returns (outcome: Option<Option<Failure>>)
      requires InStep() && pc == TestInode
      modifies this`lock, this`records, this`barriers, this`published, this`readings, this`pc, this`used
      ensures InStep()
      ensures pc == match outcome case None => TestInode case Some(o) => Ended(o)
      ensures outcome.Some? ==> p !in records
      ensures outcome == Some(None) ==> lock == None
      ensures old(Behind()) && old(lock).value !in dead ==>
        && outcome == (if exists i: nat | i < turns :: LateAt(old(readings), i) then Some(Some(Deadline)) else None)
        && lock == old(lock) && records == if outcome.Some? then old(records) - {p} else old(records)
      ensures old(Free()) && old(AllAged(readings, rest)) && old(TurnsAway()) <= turns ==>
        outcome == Some(None) && records == old(Cleared()) - {p}
      ensures outcome == Some(Some(Deadline)) ==> !old(InTime(readings, rest))
      ensures outcome == Some(Some(Deadline)) && (old(lock) == Some(p) ==> old(published)) ==> lock != Some(p)
    {
      hide InStep, InTime, AllAged, Said, Left, LateAt, Free;
      var turn := TakeTurns(turns);
      if turn.Again? {
        return None;
      }
      var o := Leave(if turn.Failed? then Some(turn.failure) else None);
      outcome := Some(o);
    }
  }
}
