/**
 * The managed runtime on disk: the logical target path, the generations root beside it, the
 * promotion journal and the install-intent file, with journalled promotion and its recovery.
 *
 * A `Disk` is what a process that crashed now would leave behind. Every change to it is one
 * atomic file-system call (rename, symlink, unlink, or a JSON file replaced by rename).
 */
module ManagedRuntime {
  import opened Options

  /** Entries of the generations root: `gen-*` and `legacy-*`. */
  datatype Name = Gen(number: nat) | Legacy(number: nat)

  datatype Extra = Audio2face | Gpu | Mediapipe | Rvm

  /** A sorted list without duplicates, which is what the program insists on, is a set. */
  type Extras = set<Extra>

  /** What the install stamp says about requested extras: no field, a bad value, or a list. */
  datatype Requested = Unlisted | Malformed | Listed(extras: Extras)

  /**
   * The install stamp. `build` stands for package version, source digest and Python identity, and
   * `rest` for the validity of everything in the stamp that is not modelled.
   */
  datatype Stamp = Stamp(rest: bool, requested: Requested, build: nat, created: nat)

  /**
   * A virtual environment. `id` is its identity, which renames keep; `shape` says that it is a
   * complete environment; `marker` is the generation id in its ownership marker.
   */
  datatype Env = Env(id: nat, shape: bool, marker: Option<Name>, stamp: Option<Stamp>)

  datatype Node = Absent | Dir(env: Env) | Link(dest: Name)

  datatype Journal = Journal(committed: bool, prev: Name, next: Name)

  datatype Intent = Intent(extras: Extras, updated: nat)

  datatype Disk = Disk(target: Node, root: map<Name, Env>, journal: Option<Journal>, intent: Option<Intent>)

  /** `validateGeneration`: a complete environment whose marker carries its own name. */
  predicate Valid(root: map<Name, Env>, n: Name) {
    n in root && root[n].shape && root[n].marker == Some(n)
  }

  // ---------------------------------------------------------------- recovery as a function

  /** Put the moved environment back at the target: unlink, rename, remove the journal. */
  function RestoreSteps(d: Disk, j: Journal): Option<seq<Disk>>
    requires j.prev in d.root
  {
    if !d.target.Absent? && d.target != Link(j.next) then None
    else
      var moved := Disk(Dir(d.root[j.prev]), d.root - {j.prev}, d.journal, d.intent);
      var tail := [moved, moved.(journal := None)];
      Some(if d.target.Absent? then tail else [d.(target := Absent)] + tail)
  }

  /** The disks recovery passes through, or None when it refuses and changes nothing. */
  function RecoverySteps(d: Disk): Option<seq<Disk>> {
    if d.journal.None? then Some([])
    else
      var j := d.journal.value;
      if !j.prev.Legacy? || !j.next.Gen? then None
      else if j.committed && j.next in d.root then
        if !Valid(d.root, j.next) then None
        else if d.target.Absent? then
          Some([d.(target := Link(j.next)), d.(target := Link(j.next), journal := None)])
        else if d.target == Link(j.next) then Some([d.(journal := None)])
        else None
      else if !j.committed && d.target.Dir? && j.prev !in d.root then Some([d.(journal := None)])
      else if !Valid(d.root, j.prev) then None
      else RestoreSteps(d, j)
  }

  /** Where one uninterrupted recovery ends. */
  function Settled(d: Disk): Disk {
    match RecoverySteps(d)
    case None => d
    case Some(steps) => if steps == [] then d else steps[|steps| - 1]
  }

  /** The disk states the installer and any of its crashes can leave. */
  predicate Safe(d: Disk) {
    && (d.target.Link? ==> Valid(d.root, d.target.dest))
    && (d.journal.Some? ==> Pending(d, d.journal.value))
  }

  predicate Pending(d: Disk, j: Journal) {
    && j.prev.Legacy? && j.next.Gen? && Valid(d.root, j.next)
    && (j.committed ==> Valid(d.root, j.prev) && (d.target.Absent? || d.target == Link(j.next)))
    && (!j.committed ==>
          if d.target.Dir? then d.target.env.marker == Some(j.prev) && d.target.env.shape && j.prev !in d.root
          else Valid(d.root, j.prev) && (d.target.Absent? || d.target == Link(j.next)))
  }

  /**
   * Exactly when recovery can be cut off anywhere and simply started again: unless a committed
   * journal names a new generation that is gone. That repair of an older installer's state, cut off
   * between its rename and the removal of the journal, leaves a disk on which recovery always throws.
   */
  lemma RecoveryResumable(d: Disk)
    requires RecoverySteps(d).Some?
    ensures (forall x | x in RecoverySteps(d).value :: RecoverySteps(x).Some? && Settled(x) == Settled(d))
       <==> !(d.journal.Some? && d.journal.value.committed && d.journal.value.next !in d.root)
  {
    if d.journal.Some? {
      var j := d.journal.value;
      if j.prev in d.root && RestoreSteps(d, j).Some? {
        var moved := Disk(Dir(d.root[j.prev]), d.root - {j.prev}, d.journal, d.intent);
        var away := d.(target := Absent);
        assert RestoreSteps(away, j) == Some([moved, moved.(journal := None)]);
        if RecoverySteps(d) == RestoreSteps(d, j) {
          assert moved in RecoverySteps(d).value;
          assert RecoverySteps(moved).Some? <==> !j.committed;
          assert !j.committed ==> RecoverySteps(away) == RestoreSteps(away, j);
        }
      }
    }
  }

  /** From every safe disk recovery goes through, and every disk on the way leads to the same end. */
  lemma RecoveryConverges(d: Disk)
    requires Safe(d)
    ensures RecoverySteps(d).Some?
    ensures forall x | x in RecoverySteps(d).value :: Safe(x) && Settled(x) == Settled(d)
    ensures Safe(Settled(d)) && Settled(d).journal.None? && Settled(Settled(d)) == Settled(d)
  {
    if d.journal.Some? && !d.journal.value.committed && !d.target.Dir? {
      var j := d.journal.value;
      var away := d.(target := Absent);
      assert RecoverySteps(away) == RestoreSteps(away, j);
    }
  }

  /**
   * On any disk at all: where recovery goes through, a complete generation that its committed journal
   * names is linked, or a complete previous environment is back at the target, or a direct
   * environment that was never moved stays; everything else is kept.
   */
  lemma RecoveryActivatesComplete(d: Disk)
    requires d.journal.Some? && RecoverySteps(d).Some?
    ensures var j, e := d.journal.value, Settled(d);
      && j.prev.Legacy? && j.next.Gen? && e.journal.None? && e.intent == d.intent
      && if j.committed && j.next in d.root then
           Valid(d.root, j.next) && e == Disk(Link(j.next), d.root, None, d.intent) && (d.target.Absent? || d.target == Link(j.next))
         else if !j.committed && d.target.Dir? && j.prev !in d.root then
           e == d.(journal := None)
         else
           && Valid(d.root, j.prev) && e == Disk(Dir(d.root[j.prev]), d.root - {j.prev}, None, d.intent)
           && (d.target.Absent? || d.target == Link(j.next))
  {
  }

  // ---------------------------------------------------------------- requested extras

  predicate ValidExtras(extras: Extras) {
    !(Rvm in extras && Gpu in extras) && !(Audio2face in extras && Mediapipe in extras)
  }

  predicate ValidStamp(s: Stamp) {
    s.rest && s.requested.Listed? && ValidExtras(s.requested.extras)
  }

  /** CUSTBACK_EXTRAS: not set, set to something that does not parse, or a list. */
  datatype EnvExtras = Unset | Unparsable | Given(extras: Extras)

  /** `resolveRequestedExtras`; None is the exception. */
  function Resolve(env: EnvExtras, intent: Option<Intent>, stamp: Option<Stamp>): Option<Extras> {
    match env
    case Unparsable => None
    case Given(extras) => if ValidExtras(extras) then Some(extras) else None
    case Unset =>
      match intent
      case Some(i) =>
        if stamp.Some? && ValidStamp(stamp.value) && i.extras != stamp.value.requested.extras
           && stamp.value.created > i.updated
        then Some(stamp.value.requested.extras)
        else Some(i.extras)
      case None =>
        if stamp.None? || stamp.value.requested.Unlisted? then Some({})
        else if stamp.value.requested.Malformed? || !ValidExtras(stamp.value.requested.extras) then None
        else Some(stamp.value.requested.extras)
  }

  /** Extras that cannot be had together. */
  predicate Conflicting(extras: Extras) {
    {Rvm, Gpu} <= extras || {Audio2face, Mediapipe} <= extras
  }

  /** The stamp is valid, disagrees with the intent and is newer. */
  predicate Overrides(stamp: Option<Stamp>, intent: Intent) {
    && stamp.Some? && stamp.value.rest && stamp.value.requested.Listed? && !Conflicting(stamp.value.requested.extras)
    && stamp.value.requested.extras != intent.extras && intent.updated < stamp.value.created
  }

  /**
   * What a run is asked for, case by case; none is a refusal. CUSTBACK_EXTRAS comes first, then the
   * intent unless a newer stamp overrides it, then what the active or else the adopted stamp lists.
   */
  predicate AskedFor(env: EnvExtras, intent: Option<Intent>, active: Option<Stamp>, adopted: Option<Stamp>, extras: Option<Extras>) {
    var stamp := if active.Some? then active else adopted;
    && (env.Unparsable? ==> extras == None)
    && (env.Given? ==> extras == if Conflicting(env.extras) then None else Some(env.extras))
    && (env.Unset? && intent.Some? && !Overrides(active, intent.value) ==> extras == Some(intent.value.extras))
    && (env.Unset? && intent.Some? && Overrides(active, intent.value) ==> extras == Some(active.value.requested.extras))
    && (env.Unset? && intent.None? && (stamp.None? || stamp.value.requested.Unlisted?) ==> extras == Some({}))
    && (env.Unset? && intent.None? && stamp.Some? && stamp.value.requested.Malformed? ==> extras == None)
    && (env.Unset? && intent.None? && stamp.Some? && stamp.value.requested.Listed? ==>
          extras == if Conflicting(stamp.value.requested.extras) then None else Some(stamp.value.requested.extras))
  }

  /** The resolution answers what was asked for. */
  lemma ResolvesAsAsked(env: EnvExtras, intent: Option<Intent>, active: Option<Stamp>, adopted: Option<Stamp>)
    ensures var used := if active.Some? then active else if env.Unset? && intent.None? then adopted else None;
      AskedFor(env, intent, active, adopted, Resolve(env, intent, used))
  {
  }

  function ActiveEnv(d: Disk): Option<Env> {
    match d.target
    case Absent => None
    case Dir(env) => Some(env)
    case Link(n) => if n in d.root then Some(d.root[n]) else None
  }

  function ActiveStamp(d: Disk): Option<Stamp> {
    var e := ActiveEnv(d);
    if e.None? then None else e.value.stamp
  }

  /** The environment recovery will make, or leave, active. */
  function CurrentEnv(d: Disk): Option<Env> {
    if d.journal.Some? && d.journal.value.committed && d.journal.value.next in d.root then Some(d.root[d.journal.value.next])
    else if d.journal.Some? && !d.target.Dir? && d.journal.value.prev in d.root then Some(d.root[d.journal.value.prev])
    else ActiveEnv(d)
  }

  lemma RecoveryActivatesCurrent(d: Disk)
    requires Safe(d)
    ensures ActiveEnv(Settled(d)) == CurrentEnv(d) && Settled(d).intent == d.intent
  {
    RecoveryConverges(d);
  }

  /** A disagreeing intent is older than the environment it disagrees with. */
  predicate Behind(env: Option<Env>, intent: Option<Intent>) {
    env.Some? && env.value.stamp.Some? && ValidStamp(env.value.stamp.value) && intent.Some?
    && intent.value.extras != env.value.stamp.value.requested.extras
    ==> env.value.stamp.value.created > intent.value.updated
  }

  /**
   * Without CUSTBACK_EXTRAS and with a valid active stamp, the resolved extras are the active
   * environment's exactly when no disagreeing intent is as new as that environment.
   */
  lemma ResolvesToActive(d: Disk)
    requires ActiveStamp(d).Some? && ValidStamp(ActiveStamp(d).value)
    ensures Resolve(Unset, d.intent, ActiveStamp(d)) == Some(ActiveStamp(d).value.requested.extras)
       <==> Behind(ActiveEnv(d), d.intent)
  {
  }

  /** `generationIsReferenced`. */
  predicate Referenced(d: Disk, n: Name) {
    d.target == Link(n) || (d.journal.Some? && d.journal.value.next == n)
  }

  /** Named by the target link or anywhere in the journal. */
  predicate Named(d: Disk, n: Name) {
    Referenced(d, n) || (d.journal.Some? && d.journal.value.prev == n)
  }

  /** Whatever the target link or the journal names is there and complete, or not moved aside yet. */
  lemma NamedIsPresent(d: Disk, n: Name)
    requires Safe(d) && Named(d, n)
    ensures Valid(d.root, n) || (d.target.Dir? && d.target.env.marker == Some(n) && d.journal.Some? && !d.journal.value.committed)
  {
  }

  // ---------------------------------------------------------------- the installer

  /** What happens at a file-system call: it works, it fails without effect, or the process dies. */
  datatype Outcome = Ok | Fault | Crash

  datatype Exit = Done | Threw | Crashed

  function ExitOf(o: Outcome): Exit {
    match o case Ok => Done case Fault => Threw case Crash => Crashed
  }

  predicate Smooth(plan: seq<Outcome>) {
    forall o | o in plan :: o.Ok?
  }

  predicate AllYes(answers: seq<bool>) {
    forall yes | yes in answers :: yes
  }

  /** The first candidate is created but its packages cannot be installed; everything afterwards works. */
  predicate FirstPackagesFail(answers: seq<bool>) {
    |answers| >= 2 && answers[0] && !answers[1] && AllYes(answers[2..])
  }

  function FirstAnswer(answers: seq<bool>): bool {
    answers == [] || answers[0]
  }

  lemma FirstOfAll(answers: seq<bool>)
    ensures AllYes(answers) ==> FirstAnswer(answers) && (answers != [] ==> AllYes(answers[1..]))
  {
    assert answers != [] ==> answers[0] in answers;
    assert answers != [] ==> forall yes | yes in answers[1..] :: yes in answers;
  }

  /** Nothing is different, except that a direct environment may carry another marker. */
  predicate Unchanged(d0: Disk, d: Disk) {
    && d == d0.(target := d.target)
    && (d.target == d0.target || (d0.target.Dir? && d.target.Dir? && SameEnv(d.target.env, d0.target.env)))
  }

  function Without(d: Disk, n: Name): Disk {
    d.(root := d.root - {n})
  }

  /** What the `i`-th coming call does. */
  function Nth(plan: seq<Outcome>, i: nat): Outcome {
    if i < |plan| then plan[i] else Ok
  }

  /** All coming calls work, but perhaps one. */
  predicate AtMostOneFails(plan: seq<Outcome>) {
    forall i, j | 0 <= i < j < |plan| :: plan[i].Ok? || plan[j].Ok?
  }

  /** What every exit of every run keeps. */
  predicate Consistent(d: Disk, clock: nat) {
    && Safe(d)
    && (d.target.Dir? ==> d.target.env.shape)
    && (forall n | n in d.root :: n.number < clock)
    && (d.intent.Some? ==> d.intent.value.updated < clock && ValidExtras(d.intent.value.extras))
    && Behind(CurrentEnv(d), d.intent)
  }

  /** The direct environment with its marker rewritten for the move. */
  function Remarked(d: Disk, legacy: Name): Disk {
    if d.target.Dir? then d.(target := Dir(d.target.env.(marker := Some(legacy)))) else d
  }

  /** The disk a completed promotion leaves. */
  function Promoted(d: Disk, gen: Name, legacy: Name): Disk {
    if d.target.Dir?
    then Disk(Link(gen), d.root[legacy := d.target.env.(marker := Some(legacy))], None, d.intent)
    else d.(target := Link(gen))
  }

  /** `stampMatches`. */
  predicate Matches(stamp: Option<Stamp>, build: nat, requested: Extras) {
    stamp.Some? && ValidStamp(stamp.value) && stamp.value.build == build && stamp.value.requested == Listed(requested)
  }

  /** The link to the new generation is in place and no prepared journal can undo it. */
  predicate CommittedLink(d: Disk, gen: Name) {
    d.target == Link(gen) && (d.journal.Some? ==> d.journal.value.committed)
  }

  predicate SameEnv(a: Env, b: Env) {
    a == b.(marker := a.marker)
  }

  /** The original environment is at exactly one of the target and its `legacy-` path. */
  predicate OriginalKept(d: Disk, original: Env, legacy: Name) {
    (d.target.Dir? && SameEnv(d.target.env, original)) != (legacy in d.root && SameEnv(d.root[legacy], original))
  }

  /** The journalled state of a direct promotion whose link is in place. */
  function Linked(d: Disk, gen: Name, legacy: Name, committed: bool): Disk {
    Promoted(d, gen, legacy).(journal := Some(Journal(committed, legacy, gen)))
  }

  /** A disk from which recovery gives the original direct environment back. */
  predicate Undone(d0: Disk, d: Disk, gen: Name, legacy: Name)
    requires d0.target.Dir?
  {
    && Safe(d) && d.intent == d0.intent
    && (Settled(d) == d0 || Settled(d) == Remarked(d0, legacy))
    && OriginalKept(d, d0.target.env, legacy)
    && !CommittedLink(d, gen)
  }

  /** What a promotion that began at `d0` and ended at `d` promises. */
  predicate PromotionEnd(d0: Disk, d: Disk, gen: Name, legacy: Name, exit: Exit) {
    && Safe(d) && d.intent == d0.intent
    && (exit.Done? ==> d == Promoted(d0, gen, legacy) || (d0.target.Dir? && d == Linked(d0, gen, legacy, true)))
    && (d0.target.Dir? ==>
          && OriginalKept(d, d0.target.env, legacy)
          && (if CommittedLink(d, gen) then Settled(d) == Promoted(d0, gen, legacy) && !exit.Threw?
              else Settled(d) == d0 || Settled(d) == Remarked(d0, legacy)))
    && (!d0.target.Dir? ==> d == d0 || d == Promoted(d0, gen, legacy))
  }

  /** Nothing but new `gen-*` entries, numbered by the clock, was added. */
  predicate OnlyAdds(d0: Disk, d: Disk, from: nat, clock: nat) {
    && d == d0.(root := d.root)
    && (forall n | n in d0.root :: n in d.root && d.root[n] == d0.root[n])
    && (forall n | n in d.root && n !in d0.root :: n.Gen? && from <= n.number < clock)
  }

  /** What an interrupted removal leaves of an entry. */
  predicate Eroded(before: Env, after: Env) {
    && after.id == before.id && (after.shape ==> before.shape)
    && (after.marker.None? || after.marker == before.marker) && (after.stamp.None? || after.stamp == before.stamp)
  }

  /** A complete generation with a valid stamp for this build and these extras, newer than `from`. */
  predicate IsCandidate(d: Disk, gen: Name, build: nat, requested: Extras, from: nat) {
    && gen.Gen? && Valid(d.root, gen) && Matches(d.root[gen].stamp, build, requested)
    && d.root[gen].stamp.value.created >= from
  }

  function PreviousOf(d: Disk, legacy: Name): Option<Name> {
    match d.target case Absent => None case Dir(_) => Some(legacy) case Link(n) => Some(n)
  }

  /** The environment exists at the target or in the generations root. */
  predicate OnDisk(d: Disk, env: Env) {
    (d.target.Dir? && SameEnv(d.target.env, env)) || exists n | n in d.root :: SameEnv(d.root[n], env)
  }

  /** The active environment and the recorded intent both say `requested`, and it is this build's. */
  predicate Installed(d: Disk, requested: Extras, build: nat) {
    && d.intent.Some? && d.intent.value.extras == requested
    && ActiveStamp(d).Some? && ActiveStamp(d).value.rest
    && ActiveStamp(d).value.requested == Listed(requested) && ActiveStamp(d).value.build == build
  }

  /** The generation a rebuild keeps besides the new one. */
  predicate IsPrevious(d0: Disk, d: Disk, previous: Option<Name>) {
    match d0.target
    case Absent => previous.None?
    case Link(n) => previous == Some(n)
    case Dir(env) => previous.Some? && previous.value in d.root && SameEnv(d.root[previous.value], env)
  }

  function CurrentStamp(d: Disk): Option<Stamp> {
    var e := CurrentEnv(d);
    if e.None? then None else e.value.stamp
  }

  /** One run: its environment, what it finds outside the disk, and what goes wrong. */
  datatype Request = Request(
    env: EnvExtras, adopted: Option<Stamp>, force: bool, appExists: bool, build: nat,
    plan: seq<Outcome>, answers: seq<bool>)

  /** The active environment is what is asked for, and healthy. */
  predicate Reusable(d: Disk, req: Request, extras: Extras, healthy: bool) {
    !req.force && !d.target.Absent? && req.appExists && Matches(ActiveStamp(d), req.build, extras) && healthy
  }

  /** Recovery loses neither the environment it activates nor the promise which one that is. */
  lemma RecoveryKeepsCurrent(d: Disk)
    requires Safe(d)
    ensures RecoverySteps(d).Some?
    ensures forall x | x in RecoverySteps(d).value :: CurrentEnv(x) == CurrentEnv(d)
    ensures CurrentEnv(d).Some? ==> OnDisk(d, CurrentEnv(d).value)
    ensures CurrentEnv(d).Some? ==> forall x | x in RecoverySteps(d).value :: OnDisk(x, CurrentEnv(d).value)
  {
    RecoveryConverges(d);
  }

  /** Recovery touches neither the intent nor adds a name, and puts a complete directory at the target. */
  lemma RecoveryAddsNothing(d: Disk)
    requires Safe(d) && (d.target.Dir? ==> d.target.env.shape)
    ensures RecoverySteps(d).Some?
    ensures forall x | x in RecoverySteps(d).value ::
              x.intent == d.intent && x.root.Keys <= d.root.Keys && (x.target.Dir? ==> x.target.env.shape)
  {
    RecoveryConverges(d);
  }

  lemma SettledIsOnTheWay(d: Disk)
    requires RecoverySteps(d).Some?
    ensures Settled(d) == d || Settled(d) in RecoverySteps(d).value
  {
  }

  /** Every disk recovery passes through is as consistent as the one it started from. */
  lemma RecoveryKeepsConsistency(d: Disk, clock: nat)
    requires Consistent(d, clock)
    ensures RecoverySteps(d).Some? && Consistent(Settled(d), clock)
    ensures forall x | x in RecoverySteps(d).value :: Consistent(x, clock)
  {
    hide RecoverySteps, Settled, CurrentEnv, Behind, Safe;
    RecoveryConverges(d);
    RecoveryKeepsCurrent(d);
    RecoveryAddsNothing(d);
    SettledIsOnTheWay(d);
    forall x | x in RecoverySteps(d).value
      ensures Consistent(x, clock)
    {
      assert forall n | n in x.root :: n in d.root.Keys;
    }
  }

  lemma AddingKeepsConsistency(d0: Disk, d: Disk, before: nat, clock: nat)
    requires Consistent(d0, before) && d0.journal.None? && OnlyAdds(d0, d, before, clock) && clock >= before
    ensures Consistent(d, clock) && ActiveEnv(d) == ActiveEnv(d0)
  {
  }

  lemma PromotionKeepsConsistency(d0: Disk, d: Disk, gen: Name, legacy: Name, exit: Exit, before: nat, clock: nat)
    requires Consistent(d0, before) && d0.journal.None? && d0.target != Link(gen) && gen in d0.root
    requires PromotionEnd(d0, d, gen, legacy, exit) && legacy == Legacy(before)
    requires if d0.target.Dir? then clock == before + 1 else clock >= before
    requires d0.root[gen].stamp.Some? && (d0.intent.Some? ==> d0.root[gen].stamp.value.created > d0.intent.value.updated)
    ensures Consistent(d, clock)
    ensures ActiveEnv(d0).Some? ==> OnDisk(d, ActiveEnv(d0).value)
  {
    RecoveryActivatesCurrent(d);
  }

  class Runtime {
    var disk: Disk
    var clock: nat
    var plan: seq<Outcome>      // what the coming file-system calls do; beyond its end they work
    var answers: seq<bool>      // what the coming health checks and subprocesses say
    ghost var crashed: bool     // the process is dead and makes no more calls

    constructor (disk: Disk, clock: nat)
      ensures this.disk == disk && this.clock == clock && !crashed
    {
      this.disk, this.clock, this.plan, this.answers := disk, clock, [], [];
      this.crashed := false;
    }

    /** One file-system call that would turn the disk into `next`. */
    method Act(next: Disk) returns (o: Outcome)
      requires !crashed
      modifies `disk, `plan, `crashed
      ensures crashed == o.Crash? && o == Nth(old(plan), 0)
      ensures Smooth(old(plan)) ==> o.Ok? && Smooth(plan)
      ensures old(AtMostOneFails(plan)) ==> AtMostOneFails(plan) && (!o.Ok? ==> Smooth(plan))
      ensures old(plan) == [] ==> o.Ok? && plan == []
      ensures old(plan) != [] ==> o == old(plan)[0] && plan == old(plan)[1..]
      ensures disk == if o.Ok? then next else old(disk)
    {
      o := Ok;
      if plan != [] {
        o, plan := plan[0], plan[1..];
      }
      if o.Ok? {
        disk := next;
      }
      crashed := o.Crash?;
    }

    method Ask() returns (yes: bool)
      modifies `answers
      ensures yes == old(FirstAnswer(answers)) && (old(AllYes(answers)) ==> yes && AllYes(answers))
      ensures answers == if old(answers) == [] then [] else old(answers)[1..]
    {
      FirstOfAll(answers);
      yes := true;
      if answers != [] {
        yes, answers := answers[0], answers[1..];
      }
    }

    method Tick() returns (now: nat)
      modifies `clock
      ensures now == old(clock) && clock == now + 1
    {
      now := clock;
      clock := clock + 1;
    }

    // ------------------------------------------------------------ recovery

    method PutBack(j: Journal) returns (exit: Exit)
      requires disk.journal == Some(j) && j.prev in disk.root
      requires !crashed
      modifies `disk, `plan, `crashed
      ensures crashed == exit.Crashed?
      ensures disk == old(disk) || (RestoreSteps(old(disk), j).Some? && disk in RestoreSteps(old(disk), j).value)
      ensures exit.Done? ==> RestoreSteps(old(disk), j).Some? && disk == RestoreSteps(old(disk), j).value[|RestoreSteps(old(disk), j).value| - 1]
      ensures Smooth(old(plan)) ==> Smooth(plan) && exit.Done? == RestoreSteps(old(disk), j).Some?
    {
      var o: Outcome;
      if !disk.target.Absent? {
        if disk.target != Link(j.next) {
          return Threw;
        }
        o := Act(disk.(target := Absent));
        if !o.Ok? {
          return ExitOf(o);
        }
      }
      o := Act(Disk(Dir(disk.root[j.prev]), disk.root - {j.prev}, disk.journal, disk.intent));
      if !o.Ok? {
        return ExitOf(o);
      }
      o := Act(disk.(journal := None));
      return ExitOf(o);
    }

    /** `recoverInterruptedPromotion`, on any disk, interrupted anywhere. */
    method Recover() returns (exit: Exit)
      requires !crashed
      modifies `disk, `plan, `crashed
      ensures crashed == exit.Crashed?
      ensures disk == old(disk) || (RecoverySteps(old(disk)).Some? && disk in RecoverySteps(old(disk)).value)
      ensures exit.Done? ==> RecoverySteps(old(disk)).Some? && disk == Settled(old(disk))
      ensures Smooth(old(plan)) ==> Smooth(plan) && exit.Done? == RecoverySteps(old(disk)).Some?
      ensures exit.Threw? && RecoverySteps(old(disk)).None? ==> disk == old(disk)
    {
      if disk.journal.None? {
        return Done;
      }
      var j := disk.journal.value;
      if !j.prev.Legacy? || !j.next.Gen? {
        return Threw;
      }
      var o: Outcome;
      if j.committed && j.next in disk.root {
        if !Valid(disk.root, j.next) {
          return Threw;
        }
        if disk.target.Absent? {
          o := Act(disk.(target := Link(j.next)));
          if !o.Ok? {
            return ExitOf(o);
          }
        } else if disk.target != Link(j.next) {
          return Threw;
        }
        o := Act(disk.(journal := None));
        return ExitOf(o);
      }
      if !j.committed && disk.target.Dir? && j.prev !in disk.root {
        o := Act(disk.(journal := None));
        return ExitOf(o);
      }
      if !Valid(disk.root, j.prev) {
        return Threw;
      }
      exit := PutBack(j);
    }

    /** Any number of recoveries, each interrupted anywhere, then one that is not. */
    method RecoverRepeatedly(interrupted: seq<seq<Outcome>>)
      requires Safe(disk)
      modifies `disk, `plan, `crashed
      ensures disk == Settled(old(disk)) && disk.journal.None?
    {
      RecoveryConverges(disk);
      for i := 0 to |interrupted|
        invariant Safe(disk) && Settled(disk) == Settled(old(disk))
      {
        RecoveryConverges(disk);
        plan := interrupted[i];
        crashed := false;
        var exit := Recover();
      }
      RecoveryConverges(disk);
      plan := [];
      crashed := false;
      var exit := Recover();
    }

    // ------------------------------------------------------------ promotion

    /** `replaceWithLink`: a temporary link renamed over the target. */
    method ReplaceWithLink(gen: Name) returns (o: Outcome)
      requires !crashed
      modifies `disk, `plan, `crashed
      ensures crashed == o.Crash?
      ensures disk == if o.Ok? then old(disk).(target := Link(gen)) else old(disk)
      ensures o == if !Nth(old(plan), 0).Ok? then Nth(old(plan), 0)
                   else if Nth(old(plan), 1).Fault? && Nth(old(plan), 2).Crash? then Crash
                   else Nth(old(plan), 1)
      ensures old(AtMostOneFails(plan)) ==> AtMostOneFails(plan) && (!o.Ok? ==> Smooth(plan))
      ensures Smooth(old(plan)) ==> Smooth(plan) && o.Ok?
    {
      o := Act(disk);
      if !o.Ok? {
        return;
      }
      o := Act(disk.(target := Link(gen)));
      if o.Fault? {
        var cleaned := Act(disk);
        o := if cleaned.Crash? then Crash else Fault;
      }
    }

    /** Unlink the target if it is our link, then move the direct environment back. */
    method RestoreDirect(gen: Name, legacy: Name) returns (o: Outcome)
      requires disk.target == Link(gen) || disk.target.Absent?
      requires legacy in disk.root
      requires !crashed
      modifies `disk, `plan, `crashed
      ensures crashed == o.Crash?
      ensures o.Ok? ==> disk == old(disk).(target := Dir(old(disk).root[legacy]), root := old(disk).root - {legacy})
      ensures !o.Ok? ==> disk == old(disk) || disk == old(disk).(target := Absent)
      ensures !o.Ok? ==> disk.target == if Nth(old(plan), 0).Ok? then Absent else old(disk).target
      ensures Smooth(old(plan)) ==> Smooth(plan) && o.Ok?
    {
      if disk.target == Link(gen) {
        o := Act(disk.(target := Absent));
        if !o.Ok? {
          return;
        }
      }
      o := Act(Disk(Dir(disk.root[legacy]), disk.root - {legacy}, disk.journal, disk.intent));
    }

    /** The validation callback: the active stamp is the expected one and the environment is healthy. */
    method ValidateActive(build: nat, requested: Extras) returns (ok: bool)
      modifies `answers
      ensures ok == (Matches(ActiveStamp(disk), build, requested) && old(FirstAnswer(answers)))
      ensures old(AllYes(answers)) ==> AllYes(answers)
    {
      var stamp := ActiveStamp(disk);
      ok := Matches(stamp, build, requested);
      if ok {
        ok := Ask();
      }
    }

    /** Journal the move, move the direct environment aside and link the target; undo on an error. */
    method MoveAside(gen: Name, legacy: Name) returns (o: Outcome)
      requires Safe(disk) && disk.journal.None? && gen.Gen? && Valid(disk.root, gen)
      requires disk.target.Dir? && disk.target.env.shape && legacy.Legacy? && legacy !in disk.root
      requires !crashed
      modifies `disk, `plan, `crashed
      ensures crashed == o.Crash?
      ensures o.Ok? ==> disk == Linked(old(disk), gen, legacy, false)
      ensures !o.Ok? ==> Undone(old(disk), disk, gen, legacy)
      ensures old(AtMostOneFails(plan)) ==> AtMostOneFails(plan) && (!o.Ok? ==> Smooth(plan))
      ensures old(AtMostOneFails(plan)) && o.Fault? ==> disk == old(disk) || disk == Remarked(old(disk), legacy)
      ensures Smooth(old(plan)) ==> Smooth(plan) && o.Ok?
    {
      ghost var d0 := disk;
      var env := disk.target.env.(marker := Some(legacy));
      o := Act(disk.(target := Dir(env)));
      if !o.Ok? {
        return;
      }
      o := Act(disk.(journal := Some(Journal(false, legacy, gen))));
      if !o.Ok? {
        return;
      }
      o := Act(Disk(Absent, disk.root[legacy := env], disk.journal, disk.intent));
      if o.Ok? {
        o := ReplaceWithLink(gen);
      }
      if o.Fault? {
        o := UndoMove(gen, legacy, d0);
      }
    }

    /** The move or the link failed: put the direct environment back if it was moved, and forget the journal. */
    method UndoMove(gen: Name, legacy: Name, ghost d0: Disk) returns (o: Outcome)
      requires Safe(d0) && d0.journal.None? && gen.Gen? && Valid(d0.root, gen)
      requires d0.target.Dir? && d0.target.env.shape && legacy.Legacy? && legacy !in d0.root
      requires disk == Remarked(d0, legacy).(journal := Some(Journal(false, legacy, gen)))
               || disk == Linked(d0, gen, legacy, false).(target := Absent)
      requires !crashed
      modifies `disk, `plan, `crashed
      ensures crashed == o.Crash? && !o.Ok?
      ensures Undone(d0, disk, gen, legacy)
      ensures Smooth(old(plan)) ==> Smooth(plan) && o.Fault? && disk == Remarked(d0, legacy)
    {
      assert d0.root[legacy := d0.target.env.(marker := Some(legacy))] - {legacy} == d0.root;
      if disk.target.Absent? {
        o := RestoreDirect(gen, legacy);
        if !o.Ok? {
          return;
        }
      }
      o := Act(disk.(journal := None));
      o := if o.Crash? then Crash else Fault;
    }

    /** Make the linked promotion durable; undo when the journal cannot be committed. */
    method Commit(gen: Name, legacy: Name, ghost d0: Disk) returns (o: Outcome)
      requires Safe(d0) && d0.journal.None? && gen.Gen? && Valid(d0.root, gen)
      requires d0.target.Dir? && d0.target.env.shape && legacy.Legacy? && legacy !in d0.root
      requires disk == Linked(d0, gen, legacy, false)
      requires !crashed
      modifies `disk, `plan, `crashed
      ensures crashed == o.Crash?
      ensures o.Ok? ==> disk == Promoted(d0, gen, legacy) || disk == Linked(d0, gen, legacy, true)
      ensures o.Crash? ==> Undone(d0, disk, gen, legacy) || disk == Linked(d0, gen, legacy, true)
      ensures o.Fault? ==> Undone(d0, disk, gen, legacy)
      ensures old(AtMostOneFails(plan)) && o.Fault? ==> disk == Remarked(d0, legacy).(journal := Some(Journal(false, legacy, gen)))
      ensures Smooth(old(plan)) ==> Smooth(plan) && o.Ok? && disk == Promoted(d0, gen, legacy)
    {
      assert disk.root - {legacy} == d0.root;
      o := Act(disk.(journal := Some(Journal(true, legacy, gen))));
      if o.Fault? {
        o := RestoreDirect(gen, legacy);
        o := if o.Crash? then Crash else Fault;
        return;
      }
      if o.Crash? {
        return;
      }
      o := Act(disk.(journal := None));
      o := if o.Crash? then Crash else Ok;
    }

    /** The callback rejected the promoted environment: put the previous target back. */
    method Rollback(gen: Name, legacy: Name, previous: Node, ghost d0: Disk) returns (o: Outcome)
      requires Safe(d0) && d0.journal.None? && gen.Gen? && Valid(d0.root, gen) && d0.target == previous
      requires previous.Dir? ==> previous.env.shape && legacy.Legacy? && legacy !in d0.root
      requires disk == if previous.Dir? then Linked(d0, gen, legacy, false) else Promoted(d0, gen, legacy)
      requires !crashed
      modifies `disk, `plan, `crashed
      ensures crashed == o.Crash?
      ensures o.Ok? ==> disk == Remarked(d0, legacy)
      ensures previous.Dir? ==> Undone(d0, disk, gen, legacy)
      ensures !previous.Dir? ==> disk == old(disk) || disk == d0
      ensures Smooth(old(plan)) ==> Smooth(plan) && o.Ok?
    {
      match previous
      case Link(active) =>
        o := ReplaceWithLink(active);
      case Dir(_) =>
        assert disk.root - {legacy} == d0.root;
        o := RestoreDirect(gen, legacy);
        if o.Ok? {
          o := Act(disk.(journal := None));
        }
      case Absent =>
        o := Act(disk.(target := Absent));
    }

    /**
     * `promoteGeneration`. However it ends, the disk settles on the promoted disk or on the disk it
     * started from (up to the direct environment's rewritten marker); for a direct environment it
     * settles on the promoted disk exactly when a committed link is in place, which an exception
     * never leaves behind. Without I/O errors it succeeds exactly if the promoted environment is the
     * expected one and healthy, and otherwise what was active is active again; in any case a rejected
     * generation stays active only if undoing it (`undo`) has failed, and if a single call fails and
     * that is not the undoing, what was active is active again at once.
     */
    method Promote(gen: Name, build: nat, requested: Extras)
      returns (exit: Exit, previous: Option<Name>, ghost undo: Option<Outcome>)
      requires Safe(disk) && disk.journal.None? && gen.Gen? && Valid(disk.root, gen) && disk.target != Link(gen)
      requires disk.target.Dir? ==> disk.target.env.shape
      requires Legacy(clock) !in disk.root
      requires !crashed
      modifies `disk, `plan, `crashed, `clock, `answers
      ensures crashed == exit.Crashed?
      ensures clock >= old(clock)
      ensures PromotionEnd(old(disk), disk, gen, Legacy(old(clock)), exit)
      ensures exit.Done? ==> previous == PreviousOf(old(disk), Legacy(old(clock)))
      ensures Smooth(old(plan)) ==> Smooth(plan) && disk.journal.None? && !exit.Crashed?
      ensures Smooth(old(plan)) ==>
        (exit.Done? <==> Matches(old(disk).root[gen].stamp, build, requested) && old(FirstAnswer(answers)))
      ensures Smooth(old(plan)) && exit.Threw? ==> Unchanged(old(disk), disk)
      ensures exit.Threw? && !old(disk).target.Dir? && disk.target == Link(gen) ==> undo.Some? && !undo.value.Ok?
      ensures old(AtMostOneFails(plan)) && exit.Threw? && (undo.Some? ==> undo.value.Ok?) ==>
        Unchanged(old(disk), disk.(journal := None))
      ensures old(AllYes(answers)) ==> AllYes(answers)
      ensures old(disk).target.Dir? ==> clock == old(clock) + 1
    {
      undo := None;
      var o: Outcome;
      var start := disk.target;
      ghost var d0 := disk;
      previous := if start.Link? then Some(start.dest) else None;
      var legacy := Legacy(clock);
      if start.Dir? {
        var now := Tick();
        o := MoveAside(gen, legacy);
        previous := Some(legacy);
      } else {
        o := ReplaceWithLink(gen);
      }
      if !o.Ok? {
        return ExitOf(o), None, None;
      }
      var healthy := ValidateActive(build, requested);
      if !healthy {
        o := Rollback(gen, legacy, start, d0);
        return if o.Crash? then Crashed else Threw, None, Some(o);
      }
      if start.Dir? {
        o := Commit(gen, legacy, d0);
        if !o.Ok? {
          return ExitOf(o), None, None;
        }
      }
      return Done, previous, None;
    }

    /**
     * A promotion cut off anywhere, recoveries cut off anywhere, then one whole recovery: the
     * promoted disk if the commit was durable, the original direct environment if it was not, the
     * original kept throughout at exactly one place, no journal left, and nothing more to recover.
     */
    method PromoteThenRecover(gen: Name, build: nat, requested: Extras, interrupted: seq<seq<Outcome>>)
      returns (durable: bool)
      requires Safe(disk) && disk.journal.None? && gen.Gen? && Valid(disk.root, gen)
      requires disk.target.Dir? && disk.target.env.shape && Legacy(clock) !in disk.root && !crashed
      modifies this
      ensures var d := old(disk); var l := Legacy(old(clock));
        && (if durable then disk == Promoted(d, gen, l) else disk == d || disk == Remarked(d, l))
        && OriginalKept(disk, d.target.env, l)
        && RecoverySteps(disk) == Some([])
    {
      ghost var d0, l := disk, Legacy(clock);
      var exit, _, _ := Promote(gen, build, requested);
      durable := CommittedLink(disk, gen);
      RecoverRepeatedly(interrupted);
    }

    // ------------------------------------------------------------ building and cleaning

    /**
     * Recursive removal, cut off anywhere: the entry keeps its name to the end, and any of the files that
     * make it complete, marked or stamped may be gone before that.
     */
    method RemoveTree(n: Name) returns (o: Outcome)
      requires n in disk.root
      requires !crashed
      modifies `disk, `plan, `crashed, `answers
      ensures crashed == o.Crash?
      ensures o.Ok? ==> disk == old(disk).(root := old(disk).root - {n})
      ensures !o.Ok? ==> n in disk.root && Eroded(old(disk).root[n], disk.root[n])
      ensures !o.Ok? ==> disk == old(disk).(root := old(disk).root[n := disk.root[n]])
      ensures Smooth(old(plan)) ==> Smooth(plan) && o.Ok?
      ensures old(AllYes(answers)) ==> AllYes(answers)
    {
      var env := disk.root[n];
      assert disk == disk.(root := disk.root[n := env]);
      var shape := Ask();
      var marker := Ask();
      var stamp := Ask();
      var rest := Env(env.id, env.shape && shape, if marker then env.marker else None, if stamp then env.stamp else None);
      o := Act(disk.(root := disk.root[n := rest]));
      if !o.Ok? {
        return;
      }
      o := Act(disk.(root := disk.root - {n}));
      assert old(disk).root[n := rest] - {n} == old(disk).root - {n};
    }

    /** Everything that is installed into a new entry, before its metadata. */
    method Fill(gen: Name, id: nat) returns (o: Outcome, created: bool, healthy: bool)
      requires gen in disk.root
      requires !crashed
      modifies `disk, `plan, `crashed, `answers
      ensures crashed == o.Crash?
      ensures gen in disk.root && disk == old(disk).(root := old(disk).root[gen := disk.root[gen]])
      ensures healthy ==> o.Ok? && created && disk.root[gen] == Env(id, true, None, None)
      ensures Smooth(old(plan)) ==> Smooth(plan) && o.Ok?
      ensures old(AllYes(answers)) ==> AllYes(answers) && (Smooth(old(plan)) ==> healthy)
      ensures old(FirstPackagesFail(answers)) ==> created && !healthy && AllYes(answers)
    {
      o, healthy := Ok, false;
      assert disk == disk.(root := disk.root[gen := disk.root[gen]]);
      created := Ask();
      if !created {
        return;
      }
      var installed := Ask();
      if !installed {
        return;
      }
      o := Act(disk.(root := disk.root[gen := Env(id, true, None, None)]));
      if o.Ok? {
        healthy := Ask();
      }
    }

    /** `writeGenerationMetadata`: the marker, then the stamp. */
    method WriteMetadata(gen: Name, id: nat, stamp: Stamp) returns (o: Outcome)
      requires gen in disk.root && disk.root[gen] == Env(id, true, None, None)
      requires !crashed
      modifies `disk, `plan, `crashed
      ensures crashed == o.Crash?
      ensures gen in disk.root && disk == old(disk).(root := old(disk).root[gen := disk.root[gen]])
      ensures o.Ok? ==> disk.root[gen] == Env(id, true, Some(gen), Some(stamp))
      ensures Smooth(old(plan)) ==> Smooth(plan) && o.Ok?
    {
      assert disk == disk.(root := disk.root[gen := disk.root[gen]]);
      o := Act(disk.(root := disk.root[gen := Env(id, true, Some(gen), None)]));
      if o.Ok? {
        o := Act(disk.(root := disk.root[gen := Env(id, true, Some(gen), Some(stamp))]));
      }
      assert disk.root == old(disk).root[gen := disk.root[gen]];
    }

    /** Fill the new entry and, if it is healthy, mark and stamp it. */
    method Furnish(gen: Name, id: nat, requested: Extras, build: nat)
      returns (o: Outcome, created: bool, healthy: bool, kept: bool)
      requires gen in disk.root
      requires !crashed
      modifies `disk, `plan, `crashed, `clock, `answers
      ensures crashed == o.Crash?
      ensures gen in disk.root && disk == old(disk).(root := old(disk).root[gen := disk.root[gen]]) && clock >= old(clock)
      ensures kept ==> disk.root[gen] == Env(id, true, Some(gen), Some(Stamp(true, Listed(requested), build, old(clock))))
      ensures kept ==> o.Ok? && clock > old(clock)
      ensures Smooth(old(plan)) ==> Smooth(plan) && o.Ok? && kept == healthy
      ensures old(AllYes(answers)) ==> AllYes(answers) && (Smooth(old(plan)) ==> kept)
      ensures old(FirstPackagesFail(answers)) ==> created && !healthy && !kept && AllYes(answers)
    {
      kept := false;
      o, created, healthy := Fill(gen, id);
      if healthy {
        var time := Tick();
        o := WriteMetadata(gen, id, Stamp(true, Listed(requested), build, time));
        kept := o.Ok?;
        assert disk.root == old(disk).root[gen := disk.root[gen]];
      }
    }

    /** A candidate that is not kept is removed, whatever the reason `exit`. */
    method RemoveCandidate(gen: Name, reason: Exit) returns (exit: Exit)
      requires gen in disk.root && !reason.Crashed?
      requires !crashed
      modifies `disk, `plan, `crashed, `answers
      ensures crashed == exit.Crashed?
      ensures disk == old(disk).(root := disk.root)
      ensures forall n | n != gen :: (n in disk.root <==> n in old(disk).root) && (n in disk.root ==> disk.root[n] == old(disk).root[n])
      ensures exit.Done? ==> reason.Done? && gen !in disk.root
      ensures Smooth(old(plan)) ==> Smooth(plan) && exit == reason && disk == Without(old(disk), gen)
      ensures old(AllYes(answers)) ==> AllYes(answers)
    {
      var o := RemoveTree(gen);
      exit := if o.Ok? then reason else ExitOf(o);
    }

    /** One candidate: create it, fill it, stamp it; remove it again unless it is kept. */
    method BuildOne(requested: Extras, selected: Extras, build: nat) returns (exit: Exit, built: Option<Name>)
      requires forall n | n in disk.root :: n.number < clock
      requires ValidExtras(requested)
      requires !crashed
      modifies `disk, `plan, `crashed, `clock, `answers
      ensures crashed == exit.Crashed?
      ensures clock > old(clock)
      ensures OnlyAdds(old(disk), disk, old(clock), clock)
      ensures built.Some? ==>
        exit.Done? && IsCandidate(disk, built.value, build, requested, old(clock)) && built.value !in old(disk).root
      ensures !exit.Done? ==> built.None?
      ensures built.None? && exit.Done? ==> Mediapipe in selected && Mediapipe !in requested
      ensures Smooth(old(plan)) ==> Smooth(plan) && !exit.Crashed?
      ensures Smooth(old(plan)) ==> (if built.Some? then Without(disk, built.value) else disk) == old(disk)
      ensures Smooth(old(plan)) && old(FirstPackagesFail(answers)) ==>
        built.None? && AllYes(answers) && (exit.Done? <==> Mediapipe in selected && Mediapipe !in requested)
      ensures old(AllYes(answers)) ==> AllYes(answers) && (Smooth(old(plan)) ==> built.Some?)
    {
      var now := Tick();
      var gen := Gen(now);
      built := None;
      var o := Act(disk.(root := disk.root[gen := Env(now, false, None, None)]));
      if !o.Ok? {
        return ExitOf(o), None;
      }
      var created, healthy, kept: bool;
      o, created, healthy, kept := Furnish(gen, now, requested, build);
      if kept {
        return Done, Some(gen);
      }
      if o.Crash? {
        return Crashed, None;
      }
      var optional := Mediapipe in selected && Mediapipe !in requested;
      exit := RemoveCandidate(gen, if created && optional && !healthy then Done else Threw);
    }

    /** `buildGeneration`: the implicit MediaPipe set first, then exactly what was asked for. */
    method Build(requested: Extras, build: nat) returns (exit: Exit, built: Option<Name>)
      requires !crashed
      modifies `disk, `plan, `crashed, `clock, `answers
      ensures crashed == exit.Crashed?
      requires forall n | n in disk.root :: n.number < clock
      requires ValidExtras(requested)
      ensures clock > old(clock)
      ensures OnlyAdds(old(disk), disk, old(clock), clock)
      ensures exit.Done? <==> built.Some?
      ensures built.Some? ==> IsCandidate(disk, built.value, build, requested, old(clock)) && built.value !in old(disk).root
      ensures Smooth(old(plan)) ==> Smooth(plan) && !exit.Crashed?
      ensures Smooth(old(plan)) ==> (if built.Some? then Without(disk, built.value) else disk) == old(disk)
      ensures Smooth(old(plan)) && old(FirstPackagesFail(answers)) ==>
        (built.Some? <==> Mediapipe !in requested && Audio2face !in requested)
      ensures old(AllYes(answers)) ==> AllYes(answers) && (Smooth(old(plan)) ==> built.Some?)
    {
      var optional := Mediapipe !in requested && Audio2face !in requested;
      if optional {
        exit, built := BuildOne(requested, requested + {Mediapipe}, build);
        if !exit.Done? || built.Some? {
          return;
        }
      }
      exit, built := BuildOne(requested, requested, build);
    }

    /** `cleanupGenerations` with nothing retained beyond `keep`. */
    method Cleanup(keep: set<Name>) returns (exit: Exit)
      requires Safe(disk) && forall n | Named(disk, n) :: n in keep
      requires !crashed
      modifies `disk, `plan, `crashed, `answers
      ensures crashed == exit.Crashed?
      ensures Safe(disk) && disk == old(disk).(root := disk.root)
      ensures forall n | n in disk.root :: n in old(disk).root
      ensures forall n | n in old(disk).root && (n in keep || !Valid(old(disk).root, n)) :: n in disk.root && disk.root[n] == old(disk).root[n]
      ensures exit.Done? ==> forall n | Valid(disk.root, n) :: n in keep
      ensures Smooth(old(plan)) ==> Smooth(plan) && exit.Done?
    {
      var candidates := set n | n in disk.root && n !in keep && Valid(disk.root, n);
      while candidates != {}
        invariant Safe(disk) && disk == old(disk).(root := disk.root)
        invariant forall n | n in disk.root :: n in old(disk).root
        invariant forall n | n in old(disk).root && (n in keep || !Valid(old(disk).root, n)) :: n in disk.root && disk.root[n] == old(disk).root[n]
        invariant candidates == set n | n in disk.root && n !in keep && Valid(disk.root, n)
        invariant Smooth(old(plan)) ==> Smooth(plan)
        invariant !crashed
        decreases candidates
      {
        var n :| n in candidates;
        ghost var before := disk.root;
        var o := RemoveTree(n);
        if !o.Ok? {
          return ExitOf(o);
        }
        candidates := candidates - {n};
      }
      forall n | Valid(disk.root, n) ensures n in keep {
        assert n !in candidates;
      }
      return Done;
    }

    // ------------------------------------------------------------ one run of the installer

    /** `writeInstallIntent`. */
    method WriteIntent(extras: Extras) returns (o: Outcome)
      requires !crashed
      modifies `disk, `plan, `crashed, `clock
      ensures crashed == o.Crash?
      ensures clock >= old(clock) && (o.Ok? ==> clock > old(clock) && ValidExtras(extras))
      ensures disk == if o.Ok? then old(disk).(intent := Some(Intent(extras, old(clock)))) else old(disk)
      ensures Smooth(old(plan)) ==> Smooth(plan) && (o.Ok? <==> ValidExtras(extras))
    {
      if !ValidExtras(extras) {
        return Fault;
      }
      var now := Tick();
      o := Act(disk.(intent := Some(Intent(extras, now))));
    }

    /** The reuse branch: the healthy active environment is what is asked for; repair the intent. */
    method Reuse(requested: Extras) returns (exit: Exit)
      requires Consistent(disk, clock) && disk.journal.None?
      requires ActiveStamp(disk).Some? && ValidStamp(ActiveStamp(disk).value) && ActiveStamp(disk).value.requested == Listed(requested)
      requires !crashed
      modifies `disk, `plan, `crashed, `clock
      ensures crashed == exit.Crashed?
      ensures Consistent(disk, clock) && clock >= old(clock)
      ensures disk == old(disk) || disk == old(disk).(intent := disk.intent)
      ensures exit.Done? ==> disk.intent.Some? && disk.intent.value.extras == requested
      ensures Smooth(old(plan)) ==> exit.Done?
    {
      exit := Done;
      if disk.intent.None? || disk.intent.value.extras != requested {
        var o := WriteIntent(requested);
        exit := ExitOf(o);
      }
    }

    /** A candidate that was not promoted is removed unless the target or the journal names it. */
    method Discard(gen: Name) returns (exit: Exit)
      requires Consistent(disk, clock) && gen.Gen?
      requires !crashed
      modifies `disk, `plan, `crashed, `answers
      ensures crashed == exit.Crashed?
      ensures Consistent(disk, clock) && disk == old(disk).(root := disk.root)
      ensures forall n | n in old(disk).root && n != gen :: n in disk.root && disk.root[n] == old(disk).root[n]
      ensures !exit.Done?
      ensures Smooth(old(plan)) ==>
        exit.Threw? && disk == if Referenced(old(disk), gen) then old(disk) else old(disk).(root := old(disk).root - {gen})
    {
      exit := Threw;
      if gen in disk.root && !Referenced(disk, gen) {
        var o := RemoveTree(gen);
        exit := if o.Crash? then Crashed else Threw;
      }
    }

    /** After a promotion: record the intent, then remove every other complete generation. */
    method Conclude(gen: Name, previous: Option<Name>, build: nat, requested: Extras) returns (exit: Exit)
      requires Consistent(disk, clock) && disk.target == Link(gen)
      requires Matches(disk.root[gen].stamp, build, requested)
      requires disk.journal.Some? ==> disk.journal.value.committed && disk.journal.value.next == gen && previous == Some(disk.journal.value.prev)
      requires !crashed
      modifies `disk, `plan, `crashed, `clock, `answers
      ensures crashed == exit.Crashed?
      ensures Consistent(disk, clock) && clock >= old(clock)
      ensures disk.target == Link(gen) && disk.root[gen] == old(disk).root[gen] && disk.journal == old(disk).journal
      ensures previous.Some? && previous.value in old(disk).root ==>
        previous.value in disk.root && disk.root[previous.value] == old(disk).root[previous.value]
      ensures exit.Done? ==> disk.intent.Some? && disk.intent.value.extras == requested
      ensures exit.Done? && Smooth(old(plan)) ==> forall n | Valid(disk.root, n) :: n == gen || previous == Some(n)
      ensures Smooth(old(plan)) ==> exit.Done?
    {
      var o := WriteIntent(requested);
      if !o.Ok? {
        return ExitOf(o);
      }
      var keep := if previous.Some? then {gen, previous.value} else {gen};
      var cleaned := Cleanup(keep);
      exit := if cleaned.Crashed? then Crashed else Done;
    }

    /**
     * The rebuild branch from the built candidate on: promote, record the intent, clean up. The
     * environment that was active is still on disk however it ends; without I/O errors exactly the
     * new and the previous generation are left among the complete ones, or, if the new one is not
     * healthy, everything but the removed candidate is as it was.
     */
    method Publish(gen: Name, build: nat, requested: Extras) returns (exit: Exit, previous: Option<Name>)
      requires Consistent(disk, clock) && disk.journal.None? && !Referenced(disk, gen)
      requires IsCandidate(disk, gen, build, requested, if disk.intent.Some? then disk.intent.value.updated + 1 else 0)
      requires !crashed
      modifies `disk, `plan, `crashed, `clock, `answers
      ensures crashed == exit.Crashed?
      ensures Consistent(disk, clock) && clock >= old(clock)
      ensures ActiveEnv(old(disk)).Some? ==> OnDisk(disk, ActiveEnv(old(disk)).value)
      ensures exit.Done? ==> Installed(disk, requested, build) && disk.target == Link(gen)
      ensures exit.Done? ==> IsPrevious(old(disk), disk, previous)
      ensures exit.Done? && Smooth(old(plan)) ==>
        disk.journal.None? && forall n :: Valid(disk.root, n) <==> n == gen || previous == Some(n)
      ensures Smooth(old(plan)) ==> !exit.Crashed? && (exit.Done? <==> old(FirstAnswer(answers)))
      ensures Smooth(old(plan)) && exit.Threw? ==> Unchanged(Without(old(disk), gen), disk)
    {
      hide RecoverySteps, Settled;
      ghost var d0, l := disk, Legacy(clock);
      ghost var undo: Option<Outcome>;
      exit, previous, undo := Promote(gen, build, requested);
      PromotionKeepsConsistency(d0, disk, gen, l, exit, old(clock), clock);
      if exit.Threw? {
        exit := Discard(gen);
      } else if exit.Done? {
        exit := Conclude(gen, previous, build, requested);
      }
    }

    /** Build a candidate for `requested` and publish it. */
    method Rebuild(requested: Extras, build: nat) returns (exit: Exit, built: Option<Name>, previous: Option<Name>)
      requires Consistent(disk, clock) && disk.journal.None? && ValidExtras(requested)
      requires !crashed
      modifies `disk, `plan, `crashed, `clock, `answers
      ensures crashed == exit.Crashed?
      ensures Consistent(disk, clock)
      ensures ActiveEnv(old(disk)).Some? ==> OnDisk(disk, ActiveEnv(old(disk)).value)
      ensures exit.Done? ==> built.Some? && Installed(disk, requested, build) && disk.target == Link(built.value)
      ensures exit.Done? ==> IsPrevious(old(disk), disk, previous)
      ensures exit.Done? && Smooth(old(plan)) ==>
        disk.journal.None? && forall n :: Valid(disk.root, n) <==> n == built.value || previous == Some(n)
      ensures Smooth(old(plan)) ==> !exit.Crashed? && (exit.Threw? ==> Unchanged(old(disk), disk))
      ensures Smooth(old(plan)) && old(AllYes(answers)) ==> exit.Done?
    {
      previous := None;
      ghost var d0 := disk;
      exit, built := Build(requested, build);
      AddingKeepsConsistency(d0, disk, old(clock), clock);
      FirstOfAll(answers);
      if exit.Done? {
        exit, previous := Publish(built.value, build, requested);
      }
    }

    /** Reuse the active environment if it is what is asked for and healthy, else rebuild. */
    method Provide(req: Request, requested: Extras) returns (exit: Exit, built: Option<Name>, previous: Option<Name>)
      requires Consistent(disk, clock) && disk.journal.None? && ValidExtras(requested)
      requires !crashed
      modifies `disk, `plan, `crashed, `clock, `answers
      ensures crashed == exit.Crashed?
      ensures Consistent(disk, clock)
      ensures ActiveEnv(old(disk)).Some? ==> OnDisk(disk, ActiveEnv(old(disk)).value)
      ensures exit.Done? ==> Installed(disk, requested, req.build)
      ensures exit.Done? && built.Some? ==> disk.target == Link(built.value) && IsPrevious(old(disk), disk, previous)
      ensures exit.Done? && built.Some? && Smooth(old(plan)) ==>
        disk.journal.None? && forall n :: Valid(disk.root, n) <==> n == built.value || previous == Some(n)
      ensures exit.Done? ==> (built.None? <==> Reusable(old(disk), req, requested, old(FirstAnswer(answers))))
      ensures exit.Done? && built.None? ==> disk == old(disk).(intent := disk.intent)
      ensures Smooth(old(plan)) ==> !exit.Crashed? && (exit.Threw? ==> Unchanged(old(disk), disk))
      ensures Smooth(old(plan)) && old(AllYes(answers)) ==> exit.Done?
    {
      hide Consistent, OnDisk;
      built, previous := None, None;
      var stamp := ActiveStamp(disk);
      var reuse := !req.force && !disk.target.Absent? && req.appExists && Matches(stamp, req.build, requested);
      if reuse {
        reuse := Ask();
      }
      if reuse {
        ActiveStays(disk);
        exit := Reuse(requested);
      } else {
        exit, built, previous := Rebuild(requested, req.build);
      }
    }

    lemma ActiveStays(d: Disk)
      ensures ActiveEnv(d).Some? ==> forall intent :: OnDisk(d.(intent := intent), ActiveEnv(d).value)
    {
    }

    /** The locked body once recovery is done: inspect, resolve, then reuse or rebuild. */
    method InstallRecovered(req: Request) returns (exit: Exit, resolved: Option<Extras>, built: Option<Name>, previous: Option<Name>)
      requires Consistent(disk, clock) && disk.journal.None?
      requires !crashed
      modifies `disk, `plan, `crashed, `clock, `answers
      ensures crashed == exit.Crashed?
      ensures Consistent(disk, clock)
      ensures ActiveEnv(old(disk)).Some? ==> OnDisk(disk, ActiveEnv(old(disk)).value)
      ensures AskedFor(req.env, old(disk).intent, ActiveStamp(old(disk)), req.adopted, resolved)
      ensures resolved.None? ==> exit.Threw? && disk == old(disk)
      ensures req.env.Unset? && ActiveStamp(old(disk)).Some? && ValidStamp(ActiveStamp(old(disk)).value) ==>
        resolved == Some(ActiveStamp(old(disk)).value.requested.extras)
      ensures exit.Done? ==> resolved.Some? && Installed(disk, resolved.value, req.build)
      ensures exit.Done? && built.Some? ==> disk.target == Link(built.value) && IsPrevious(old(disk), disk, previous)
      ensures exit.Done? && built.Some? && Smooth(old(plan)) ==>
        disk.journal.None? && forall n :: Valid(disk.root, n) <==> n == built.value || previous == Some(n)
      ensures exit.Done? ==> (built.None? <==> Reusable(old(disk), req, resolved.value, old(FirstAnswer(answers))))
      ensures exit.Done? && built.None? ==> disk == old(disk).(intent := disk.intent)
      ensures Smooth(old(plan)) ==> !exit.Crashed? && (exit.Threw? ==> Unchanged(old(disk), disk))
      ensures Smooth(old(plan)) && old(AllYes(answers)) && resolved.Some? ==> exit.Done?
    {
      hide OnDisk, AskedFor, Reusable, Unchanged, Installed, IsPrevious;
      built, previous := None, None;
      ActiveStays(disk);
      assert disk.(intent := disk.intent) == disk;
      var stamp := ActiveStamp(disk);
      var adopted := if req.env.Unset? && disk.intent.None? && stamp.None? then req.adopted else None;
      resolved := Resolve(req.env, disk.intent, if stamp.Some? then stamp else adopted);
      ResolvesAsAsked(req.env, disk.intent, stamp, req.adopted);
      NothingChanges(disk);
      if resolved.None? {
        exit := Threw;
        return;
      }
      exit, built, previous := Provide(req, resolved.value);
    }

    lemma NothingChanges(d: Disk)
      ensures Unchanged(d, d)
    {
    }

    /**
     * The locked body of the installer, for any request, any file-system behaviour and any crash.
     * It keeps every consistency property, so no generation named by the target link or the journal
     * is ever missing, and the environment that was active survives. It installs what is asked for
     * (`AskedFor`), builds exactly when that is not there yet, and refuses without touching the recovered
     * disk. Without I/O errors it succeeds if everything it starts works, and otherwise throws with
     * the recovered disk as it was.
     */
    method Install(req: Request) returns (exit: Exit, resolved: Option<Extras>, built: Option<Name>, previous: Option<Name>)
      requires Consistent(disk, clock)
      modifies this
      ensures Consistent(disk, clock)
      ensures CurrentEnv(old(disk)).Some? ==> OnDisk(disk, CurrentEnv(old(disk)).value)
      ensures req.env.Unset? && CurrentStamp(old(disk)).Some? && ValidStamp(CurrentStamp(old(disk)).value) ==>
        && (resolved.Some? ==> resolved.value == CurrentStamp(old(disk)).value.requested.extras)
        && (Smooth(req.plan) ==> resolved.Some?)
      ensures exit.Done? ==> resolved.Some? && Installed(disk, resolved.value, req.build)
      ensures exit.Done? && built.Some? ==> disk.target == Link(built.value) && IsPrevious(Settled(old(disk)), disk, previous)
      ensures exit.Done? && built.Some? && Smooth(req.plan) ==>
        disk.journal.None? && forall n :: Valid(disk.root, n) <==> n == built.value || previous == Some(n)
      ensures exit.Done? && built.None? ==> disk == Settled(old(disk)).(intent := disk.intent)
      ensures Smooth(req.plan) || resolved.Some? ==>
        AskedFor(req.env, old(disk).intent, CurrentStamp(old(disk)), req.adopted, resolved)
      ensures Smooth(req.plan) && resolved.None? ==> exit.Threw? && disk == Settled(old(disk))
      ensures exit.Done? ==> (built.None? <==> Reusable(Settled(old(disk)), req, resolved.value, FirstAnswer(req.answers)))
      ensures Smooth(req.plan) ==> !exit.Crashed? && (exit.Threw? ==> Unchanged(Settled(old(disk)), disk))
      ensures Smooth(req.plan) && AllYes(req.answers) && resolved.Some? ==> exit.Done?
    {
      hide AskedFor, Reusable, Unchanged, Installed, IsPrevious, Settled, RecoverySteps;
      plan, answers := req.plan, req.answers;
      crashed := false;
      RecoveryActivatesCurrent(disk);
      RecoveryKeepsConsistency(disk, clock);
      RecoveryKeepsCurrent(disk);
      RecoveryConverges(disk);
      exit := Recover();
      if !exit.Done? {
        return exit, None, None, None;
      }
      exit, resolved, built, previous := InstallRecovered(req);
    }

    /** Any number of runs, each with its own request, failures and crash. */
    method InstallRuns(reqs: seq<Request>)
      requires Consistent(disk, clock)
      modifies this
      ensures Consistent(disk, clock)
      ensures ActiveStamp(Settled(disk)).Some? && ValidStamp(ActiveStamp(Settled(disk)).value) ==>
        Resolve(Unset, disk.intent, ActiveStamp(Settled(disk))) == Some(ActiveStamp(Settled(disk)).value.requested.extras)
    {
      for i := 0 to |reqs|
        invariant Consistent(disk, clock)
      {
        var exit, resolved, built, previous := Install(reqs[i]);
      }
      RecoveryActivatesCurrent(disk);
    }
  }
}
