/**
 * Moving a package-local environment out of npm's package tree, restartable at every call.
 *
 * There are two places that matter: the source (the package-local path and its generations root) and
 * the target (the durable path and its generations root). Which place a marker or journal names is a
 * `Place`; a script is a text in which a path is rewritten.
 */
module Migration {
  import opened Options
  import opened PathRewrite
  import R = ManagedRuntime

  datatype Place = Source | Target | Elsewhere

  /** A file in `bin`: a text, or something the rewrite leaves alone (binary, too large, a link). */
  datatype Script = Text(text: string) | Opaque

  /**
   * An environment directory. `env` is its identity, completeness and generation id; `place` is the
   * logical target its marker names; `bin` are the files of its `bin`, none unless that is a real
   * directory; `legacy` and `reference` are the extras its pre-0.4 ownership stamp and its install
   * stamp list, if it has them.
   */
  datatype Venv = Venv(
    env: R.Env, place: Place, bin: Option<map<string, Script>>,
    legacy: Option<R.Extras>, reference: Option<R.Extras>)

  /** Where a link leads. */
  datatype Dest = ToTarget | ToGeneration(root: Place, name: R.Name)

  datatype Node = Absent | Dir(venv: Venv) | Link(dest: Dest)

  /** A promotion journal and the places its paths are in. */
  datatype Promotion = Promotion(journal: R.Journal, logical: Place, prevRoot: Place, nextRoot: Place)

  datatype Tree = Tree(place: Place, gens: map<R.Name, Venv>, promotion: Option<Promotion>)

  /** The pre-upgrade migration journal. */
  datatype Plan = DirectPlan(extras: R.Extras) | GenerationalPlan(active: R.Name, extras: R.Extras)

  datatype World = World(
    source: Node, target: Node,
    sourceRoot: Option<Tree>, targetRoot: Option<Tree>,
    intent: Option<R.Extras>, journal: Option<Plan>)

  /** The paths involved: the two logical targets and each generation's path in the two roots. */
  datatype Paths = Paths(source: string, target: string, sourceGen: R.Name -> string, targetGen: R.Name -> string)

  /** No path is empty. */
  ghost predicate Named(p: Paths) {
    p.source != "" && p.target != "" && forall n :: p.sourceGen(n) != "" && p.targetGen(n) != ""
  }

  /** Rewriting these generations twice changes nothing more, whatever their scripts say. */
  predicate GensRepeat(p: Paths, names: set<R.Name>) {
    forall n | n in names :: Repeatable(p.sourceGen(n), p.targetGen(n))
  }

  /** So it is for generations named under two roots, unless one ends with the other or has a generation's name as a component. */
  lemma RepeatFromRoots(p: Paths, r: string, t: string, text: R.Name -> string)
    requires r != "" && t != "" && r[0] == t[0] == '/' && !EndsWith(r, t) && !EndsWith(t, r)
    requires forall n :: p.sourceGen(n) == Under(r, text(n)) && p.targetGen(n) == Under(t, text(n))
    requires forall n ::
               text(n) != "" && '/' !in text(n) && !Contains(r, "/" + text(n)) && !Contains(t, "/" + text(n))
    ensures forall names :: GensRepeat(p, names)
  {
    forall n
      ensures Repeatable(p.sourceGen(n), p.targetGen(n))
    {
      GenerationPathsStable(r, t, text(n));
    }
  }

  // ---------------------------------------------------------------- what relocation does

  function RewriteScript(s: Script, before: string, after: string): Script
    requires before != ""
  {
    match s case Text(t) => Text(Replace(t, before, after)) case Opaque => Opaque
  }

  function RewriteBin(bin: map<string, Script>, before: string, after: string): map<string, Script>
    requires before != ""
  {
    map f | f in bin :: RewriteScript(bin[f], before, after)
  }

  function RewriteBinDir(bin: Option<map<string, Script>>, before: string, after: string): Option<map<string, Script>>
    requires before != ""
  {
    if bin.None? then None else Some(RewriteBin(bin.value, before, after))
  }

  /** Both places of this migration become the target. */
  function MovedPlace(at: Place): Place {
    if at.Elsewhere? then Elsewhere else Target
  }

  /** A generation as it is meant to be at the target. */
  function MovedVenv(p: Paths, n: R.Name, v: Venv): Venv
    requires p.sourceGen(n) != ""
  {
    v.(place := MovedPlace(v.place), bin := RewriteBinDir(v.bin, p.sourceGen(n), p.targetGen(n)))
  }

  function MovedPromotion(pr: Promotion): Promotion {
    Promotion(pr.journal, MovedPlace(pr.logical), MovedPlace(pr.prevRoot), MovedPlace(pr.nextRoot))
  }

  ghost function MovedTree(p: Paths, t: Tree): Tree
    requires Named(p)
  {
    Tree(MovedPlace(t.place), map n | n in t.gens :: MovedVenv(p, n, t.gens[n]),
         if t.promotion.None? then None else Some(MovedPromotion(t.promotion.value)))
  }

  /** `inspectTarget` accepts the directory; `legacy` says it is a pre-0.4 environment. */
  predicate DirectOk(v: Venv, at: Place) {
    v.env.shape && if v.env.marker.Some? then v.place == at else v.legacy.Some?
  }

  predicate IsLegacy(v: Venv) {
    v.env.shape && v.env.marker.None? && v.legacy.Some?
  }

  /** `validateGeneration` accepts the entry for the logical target at `at`. */
  predicate GenOk(t: Tree, n: R.Name, at: Place) {
    n in t.gens && t.gens[n].env.shape && t.gens[n].env.marker == Some(n) && t.gens[n].place == at
  }

  /** The rewrite accepts the entry: its own marker, of this migration, and a real `bin` directory. */
  predicate OwnedGen(t: Tree, n: R.Name)
    requires n in t.gens
  {
    t.gens[n].env.marker == Some(n) && !t.gens[n].place.Elsewhere? && t.gens[n].bin.Some?
  }

  /** The rewrite accepts the promotion journal: all of its paths lie in one of the two places. */
  predicate OwnedPromotion(pr: Promotion) {
    !pr.logical.Elsewhere? && !pr.prevRoot.Elsewhere? && !pr.nextRoot.Elsewhere?
  }

  /** The metadata rewrite gets through; an entry need not be a complete environment for that. */
  predicate AllOwned(t: Tree) {
    && !t.place.Elsewhere?
    && GensOwned(t)
    && (t.promotion.Some? ==> OwnedPromotion(t.promotion.value))
  }

  predicate GensOwned(t: Tree) {
    forall n | n in t.gens :: OwnedGen(t, n)
  }

  // ---------------------------------------------------------------- what is still to be done

  /** A pre-0.4 environment on its way, or arrived but not finished. */
  predicate DirectUnderway(w: World) {
    && w.journal.Some? && w.journal.value.DirectPlan? && R.ValidExtras(w.journal.value.extras)
    && (w.source.Dir? ==> w.target.Absent? && IsLegacy(w.source.venv))
    && (!w.source.Dir? ==> (w.source.Absent? || w.source == Link(ToTarget)) && w.target.Dir? && IsLegacy(w.target.venv))
  }

  /** A generational environment on its way, or arrived but not finished. */
  predicate GenerationalUnderway(w: World) {
    && w.journal.Some? && w.journal.value.GenerationalPlan? && R.ValidExtras(w.journal.value.extras)
    && w.sourceRoot.Some? == w.targetRoot.None?
    && w.journal.value.active in TheTree(w).gens
    && (w.source == Link(ToGeneration(Source, w.journal.value.active)) || (w.sourceRoot.None? && (w.source.Absent? || w.source == Link(ToTarget))))
    && (w.target.Absent? || (w.sourceRoot.None? && w.target == Link(ToGeneration(Target, w.journal.value.active))))
  }

  function TheTree(w: World): Tree
    requires w.sourceRoot.Some? || w.targetRoot.Some?
  {
    if w.sourceRoot.Some? then w.sourceRoot.value else w.targetRoot.value
  }

  /** `inspectTarget` accepts the durable target, or there is none. */
  predicate InspectsTarget(w: World) {
    match w.target
    case Absent => true
    case Dir(v) => DirectOk(v, Target)
    case Link(dest) => dest.ToGeneration? && dest.root.Target? && w.targetRoot.Some? && GenOk(w.targetRoot.value, dest.name, Target)
  }

  /** A durable environment of either layout, marked for the durable target. */
  predicate Usable(w: World) {
    match w.target
    case Absent => false
    case Dir(v) =>
      v.env.shape && ((v.env.marker.Some? && v.place.Target?) || (v.env.marker.None? && v.legacy.Some?))
    case Link(dest) =>
      && dest.ToGeneration? && dest.root.Target? && w.targetRoot.Some? && dest.name in w.targetRoot.value.gens
      && var v := w.targetRoot.value.gens[dest.name];
         v.env.shape && v.env.marker == Some(dest.name) && v.place.Target?
  }

  /** The journal the first run writes, for the two kinds of package-local environment it accepts. */
  function PlanFor(w: World): Option<Plan> {
    match w.source
    case Absent => None
    case Dir(v) =>
      if w.target.Absent? && IsLegacy(v) && R.ValidExtras(v.legacy.value) then Some(DirectPlan(v.legacy.value)) else None
    case Link(dest) =>
      if w.target.Absent? && dest.ToGeneration? && dest.root.Source? && w.sourceRoot.Some? && w.targetRoot.None?
         && GenOk(w.sourceRoot.value, dest.name, Source)
         && w.sourceRoot.value.gens[dest.name].reference.Some?
         && R.ValidExtras(w.sourceRoot.value.gens[dest.name].reference.value)
      then Some(GenerationalPlan(dest.name, w.sourceRoot.value.gens[dest.name].reference.value))
      else None
  }

  /** Before the first run, or between interrupted ones. */
  predicate Migratable(w: World) {
    if w.journal.None? then PlanFor(w).Some? else DirectUnderway(w) || GenerationalUnderway(w)
  }

  function TheVenv(w: World): Venv
    requires w.source.Dir? || w.target.Dir?
  {
    if w.source.Dir? then w.source.venv else w.target.venv
  }

  /** All is owned, and the active generation is complete. */
  predicate Movable(t: Tree, active: R.Name) {
    AllOwned(t) && active in t.gens && t.gens[active].env.shape
  }

  function ThePlan(w: World): Plan
    requires Migratable(w)
  {
    if w.journal.Some? then w.journal.value else PlanFor(w).value
  }

  /** Whether the migration can get through. */
  predicate Rewritable(w: World)
    requires Migratable(w)
  {
    match ThePlan(w)
    case DirectPlan(_) => TheVenv(w).bin.Some?
    case GenerationalPlan(active, _) => Movable(TheTree(w), active)
  }

  /** Rewriting twice what this migration rewrites changes nothing more. */
  ghost predicate Steady(p: Paths, w: World)
    requires Migratable(w)
  {
    match ThePlan(w)
    case DirectPlan(_) => Repeatable(p.source, p.target)
    case GenerationalPlan(_, _) => GensRepeat(p, TheTree(w).gens.Keys)
  }

  /** The finished migration. */
  ghost function Goal(p: Paths, w: World): World
    requires Named(p) && Migratable(w)
  {
    match ThePlan(w)
    case DirectPlan(extras) =>
      var v := TheVenv(w);
      World(Link(ToTarget), Dir(v.(bin := RewriteBinDir(v.bin, p.source, p.target))), w.sourceRoot, w.targetRoot, Some(extras), None)
    case GenerationalPlan(active, extras) =>
      World(Link(ToTarget), Link(ToGeneration(Target, active)), None, Some(MovedTree(p, TheTree(w))), Some(extras), None)
  }

  /**
   * The extras the environment in question asks for: what the journal of an earlier run says, else what
   * the direct environment's ownership stamp or the active generation's install stamp lists.
   */
  predicate Lists(w: World, extras: R.Extras) {
    match w.journal
    case Some(DirectPlan(journalled)) => extras == journalled
    case Some(GenerationalPlan(_, journalled)) => extras == journalled
    case None =>
      match w.source
      case Absent => false
      case Dir(v) => v.legacy == Some(extras)
      case Link(dest) =>
        && dest.ToGeneration? && w.sourceRoot.Some? && dest.name in w.sourceRoot.value.gens
        && w.sourceRoot.value.gens[dest.name].reference == Some(extras)
  }

  /** `now` is `was` moved: the same environment, every text with the old path replaced. */
  predicate IsMoved(was: Venv, now: Venv, before: string, after: string)
    requires before != ""
  {
    && now.env == was.env && now.legacy == was.legacy && now.reference == was.reference
    && now.bin.Some? == was.bin.Some?
    && (was.bin.Some? ==>
          && now.bin.value.Keys == was.bin.value.Keys
          && forall f | f in was.bin.value ::
               now.bin.value[f] == if was.bin.value[f].Text? then Text(Replace(was.bin.value[f].text, before, after)) else Opaque)
  }

  /** The finished migration, file by file. */
  lemma GoalMeans(p: Paths, w: World)
    requires Named(p) && Migratable(w)
    ensures var g := Goal(p, w);
      && g.journal.None? && g.source == Link(ToTarget)
      && g.intent.Some? && Lists(w, g.intent.value)
      && (w.source.Dir? || w.target.Dir? ==>
            && g.target.Dir? && g.targetRoot == w.targetRoot && g.sourceRoot == w.sourceRoot
            && IsMoved(if w.source.Dir? then w.source.venv else w.target.venv, g.target.venv, p.source, p.target))
      && (!w.source.Dir? && !w.target.Dir? ==>
            var t := TheTree(w);
            && g.target.Link? && g.target.dest.ToGeneration? && g.target.dest.root.Target?
            && (w.source.Link? && w.source.dest.ToGeneration? ==> g.target.dest.name == w.source.dest.name)
            && (w.journal.Some? ==> g.target.dest.name == w.journal.value.active)
            && g.sourceRoot.None? && g.targetRoot.Some? && g.targetRoot.value.gens.Keys == t.gens.Keys
            && (forall n | n in t.gens ::
                  IsMoved(t.gens[n], g.targetRoot.value.gens[n], p.sourceGen(n), p.targetGen(n))))
  {
  }

  /** Which worlds a first run takes up. */
  lemma TakesUpExactly(w: World)
    requires w.journal.None?
    ensures Migratable(w) <==>
            && w.target.Absent?
            && ((w.source.Dir?
                 && var v := w.source.venv;
                    v.env.shape && v.env.marker.None? && v.legacy.Some? && !R.Conflicting(v.legacy.value))
                || (w.source.Link? && w.source.dest.ToGeneration? && w.source.dest.root.Source?
                    && w.sourceRoot.Some? && w.targetRoot.None?
                    && var n, gens := w.source.dest.name, w.sourceRoot.value.gens;
                       n in gens && gens[n].env.shape && gens[n].env.marker == Some(n) && gens[n].place.Source?
                       && gens[n].reference.Some? && !R.Conflicting(gens[n].reference.value)))
  {
  }

  /**
   * When a migration gets through: for the direct layout if `bin` is a real directory; for the other
   * one if every generation carries its own marker, of the source or the target, and has a real `bin`
   * directory, root marker and promotion journal name only those two places, and the active
   * generation is there and complete.
   */
  lemma GetsThroughExactly(w: World)
    requires Migratable(w)
    ensures (w.source.Dir? || w.target.Dir?) ==> (Rewritable(w) <==> (if w.source.Dir? then w.source.venv else w.target.venv).bin.Some?)
    ensures !(w.source.Dir? || w.target.Dir?) ==>
              var t := TheTree(w);
              var active := if w.journal.Some? then w.journal.value.active else w.source.dest.name;
              (Rewritable(w) <==>
               && !t.place.Elsewhere?
               && (forall n | n in t.gens ::
                     t.gens[n].env.marker == Some(n) && t.gens[n].place in {Source, Target} && t.gens[n].bin.Some?)
               && (t.promotion.Some? ==>
                     var pr := t.promotion.value;
                     pr.logical in {Source, Target} && pr.prevRoot in {Source, Target} && pr.nextRoot in {Source, Target})
               && active in t.gens && t.gens[active].env.shape)
  {
  }

  lemma BinRewriteIdempotent(bin: map<string, Script>, before: string, after: string)
    requires Repeatable(before, after)
    ensures RewriteBin(RewriteBin(bin, before, after), before, after) == RewriteBin(bin, before, after)
  {
    forall f | f in bin
      ensures RewriteScript(RewriteScript(bin[f], before, after), before, after) == RewriteScript(bin[f], before, after)
    {
      if bin[f].Text? {
        RewriteIdempotent(bin[f].text, before, after);
      }
    }
  }

  lemma BinDirRewriteIdempotent(bin: Option<map<string, Script>>, before: string, after: string)
    requires Repeatable(before, after)
    ensures RewriteBinDir(RewriteBinDir(bin, before, after), before, after) == RewriteBinDir(bin, before, after)
  {
    if bin.Some? {
      BinRewriteIdempotent(bin.value, before, after);
    }
  }

  lemma ScriptRewriteIdempotent(s: Script, before: string, after: string)
    requires Repeatable(before, after)
    ensures RewriteScript(RewriteScript(s, before, after), before, after) == RewriteScript(s, before, after)
  {
    if s.Text? {
      RewriteIdempotent(s.text, before, after);
    }
  }

  function WithVenv(w: World, n: R.Name, v: Venv): World
    requires w.targetRoot.Some?
  {
    w.(targetRoot := Some(w.targetRoot.value.(gens := w.targetRoot.value.gens[n := v])))
  }

  lemma WithVenvLaws(w: World, n: R.Name, a: Venv, b: Venv)
    requires w.targetRoot.Some?
    ensures n in w.targetRoot.value.gens ==> WithVenv(w, n, w.targetRoot.value.gens[n]) == w
    ensures WithVenv(WithVenv(w, n, a), n, b) == WithVenv(w, n, b)
  {
    var gens := w.targetRoot.value.gens;
    assert n in gens ==> gens[n := gens[n]] == gens;
    assert gens[n := a][n := b] == gens[n := b];
  }

  /** Part-way through the metadata rewrite of `t0`: all but `names` are final. */
  ghost predicate Rewriting(p: Paths, t0: Tree, w: World, names: set<R.Name>)
    requires Named(p)
  {
    && w.targetRoot.Some? && w.targetRoot.value == t0.(gens := w.targetRoot.value.gens)
    && w.targetRoot.value.gens.Keys == t0.gens.Keys
    && (forall n | n in t0.gens ::
          var v := w.targetRoot.value.gens[n];
          && MovedVenv(p, n, v) == MovedVenv(p, n, t0.gens[n]) && v.env == t0.gens[n].env
          && (n !in names ==> v == MovedVenv(p, n, t0.gens[n]) && OwnedGen(t0, n)))
  }

  lemma RewritingStep(p: Paths, t0: Tree, w: World, w1: World, names: set<R.Name>, n: R.Name, done: bool)
    requires Named(p) && Rewriting(p, t0, w, names) && n in names && n in t0.gens
    requires w1.targetRoot.Some? && n in w1.targetRoot.value.gens && w1 == WithVenv(w, n, w1.targetRoot.value.gens[n])
    requires var v0, v := w.targetRoot.value.gens[n], w1.targetRoot.value.gens[n];
      && MovedVenv(p, n, v) == MovedVenv(p, n, v0) && v.env == v0.env
      && (done ==> v == MovedVenv(p, n, v0) && OwnedGen(w.targetRoot.value, n))
    ensures Rewriting(p, t0, w1, if done then names - {n} else names)
  {
  }

  lemma RewritingPreservesGoal(p: Paths, t0: Tree, w: World, names: set<R.Name>)
    requires Named(p) && Rewriting(p, t0, w, names)
    ensures MovedTree(p, w.targetRoot.value) == MovedTree(p, t0) && AllOwned(w.targetRoot.value) == AllOwned(t0)
    ensures w.targetRoot.value.gens.Keys == t0.gens.Keys
    ensures forall n | n in t0.gens :: w.targetRoot.value.gens[n].env == t0.gens[n].env
    ensures names == {} ==> GensOwned(t0) && w.targetRoot.value.gens == MovedTree(p, t0).gens
  {
    var t := w.targetRoot.value;
    assert forall n | n in t0.gens :: OwnedGen(t, n) == OwnedGen(t0, n);
    assert MovedTree(p, t).gens == MovedTree(p, t0).gens;
  }

  lemma MovedTreeIsFinal(p: Paths, t: Tree)
    requires Named(p) && GensRepeat(p, t.gens.Keys)
    ensures MovedTree(p, MovedTree(p, t)) == MovedTree(p, t) && AllOwned(MovedTree(p, t)) == AllOwned(t)
  {
    var m := MovedTree(p, t);
    forall n | n in t.gens
      ensures MovedVenv(p, n, m.gens[n]) == m.gens[n] && OwnedGen(m, n) == OwnedGen(t, n)
    {
      BinDirRewriteIdempotent(t.gens[n].bin, p.sourceGen(n), p.targetGen(n));
    }
    assert MovedTree(p, m).gens == m.gens;
    assert forall n | n in m.gens :: OwnedGen(m, n) == OwnedGen(t, n);
  }

  /** On the finished world there is nothing left to migrate. */
  lemma GoalIsFinal(p: Paths, w: World)
    requires Named(p)
    ensures Migratable(w) ==> !Migratable(Goal(p, w)) && Finished(Goal(p, w))
  {
  }

  lemma MovedTreeKeys(p: Paths, t: Tree)
    requires Named(p)
    ensures MovedTree(p, t).gens.Keys == t.gens.Keys
  {
  }

  /** What is rewritten shows in the goal, so interrupted runs do not change whether rewriting it twice is harmless. */
  lemma SteadyByGoal(p: Paths, w: World, u: World)
    requires Named(p) && Migratable(w) && Migratable(u) && Goal(p, u) == Goal(p, w)
    ensures Steady(p, u) == Steady(p, w)
  {
    assert ThePlan(w).DirectPlan? == Goal(p, w).target.Dir? == Goal(p, u).target.Dir? == ThePlan(u).DirectPlan?;
    if ThePlan(w).GenerationalPlan? {
      MovedTreeKeys(p, TheTree(w));
      MovedTreeKeys(p, TheTree(u));
    }
  }

  // ---------------------------------------------------------------- which paths bear interruptions

  /** A migration under way whose moves are made, cut off when the rewrite was through but nothing later. */
  ghost predicate CutAfterRewrite(p: Paths, w: World, u: World)
    requires Named(p)
  {
    && Migratable(w) && Rewritable(w) && w.journal.Some?
    && if w.journal.value.DirectPlan? then w.source.Absent? && u == w.(target := Goal(p, w).target)
       else w.source.Link? && w.sourceRoot.None? && w.target.Absent? && u == w.(targetRoot := Goal(p, w).targetRoot)
  }

  lemma CutStaysMigratable(p: Paths, w: World, u: World)
    requires Named(p) && CutAfterRewrite(p, w, u)
    ensures Migratable(u) && ThePlan(u) == ThePlan(w)
  {
  }

  /** A migration of this layout that is taken up again after the rewrite still has the same goal. */
  ghost predicate Resumes(p: Paths, direct: bool)
    requires Named(p)
  {
    forall w, u | CutAfterRewrite(p, w, u) && ThePlan(w).DirectPlan? == direct :: Migratable(u) && Goal(p, u) == Goal(p, w)
  }

  /** An environment with one script. */
  function OneScript(marker: Option<R.Name>, text: string, extras: Option<R.Extras>): Venv {
    Venv(R.Env(0, true, marker, None), Source, Some(map["pip" := Text(text)]), extras, extras)
  }

  lemma OneScriptChanges(bin: Option<map<string, Script>>, text: string, before: string, after: string)
    requires before != "" && !Repeats(text, before, after) && bin == Some(map["pip" := Text(text)])
    ensures var once := RewriteBinDir(bin, before, after); RewriteBinDir(once, before, after) != once
  {
    hide Replace;
    var once := RewriteBinDir(bin, before, after);
    assert once.value["pip"] == Text(Replace(text, before, after));
    assert RewriteBinDir(once, before, after).value["pip"] == Text(Replace(Replace(text, before, after), before, after));
  }

  /** A direct migration bears interruption, whatever the scripts say, if and only if its two paths are `Repeatable`. */
  lemma DirectResumesExactly(p: Paths)
    requires Named(p)
    ensures Resumes(p, true) <==> Repeatable(p.source, p.target)
  {
    RepeatableExactly(p.source, p.target);
    if Repeatable(p.source, p.target) {
      forall w, u | CutAfterRewrite(p, w, u) && ThePlan(w).DirectPlan?
        ensures Migratable(u) && Goal(p, u) == Goal(p, w)
      {
        CutStaysMigratable(p, w, u);
        BinDirRewriteIdempotent(w.target.venv.bin, p.source, p.target);
      }
    } else {
      var text :| !Repeats(text, p.source, p.target);
      DirectBreaks(p, OneScript(None, text, Some({})), text);
    }
  }

  lemma DirectBreaks(p: Paths, v: Venv, text: string)
    requires Named(p) && !Repeats(text, p.source, p.target) && v == OneScript(None, text, Some({}))
    ensures !Resumes(p, true)
  {
    hide Replace, RewriteBinDir, Repeats;
    var w := World(Absent, Dir(v), None, None, None, Some(DirectPlan({})));
    var u := w.(target := Goal(p, w).target);
    assert CutAfterRewrite(p, w, u);
    CutStaysMigratable(p, w, u);
    OneScriptChanges(v.bin, text, p.source, p.target);
    assert Goal(p, u).target.venv.bin != Goal(p, w).target.venv.bin;
  }

  /** A generational migration does, whatever the generations and their scripts, if and only if every generation's paths are. */
  lemma GenerationalResumesExactly(p: Paths)
    requires Named(p)
    ensures Resumes(p, false) <==> forall n :: Repeatable(p.sourceGen(n), p.targetGen(n))
  {
    if forall n :: Repeatable(p.sourceGen(n), p.targetGen(n)) {
      forall w, u | CutAfterRewrite(p, w, u) && ThePlan(w).GenerationalPlan?
        ensures Migratable(u) && Goal(p, u) == Goal(p, w)
      {
        CutStaysMigratable(p, w, u);
        MovedTreeIsFinal(p, TheTree(w));
      }
    } else {
      var n :| !Repeatable(p.sourceGen(n), p.targetGen(n));
      GenerationBreaks(p, n);
    }
  }

  lemma GenerationBreaks(p: Paths, n: R.Name)
    requires Named(p) && !Repeatable(p.sourceGen(n), p.targetGen(n))
    ensures !Resumes(p, false)
  {
    RepeatableExactly(p.sourceGen(n), p.targetGen(n));
    var text :| !Repeats(text, p.sourceGen(n), p.targetGen(n));
    GenerationBreaksOn(p, n, OneScript(Some(n), text, Some({})), text);
  }

  lemma GenerationBreaksOn(p: Paths, n: R.Name, v: Venv, text: string)
    requires Named(p) && !Repeats(text, p.sourceGen(n), p.targetGen(n)) && v == OneScript(Some(n), text, Some({}))
    ensures !Resumes(p, false)
  {
    hide Replace, RewriteBinDir, Repeats;
    var t := Tree(Source, map[n := v], None);
    var w := World(Link(ToGeneration(Source, n)), Absent, None, Some(t), None, Some(GenerationalPlan(n, {})));
    var u := w.(targetRoot := Goal(p, w).targetRoot);
    assert CutAfterRewrite(p, w, u);
    CutStaysMigratable(p, w, u);
    OneScriptChanges(v.bin, text, p.sourceGen(n), p.targetGen(n));
    assert Goal(p, u).targetRoot.value.gens[n].bin != Goal(p, w).targetRoot.value.gens[n].bin;
  }

  predicate Finished(w: World) {
    w.journal.None? && w.source == Link(ToTarget) && !w.target.Absent?
  }

  class Migrator {
    const paths: Paths
    var world: World
    var plan: seq<R.Outcome>
    ghost var crashed: bool      // the process is dead and makes no more calls

    constructor (paths: Paths, world: World)
      ensures this.paths == paths && this.world == world && !crashed
    {
      this.paths, this.world, this.plan, this.crashed := paths, world, [], false;
    }

    method Act(next: World) returns (o: R.Outcome)
      requires !crashed
      modifies `world, `plan, `crashed
      ensures crashed == o.Crash?
      ensures R.Smooth(old(plan)) ==> o.Ok? && R.Smooth(plan)
      ensures old(plan) == [] ==> o.Ok? && plan == []
      ensures old(plan) != [] ==> o == old(plan)[0] && plan == old(plan)[1..]
      ensures world == if o.Ok? then next else old(world)
    {
      o := R.Ok;
      if plan != [] {
        o, plan := plan[0], plan[1..];
      }
      if o.Ok? {
        world := next;
      }
      crashed := o.Crash?;
    }

    /** Rewrite the scripts of the direct environment at the target, in any order; without a real `bin` it throws. */
    method RewriteDirectScripts() returns (exit: R.Exit)
      requires world.target.Dir? && Repeatable(paths.source, paths.target)
      requires !crashed
      modifies `world, `plan, `crashed
      ensures crashed == exit.Crashed?
      ensures world.target.Dir? && world == old(world).(target := world.target)
      ensures world.target.venv == old(world).target.venv.(bin := world.target.venv.bin)
      ensures RewriteBinDir(world.target.venv.bin, paths.source, paths.target)
           == RewriteBinDir(old(world).target.venv.bin, paths.source, paths.target)
      ensures world.target.venv.bin.Some? == old(world).target.venv.bin.Some?
      ensures exit.Done? ==> old(world).target.venv.bin.Some?
      ensures exit.Done? ==> world.target.venv.bin == RewriteBinDir(old(world).target.venv.bin, paths.source, paths.target)
      ensures R.Smooth(old(plan)) ==> R.Smooth(plan) && exit.Done? == old(world).target.venv.bin.Some?
    {
      if world.target.venv.bin.None? {
        return R.Threw;
      }
      var bin := world.target.venv.bin.value;
      var files := bin.Keys;
      ghost var v0, bin0 := world.target.venv, bin;
      while files != {}
        invariant world == old(world).(target := Dir(v0.(bin := Some(bin))))
        invariant bin.Keys == bin0.Keys && files <= bin0.Keys
        invariant forall f | f in bin0 ::
          bin[f] == if f in files then bin0[f] else RewriteScript(bin0[f], paths.source, paths.target)
        invariant R.Smooth(old(plan)) ==> R.Smooth(plan)
        invariant RewriteBin(bin, paths.source, paths.target) == RewriteBin(bin0, paths.source, paths.target)
        invariant !crashed
        decreases files
      {
        var f :| f in files;
        var script := RewriteScript(bin[f], paths.source, paths.target);
        ScriptRewriteIdempotent(bin0[f], paths.source, paths.target);
        if script != bin[f] {
          var o := Act(world.(target := Dir(world.target.venv.(bin := Some(bin[f := script])))));
          if !o.Ok? {
            return R.ExitOf(o);
          }
          bin := bin[f := script];
        }
        files := files - {f};
      }
      assert bin == RewriteBin(bin0, paths.source, paths.target);
      return R.Done;
    }

    /** Rewrite the scripts of generation `n` of the moved root, in any order; without a real `bin` it throws. */
    method RewriteGenerationScripts(n: R.Name) returns (exit: R.Exit)
      requires world.targetRoot.Some? && n in world.targetRoot.value.gens && Repeatable(paths.sourceGen(n), paths.targetGen(n))
      requires !crashed
      modifies `world, `plan, `crashed
      ensures crashed == exit.Crashed?
      ensures world.targetRoot.Some? && n in world.targetRoot.value.gens
      ensures world == WithVenv(old(world), n, world.targetRoot.value.gens[n])
      ensures var v0 := old(world).targetRoot.value.gens[n]; var v := world.targetRoot.value.gens[n];
        && v == v0.(bin := v.bin)
        && RewriteBinDir(v.bin, paths.sourceGen(n), paths.targetGen(n)) == RewriteBinDir(v0.bin, paths.sourceGen(n), paths.targetGen(n))
        && (exit.Done? ==> v0.bin.Some? && v.bin == RewriteBinDir(v0.bin, paths.sourceGen(n), paths.targetGen(n)))
      ensures R.Smooth(old(plan)) ==> R.Smooth(plan) && exit.Done? == old(world).targetRoot.value.gens[n].bin.Some?
      ensures R.Smooth(old(plan)) && !exit.Done? ==> exit.Threw?
    {
      var before, after := paths.sourceGen(n), paths.targetGen(n);
      ghost var v0 := world.targetRoot.value.gens[n];
      WithVenvLaws(world, n, v0, v0);
      if world.targetRoot.value.gens[n].bin.None? {
        return R.Threw;
      }
      var bin := world.targetRoot.value.gens[n].bin.value;
      ghost var bin0 := bin;
      var files := bin.Keys;
      assert v0.(bin := Some(bin)) == v0;
      while files != {}
        invariant world == WithVenv(old(world), n, v0.(bin := Some(bin)))
        invariant bin.Keys == bin0.Keys && files <= bin0.Keys
        invariant forall f | f in bin0 :: bin[f] == if f in files then bin0[f] else RewriteScript(bin0[f], before, after)
        invariant R.Smooth(old(plan)) ==> R.Smooth(plan)
        invariant RewriteBin(bin, before, after) == RewriteBin(bin0, before, after)
        invariant !crashed
        decreases files
      {
        var f :| f in files;
        var script := RewriteScript(bin[f], before, after);
        ScriptRewriteIdempotent(bin0[f], before, after);
        if script != bin[f] {
          var v := world.targetRoot.value.gens[n];
          WithVenvLaws(old(world), n, v, v.(bin := Some(bin[f := script])));
          var o := Act(WithVenv(world, n, v.(bin := Some(bin[f := script]))));
          if !o.Ok? {
            return R.ExitOf(o);
          }
          bin := bin[f := script];
        }
        files := files - {f};
      }
      assert bin == RewriteBin(bin0, before, after);
      return R.Done;
    }

    /** Bring generation `n` to its final form: marker first, then scripts. */
    method RewriteGeneration(n: R.Name) returns (exit: R.Exit)
      requires world.targetRoot.Some? && n in world.targetRoot.value.gens && Repeatable(paths.sourceGen(n), paths.targetGen(n))
      requires !crashed
      modifies `world, `plan, `crashed
      ensures crashed == exit.Crashed?
      ensures world.targetRoot.Some? && n in world.targetRoot.value.gens
      ensures world == WithVenv(old(world), n, world.targetRoot.value.gens[n])
      ensures var v0 := old(world).targetRoot.value.gens[n]; var v := world.targetRoot.value.gens[n];
        && MovedVenv(paths, n, v) == MovedVenv(paths, n, v0) && v.env == v0.env
        && (exit.Done? ==> v == MovedVenv(paths, n, v0) && OwnedGen(old(world).targetRoot.value, n))
      ensures R.Smooth(old(plan)) ==> R.Smooth(plan) && exit.Done? == OwnedGen(old(world).targetRoot.value, n)
      ensures R.Smooth(old(plan)) && !exit.Done? ==> exit.Threw?
    {
      var v := world.targetRoot.value.gens[n];
      WithVenvLaws(world, n, v, v);
      if v.env.marker != Some(n) || v.place.Elsewhere? {
        return R.Threw;
      }
      if v.place.Source? {
        var o := Act(WithVenv(world, n, v.(place := Target)));
        if !o.Ok? {
          return R.ExitOf(o);
        }
      }
      ghost var w := world;
      exit := RewriteGenerationScripts(n);
      WithVenvLaws(old(world), n, w.targetRoot.value.gens[n], world.targetRoot.value.gens[n]);
    }

    /** `rewriteGenerationalMetadata`: every generation in any order, the promotion journal, the root marker. */
    method RewriteMetadata(ghost t0: Tree) returns (exit: R.Exit)
      requires Named(paths) && GensRepeat(paths, t0.gens.Keys) && world.targetRoot == Some(t0)
      requires !crashed
      modifies `world, `plan, `crashed
      ensures crashed == exit.Crashed?
      ensures world.targetRoot.Some? && world == old(world).(targetRoot := world.targetRoot)
      ensures MovedTree(paths, world.targetRoot.value) == MovedTree(paths, t0)
      ensures world.targetRoot.value.gens.Keys == t0.gens.Keys
      ensures forall n | n in t0.gens :: world.targetRoot.value.gens[n].env == t0.gens[n].env
      ensures AllOwned(world.targetRoot.value) == AllOwned(t0)
      ensures exit.Done? ==> world.targetRoot.value == MovedTree(paths, t0) && AllOwned(t0)
      ensures t0.promotion.Some? && !JournalOk(t0.promotion.value, Target) ==>
        world.targetRoot.value.gens == MovedTree(paths, t0).gens || SiteSteps(AtTarget(world), Target).None?
      ensures R.Smooth(old(plan)) ==> R.Smooth(plan) && exit.Done? == AllOwned(t0)
      ensures R.Smooth(old(plan)) && !exit.Done? ==> exit.Threw?
    {
      if world.targetRoot.value.place.Elsewhere? {
        return R.Threw;
      }
      var names := world.targetRoot.value.gens.Keys;
      while names != {}
        invariant names <= t0.gens.Keys && Rewriting(paths, t0, world, names)
        invariant world == old(world).(targetRoot := world.targetRoot)
        invariant R.Smooth(old(plan)) ==> R.Smooth(plan)
        invariant !crashed
        decreases names
      {
        var n :| n in names;
        ghost var w := world;
        exit := RewriteGeneration(n);
        RewritingStep(paths, t0, w, world, names, n, exit.Done?);
        if !exit.Done? {
          RewritingPreservesGoal(paths, t0, world, names);
          return;
        }
        names := names - {n};
      }
      RewritingPreservesGoal(paths, t0, world, names);
      var t := world.targetRoot.value;
      assert t.gens == MovedTree(paths, t0).gens;
      if t.promotion.Some? {
        if !OwnedPromotion(t.promotion.value) {
          return R.Threw;
        }
        var o := Act(world.(targetRoot := Some(t.(promotion := Some(MovedPromotion(t.promotion.value))))));
        if !o.Ok? {
          return R.ExitOf(o);
        }
      }
      if t.place.Source? {
        var o := Act(world.(targetRoot := Some(world.targetRoot.value.(place := Target))));
        return R.ExitOf(o);
      }
      return R.Done;
    }

    /** The direct layout from its journal on. */
    method MigrateDirect() returns (exit: R.Exit)
      requires Named(paths) && Repeatable(paths.source, paths.target) && DirectUnderway(world)
      requires !crashed
      modifies `world, `plan, `crashed
      ensures crashed == exit.Crashed?
      ensures exit.Done? ==> world == Goal(paths, old(world)) && Rewritable(old(world))
      ensures !exit.Done? ==> DirectUnderway(world) && Goal(paths, world) == Goal(paths, old(world))
      ensures !exit.Done? ==> Rewritable(world) == Rewritable(old(world))
      ensures R.Smooth(old(plan)) ==> exit.Done? == Rewritable(old(world))
    {
      var o: R.Outcome;
      BinDirRewriteIdempotent(TheVenv(world).bin, paths.source, paths.target);
      if world.source.Dir? && world.target.Absent? {
        o := Act(world.(source := Absent, target := world.source));
        if !o.Ok? {
          return R.ExitOf(o);
        }
      }
      if !world.target.Dir? || !DirectOk(world.target.venv, Target) {
        return R.Threw;
      }
      exit := RewriteDirectScripts();
      if !exit.Done? {
        return;
      }
      o := Act(world.(intent := Some(world.journal.value.extras)));
      if !o.Ok? {
        return R.ExitOf(o);
      }
      if world.source.Absent? {
        o := Act(world.(source := Link(ToTarget)));
        if !o.Ok? {
          return R.ExitOf(o);
        }
      } else if world.source != Link(ToTarget) {
        return R.Threw;
      }
      o := Act(world.(journal := None));
      return R.ExitOf(o);
    }

    /** `ensureGenerationalLink` for the target: a fresh link or the right one. */
    method LinkTarget(active: R.Name) returns (exit: R.Exit)
      requires !crashed
      modifies `world, `plan, `crashed
      ensures crashed == exit.Crashed?
      ensures exit.Done? ==> world == old(world).(target := Link(ToGeneration(Target, active)))
      ensures !exit.Done? ==> world == old(world)
      ensures R.Smooth(old(plan)) ==> R.Smooth(plan)
      ensures R.Smooth(old(plan)) ==> exit.Done? == (old(world).target.Absent? || old(world).target == Link(ToGeneration(Target, active)))
    {
      if world.target.Absent? {
        var o := Act(world.(target := Link(ToGeneration(Target, active))));
        return R.ExitOf(o);
      }
      return if world.target == Link(ToGeneration(Target, active)) then R.Done else R.Threw;
    }

    /** `ensureGenerationalLink` for the source: it may still lead to the old active generation. */
    method LinkSource(active: R.Name) returns (exit: R.Exit)
      requires !crashed
      modifies `world, `plan, `crashed
      ensures crashed == exit.Crashed?
      ensures exit.Done? ==> world == old(world).(source := Link(ToTarget))
      ensures !exit.Done? ==>
        world == old(world) || (old(world).source == Link(ToGeneration(Source, active)) && world == old(world).(source := Absent))
      ensures R.Smooth(old(plan)) ==> R.Smooth(plan)
      ensures R.Smooth(old(plan)) ==>
        exit.Done? == (old(world).source.Absent? || old(world).source == Link(ToTarget) || old(world).source == Link(ToGeneration(Source, active)))
    {
      var o: R.Outcome;
      if world.source == Link(ToTarget) {
        return R.Done;
      }
      if !world.source.Absent? {
        if world.source != Link(ToGeneration(Source, active)) {
          return R.Threw;
        }
        o := Act(world.(source := Absent));
        if !o.Ok? {
          return R.ExitOf(o);
        }
      }
      o := Act(world.(source := Link(ToTarget)));
      return R.ExitOf(o);
    }

    /** Once the metadata is final: target link, intent, compatibility link, check, journal. */
    method FinishGenerational(ghost t: Tree) returns (exit: R.Exit)
      requires Named(paths) && GenerationalUnderway(world) && world.targetRoot == Some(t) && world.sourceRoot.None?
      requires MovedTree(paths, t) == t && AllOwned(t)
      requires !crashed
      modifies `world, `plan, `crashed
      ensures crashed == exit.Crashed?
      ensures exit.Done? ==> world == Goal(paths, old(world)) && Rewritable(old(world))
      ensures !exit.Done? ==>
        GenerationalUnderway(world) && Goal(paths, world) == Goal(paths, old(world)) && world.targetRoot == Some(t) && world.sourceRoot.None?
      ensures R.Smooth(old(plan)) ==> exit.Done? == Rewritable(old(world))
    {
      var o: R.Outcome;
      var active := world.journal.value.active;
      exit := LinkTarget(active);
      if !exit.Done? {
        return;
      }
      o := Act(world.(intent := Some(world.journal.value.extras)));
      if !o.Ok? {
        return R.ExitOf(o);
      }
      exit := LinkSource(active);
      if !exit.Done? {
        return;
      }
      assert t.gens[active] == MovedTree(paths, t).gens[active];
      if !GenOk(world.targetRoot.value, active, Target) {
        return R.Threw;
      }
      o := Act(world.(journal := None));
      return R.ExitOf(o);
    }

    /** The generational layout from its journal on. */
    method MigrateGenerational() returns (exit: R.Exit)
      requires Named(paths) && GenerationalUnderway(world) && GensRepeat(paths, TheTree(world).gens.Keys)
      requires !crashed
      modifies `world, `plan, `crashed
      ensures crashed == exit.Crashed?
      ensures exit.Done? ==> world == Goal(paths, old(world)) && Rewritable(old(world))
      ensures !exit.Done? ==>
        GenerationalUnderway(world) && Goal(paths, world) == Goal(paths, old(world)) && Rewritable(world) == Rewritable(old(world))
      ensures R.Smooth(old(plan)) ==> exit.Done? == Rewritable(old(world)) && (!exit.Done? ==> world.sourceRoot.None?)
    {
      hide MovedVenv, AllOwned;
      ghost var t0 := TheTree(world);
      if world.sourceRoot.Some? {
        var o := Act(world.(sourceRoot := None, targetRoot := world.sourceRoot));
        if !o.Ok? {
          return R.ExitOf(o);
        }
      }
      exit := RewriteMetadata(t0);
      if !exit.Done? {
        return;
      }
      MovedTreeIsFinal(paths, t0);
      exit := FinishGenerational(MovedTree(paths, t0));
    }

    /** `migrateLegacyVenv`. */
    method Migrate() returns (exit: R.Exit, migrated: bool)
      requires Named(paths) && (world.journal.Some? ==> Migratable(world)) && (Migratable(world) ==> Steady(paths, world))
      requires !crashed
      modifies `world, `plan, `crashed
      ensures crashed == exit.Crashed?
      ensures Migratable(old(world)) && exit.Done? ==> migrated && world == Goal(paths, old(world)) && Rewritable(old(world))
      ensures Migratable(old(world)) && exit.Done? ==> world.intent.Some? && Lists(old(world), world.intent.value)
      ensures Migratable(old(world)) && !exit.Done? ==>
        Migratable(world) && Goal(paths, world) == Goal(paths, old(world)) && Rewritable(world) == Rewritable(old(world))
      ensures Migratable(old(world)) && R.Smooth(old(plan)) ==> exit.Done? == Rewritable(old(world))
      ensures !Migratable(old(world)) ==> world == old(world)
      ensures migrated <==> exit.Done? && Migratable(old(world))
      ensures Finished(old(world)) ==> exit.Done?
      ensures !Migratable(old(world)) ==>
        (exit.Done? <==>
         if old(world).source.Absent? then old(world).target.Absent? || Usable(old(world))
         else !old(world).target.Absent? && old(world).source == Link(ToTarget))
    {
      hide Lists;
      if Migratable(world) {
        GoalMeans(paths, world);
      }
      migrated := false;
      if world.journal.None? {
        var o: R.Outcome;
        match world.source {
        case Absent =>
          return if InspectsTarget(world) then R.Done else R.Threw, false;
        case Link(dest) =>
          if !world.target.Absent? {
            return if dest.ToTarget? then R.Done else R.Threw, false;
          }
          if !dest.ToGeneration? || !dest.root.Source? || world.sourceRoot.None? || !GenOk(world.sourceRoot.value, dest.name, Source) {
            return R.Threw, false;
          }
          var reference := world.sourceRoot.value.gens[dest.name].reference;
          if reference.None? || !R.ValidExtras(reference.value) || world.targetRoot.Some? {
            return R.Threw, false;
          }
          o := Act(world.(journal := Some(GenerationalPlan(dest.name, reference.value))));
        case Dir(v) =>
          if !world.target.Absent? || !IsLegacy(v) || !R.ValidExtras(v.legacy.value) {
            return R.Threw, false;
          }
          o := Act(world.(journal := Some(DirectPlan(v.legacy.value))));
        }
        if !o.Ok? {
          return R.ExitOf(o), false;
        }
      }
      if world.journal.value.GenerationalPlan? {
        exit := MigrateGenerational();
      } else {
        exit := MigrateDirect();
      }
      migrated := exit.Done?;
    }

    /**
     * Migration converges: any number of runs, each cut off or failing anywhere, then one that is
     * not, end in the one final world fixed by the start, exactly when the start is `Rewritable`;
     * and a further run changes nothing and succeeds. When it is not, every whole run throws and the
     * goal is never reached. What is asked of the paths is `DirectResumesExactly` and
     * `GenerationalResumesExactly`.
     */
    method MigrateRepeatedly(interrupted: seq<seq<R.Outcome>>) returns (reached: bool)
      requires Named(paths) && Migratable(world) && Steady(paths, world)
      modifies this
      ensures reached == Rewritable(old(world))
      ensures reached ==> world.intent.Some? && Lists(old(world), world.intent.value)
      ensures if reached then world == Goal(paths, old(world)) && world.journal.None?
              else Migratable(world) && Goal(paths, world) == Goal(paths, old(world))
    {
      ghost var goal, rewritable := Goal(paths, world), Rewritable(world);
      GoalMeans(paths, world);
      var exit: R.Exit;
      var migrated: bool;
      for i := 0 to |interrupted|
        invariant if Migratable(world) then Goal(paths, world) == goal && Rewritable(world) == rewritable else world == goal && rewritable
        invariant Migratable(world) ==> Steady(paths, world)
      {
        plan := interrupted[i];
        crashed := false;
        GoalIsFinal(paths, world);
        exit, migrated := Migrate();
        if Migratable(world) {
          SteadyByGoal(paths, old(world), world);
        }
      }
      plan := [];
      crashed := false;
      GoalIsFinal(paths, world);
      exit, migrated := Migrate();
      reached := exit.Done?;
      if reached {
        GoalIsFinal(paths, old(world));
        plan := [];
        crashed := false;
        exit, migrated := Migrate();
        assert exit.Done? && !migrated && world == goal;
      }
    }

    // ------------------------------------------------------------ promotion recovery at the target

    /** One call that changes the target or its generations root. */
    method ActAtTarget(s: Site) returns (o: R.Outcome)
      requires !crashed
      modifies `world, `plan, `crashed
      ensures crashed == o.Crash?
      ensures world == if o.Ok? then old(world).(target := s.node, targetRoot := Some(s.tree)) else old(world)
      ensures R.Smooth(old(plan)) ==> R.Smooth(plan) && o.Ok?
    {
      o := Act(world.(target := s.node, targetRoot := Some(s.tree)));
    }

    method RestoreTarget(j: R.Journal) returns (exit: R.Exit)
      requires world.targetRoot.Some? && j.prev in world.targetRoot.value.gens
      requires !crashed
      modifies `world, `plan, `crashed
      ensures crashed == exit.Crashed?
      ensures world.targetRoot.Some? && world == old(world).(target := world.target, targetRoot := world.targetRoot)
      ensures var s, steps := AtTarget(old(world)), PutBackSteps(AtTarget(old(world)), j, Target);
        && (AtTarget(world) == s || (steps.Some? && AtTarget(world) in steps.value))
        && (exit.Done? ==> steps.Some? && AtTarget(world) == steps.value[|steps.value| - 1])
        && (R.Smooth(old(plan)) ==> exit.Done? == steps.Some?)
        && (steps.None? ==> exit.Threw? && world == old(world))
    {
      var o: R.Outcome;
      if !world.target.Absent? {
        if world.target != Link(ToGeneration(Target, j.next)) {
          return R.Threw;
        }
        o := ActAtTarget(AtTarget(world).(node := Absent));
        if !o.Ok? {
          return R.ExitOf(o);
        }
      }
      o := ActAtTarget(PutBack(AtTarget(world), j.prev));
      if !o.Ok? {
        return R.ExitOf(o);
      }
      o := ActAtTarget(Unjournalled(AtTarget(world)));
      return R.ExitOf(o);
    }

    /** `recoverInterruptedPromotion` at the durable target, with its tests, cut off anywhere. */
    method RecoverTarget() returns (exit: R.Exit)
      requires world.targetRoot.Some?
      requires !crashed
      modifies `world, `plan, `crashed
      ensures crashed == exit.Crashed?
      ensures world.targetRoot.Some? && world == old(world).(target := world.target, targetRoot := world.targetRoot)
      ensures var s, steps := AtTarget(old(world)), SiteSteps(AtTarget(old(world)), Target);
        && (AtTarget(world) == s || (steps.Some? && AtTarget(world) in steps.value))
        && (exit.Done? ==> steps.Some? && AtTarget(world) == RecoverSite(s, Target))
        && (R.Smooth(old(plan)) ==> exit.Done? == steps.Some?)
        && (steps.None? ==> exit.Threw? && world == old(world))
    {
      var o: R.Outcome;
      var t := world.targetRoot.value;
      if t.promotion.None? {
        return R.Done;
      }
      if !JournalOk(t.promotion.value, Target) {
        return R.Threw;
      }
      var j := t.promotion.value.journal;
      if j.committed && j.next in t.gens {
        if !GenOk(t, j.next, Target) {
          return R.Threw;
        }
        if world.target.Absent? {
          o := ActAtTarget(AtTarget(world).(node := Link(ToGeneration(Target, j.next))));
          if !o.Ok? {
            return R.ExitOf(o);
          }
        } else if world.target != Link(ToGeneration(Target, j.next)) {
          return R.Threw;
        }
        o := ActAtTarget(Unjournalled(AtTarget(world)));
        return R.ExitOf(o);
      }
      if !j.committed && world.target.Dir? && j.prev !in t.gens {
        o := ActAtTarget(Unjournalled(AtTarget(world)));
        return R.ExitOf(o);
      }
      if !GenOk(t, j.prev, Target) {
        return R.Threw;
      }
      exit := RestoreTarget(j);
    }
  }

  /** Whether generations other than the active one are complete does not matter. */
  lemma OnlyActiveComplete(t: Tree, active: R.Name, n: R.Name, shape: bool)
    requires n in t.gens && n != active
    ensures var v := t.gens[n];
      Movable(t.(gens := t.gens[n := v.(env := v.env.(shape := shape))]), active) == Movable(t, active)
  {
    var v := t.gens[n];
    var u := t.(gens := t.gens[n := v.(env := v.env.(shape := shape))]);
    assert u.gens.Keys == t.gens.Keys;
    assert forall m | m in t.gens :: OwnedGen(u, m) == OwnedGen(t, m);
  }

  // ---------------------------------------------------------------- recovery and relocation

  /** A logical target with its generations root. */
  datatype Site = Site(node: Node, tree: Tree)

  /** `readMigrationState` accepts the journal for the logical target and the root at `at`. */
  predicate JournalOk(pr: Promotion, at: Place) {
    pr.logical == at && pr.prevRoot == at && pr.nextRoot == at && pr.journal.prev.Legacy? && pr.journal.next.Gen?
  }

  function Unjournalled(s: Site): Site {
    s.(tree := s.tree.(promotion := None))
  }

  /** The previous environment is renamed to the logical target. */
  function PutBack(s: Site, prev: R.Name): Site
    requires prev in s.tree.gens
  {
    Site(Dir(s.tree.gens[prev]), s.tree.(gens := s.tree.gens - {prev}))
  }

  function PutBackSteps(s: Site, j: R.Journal, at: Place): Option<seq<Site>>
    requires j.prev in s.tree.gens
  {
    if !s.node.Absent? && s.node != Link(ToGeneration(at, j.next)) then None
    else
      var back := PutBack(s, j.prev);
      var tail := [back, Unjournalled(back)];
      Some(if s.node.Absent? then tail else [s.(node := Absent)] + tail)
  }

  /**
   * `recoverInterruptedPromotion` at the logical target and the root at `at`: the sites it passes
   * through, or None when one of its tests (of the journal's three paths, of the link's destination,
   * of the marker, of completeness) refuses and nothing changes.
   */
  function SiteSteps(s: Site, at: Place): Option<seq<Site>> {
    if s.tree.promotion.None? then Some([])
    else if !JournalOk(s.tree.promotion.value, at) then None
    else
      var j := s.tree.promotion.value.journal;
      if j.committed && j.next in s.tree.gens then
        if !GenOk(s.tree, j.next, at) then None
        else if s.node.Absent? then
          var linked := s.(node := Link(ToGeneration(at, j.next)));
          Some([linked, Unjournalled(linked)])
        else if s.node == Link(ToGeneration(at, j.next)) then Some([Unjournalled(s)])
        else None
      else if !j.committed && s.node.Dir? && j.prev !in s.tree.gens then Some([Unjournalled(s)])
      else if !GenOk(s.tree, j.prev, at) then None
      else PutBackSteps(s, j, at)
  }

  /** Where one uninterrupted recovery ends. */
  function RecoverSite(s: Site, at: Place): Site {
    match SiteSteps(s, at)
    case None => s
    case Some(steps) => if steps == [] then s else steps[|steps| - 1]
  }

  function AtTarget(w: World): Site
    requires w.targetRoot.Some?
  {
    Site(w.target, w.targetRoot.value)
  }

  /** What the recovery of `ManagedRuntime` looks at. */
  function DiskOf(s: Site): R.Disk {
    R.Disk(
      match s.node
      case Absent => R.Absent
      case Dir(v) => R.Dir(v.env)
      case Link(ToTarget) => R.Absent
      case Link(ToGeneration(_, n)) => R.Link(n),
      map n | n in s.tree.gens :: s.tree.gens[n].env,
      if s.tree.promotion.None? then None else Some(s.tree.promotion.value.journal),
      None)
  }

  function DisksOf(sites: seq<Site>): seq<R.Disk> {
    seq(|sites|, i requires 0 <= i < |sites| => DiskOf(sites[i]))
  }

  /** Everything the tests of places look at names `at`. */
  predicate AllAt(s: Site, at: Place) {
    && (forall n | n in s.tree.gens :: s.tree.gens[n].place == at)
    && (s.tree.promotion.Some? ==>
          s.tree.promotion.value == Promotion(s.tree.promotion.value.journal, at, at, at))
    && (s.node.Link? ==> s.node.dest.ToGeneration? && s.node.dest.root == at)
  }

  lemma PutBackDisk(s: Site, prev: R.Name)
    requires prev in s.tree.gens
    ensures var d := DiskOf(s);
      DiskOf(PutBack(s, prev)) == R.Disk(R.Dir(d.root[prev]), d.root - {prev}, d.journal, d.intent)
  {
    assert DiskOf(PutBack(s, prev)).root == DiskOf(s).root - {prev};
  }

  lemma NodeDisk(s: Site, node: Node)
    ensures DiskOf(s.(node := node)).root == DiskOf(s).root && DiskOf(s.(node := node)).journal == DiskOf(s).journal
    ensures DiskOf(Unjournalled(s)) == DiskOf(s).(journal := None)
  {
    assert DiskOf(Unjournalled(s)).root == DiskOf(s).root;
  }

  lemma GenOkIsValid(s: Site, n: R.Name, at: Place)
    requires AllAt(s, at)
    ensures GenOk(s.tree, n, at) == R.Valid(DiskOf(s).root, n)
  {
  }

  /** Where every path is right, recovering the site is recovering its disk, call by call. */
  lemma RecoverSiteIsRecovery(s: Site, at: Place)
    requires AllAt(s, at)
    ensures SiteSteps(s, at).Some? == R.RecoverySteps(DiskOf(s)).Some?
    ensures SiteSteps(s, at).Some? ==> DisksOf(SiteSteps(s, at).value) == R.RecoverySteps(DiskOf(s)).value
    ensures DiskOf(RecoverSite(s, at)) == R.Settled(DiskOf(s))
  {
    hide DiskOf;
    NodeDisk(s, s.node);
    DiskFields(s);
    if s.tree.promotion.Some? {
      var j := s.tree.promotion.value.journal;
      GenOkIsValid(s, j.next, at);
      GenOkIsValid(s, j.prev, at);
      var linked := s.(node := Link(ToGeneration(at, j.next)));
      var away := s.(node := Absent);
      NodeDisk(s, linked.node);
      NodeDisk(linked, linked.node);
      NodeDisk(s, Absent);
      DiskFields(linked);
      DiskFields(away);
      if j.prev in s.tree.gens {
        PutBackDisk(s, j.prev);
        var back := PutBack(s, j.prev);
        NodeDisk(back, back.node);
      }
    }
  }

  lemma DiskFields(s: Site)
    ensures var d := DiskOf(s);
      && d.intent == None && d.root.Keys == s.tree.gens.Keys
      && d.journal == (if s.tree.promotion.None? then None else Some(s.tree.promotion.value.journal))
      && (s.node.Absent? ==> d.target == R.Absent) && (s.node.Dir? <==> d.target.Dir?)
      && (s.node.Link? && s.node.dest.ToGeneration? ==> d.target == R.Link(s.node.dest.name))
  {
  }

  // ---------------------------------------------------------------- relocation and its tests

  function MovedNode(p: Paths, node: Node): Node
    requires forall n :: p.sourceGen(n) != ""
  {
    match node
    case Absent => Absent
    case Dir(v) => Dir(if v.env.marker.Some? then MovedVenv(p, v.env.marker.value, v) else v.(place := MovedPlace(v.place)))
    case Link(ToTarget) => Link(ToTarget)
    case Link(ToGeneration(at, n)) => Link(ToGeneration(MovedPlace(at), n))
  }

  /** The relocated image of a site; a direct environment is rewritten under its marker's name. */
  ghost function MoveSite(p: Paths, s: Site): Site
    requires Named(p)
  {
    Site(MovedNode(p, s.node), MovedTree(p, s.tree))
  }

  /** Nothing in the tree or its journal names the target yet. */
  predicate FromSource(t: Tree) {
    && (forall n | n in t.gens :: !t.gens[n].place.Target?)
    && (t.promotion.Some? ==>
          var pr := t.promotion.value;
          !pr.logical.Target? && !pr.prevRoot.Target? && !pr.nextRoot.Target?)
  }

  predicate SiteFromSource(s: Site) {
    FromSource(s.tree) && (s.node.Link? && s.node.dest.ToGeneration? ==> !s.node.dest.root.Target?)
  }

  /** Relocation makes every test at the target say what it said at the source. */
  lemma TestsMove(p: Paths, s: Site, n: R.Name)
    requires Named(p) && SiteFromSource(s)
    ensures var m := MoveSite(p, s);
      && GenOk(m.tree, n, Target) == GenOk(s.tree, n, Source)
      && (m.tree.promotion.Some? == s.tree.promotion.Some?)
      && (s.tree.promotion.Some? ==> JournalOk(m.tree.promotion.value, Target) == JournalOk(s.tree.promotion.value, Source))
      && ((m.node == Link(ToGeneration(Target, n))) == (s.node == Link(ToGeneration(Source, n))))
      && m.node.Absent? == s.node.Absent? && m.node.Dir? == s.node.Dir?
  {
  }

  lemma UnjournalledMoves(p: Paths, s: Site)
    requires Named(p)
    ensures MoveSite(p, Unjournalled(s)) == Unjournalled(MoveSite(p, s))
  {
    assert MoveSite(p, Unjournalled(s)).tree.gens == MoveSite(p, s).tree.gens;
  }

  lemma PutBackMoves(p: Paths, s: Site, prev: R.Name)
    requires Named(p) && prev in s.tree.gens && s.tree.gens[prev].env.marker == Some(prev)
    ensures MoveSite(p, PutBack(s, prev)) == PutBack(MoveSite(p, s), prev)
  {
    assert MoveSite(p, PutBack(s, prev)).tree.gens == MoveSite(p, s).tree.gens - {prev};
  }

  lemma LinkedMoves(p: Paths, s: Site, node: Node)
    requires Named(p)
    ensures MoveSite(p, s.(node := node)) == MoveSite(p, s).(node := MovedNode(p, node))
  {
  }

  /** `moved` is the relocated image of `steps`, site by site. */
  ghost predicate Moves(p: Paths, steps: seq<Site>, moved: seq<Site>)
    requires Named(p)
  {
    |moved| == |steps| && forall i | 0 <= i < |steps| :: moved[i] == MoveSite(p, steps[i])
  }

  /**
   * Recovery commutes with relocation, call by call: with a prepared, a committed, a foreign or no
   * promotion journal inside the root, recovery at the target of the relocated site refuses exactly
   * where it refuses at the source, and otherwise passes through the relocated images of the same sites.
   */
  lemma RecoveryCommutesWithRelocation(p: Paths, s: Site)
    requires Named(p) && SiteFromSource(s)
    ensures SiteSteps(MoveSite(p, s), Target).Some? == SiteSteps(s, Source).Some?
    ensures SiteSteps(s, Source).Some? ==> Moves(p, SiteSteps(s, Source).value, SiteSteps(MoveSite(p, s), Target).value)
    ensures RecoverSite(MoveSite(p, s), Target) == MoveSite(p, RecoverSite(s, Source))
  {
    hide MoveSite;
    if s.tree.promotion.Some? {
      var j := s.tree.promotion.value.journal;
      var m := MoveSite(p, s);
      JournalMoves(p, s);
      TestsMove(p, s, j.next);
      TestsMove(p, s, j.prev);
      UnjournalledMoves(p, s);
      var linked := s.(node := Link(ToGeneration(Source, j.next)));
      LinkedMoves(p, s, linked.node);
      UnjournalledMoves(p, linked);
      LinkedMoves(p, s, Absent);
      if JournalOk(s.tree.promotion.value, Source) && GenOk(s.tree, j.prev, Source) {
        PutBackMoves(p, s, j.prev);
        UnjournalledMoves(p, PutBack(s, j.prev));
      }
    } else {
      JournalMoves(p, s);
    }
  }

  lemma JournalMoves(p: Paths, s: Site)
    requires Named(p)
    ensures var m := MoveSite(p, s);
      && m.tree.gens.Keys == s.tree.gens.Keys
      && m.tree.promotion == (if s.tree.promotion.None? then None else Some(MovedPromotion(s.tree.promotion.value)))
  {
  }

  /** What recovery finds in an untouched environment of this code, it finds again after the relocation. */
  lemma RelocatedRecovers(p: Paths, s: Site)
    requires Named(p) && SiteFromSource(s) && AllAt(s, Source) && R.Safe(DiskOf(s))
    ensures AllAt(MoveSite(p, s), Target) && SiteSteps(MoveSite(p, s), Target).Some?
    ensures RecoverSite(MoveSite(p, s), Target) == MoveSite(p, RecoverSite(s, Source))
    ensures DiskOf(RecoverSite(s, Source)) == R.Settled(DiskOf(s))
  {
    R.RecoveryConverges(DiskOf(s));
    RecoverSiteIsRecovery(s, Source);
    RecoveryCommutesWithRelocation(p, s);
  }

  /** A finished generational migration leaves the relocated image of the site it started from. */
  lemma GoalIsRelocation(p: Paths, w: World)
    requires Named(p) && Migratable(w) && w.journal.None? && w.source.Link?
    ensures var g := Goal(p, w); Site(g.target, g.targetRoot.value) == MoveSite(p, Site(w.source, w.sourceRoot.value))
  {
  }

  /** So recovery after the migration gives the relocated image of recovery before it. */
  lemma MigrateThenRecover(p: Paths, w: World)
    requires Named(p) && Migratable(w) && w.journal.None? && w.source.Link?
    requires SiteFromSource(Site(w.source, w.sourceRoot.value))
    ensures var g := Goal(p, w); var s, m := Site(w.source, w.sourceRoot.value), Site(g.target, g.targetRoot.value);
      && SiteSteps(m, Target).Some? == SiteSteps(s, Source).Some?
      && RecoverSite(m, Target) == MoveSite(p, RecoverSite(s, Source))
  {
    hide MoveSite;
    GoalIsRelocation(p, w);
    RecoveryCommutesWithRelocation(p, Site(w.source, w.sourceRoot.value));
  }
}
