/**
 * Replacing one path by another in a script, as `replacePathInScript` does with split and join:
 * every leftmost non-overlapping occurrence.
 */
module PathRewrite {

  predicate StartsWith(s: string, p: string) {
    |p| <= |s| && s[..|p|] == p
  }

  function Replace(s: string, before: string, after: string): string
    requires before != ""
    decreases |s|
  {
    if s == "" then ""
    else if StartsWith(s, before) then after + Replace(s[|before|..], before, after)
    else [s[0]] + Replace(s[1..], before, after)
  }

  predicate OccursAt(s: string, p: string, k: nat) {
    k + |p| <= |s| && s[k..k + |p|] == p
  }

  predicate Contains(s: string, p: string) {
    exists k: nat | k <= |s| :: OccursAt(s, p, k)
  }

  /**
   * Neither path contains the other, no end of the new one begins the old one, and an end of the old
   * one that begins the new one begins the old one as well.
   */
  predicate Stable(before: string, after: string) {
    && before != "" && after != ""
    && !Contains(before, after) && !Contains(after, before)
    && (forall k | 0 < k < |after| :: !StartsWith(before, after[k..]))
    && (forall k | 0 < k < |before| && StartsWith(after, before[k..]) :: StartsWith(before, before[k..]))
  }

  /** What two paths have to be for every rerun to change nothing. */
  predicate Repeatable(before: string, after: string) {
    before != "" && (before == after || Stable(before, after))
  }

  /** An end of `before` that begins `after + rest` contains `after` or begins it. */
  lemma EndMeetsPath(before: string, after: string, rest: string, k: nat)
    requires k < |before| && StartsWith(after + rest, before[k..])
    ensures OccursAt(before, after, k) || StartsWith(after, before[k..])
  {
    var p := before[k..];
    if |after| <= |p| {
      assert before[k..k + |after|] == p[..|after|] == (after + rest)[..|after|] == after;
    } else {
      assert after[..|p|] == (after + rest)[..|p|] == p;
    }
  }

  /** A non-empty end of `before` that begins the rewritten text began the original. */
  lemma {:induction false} BeginningSurvives(s: string, before: string, after: string, k: nat)
    requires Stable(before, after) && k < |before|
    requires StartsWith(Replace(s, before, after), before[k..])
    ensures StartsWith(s, before[k..])
    decreases |s|
  {
    var r := Replace(s, before, after);
    var p := before[k..];
    if s == "" {
    } else if StartsWith(s, before) {
      EndMeetsPath(before, after, Replace(s[|before|..], before, after), k);
      assert k == 0 ==> before[k..] == before && (StartsWith(after, before) ==> OccursAt(after, before, 0));
      assert StartsWith(before, p);
      assert s[..|p|] == s[..|before|][..|p|];
    } else {
      var t := Replace(s[1..], before, after);
      assert r[0] == s[0] && r[1..] == t;
      assert p[0] == s[0];
      if k + 1 < |before| {
        assert before[k + 1..] == p[1..];
        assert t[..|p| - 1] == r[1..|p|] == p[1..];
        BeginningSurvives(s[1..], before, after, k + 1);
        assert s[..|p|] == [s[0]] + s[1..][..|p| - 1];
      }
    }
  }

  /** The old path, begun inside the new one and ending beyond it, begins with an end of the new one. */
  lemma StraddleMeetsPath(before: string, after: string, rest: string, k: nat)
    requires k < |after| < k + |before|
    requires OccursAt(after + rest, before, k)
    ensures StartsWith(before, after[k..]) && (k == 0 ==> OccursAt(before, after, 0))
  {
    var hit := (after + rest)[k..k + |before|];
    assert hit[..|after| - k] == after[k..];
  }

  /** After a rewrite no occurrence of the old path is left. */
  lemma {:induction false} NoneLeft(s: string, before: string, after: string, k: nat)
    requires Stable(before, after)
    ensures !OccursAt(Replace(s, before, after), before, k)
    decreases |s|
  {
    var r := Replace(s, before, after);
    if s != "" && OccursAt(r, before, k) {
      if StartsWith(s, before) {
        var t := Replace(s[|before|..], before, after);
        if |after| <= k {
          assert r[k..k + |before|] == t[k - |after|..k - |after| + |before|];
          NoneLeft(s[|before|..], before, after, k - |after|);
        } else if k + |before| <= |after| {
          assert r[k..k + |before|] == after[k..k + |before|];
          assert OccursAt(after, before, k);
        } else {
          assert r == after + t;
          StraddleMeetsPath(before, after, t, k);
          assert false;
        }
      } else if k == 0 {
        assert before[0..] == before;
        BeginningSurvives(s, before, after, 0);
      } else {
        assert r[k..k + |before|] == r[1..][k - 1..k - 1 + |before|];
        NoneLeft(s[1..], before, after, k - 1);
      }
    }
  }

  lemma {:induction false} NothingToReplace(s: string, before: string, after: string)
    requires before != "" && forall k: nat :: !OccursAt(s, before, k)
    ensures Replace(s, before, after) == s
    decreases |s|
  {
    if s != "" {
      assert !OccursAt(s, before, 0);
      forall k: nat ensures !OccursAt(s[1..], before, k) {
        assert !OccursAt(s, before, k + 1);
        assert k + 1 + |before| <= |s| ==> s[k + 1..k + 1 + |before|] == s[1..][k..k + |before|];
      }
      NothingToReplace(s[1..], before, after);
    }
  }

  lemma {:induction false} SamePathChangesNothing(s: string, before: string)
    requires before != ""
    ensures Replace(s, before, before) == s
    decreases |s|
  {
    if s != "" {
      if StartsWith(s, before) {
        SamePathChangesNothing(s[|before|..], before);
      } else {
        SamePathChangesNothing(s[1..], before);
      }
    }
  }

  /** Rewriting an already rewritten script changes nothing, for every script. */
  lemma RewriteIdempotent(s: string, before: string, after: string)
    requires Repeatable(before, after)
    ensures Replace(Replace(s, before, after), before, after) == Replace(s, before, after)
  {
    var r := Replace(s, before, after);
    if before == after {
      SamePathChangesNothing(r, before);
    } else {
      forall k: nat ensures !OccursAt(r, before, k) {
        NoneLeft(s, before, after, k);
      }
      NothingToReplace(r, before, after);
    }
  }

  lemma {:induction false} LongerPathGrows(s: string, before: string, after: string)
    requires before != "" && |before| < |after|
    ensures |Replace(s, before, after)| >= |s|
    ensures Contains(s, before) ==> |Replace(s, before, after)| > |s|
    decreases |s|
  {
    if s != "" {
      if StartsWith(s, before) {
        LongerPathGrows(s[|before|..], before, after);
      } else {
        LongerPathGrows(s[1..], before, after);
        if Contains(s, before) {
          var k: nat :| k <= |s| && OccursAt(s, before, k);
          assert s[1..][k - 1..k - 1 + |before|] == s[k..k + |before|];
          assert OccursAt(s[1..], before, k - 1);
        }
      }
    }
  }

  /** Separation is needed: whenever the new path contains the old one, a rerun changes a script again. */
  lemma NestedPathBreaksReruns(before: string, after: string)
    requires before != "" && |before| < |after| && Contains(after, before)
    ensures Replace(before, before, after) == after
    ensures Replace(Replace(before, before, after), before, after) != Replace(before, before, after)
  {
    assert before[|before|..] == "" && Replace("", before, after) == "";
    assert before[..|before|] == before;
    assert Replace(before, before, after) == after + "" == after;
    LongerPathGrows(after, before, after);
  }

  // ---------------------------------------------------------------- exactly when

  lemma {:induction false} ShorterPathShrinks(s: string, before: string, after: string)
    requires before != "" && |after| < |before|
    ensures |Replace(s, before, after)| <= |s|
    ensures Contains(s, before) ==> |Replace(s, before, after)| < |s|
    decreases |s|
  {
    if s != "" {
      if StartsWith(s, before) {
        ShorterPathShrinks(s[|before|..], before, after);
      } else {
        ShorterPathShrinks(s[1..], before, after);
        ContainsTail(s, before);
      }
    }
  }

  lemma ContainsTail(s: string, p: string)
    requires s != "" && p != "" && !StartsWith(s, p)
    ensures Contains(s, p) ==> Contains(s[1..], p)
  {
    if Contains(s, p) {
      var k: nat :| k <= |s| && OccursAt(s, p, k);
      assert s[1..][k - 1..k - 1 + |p|] == s[k..k + |p|];
      assert OccursAt(s[1..], p, k - 1);
    }
  }

  lemma {:induction false} SameLengthChanges(s: string, before: string, after: string)
    requires before != "" && |after| == |before| && before != after && Contains(s, before)
    ensures Replace(s, before, after) != s
    decreases |s|
  {
    var k: nat :| k <= |s| && OccursAt(s, before, k);
    if StartsWith(s, before) {
      assert (after + Replace(s[|before|..], before, after))[..|before|] == after;
    } else {
      ContainsTail(s, before);
      SameLengthChanges(s[1..], before, after);
      assert Replace(s, before, after)[1..] == Replace(s[1..], before, after);
    }
  }

  /** A rewrite changes a script exactly if the old path occurs in it. */
  lemma ChangesExactly(s: string, before: string, after: string)
    requires before != "" && before != after
    ensures Replace(s, before, after) == s <==> !Contains(s, before)
  {
    if Contains(s, before) {
      if |before| < |after| {
        LongerPathGrows(s, before, after);
      } else if |after| < |before| {
        ShorterPathShrinks(s, before, after);
      } else {
        SameLengthChanges(s, before, after);
      }
    } else {
      forall k: nat
        ensures !OccursAt(s, before, k)
      {
        assert k <= |s| ==> !OccursAt(s, before, k);
      }
      NothingToReplace(s, before, after);
    }
  }

  /** A rerun on a script changes nothing if and only if the first run left no occurrence of the old path. */
  lemma RerunExactly(s: string, before: string, after: string)
    requires before != "" && before != after
    ensures Replace(Replace(s, before, after), before, after) == Replace(s, before, after)
            <==> !Contains(Replace(s, before, after), before)
  {
    ChangesExactly(Replace(s, before, after), before, after);
  }

  /** A script whose first occurrence of the old path is the one between `lead` and `rest`. */
  predicate FirstBetween(lead: string, before: string, rest: string) {
    forall k: nat | k < |lead| :: !OccursAt(lead + before + rest, before, k)
  }

  lemma {:induction false} FirstRewritten(lead: string, before: string, after: string, rest: string)
    requires before != "" && FirstBetween(lead, before, rest) && |rest| < |before|
    ensures Replace(lead + before + rest, before, after) == lead + after + rest
    decreases |lead|
  {
    var s := lead + before + rest;
    if lead == "" {
      assert s == before + rest && s[..|before|] == before && s[|before|..] == rest;
      TooShort(rest, before, after);
    } else {
      assert !OccursAt(s, before, 0);
      assert s[1..] == lead[1..] + before + rest;
      forall k: nat | k < |lead| - 1
        ensures !OccursAt(s[1..], before, k)
      {
        assert !OccursAt(s, before, k + 1);
        assert k + 1 + |before| <= |s| ==> s[1..][k..k + |before|] == s[k + 1..k + 1 + |before|];
      }
      FirstRewritten(lead[1..], before, after, rest);
      assert [lead[0]] + (lead[1..] + after + rest) == lead + after + rest;
    }
  }

  lemma {:induction false} TooShort(s: string, before: string, after: string)
    requires |s| < |before|
    ensures Replace(s, before, after) == s
    decreases |s|
  {
    if s != "" {
      TooShort(s[1..], before, after);
    }
  }

  /** A rewritten first occurrence that, with what surrounds it, contains the old path again. */
  lemma OverlapBreaksReruns(lead: string, before: string, after: string, rest: string)
    requires before != "" && before != after && |rest| < |before| && FirstBetween(lead, before, rest)
    requires Contains(lead + after + rest, before)
    ensures !Repeats(lead + before + rest, before, after)
  {
    FirstRewritten(lead, before, after, rest);
    RerunExactly(lead + before + rest, before, after);
  }

  /** A rerun leaves the rewritten script as it is. */
  predicate Repeats(s: string, before: string, after: string)
    requires before != ""
  {
    Replace(Replace(s, before, after), before, after) == Replace(s, before, after)
  }

  /** Some script is changed by a rerun. */
  ghost predicate RerunsDiffer(before: string, after: string)
    requires before != ""
  {
    exists s :: !Repeats(s, before, after)
  }

  /** An earlier occurrence in a text that repeats a beginning of the path gives the path a period. */
  lemma EarlierGivesPeriod(before: string, lead: string, rest: string, j: nat)
    requires j < |lead| <= |before| && lead == before[..|lead|]
    requires OccursAt(lead + before + rest, before, j)
    ensures forall i | |lead| - j <= i < |before| :: before[i] == before[i - (|lead| - j)]
    ensures forall i | 0 <= i < |lead| - j :: before[i] == before[i + j]
  {
    var t := lead + before + rest;
    assert forall i | 0 <= i < |before| :: before[i] == t[j..j + |before|][i] == t[j + i];
  }

  /** The new path inside the old one: its first occurrence there gives the script. */
  lemma NewInsideOldBreaks(before: string, after: string)
    requires Contains(before, after) && before != after && after != ""
    ensures before != "" && RerunsDiffer(before, after)
  {
    var k := FirstOccurrence(before, after);
    var lead, rest := before[..k], before[k + |after|..];
    assert lead + after + rest == before;
    forall j: nat | j < k
      ensures !OccursAt(lead + before + rest, before, j)
    {
      if OccursAt(lead + before + rest, before, j) {
        EarlierGivesPeriod(before, lead, rest, j);
        EarlierByPeriod(before, after, k, k - j);
        assert false;
      }
    }
    assert OccursAt(lead + after + rest, before, 0);
    OverlapBreaksReruns(lead, before, after, rest);
  }

  lemma FirstOccurrence(s: string, p: string) returns (k: nat)
    requires Contains(s, p)
    ensures k <= |s| && OccursAt(s, p, k) && forall j: nat | j < k :: !OccursAt(s, p, j)
  {
    k := 0;
    while !OccursAt(s, p, k)
      invariant k <= |s| && forall j: nat | j < k :: !OccursAt(s, p, j)
      decreases |s| - k
    {
      k := k + 1;
    }
  }

  /** In a text with a period an occurrence repeats one period earlier. */
  lemma EarlierByPeriod(s: string, p: string, k: nat, d: nat)
    requires OccursAt(s, p, k) && d <= k && forall i | d <= i < |s| :: s[i] == s[i - d]
    ensures OccursAt(s, p, k - d)
  {
    var u, v := s[k - d..k - d + |p|], s[k..k + |p|];
    forall i | 0 <= i < |u|
      ensures u[i] == v[i]
    {
      assert s[k + i] == s[k + i - d];
    }
  }

  /** An end of the new path that begins the old one. */
  lemma NewEndBeginsOldBreaks(before: string, after: string, k: nat)
    requires before != "" && before != after && k < |after| && StartsWith(before, after[k..])
    ensures RerunsDiffer(before, after)
  {
    var rest := before[|after| - k..];
    assert after[k..] + rest == before;
    assert (after + rest)[k..k + |before|] == before;
    assert "" + after + rest == after + rest;
    assert OccursAt("" + after + rest, before, k);
    OverlapBreaksReruns("", before, after, rest);
  }

  /** An end of the old path that begins the new one, but not the old one itself. */
  lemma OldEndBeginsNewBreaks(before: string, after: string, k: nat)
    requires 0 < k < |before| && StartsWith(after, before[k..]) && !StartsWith(before, before[k..])
    ensures RerunsDiffer(before, after)
  {
    var lead := before[..k];
    forall j: nat | j < k
      ensures !OccursAt(lead + before + "", before, j)
    {
      if OccursAt(lead + before + "", before, j) {
        EarlierGivesPeriod(before, lead, "", j);
        PeriodsAdd(before, j, k - j);
        assert false;
      }
    }
    assert (lead + after + "")[..|before|] == lead + before[k..] == before;
    assert OccursAt(lead + after + "", before, 0);
    OverlapBreaksReruns(lead, before, after, "");
  }

  /** A period `d` of the text and a period `j` of its first `j + d` characters make it begin with its end from `j + d` on. */
  lemma PeriodsAdd(s: string, j: nat, d: nat)
    requires 0 < d && j + d <= |s|
    requires forall i | d <= i < |s| :: s[i] == s[i - d]
    requires forall i | 0 <= i < d :: s[i] == s[i + j]
    ensures StartsWith(s, s[j + d..])
  {
    forall i: nat | i + j + d < |s|
      ensures s[i] == s[i + j + d]
    {
      PeriodSpreads(s, j, d, i);
    }
    assert s[..|s| - (j + d)] == s[j + d..];
  }

  lemma {:induction false} PeriodSpreads(s: string, j: nat, d: nat, i: nat)
    requires 0 < d && i + j < |s|
    requires forall i | d <= i < |s| :: s[i] == s[i - d]
    requires forall i | 0 <= i < d && i + j < |s| :: s[i] == s[i + j]
    ensures s[i] == s[i + j]
    decreases i
  {
    if i >= d {
      PeriodSpreads(s, j, d, i - d);
    }
  }

  /**
   * Whether reruns can ever change a script is decided by the two paths alone: none does if and only
   * if they are equal or `Stable`.
   */
  lemma RepeatableExactly(before: string, after: string)
    requires before != "" && after != ""
    ensures (forall s :: Repeats(s, before, after)) <==> Repeatable(before, after)
  {
    if Repeatable(before, after) {
      forall s
        ensures Repeats(s, before, after)
      {
        RewriteIdempotent(s, before, after);
      }
    } else {
      UnstableBreaks(before, after);
    }
  }

  lemma UnstableBreaks(before: string, after: string)
    requires before != "" && after != "" && before != after && !Stable(before, after)
    ensures RerunsDiffer(before, after)
  {
    if Contains(before, after) {
      NewInsideOldBreaks(before, after);
    } else if Contains(after, before) {
      assert before + "" == before && "" + before + "" == before && "" + after + "" == after;
      OverlapBreaksReruns("", before, after, "");
    } else if exists k :: 0 < k < |after| && StartsWith(before, after[k..]) {
      var k :| 0 < k < |after| && StartsWith(before, after[k..]);
      NewEndBeginsOldBreaks(before, after, k);
    } else {
      var k :| 0 < k < |before| && StartsWith(after, before[k..]) && !StartsWith(before, before[k..]);
      OldEndBeginsNewBreaks(before, after, k);
    }
  }

  // ---------------------------------------------------------------- the program's own paths

  /** The package-local environment of a package installed globally under an npm prefix. */
  function LocalVenv(prefix: string): string {
    prefix + "/lib/node_modules/custback/.venv"
  }

  /** The durable default target under the same prefix. */
  function DurableVenv(prefix: string): string {
    prefix + "/.custback-venv"
  }

  /** An npm prefix named like the target itself: there a rerun of a direct migration may corrupt scripts. */
  lemma UnluckyPrefix()
    ensures var before, after := LocalVenv("/.custback-venv"), DurableVenv("/.custback-venv");
      !Repeatable(before, after) && RerunsDiffer(before, after)
  {
    var before, after := LocalVenv("/.custback-venv"), DurableVenv("/.custback-venv");
    assert after[15..] == "/.custback-venv";
    assert before[..15] == "/.custback-venv";
    NewEndBeginsOldBreaks(before, after, 15);
  }

  // ---------------------------------------------------------------- paths under two roots

  function Under(root: string, name: string): string {
    root + "/" + name
  }

  predicate EndsWith(s: string, p: string) {
    |p| <= |s| && s[|s| - |p|..] == p
  }

  /**
   * A generation's two paths never disturb each other, unless one root ends with the other or the
   * generation's name is a component of a root.
   */
  lemma GenerationPathsStable(r: string, t: string, name: string)
    requires r != "" && t != "" && r[0] == t[0] == '/' && '/' !in name && name != ""
    requires !EndsWith(r, t) && !EndsWith(t, r)
    requires !Contains(r, "/" + name) && !Contains(t, "/" + name)
    ensures Stable(Under(r, name), Under(t, name))
  {
    NotInside(r, t, name);
    NotInside(t, r, name);
    EndsDoNotBegin(r, t, name);
    EndsDoNotBegin(t, r, name);
  }

  /** Where `"/" + name` stands in a path under a root, it is a component of the root or the last one. */
  lemma ComponentPlace(root: string, name: string, k: nat)
    requires OccursAt(Under(root, name), "/" + name, k)
    ensures k == |root| || Contains(root, "/" + name) || '/' in name
  {
    var a, c := Under(root, name), "/" + name;
    if k + |c| <= |root| {
      assert root[k..k + |c|] == a[k..k + |c|];
      assert OccursAt(root, c, k);
    } else if k < |root| {
      assert a[|root|] == a[k..k + |c|][|root| - k] == c[|root| - k] == name[|root| - k - 1];
      assert name[|root| - k - 1] in name;
    }
  }

  lemma WholePathInside(r: string, t: string, name: string, k: nat)
    requires OccursAt(Under(r, name), Under(t, name), k)
    ensures EndsWith(r, t) || Contains(r, "/" + name) || '/' in name
  {
    var a, b, c := Under(r, name), Under(t, name), "/" + name;
    assert a[k + |t|..k + |t| + |c|] == a[k..k + |b|][|t|..] == c;
    ComponentPlace(r, name, k + |t|);
    assert t == a[k..k + |b|][..|t|] == a[k..k + |t|];
    assert a[..|r|] == r && a[..|r|][k..k + |t|] == a[k..k + |t|];
  }

  lemma NotInside(r: string, t: string, name: string)
    requires '/' !in name && !EndsWith(r, t) && !Contains(r, "/" + name)
    ensures !Contains(Under(r, name), Under(t, name))
  {
    if Contains(Under(r, name), Under(t, name)) {
      var k: nat :| k <= |Under(r, name)| && OccursAt(Under(r, name), Under(t, name), k);
      WholePathInside(r, t, name, k);
      assert false;
    }
  }

  /** An end of a generation's path that begins an absolute path begins no later than the last separator. */
  lemma SlashBefore(r: string, t: string, name: string, k: nat)
    requires t != "" && t[0] == '/' && k < |Under(r, name)|
    requires StartsWith(Under(t, name), Under(r, name)[k..])
    ensures k <= |r| || '/' in name
  {
    var a := Under(r, name);
    assert a[k] == Under(t, name)[0] == '/';
    if k > |r| {
      assert a[k] == name[k - |r| - 1];
      assert name[k - |r| - 1] in name;
    }
  }

  lemma EndMeetsRoots(r: string, t: string, name: string, k: nat)
    requires t != "" && t[0] == '/' && k < |Under(r, name)|
    requires StartsWith(Under(t, name), Under(r, name)[k..])
    ensures EndsWith(r, t) || Contains(t, "/" + name) || '/' in name
  {
    var a, b, c := Under(r, name), Under(t, name), "/" + name;
    SlashBefore(r, t, name, k);
    if k <= |r| {
      var p := a[k..];
      assert b[|r| - k..|r| - k + |c|] == b[..|p|][|r| - k..] == p[|r| - k..] == c;
      ComponentPlace(t, name, |r| - k);
      if |r| - k == |t| {
        assert r[k..] == p[..|t|] == b[..|t|] == t;
      }
    }
  }

  lemma EndsDoNotBegin(r: string, t: string, name: string)
    requires t != "" && t[0] == '/' && '/' !in name
    requires !EndsWith(r, t) && !Contains(t, "/" + name)
    ensures forall k | 0 < k < |Under(r, name)| :: !StartsWith(Under(t, name), Under(r, name)[k..])
  {
    forall k | 0 < k < |Under(r, name)|
      ensures !StartsWith(Under(t, name), Under(r, name)[k..])
    {
      if StartsWith(Under(t, name), Under(r, name)[k..]) {
        EndMeetsRoots(r, t, name, k);
        assert false;
      }
    }
  }

  /** The generations root beside an environment. */
  function LocalRoot(prefix: string): string {
    prefix + "/lib/node_modules/custback/.venv.custback-generations"
  }

  function DurableRoot(prefix: string): string {
    prefix + "/.custback-venv.custback-generations"
  }

  /** Under every prefix the two default roots are as `GenerationPathsStable` wants them. */
  lemma DefaultRootsDiffer(prefix: string)
    ensures !EndsWith(LocalRoot(prefix), DurableRoot(prefix)) && !EndsWith(DurableRoot(prefix), LocalRoot(prefix))
  {
    var r, t := LocalRoot(prefix), DurableRoot(prefix);
    assert r[|r| - 26] == '.' && t[|t| - 26] == '-';
  }
}
