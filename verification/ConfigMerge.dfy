/** JSON merge patches as the runtime configuration applies them, and as RFC 7396 defines them. */
module ConfigMerge {
  import opened Options

  /** A JSON value; the order of an object's members carries no meaning. */
  datatype Value =
    | Null
    | Bool(value: bool)
    | Number(token: string)
    | Text(chars: string)
    | List(items: seq<Value>)
    | Object(members: map<string, Value>)

  /** What a patch is merged into: the members of an object, none for anything else. */
  function Source(target: Value): map<string, Value> {
    if target.Object? then target.members else map[]
  }

  function Lookup(members: map<string, Value>, key: string): Option<Value> {
    if key in members then Some(members[key]) else None
  }

  /** The member's value, null for a missing one. */
  function Member(members: map<string, Value>, key: string): Value {
    if key in members then members[key] else Null
  }

  /** One member of the merge: null removes a member the target has and is kept as a member otherwise. */
  function MergedMember(source: map<string, Value>, patch: Value, key: string): Option<Value>
    requires patch.Object?
    decreases patch, 0
  {
    if key !in patch.members then Lookup(source, key)
    else if patch.members[key] != Null then Some(Merge(Member(source, key), patch.members[key]))
    else if key in source then None
    else Some(Null)
  }

  /** `merge_patch`, member by member. */
  function Merge(target: Value, patch: Value): Value
    decreases patch, 1
  {
    if !patch.Object? then patch
    else
      var source := Source(target);
      Object(map key | key in source.Keys + patch.members.Keys && MergedMember(source, patch, key).Some? ::
               MergedMember(source, patch, key).value)
  }

  /** One member of the standard's merge: null removes a member, or does nothing. */
  function RfcMember(source: map<string, Value>, patch: Value, key: string): Option<Value>
    requires patch.Object?
    decreases patch, 0
  {
    if key !in patch.members then Lookup(source, key)
    else if patch.members[key] != Null then Some(RfcMerge(Member(source, key), patch.members[key]))
    else None
  }

  /** RFC 7396, section 2. */
  function RfcMerge(target: Value, patch: Value): Value
    decreases patch, 1
  {
    if !patch.Object? then patch
    else
      var source := Source(target);
      Object(map key | key in source.Keys + patch.members.Keys && RfcMember(source, patch, key).Some? ::
               RfcMember(source, patch, key).value)
  }

  lemma MergeMembers(target: Value, patch: Value, key: string)
    requires patch.Object?
    ensures Merge(target, patch).Object?
    ensures Lookup(Merge(target, patch).members, key) == MergedMember(Source(target), patch, key)
  {
  }

  lemma RfcMembers(target: Value, patch: Value, key: string)
    requires patch.Object?
    ensures RfcMerge(target, patch).Object?
    ensures Lookup(RfcMerge(target, patch).members, key) == RfcMember(Source(target), patch, key)
  {
  }

  lemma SameMembers(a: map<string, Value>, b: map<string, Value>)
    requires forall key :: Lookup(a, key) == Lookup(b, key)
    ensures a == b
  {
    forall key
      ensures key in a <==> key in b
      ensures key in a && key in b ==> a[key] == b[key]
    {
      assert Lookup(a, key) == Lookup(b, key);
    }
  }

  /** The members still to do are the source's; all others are those of the goal. */
  ghost predicate Halfway(
      source: map<string, Value>, goal: map<string, Value>, result: map<string, Value>, todo: set<string>) {
    forall key :: Lookup(result, key) == if key in todo then Lookup(source, key) else Lookup(goal, key)
  }

  lemma OneDone(source: map<string, Value>, goal: map<string, Value>, before: map<string, Value>,
                result: map<string, Value>, todo: set<string>, key: string)
    requires Halfway(source, goal, before, todo) && Lookup(result, key) == Lookup(goal, key)
    requires result - {key} == before - {key}
    ensures Halfway(source, goal, result, todo - {key})
  {
    forall other
      ensures Lookup(result, other) == if other in todo - {key} then Lookup(source, other) else Lookup(goal, other)
    {
      if other != key {
        assert Lookup(result, other) == Lookup(result - {key}, other);
        assert Lookup(before, other) == Lookup(before - {key}, other);
      }
    }
  }

  method MergePatch(target: Value, patch: Value) returns (merged: Value)
    ensures merged == Merge(target, patch)
    decreases patch, 1
  {
    if !patch.Object? {
      return patch;
    }
    forall key {
      MergeMembers(target, patch, key);
    }
    var result := MergeItems(Source(target), patch, Merge(target, patch).members);
    merged := Object(result);
  }

  /** The loop over the patch's items. */
  method MergeItems(source: map<string, Value>, patch: Value, ghost goal: map<string, Value>)
      returns (result: map<string, Value>)
    requires patch.Object? && forall key :: Lookup(goal, key) == MergedMember(source, patch, key)
    ensures result == goal
    decreases patch, 0
  {
    result := source;
    var todo := patch.members.Keys;
    assert Halfway(source, goal, result, todo);
    while todo != {}
      invariant todo <= patch.members.Keys
      invariant Halfway(source, goal, result, todo)
      decreases |todo|
    {
      var key :| key in todo;
      var value := patch.members[key];
      ghost var before := result;
      if value == Null {
        if key in source {
          result := result - {key};
        } else {
          result := result[key := Null];
        }
      } else {
        var member := MergePatch(Member(source, key), value);
        result := result[key := member];
      }
      assert Lookup(before, key) == Lookup(source, key) && Lookup(goal, key) == MergedMember(source, patch, key);
      OneDone(source, goal, before, result, todo, key);
      todo := todo - {key};
    }
    SameMembers(result, goal);
  }

  /** What one member of an object becomes, in the words of the program's promise. */
  lemma MergeKeeps(target: map<string, Value>, patch: map<string, Value>, key: string)
    ensures var merged := Merge(Object(target), Object(patch));
      && merged.Object?
      && (key !in patch ==> (key in merged.members <==> key in target))
      && (key !in patch && key in target ==> merged.members[key] == target[key])
      && (key in patch && patch[key] == Null && key in target ==> key !in merged.members)
      && (key in patch && patch[key] == Null && key !in target ==> key in merged.members && merged.members[key] == Null)
      && (key in patch && patch[key] != Null && !patch[key].Object? ==> key in merged.members && merged.members[key] == patch[key])
      && (key in patch && patch[key].Object? && key in target ==>
            key in merged.members && merged.members[key] == Merge(target[key], patch[key]))
      && (key in patch && patch[key].Object? && key !in target ==> key in merged.members && merged.members[key] == patch[key])
  {
    MergeMembers(Object(target), Object(patch), key);
    if key in patch && key !in target {
      FreshMerge(Null, patch[key]);
    }
  }

  // ---------------------------------------------------------------- the standard's merge

  /** Every null in the patch names a member of the object it is merged into. */
  predicate NullsKnown(target: Value, patch: Value)
    decreases patch
  {
    patch.Object? ==>
      forall key | key in patch.members ::
        if patch.members[key] == Null then key in Source(target)
        else NullsKnown(Member(Source(target), key), patch.members[key])
  }

  /** The configuration's merge is the standard's exactly where no null names an unknown member. */
  lemma {:induction false} StandardMerge(target: Value, patch: Value)
    ensures Merge(target, patch) == RfcMerge(target, patch) <==> NullsKnown(target, patch)
    decreases patch
  {
    if patch.Object? {
      var source := Source(target);
      var ours, theirs := Merge(target, patch).members, RfcMerge(target, patch).members;
      forall key | key in patch.members
        ensures Lookup(ours, key) == Lookup(theirs, key) <==>
                if patch.members[key] == Null then key in source
                else NullsKnown(Member(source, key), patch.members[key])
      {
        MergeMembers(target, patch, key);
        RfcMembers(target, patch, key);
        StandardMerge(Member(source, key), patch.members[key]);
      }
      forall key | key !in patch.members
        ensures Lookup(ours, key) == Lookup(theirs, key)
      {
        MergeMembers(target, patch, key);
        RfcMembers(target, patch, key);
      }
      if NullsKnown(target, patch) {
        SameMembers(ours, theirs);
      }
    }
  }

  // ---------------------------------------------------------------- patches without null

  predicate NullFree(patch: Value) {
    patch != Null && (patch.Object? ==> forall key | key in patch.members :: NullFree(patch.members[key]))
  }

  /** Nowhere does `q` hold an object where `p` holds something else. */
  predicate Extends(p: Value, q: Value)
    decreases q
  {
    && (q.Object? ==> p.Object?)
    && (q.Object? ==> forall key | key in q.members && key in p.members :: Extends(p.members[key], q.members[key]))
  }

  /** Merged into anything but an object a patch is its own result. */
  lemma {:induction false} FreshMerge(target: Value, patch: Value)
    requires !target.Object?
    ensures Merge(target, patch) == patch
    decreases patch
  {
    if patch.Object? {
      forall key
        ensures Lookup(Merge(target, patch).members, key) == Lookup(patch.members, key)
      {
        MergeMembers(target, patch, key);
        if key in patch.members {
          FreshMerge(Null, patch.members[key]);
        }
      }
      SameMembers(Merge(target, patch).members, patch.members);
    }
  }

  lemma MergeIsPresent(target: Value, patch: Value)
    requires patch != Null
    ensures Merge(target, patch) != Null
  {
  }

  /** One member of the two ways to apply two patches. */
  lemma ComposeMember(target: Value, p: Value, q: Value, key: string)
    requires NullFree(p) && NullFree(q) && p.Object? && q.Object?
    requires key in q.members && key in p.members ==>
               var t := Member(Source(target), key);
               Merge(Merge(t, p.members[key]), q.members[key]) == Merge(t, Merge(p.members[key], q.members[key]))
    ensures Lookup(Merge(Merge(target, p), q).members, key) == Lookup(Merge(target, Merge(p, q)).members, key)
  {
    var once, both := Merge(target, p), Merge(p, q);
    MergeMembers(once, q, key);
    MergeMembers(target, p, key);
    MergeMembers(p, q, key);
    MergeMembers(target, both, key);
    if key in q.members {
      MergeIsPresent(Member(p.members, key), q.members[key]);
      if key !in p.members {
        FreshMerge(Null, q.members[key]);
      }
    }
  }

  /** Applying two patches is applying their merge. */
  lemma {:induction false} MergesCompose(target: Value, p: Value, q: Value)
    requires NullFree(p) && NullFree(q) && Extends(p, q)
    ensures Merge(Merge(target, p), q) == Merge(target, Merge(p, q))
    decreases q
  {
    if q.Object? {
      forall key
        ensures Lookup(Merge(Merge(target, p), q).members, key) == Lookup(Merge(target, Merge(p, q)).members, key)
      {
        if key in q.members && key in p.members {
          MergesCompose(Member(Source(target), key), p.members[key], q.members[key]);
        }
        ComposeMember(target, p, q, key);
      }
      SameMembers(Merge(Merge(target, p), q).members, Merge(target, Merge(p, q)).members);
    }
  }

  lemma {:induction false} LongerKey(keys: set<string>) returns (key: string)
    ensures forall k | k in keys :: |k| < |key|
    decreases |keys|
  {
    if keys == {} {
      key := "";
    } else {
      var k :| k in keys;
      var rest := LongerKey(keys - {k});
      key := if |k| < |rest| then rest else k + "x";
    }
  }

  /** Otherwise some target tells the two apart: the merged patch forgets that `p` replaced it. */
  lemma {:induction false} MergesDiffer(p: Value, q: Value) returns (target: Value)
    requires NullFree(p) && NullFree(q) && !Extends(p, q)
    ensures Merge(Merge(target, p), q) != Merge(target, Merge(p, q))
    decreases q
  {
    if !p.Object? {
      var key := LongerKey(q.members.Keys);
      target := Object(map[key := Null]);
      FreshMerge(p, q);
      MergeMembers(target, q, key);
      assert Lookup(q.members, key).None?;
    } else {
      var key :| key in q.members && key in p.members && !Extends(p.members[key], q.members[key]);
      var t := MergesDiffer(p.members[key], q.members[key]);
      target := Object(map[key := t]);
      MergeMembers(Merge(target, p), q, key);
      MergeMembers(target, p, key);
      MergeMembers(p, q, key);
      MergeMembers(target, Merge(p, q), key);
      MergeIsPresent(p.members[key], q.members[key]);
    }
  }

  /** Two patches without null can be merged first, whatever the target, exactly if `q` extends `p`. */
  lemma ComposeExactly(p: Value, q: Value)
    requires NullFree(p) && NullFree(q)
    ensures (forall target :: Merge(Merge(target, p), q) == Merge(target, Merge(p, q))) <==> Extends(p, q)
  {
    if Extends(p, q) {
      forall target {
        MergesCompose(target, p, q);
      }
    } else {
      var target := MergesDiffer(p, q);
    }
  }

  /** A patch without null, applied again, changes nothing. */
  lemma {:induction false} MergeIsIdempotent(target: Value, patch: Value)
    requires NullFree(patch)
    ensures Merge(Merge(target, patch), patch) == Merge(target, patch)
    decreases patch
  {
    if patch.Object? {
      var once := Merge(target, patch);
      forall key
        ensures Lookup(Merge(once, patch).members, key) == Lookup(once.members, key)
      {
        MergeMembers(target, patch, key);
        MergeMembers(once, patch, key);
        if key in patch.members {
          MergeIsIdempotent(Member(Source(target), key), patch.members[key]);
        }
      }
      SameMembers(Merge(once, patch).members, once.members);
    }
  }
}
