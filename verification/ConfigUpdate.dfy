/** `integration/nwo/fabric/network/update.go`: the difference between two
    channel configurations, as the read set and the write set of an update.

    The methods fill their maps key by key, in whatever order the keys come;
    each is proved against a function of its arguments, so the order does not
    matter. */
module ConfigUpdate {
  import opened Options
  import opened ConfigTree

  // ----- what the sets are -----

  /** Entries that are new (at version 0) or changed (at the next version). */
  function Changed<C(==)>(o: map<string, Entry<C>>, u: map<string, Entry<C>>): map<string, Entry<C>> {
    map k | k in u && !(k in o && SameContent(o[k], u[k])) ::
      u[k].(version := if k in o then Bump(o[k].version) else 0)
  }

  /** References, by version alone, to the entries that did not change. */
  function Unchanged<C(==)>(o: map<string, Entry<C>>, u: map<string, Entry<C>>, nothing: C): map<string, Entry<C>> {
    map k | k in o && k in u && SameContent(o[k], u[k]) :: Entry(o[k].version, "", nothing)
  }

  function ReadGroups(o: map<string, Group>, u: map<string, Group>, parent: Group, all: bool): map<string, Group>
    requires u == parent.groups
    decreases parent, 0
  {
    map k | k in o && k in u && (all || !SameTree(o[k], u[k])) :: ReadSet(o[k], u[k])
  }

  /** The elements whose version the update relies on: the groups on the way to
      a difference and, below a touched group, all surviving members. */
  function ReadSet(o: Group, u: Group): Group
    decreases u, 1
  {
    var all := Touched(o, u);
    Group(o.version, "",
          if all then Unchanged(o.policies, u.policies, None) else map[],
          if all then Unchanged(o.values, u.values, []) else map[],
          ReadGroups(o.groups, u.groups, u, all))
  }

  function WriteGroups(o: map<string, Group>, u: map<string, Group>, parent: Group, all: bool): map<string, Group>
    requires u == parent.groups
    decreases parent, 0
  {
    map k | k in u && !(k in o && !all && SameTree(o[k], u[k])) ::
      if k in o then WriteSet(o[k], u[k]) else Erase(u[k])
  }

  /** The elements the update sets.  A touched group is at its next version and
      lists its whole new membership; any other group lists only what changed
      below it.  An added group is the whole added tree at version 0. */
  function WriteSet(o: Group, u: Group): Group
    decreases u, 1
  {
    if Touched(o, u) then
      Group(Bump(o.version), u.modPolicy,
            Changed(o.policies, u.policies) + Unchanged(o.policies, u.policies, None),
            Changed(o.values, u.values) + Unchanged(o.values, u.values, []),
            WriteGroups(o.groups, u.groups, u, true))
    else
      Group(o.version, "", Changed(o.policies, u.policies), Changed(o.values, u.values),
            WriteGroups(o.groups, u.groups, u, false))
  }

  // ----- facts the methods rest on -----

  /** Nothing differs exactly when no member is named in the sets. */
  lemma NoDifferences(o: Group, u: Group)
    requires !Touched(o, u)
    ensures SameTree(o, u) <==>
            && Changed(o.policies, u.policies) == map[]
            && Changed(o.values, u.values) == map[]
            && WriteGroups(o.groups, u.groups, u, false) == map[]
    ensures ReadGroups(o.groups, u.groups, u, false).Keys == WriteGroups(o.groups, u.groups, u, false).Keys
  {
    SameTreeUnfold(o, u);
    NothingChanged(o.policies, u.policies);
    NothingChanged(o.values, u.values);
    NoSubgroupChanged(o.groups, u.groups, u);
  }

  lemma NoSubgroupChanged(o: map<string, Group>, u: map<string, Group>, parent: Group)
    requires u == parent.groups && o.Keys == u.Keys
    ensures WriteGroups(o, u, parent, false) == map[] <==> forall k | k in o :: SameTree(o[k], u[k])
    ensures ReadGroups(o, u, parent, false).Keys == WriteGroups(o, u, parent, false).Keys
  {
    var w := WriteGroups(o, u, parent, false);
    if w == map[] {
      forall k | k in o ensures SameTree(o[k], u[k]) {
        assert k !in w;
      }
    }
  }

  lemma NothingChanged<C>(o: map<string, Entry<C>>, u: map<string, Entry<C>>)
    requires o.Keys == u.Keys
    ensures Changed(o, u) == map[] <==> forall k | k in o :: SameContent(o[k], u[k])
  {
    if Changed(o, u) == map[] {
      forall k | k in o ensures SameContent(o[k], u[k]) {
        assert k !in Changed(o, u);
      }
    }
  }

  /** The sets of a named subgroup are those of the subgroup; an added one is whole. */
  lemma SubgroupSets(o: Group, u: Group, k: string)
    ensures k in WriteSet(o, u).groups <==>
            k in u.groups && (Touched(o, u) || k !in o.groups || !SameTree(o.groups[k], u.groups[k]))
    ensures k in ReadSet(o, u).groups <==> k in WriteSet(o, u).groups && k in o.groups
    ensures k in WriteSet(o, u).groups && k in o.groups ==>
              && WriteSet(o, u).groups[k] == WriteSet(o.groups[k], u.groups[k])
              && ReadSet(o, u).groups[k] == ReadSet(o.groups[k], u.groups[k])
    ensures k in WriteSet(o, u).groups && k !in o.groups ==> WriteSet(o, u).groups[k] == Erase(u.groups[k])
  {
    WriteSubgroup(o, u, k);
    ReadSubgroup(o, u, k);
  }

  lemma WriteSubgroup(o: Group, u: Group, k: string)
    ensures k in WriteSet(o, u).groups <==>
            k in u.groups && (Touched(o, u) || k !in o.groups || !SameTree(o.groups[k], u.groups[k]))
    ensures k in WriteSet(o, u).groups ==>
              WriteSet(o, u).groups[k] == if k in o.groups then WriteSet(o.groups[k], u.groups[k]) else Erase(u.groups[k])
  {
    assert WriteSet(o, u).groups == WriteGroups(o.groups, u.groups, u, Touched(o, u));
  }

  lemma ReadSubgroup(o: Group, u: Group, k: string)
    ensures k in ReadSet(o, u).groups <==>
            k in u.groups && k in o.groups && (Touched(o, u) || !SameTree(o.groups[k], u.groups[k]))
    ensures k in ReadSet(o, u).groups ==> ReadSet(o, u).groups[k] == ReadSet(o.groups[k], u.groups[k])
  {
    assert ReadSet(o, u).groups == ReadGroups(o.groups, u.groups, u, Touched(o, u));
  }

  /** Both sets of an unchanged group are the bare version of the original. */
  lemma UnchangedGroup(o: Group, u: Group)
    requires SameTree(o, u)
    ensures ReadSet(o, u) == WriteSet(o, u) == EMPTY_GROUP.(version := o.version)
  {
    SameTreeUnfold(o, u);
    NoDifferences(o, u);
    assert ReadGroups(o.groups, u.groups, u, false) == map[];
  }

  lemma AddedEntries<C>(m: map<string, Entry<C>>, nothing: C)
    ensures Changed(map[], m) == EraseEntries(m)
    ensures Changed(map[], m) + Unchanged(map[], m, nothing) == EraseEntries(m)
  {
  }

  lemma AddedGroups(u: Group, all: bool)
    ensures WriteGroups(map[], u.groups, u, all) == Erase(u).groups
  {
  }

  /** Diffing against the empty group yields the whole tree, with all versions 0. */
  lemma AddedGroup(u: Group)
    ensures WriteSet(EMPTY_GROUP, u).(version := 0, modPolicy := u.modPolicy) == Erase(u)
  {
    AddedEntries(u.policies, None);
    AddedEntries(u.values, []);
    AddedGroups(u, true);
    AddedGroups(u, false);
    var w, e := WriteSet(EMPTY_GROUP, u), Erase(u);
    assert w.policies == e.policies && w.values == e.values && w.groups == e.groups;
  }

  // ----- the operations -----

  /** `m` is the part of `target` that a loop builds by visiting the keys in `visited`. */
  ghost predicate Built<T>(m: map<string, T>, target: map<string, T>, visited: set<string>) {
    && (forall k :: k in m <==> k in target && k in visited)
    && (forall k :: k in m ==> m[k] == target[k])
  }

  lemma BuiltAll<T>(m: map<string, T>, target: map<string, T>, visited: set<string>)
    requires Built(m, target, visited)
    requires forall k :: k in target ==> k in visited
    ensures m == target
  {
  }

  /** `computePoliciesMapUpdate` and `computeValuesMapUpdate`, which differ only
      in the kind of content; `nothing` is the content of an empty message. */
  method ComputeEntriesMapUpdate<C(==)>(original: map<string, Entry<C>>, updated: map<string, Entry<C>>, nothing: C)
    returns (readSet: map<string, Entry<C>>, writeSet: map<string, Entry<C>>,
             sameSet: map<string, Entry<C>>, updatedMembers: bool)
    ensures readSet == map[]
    ensures writeSet == Changed(original, updated)
    ensures sameSet == Unchanged(original, updated, nothing)
    ensures updatedMembers <==> original.Keys != updated.Keys
  {
    readSet := map[];
    writeSet, sameSet, updatedMembers := VisitOriginalEntries(original, updated, nothing);
    BuiltAll(sameSet, Unchanged(original, updated, nothing), original.Keys);
    writeSet, updatedMembers := VisitUpdatedEntries(original, updated, writeSet, updatedMembers);
    BuiltAll(writeSet, Changed(original, updated), original.Keys + updated.Keys);
  }

  /** The loop over the original entries. */
  method VisitOriginalEntries<C(==)>(original: map<string, Entry<C>>, updated: map<string, Entry<C>>, nothing: C)
    returns (writeSet: map<string, Entry<C>>, sameSet: map<string, Entry<C>>, updatedMembers: bool)
    ensures Built(writeSet, Changed(original, updated), original.Keys)
    ensures Built(sameSet, Unchanged(original, updated, nothing), original.Keys)
    ensures updatedMembers <==> exists k :: k in original && k !in updated
  {
    writeSet, sameSet, updatedMembers := map[], map[], false;
    ghost var changed, same := Changed(original, updated), Unchanged(original, updated, nothing);
    var todo := original.Keys;
    while todo != {}
      invariant todo <= original.Keys
      invariant Built(writeSet, changed, original.Keys - todo)
      invariant Built(sameSet, same, original.Keys - todo)
      invariant updatedMembers <==> exists k :: k in original && k !in todo && k !in updated
      decreases |todo|
    {
      var name :| name in todo;
      todo := todo - {name};
      var entry := original[name];
      if name !in updated {
        updatedMembers := true;
      } else if SameContent(entry, updated[name]) {
        sameSet := sameSet[name := Entry(entry.version, "", nothing)];
      } else {
        writeSet := writeSet[name := Entry(Bump(entry.version), updated[name].modPolicy, updated[name].content)];
      }
    }
  }

  /** The loop over the updated entries, which adds the new ones. */
  method VisitUpdatedEntries<C(==)>(original: map<string, Entry<C>>, updated: map<string, Entry<C>>,
                                    handled: map<string, Entry<C>>, removed: bool)
    returns (writeSet: map<string, Entry<C>>, updatedMembers: bool)
    requires Built(handled, Changed(original, updated), original.Keys)
    ensures Built(writeSet, Changed(original, updated), original.Keys + updated.Keys)
    ensures updatedMembers <==> removed || exists k :: k in updated && k !in original
  {
    writeSet, updatedMembers := handled, removed;
    ghost var changed := Changed(original, updated);
    var todo := updated.Keys;
    while todo != {}
      invariant todo <= updated.Keys
      invariant Built(writeSet, changed, original.Keys + (updated.Keys - todo))
      invariant updatedMembers <==> removed || exists k :: k in updated && k !in todo && k !in original
      decreases |todo|
    {
      var name :| name in todo;
      todo := todo - {name};
      if name !in original {
        updatedMembers := true;
        writeSet := writeSet[name := Entry(0, updated[name].modPolicy, updated[name].content)];
      }
    }
  }

  function SameGroups(o: map<string, Group>, u: map<string, Group>): map<string, Group> {
    map k | k in o && k in u && SameTree(o[k], u[k]) :: ReadSet(o[k], u[k])
  }

  method ComputeGroupsMapUpdate(original: map<string, Group>, updated: map<string, Group>, ghost parent: Group)
    returns (readSet: map<string, Group>, writeSet: map<string, Group>,
             sameSet: map<string, Group>, updatedMembers: bool)
    requires updated == parent.groups
    ensures readSet == ReadGroups(original, updated, parent, false)
    ensures writeSet == WriteGroups(original, updated, parent, false)
    ensures sameSet == SameGroups(original, updated)
    ensures updatedMembers <==> original.Keys != updated.Keys
    decreases parent, 1
  {
    ghost var toRead, toWrite, same :=
      ReadGroups(original, updated, parent, false), WriteGroups(original, updated, parent, false), SameGroups(original, updated);
    readSet, writeSet, sameSet, updatedMembers := VisitOriginalGroups(original, updated, parent);
    BuiltAll(readSet, toRead, original.Keys);
    BuiltAll(sameSet, same, original.Keys);
    writeSet, updatedMembers := VisitUpdatedGroups(original, updated, parent, toWrite, writeSet, updatedMembers);
    BuiltAll(writeSet, toWrite, original.Keys + updated.Keys);
  }

  /** The loop over the original groups. */
  method VisitOriginalGroups(original: map<string, Group>, updated: map<string, Group>, ghost parent: Group)
    returns (readSet: map<string, Group>, writeSet: map<string, Group>,
             sameSet: map<string, Group>, updatedMembers: bool)
    requires updated == parent.groups
    ensures Built(readSet, ReadGroups(original, updated, parent, false), original.Keys)
    ensures Built(writeSet, WriteGroups(original, updated, parent, false), original.Keys)
    ensures Built(sameSet, SameGroups(original, updated), original.Keys)
    ensures updatedMembers <==> exists k :: k in original && k !in updated
    decreases parent, 0
  {
    readSet, writeSet, sameSet, updatedMembers := map[], map[], map[], false;
    ghost var toRead := ReadGroups(original, updated, parent, false);
    ghost var toWrite := WriteGroups(original, updated, parent, false);
    ghost var same := SameGroups(original, updated);
    var todo := original.Keys;
    while todo != {}
      invariant todo <= original.Keys
      invariant Built(readSet, toRead, original.Keys - todo)
      invariant Built(writeSet, toWrite, original.Keys - todo)
      invariant Built(sameSet, same, original.Keys - todo)
      invariant updatedMembers <==> exists k :: k in original && k !in todo && k !in updated
      decreases |todo|
    {
      var name :| name in todo;
      todo := todo - {name};
      if name !in updated {
        updatedMembers := true;
      } else {
        var groupReadSet, groupWriteSet, groupUpdated := ComputeGroupUpdate(original[name], updated[name]);
        if !groupUpdated {
          sameSet := sameSet[name := groupReadSet];
        } else {
          readSet := readSet[name := groupReadSet];
          writeSet := writeSet[name := groupWriteSet];
        }
      }
    }
  }

  /** The loop over the updated groups, which adds the new ones whole. */
  method VisitUpdatedGroups(original: map<string, Group>, updated: map<string, Group>, ghost parent: Group,
                            ghost toWrite: map<string, Group>, handled: map<string, Group>, removed: bool)
    returns (writeSet: map<string, Group>, updatedMembers: bool)
    requires updated == parent.groups
    requires Built(handled, toWrite, original.Keys)
    requires forall k | k in updated && k !in original :: k in toWrite && toWrite[k] == Erase(updated[k])
    ensures Built(writeSet, toWrite, original.Keys + updated.Keys)
    ensures updatedMembers <==> removed || exists k :: k in updated && k !in original
    decreases parent, 0
  {
    writeSet, updatedMembers := handled, removed;
    var todo := updated.Keys;
    while todo != {}
      invariant todo <= updated.Keys
      invariant Built(writeSet, toWrite, original.Keys + (updated.Keys - todo))
      invariant updatedMembers <==> removed || exists k :: k in updated && k !in todo && k !in original
      decreases |todo|
    {
      var name :| name in todo;
      todo := todo - {name};
      if name !in original {
        updatedMembers := true;
        var group := AddGroup(updated[name]);
        writeSet := writeSet[name := group];
      }
    }
  }

  /** The body of that loop: the diff against an empty group, with the version reset. */
  method AddGroup(updatedGroup: Group) returns (group: Group)
    ensures group == Erase(updatedGroup)
    decreases updatedGroup, 3
  {
    var _, groupWriteSet, _ := ComputeGroupUpdate(EMPTY_GROUP, updatedGroup);
    AddedGroup(updatedGroup);
    group := Group(0, updatedGroup.modPolicy, groupWriteSet.policies, groupWriteSet.values, groupWriteSet.groups);
  }

  /** Merges the unchanged members into a set, as the three loops at the end of
      `computeGroupUpdate` do. */
  method Merge<T>(target: map<string, T>, same: map<string, T>) returns (r: map<string, T>)
    ensures r == target + same
  {
    r := target;
    var todo := same.Keys;
    while todo != {}
      invariant todo <= same.Keys
      invariant r.Keys == target.Keys + (same.Keys - todo)
      invariant forall k | k in r :: r[k] == if k in same && k !in todo then same[k] else target[k]
      decreases |todo|
    {
      var k :| k in todo;
      r := r[k := same[k]];
      todo := todo - {k};
    }
  }

  /** The end of `computeGroupUpdate`, for a group whose mod policy or membership
      changed: the unchanged members join both sets. */
  method MergeUnchanged(original: Group, updated: Group, read: Group, write: Group,
                        samePolicies: map<string, ConfigPolicy>, sameValues: map<string, ConfigValue>,
                        sameGroups: map<string, Group>)
    returns (readSet: Group, writeSet: Group)
    ensures readSet == Group(original.version, "", read.policies + samePolicies, read.values + sameValues,
                             read.groups + sameGroups)
    ensures writeSet == Group(Bump(original.version), updated.modPolicy, write.policies + samePolicies,
                              write.values + sameValues, write.groups + sameGroups)
  {
    var rp := Merge(read.policies, samePolicies);
    var wp := Merge(write.policies, samePolicies);
    var rv := Merge(read.values, sameValues);
    var wv := Merge(write.values, sameValues);
    var rg := Merge(read.groups, sameGroups);
    var wg := Merge(write.groups, sameGroups);
    readSet := Group(original.version, "", rp, rv, rg);
    writeSet := Group(Bump(original.version), updated.modPolicy, wp, wv, wg);
  }

  lemma EmptyPlus<T>(m: map<string, T>)
    ensures map[] + m == m
  {
  }

  /** The sets of a group whose mod policy or membership changed. */
  lemma TouchedRead(o: Group, u: Group)
    requires Touched(o, u)
    ensures ReadSet(o, u) == Group(o.version, "", map[] + Unchanged(o.policies, u.policies, None),
                                   map[] + Unchanged(o.values, u.values, []),
                                   ReadGroups(o.groups, u.groups, u, false) + SameGroups(o.groups, u.groups))
  {
    SameGroupsRead(o.groups, u.groups, u);
    EmptyPlus(Unchanged(o.policies, u.policies, None));
    EmptyPlus(Unchanged(o.values, u.values, []));
  }

  lemma TouchedWrite(o: Group, u: Group)
    requires Touched(o, u)
    ensures WriteSet(o, u) == Group(Bump(o.version), u.modPolicy,
                                    Changed(o.policies, u.policies) + Unchanged(o.policies, u.policies, None),
                                    Changed(o.values, u.values) + Unchanged(o.values, u.values, []),
                                    WriteGroups(o.groups, u.groups, u, false) + SameGroups(o.groups, u.groups))
  {
    SameGroupsWrite(o.groups, u.groups, u);
  }

  method ComputeGroupUpdate(original: Group, updated: Group)
    returns (readSet: Group, writeSet: Group, updatedGroup: bool)
    ensures updatedGroup <==> !SameTree(original, updated)
    ensures readSet == ReadSet(original, updated)
    ensures writeSet == WriteSet(original, updated)
    decreases updated, 2
  {
    var readPolicies, writePolicies, samePolicies, policiesMembers :=
      ComputeEntriesMapUpdate(original.policies, updated.policies, None);
    var readValues, writeValues, sameValues, valuesMembers :=
      ComputeEntriesMapUpdate(original.values, updated.values, []);
    var readGroups, writeGroups, sameGroups, groupsMembers :=
      ComputeGroupsMapUpdate(original.groups, updated.groups, updated);

    var read := Group(original.version, "", readPolicies, readValues, readGroups);
    var write := Group(original.version, "", writePolicies, writeValues, writeGroups);

    if !(policiesMembers || valuesMembers || groupsMembers || original.modPolicy != updated.modPolicy) {
      NoDifferences(original, updated);
      if readPolicies == map[] && writePolicies == map[] && readValues == map[] && writeValues == map[]
         && readGroups == map[] && writeGroups == map[] {
        return EMPTY_GROUP.(version := original.version), EMPTY_GROUP.(version := original.version), false;
      }
      return read, write, true;
    }

    updatedGroup := true;
    SameTreeUnfold(original, updated);
    TouchedRead(original, updated);
    TouchedWrite(original, updated);
    readSet, writeSet := MergeUnchanged(original, updated, read, write, samePolicies, sameValues, sameGroups);
  }

  lemma SameGroupsRead(o: map<string, Group>, u: map<string, Group>, parent: Group)
    requires u == parent.groups
    ensures ReadGroups(o, u, parent, false) + SameGroups(o, u) == ReadGroups(o, u, parent, true)
  {
  }

  lemma SameGroupsWrite(o: map<string, Group>, u: map<string, Group>, parent: Group)
    requires u == parent.groups
    ensures WriteGroups(o, u, parent, false) + SameGroups(o, u) == WriteGroups(o, u, parent, true)
  {
    forall k | k in o && k in u && SameTree(o[k], u[k]) ensures ReadSet(o[k], u[k]) == WriteSet(o[k], u[k]) {
      UnchangedGroup(o[k], u[k]);
    }
  }

  datatype Config = Config(channelGroup: Option<Group>)

  datatype Outcome =
    | Update(readSet: Group, writeSet: Group)
    | NoOriginalGroup
    | NoUpdatedGroup
    | NoDifferencesDetected

  method Compute(original: Config, updated: Config) returns (r: Outcome)
    ensures r.NoOriginalGroup? <==> original.channelGroup.None?
    ensures r.NoUpdatedGroup? <==> original.channelGroup.Some? && updated.channelGroup.None?
    ensures r.NoDifferencesDetected? <==>
            && original.channelGroup.Some? && updated.channelGroup.Some?
            && SameTree(original.channelGroup.value, updated.channelGroup.value)
    ensures r.Update? ==>
              && r.readSet == ReadSet(original.channelGroup.value, updated.channelGroup.value)
              && r.writeSet == WriteSet(original.channelGroup.value, updated.channelGroup.value)
  {
    if original.channelGroup.None? {
      return NoOriginalGroup;
    }
    if updated.channelGroup.None? {
      return NoUpdatedGroup;
    }
    var readSet, writeSet, groupUpdated :=
      ComputeGroupUpdate(original.channelGroup.value, updated.channelGroup.value);
    if !groupUpdated {
      return NoDifferencesDetected;
    }
    return Update(readSet, writeSet);
  }
}
