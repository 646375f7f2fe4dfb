/** What the ordering service does with a configuration update, and what that
    makes of the updates of `ConfigUpdate`.

    The rules are those of the Hyperledger Fabric documentation, "Channel
    Configuration (configtx)", section "Configuration updates": every element of
    the read set must exist at the given version; the elements of the write set
    that are not in the read set at the same version form the update set; an
    element of the update set is at the next version, or new at version 0; and
    the new configuration is the old one with the update set applied.  A group
    in the update set lists its membership; any other group keeps its own.
    Signatures on the update are left aside. */
module ConfigApply {
  import opened Options
  import opened ConfigTree
  import opened ConfigUpdate

  // ----- applying an update -----

  /** The element is in the read set at the same version, so it is not updated. */
  predicate KeptEntry<C>(r: map<string, Entry<C>>, w: map<string, Entry<C>>, k: string)
    requires k in w
  {
    k in r && r[k].version == w[k].version
  }

  predicate ReadEntriesOk<C>(o: map<string, Entry<C>>, r: map<string, Entry<C>>) {
    forall k | k in r :: k in o && o[k].version == r[k].version
  }

  predicate WriteEntriesOk<C>(o: map<string, Entry<C>>, r: map<string, Entry<C>>, w: map<string, Entry<C>>) {
    forall k | k in w :: KeptEntry(r, w, k) || w[k].version == if k in o then Bump(o[k].version) else 0
  }

  /** The given members, each as the update set has it or else as it was. */
  function ApplyEntries<C>(o: map<string, Entry<C>>, r: map<string, Entry<C>>, w: map<string, Entry<C>>,
                           members: set<string>): map<string, Entry<C>>
    requires members <= o.Keys + w.Keys
  {
    map k | k in members :: if k in w && !(k in o && KeptEntry(r, w, k)) then w[k] else o[k]
  }

  predicate ReadOk(o: Group, r: Group) {
    && r.version == o.version
    && ReadEntriesOk(o.policies, r.policies)
    && ReadEntriesOk(o.values, r.values)
    && forall k | k in r.groups :: k in o.groups && ReadOk(o.groups[k], r.groups[k])
  }

  /** The subgroup with the given name, if there is one. */
  function Sub(g: Option<Group>, k: string): Option<Group> {
    if g.Some? && k in g.value.groups then Some(g.value.groups[k]) else None
  }

  function OrEmpty(g: Option<Group>): Group {
    if g.Some? then g.value else EMPTY_GROUP
  }

  predicate Kept(r: Option<Group>, w: Group) {
    r.Some? && r.value.version == w.version
  }

  predicate WriteOk(o: Option<Group>, r: Option<Group>, w: Group)
    decreases w
  {
    && (Kept(r, w) || w.version == if o.Some? then Bump(o.value.version) else 0)
    && WriteEntriesOk(OrEmpty(o).policies, OrEmpty(r).policies, w.policies)
    && WriteEntriesOk(OrEmpty(o).values, OrEmpty(r).values, w.values)
    && forall k | k in w.groups :: WriteOk(Sub(o, k), Sub(r, k), w.groups[k])
  }

  function ApplyGroup(o: Option<Group>, r: Option<Group>, w: Group): Group
    decreases w
  {
    var from, read := OrEmpty(o), OrEmpty(r);
    if o.Some? && Kept(r, w) then
      Group(from.version, from.modPolicy,
            ApplyEntries(from.policies, read.policies, w.policies, from.policies.Keys),
            ApplyEntries(from.values, read.values, w.values, from.values.Keys),
            map k | k in from.groups ::
              if k in w.groups then ApplyGroup(Sub(o, k), Sub(r, k), w.groups[k]) else from.groups[k])
    else
      Group(w.version, w.modPolicy,
            ApplyEntries(from.policies, read.policies, w.policies, w.policies.Keys),
            ApplyEntries(from.values, read.values, w.values, w.values.Keys),
            map k | k in w.groups :: ApplyGroup(Sub(o, k), Sub(r, k), w.groups[k]))
  }

  /** The configuration after the update, or `None` if the update is rejected. */
  function Apply(o: Group, r: Group, w: Group): Option<Group> {
    if ReadOk(o, r) && WriteOk(Some(o), Some(r), w) then Some(ApplyGroup(Some(o), Some(r), w)) else None
  }

  // ----- the configuration that results -----

  function StampEntries<C(==)>(o: map<string, Entry<C>>, u: map<string, Entry<C>>): map<string, Entry<C>> {
    map k | k in u ::
      u[k].(version := if k !in o then 0
                       else if SameContent(o[k], u[k]) then o[k].version
                       else Bump(o[k].version))
  }

  /** The updated tree with the versions it must carry: new elements start at 0,
      changed entries and touched groups advance by one, the rest keep theirs. */
  function Stamped(o: Group, u: Group): Group
    decreases u
  {
    Group(if Touched(o, u) then Bump(o.version) else o.version, u.modPolicy,
          StampEntries(o.policies, u.policies), StampEntries(o.values, u.values),
          map k | k in u.groups ::
            if k in o.groups then Stamped(o.groups[k], u.groups[k]) else Erase(u.groups[k]))
  }

  lemma StampedEntries<C>(o: map<string, Entry<C>>, u: map<string, Entry<C>>)
    ensures EraseEntries(StampEntries(o, u)) == EraseEntries(u)
    ensures o.Keys == u.Keys && (forall k | k in o :: SameContent(o[k], u[k])) ==> StampEntries(o, u) == o
  {
  }

  /** The result has the content of the updated tree, at every depth. */
  lemma {:induction false} StampedContent(o: Group, u: Group)
    ensures SameTree(Stamped(o, u), u)
    decreases u
  {
    var s := Stamped(o, u);
    forall k | k in u.groups ensures Erase(s.groups[k]) == Erase(u.groups[k]) {
      if k in o.groups {
        StampedContent(o.groups[k], u.groups[k]);
      } else {
        EraseTwice(u.groups[k]);
      }
    }
    SameSubgroups(s, u);
    StampedEntries(o.policies, u.policies);
    StampedEntries(o.values, u.values);
  }

  lemma SameSubgroups(a: Group, b: Group)
    requires a.groups.Keys == b.groups.Keys
    requires forall k | k in a.groups :: Erase(a.groups[k]) == Erase(b.groups[k])
    ensures Erase(a).groups == Erase(b).groups
  {
  }

  lemma {:induction false} EraseTwice(g: Group)
    ensures Erase(Erase(g)) == Erase(g)
  {
    forall k | k in g.groups ensures Erase(Erase(g.groups[k])) == Erase(g.groups[k]) {
      EraseTwice(g.groups[k]);
    }
    assert Erase(Erase(g)).groups == Erase(g).groups;
    assert EraseEntries(EraseEntries(g.policies)) == EraseEntries(g.policies);
    assert EraseEntries(EraseEntries(g.values)) == EraseEntries(g.values);
  }

  /** A tree with the same content changes nothing, not even a version. */
  lemma {:induction false} StampedSame(o: Group, u: Group)
    requires SameTree(o, u)
    ensures Stamped(o, u) == o
    decreases u
  {
    SameTreeUnfold(o, u);
    StampedEntries(o.policies, u.policies);
    StampedEntries(o.values, u.values);
    forall k | k in o.groups ensures Stamped(o.groups[k], u.groups[k]) == o.groups[k] {
      StampedSame(o.groups[k], u.groups[k]);
    }
    assert Stamped(o, u).groups == o.groups;
  }

  // ----- applying a computed update yields the updated tree -----

  lemma AppliedMembers<C>(o: map<string, Entry<C>>, u: map<string, Entry<C>>, nothing: C)
    ensures var r, w := Unchanged(o, u, nothing), Changed(o, u) + Unchanged(o, u, nothing);
            && ReadEntriesOk(o, r)
            && WriteEntriesOk(o, r, w)
            && ApplyEntries(o, r, w, w.Keys) == StampEntries(o, u)
  {
  }

  lemma AppliedChanges<C>(o: map<string, Entry<C>>, u: map<string, Entry<C>>)
    requires o.Keys == u.Keys
    ensures WriteEntriesOk(o, map[], Changed(o, u))
    ensures ApplyEntries(o, map[], Changed(o, u), o.Keys) == StampEntries(o, u)
  {
  }

  /** An added tree is accepted as it is. */
  lemma {:induction false} AppliedAddition(u: Group)
    ensures WriteOk(None, None, Erase(u))
    ensures ApplyGroup(None, None, Erase(u)) == Erase(u)
  {
    var w := Erase(u);
    forall k | k in w.groups
      ensures WriteOk(None, None, w.groups[k])
      ensures ApplyGroup(None, None, w.groups[k]) == w.groups[k]
    {
      AppliedAddition(u.groups[k]);
    }
    var t := ApplyGroup(None, None, w);
    assert t.policies == w.policies && t.values == w.values && t.groups == w.groups;
  }

  /** Every read-set element exists in the original, at the same path and version. */
  lemma {:induction false} ReadSetAccepted(o: Group, u: Group)
    ensures ReadOk(o, ReadSet(o, u))
    decreases u
  {
    var r := ReadSet(o, u);
    forall k | k in r.groups ensures k in o.groups && ReadOk(o.groups[k], r.groups[k]) {
      ReadSubgroup(o, u, k);
      ReadSetAccepted(o.groups[k], u.groups[k]);
    }
  }

  lemma {:induction false} SubgroupApplied(o: Group, u: Group, k: string)
    requires k in WriteSet(o, u).groups
    ensures k in u.groups
    ensures WriteOk(Sub(Some(o), k), Sub(Some(ReadSet(o, u)), k), WriteSet(o, u).groups[k])
    ensures ApplyGroup(Sub(Some(o), k), Sub(Some(ReadSet(o, u)), k), WriteSet(o, u).groups[k]) ==
            Stamped(o, u).groups[k]
    decreases u, 0
  {
    SubgroupSets(o, u, k);
    if k in o.groups {
      WriteSetApplied(o.groups[k], u.groups[k]);
    } else {
      AppliedAddition(u.groups[k]);
    }
  }

  /** The subgroup `k` of the result, whether or not the write set names it. */
  lemma {:induction false} ResultingSubgroup(o: Group, u: Group, k: string)
    ensures var result := ApplyGroup(Some(o), Some(ReadSet(o, u)), WriteSet(o, u)).groups;
            && (k in result <==> k in u.groups)
            && (k in result ==> result[k] == Stamped(o, u).groups[k])
    decreases u, 1
  {
    var w := WriteSet(o, u);
    assert w.groups == WriteGroups(o.groups, u.groups, u, Touched(o, u));
    if k in w.groups {
      SubgroupApplied(o, u, k);
    } else if !Touched(o, u) && k in u.groups {
      StampedSame(o.groups[k], u.groups[k]);
    }
  }

  lemma {:induction false} SubgroupsApplied(o: Group, u: Group)
    ensures ApplyGroup(Some(o), Some(ReadSet(o, u)), WriteSet(o, u)).groups == Stamped(o, u).groups
    decreases u, 2
  {
    var result, t := ApplyGroup(Some(o), Some(ReadSet(o, u)), WriteSet(o, u)).groups, Stamped(o, u).groups;
    forall k ensures (k in result <==> k in t) && (k in result ==> result[k] == t[k]) {
      ResultingSubgroup(o, u, k);
    }
  }

  lemma {:induction false} WriteSetApplied(o: Group, u: Group)
    ensures WriteOk(Some(o), Some(ReadSet(o, u)), WriteSet(o, u))
    ensures ApplyGroup(Some(o), Some(ReadSet(o, u)), WriteSet(o, u)) == Stamped(o, u)
    decreases u, 3
  {
    if Touched(o, u) {
      AppliedMembers(o.policies, u.policies, None);
      AppliedMembers(o.values, u.values, []);
    } else {
      AppliedChanges(o.policies, u.policies);
      AppliedChanges(o.values, u.values);
    }
    forall k | k in WriteSet(o, u).groups
      ensures WriteOk(Sub(Some(o), k), Sub(Some(ReadSet(o, u)), k), WriteSet(o, u).groups[k])
    {
      SubgroupApplied(o, u, k);
    }
    SubgroupsApplied(o, u);
  }

  /** Main theorem.  The update computed from any two trees is accepted, and the
      configuration it produces is the updated tree: removed members are gone,
      added subtrees are complete, changed content is replaced, the rest is
      kept, and each version is the one `Stamped` says. */
  lemma ApplyingTheUpdate(o: Group, u: Group)
    ensures Apply(o, ReadSet(o, u), WriteSet(o, u)) == Some(Stamped(o, u))
    ensures SameTree(Stamped(o, u), u)
  {
    ReadSetAccepted(o, u);
    WriteSetApplied(o, u);
    StampedContent(o, u);
  }

  // ----- an update is accepted once -----

  lemma ChangedEntryRejected<C>(o: map<string, Entry<C>>, u: map<string, Entry<C>>, k: string)
    requires k in o && k in u && !SameContent(o[k], u[k])
    ensures !WriteEntriesOk(StampEntries(o, u), map[], Changed(o, u))
  {
    var w, after := Changed(o, u), StampEntries(o, u);
    assert k in w && w[k].version == Bump(o[k].version) == after[k].version;
    assert !KeptEntry(map[], w, k) && w[k].version != Bump(after[k].version);
  }

  lemma {:induction false} SubgroupRejectedAgain(o: Group, u: Group, k: string)
    requires !Touched(o, u) && k in o.groups && !SameTree(o.groups[k], u.groups[k])
    ensures !(ReadOk(Stamped(o, u), ReadSet(o, u)) && WriteOk(Some(Stamped(o, u)), Some(ReadSet(o, u)), WriteSet(o, u)))
    decreases u, 0
  {
    SubgroupSets(o, u, k);
    RejectedAgain(o.groups[k], u.groups[k]);
    var after, r, w := Stamped(o, u), ReadSet(o, u), WriteSet(o, u);
    assert Sub(Some(after), k) == Some(Stamped(o.groups[k], u.groups[k])) && Sub(Some(r), k) == Some(ReadSet(o.groups[k], u.groups[k]));
    assert ReadOk(after, r) ==> ReadOk(after.groups[k], r.groups[k]);
    assert WriteOk(Some(after), Some(r), w) ==> WriteOk(Sub(Some(after), k), Sub(Some(r), k), w.groups[k]);
  }

  lemma {:induction false} RejectedAgain(o: Group, u: Group)
    requires !SameTree(o, u)
    ensures !(ReadOk(Stamped(o, u), ReadSet(o, u)) && WriteOk(Some(Stamped(o, u)), Some(ReadSet(o, u)), WriteSet(o, u)))
    decreases u, 1
  {
    SameTreeUnfold(o, u);
    if !Touched(o, u) {
      if k :| k in o.policies && !SameContent(o.policies[k], u.policies[k]) {
        ChangedEntryRejected(o.policies, u.policies, k);
      } else if k :| k in o.values && !SameContent(o.values[k], u.values[k]) {
        ChangedEntryRejected(o.values, u.values, k);
      } else {
        var k :| k in o.groups && !SameTree(o.groups[k], u.groups[k]);
        SubgroupRejectedAgain(o, u, k);
      }
    }
  }

  /** Once it is installed, the same update is rejected: it is accepted exactly once. */
  lemma AcceptedOnce(o: Group, u: Group)
    requires !SameTree(o, u)
    ensures Apply(o, ReadSet(o, u), WriteSet(o, u)).Some?
    ensures Apply(Apply(o, ReadSet(o, u), WriteSet(o, u)).value, ReadSet(o, u), WriteSet(o, u)).None?
  {
    ApplyingTheUpdate(o, u);
    RejectedAgain(o, u);
  }
}
