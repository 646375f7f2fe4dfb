/** The shape of a computed update: it names nothing that it could leave out. */
module ConfigShape {
  import opened Options
  import opened ConfigTree
  import opened ConfigUpdate
  import opened ConfigApply

  /** Every element of tree `a` is an element of tree `b`, at the same path. */
  predicate Covers(b: Group, a: Group)
    decreases a
  {
    && a.policies.Keys <= b.policies.Keys
    && a.values.Keys <= b.values.Keys
    && forall k | k in a.groups :: k in b.groups && Covers(b.groups[k], a.groups[k])
  }

  // ----- the write set is the smallest -----

  lemma {:induction false} AdditionNamesAll(w: Group, u: Group)
    requires SameTree(ApplyGroup(None, None, w), u)
    ensures Covers(w, Erase(u))
    decreases w
  {
    var t := ApplyGroup(None, None, w);
    SameTreeUnfold(t, u);
    assert t.groups.Keys == w.groups.Keys;
    forall k | k in Erase(u).groups ensures k in w.groups && Covers(w.groups[k], Erase(u).groups[k]) {
      AdditionNamesAll(w.groups[k], u.groups[k]);
    }
  }

  lemma EntriesNamed<C>(o: map<string, Entry<C>>, r: map<string, Entry<C>>, w: map<string, Entry<C>>,
                        t: map<string, Entry<C>>, u: map<string, Entry<C>>)
    requires t == ApplyEntries(o, r, w, o.Keys)
    requires t.Keys == u.Keys && forall k | k in t :: SameContent(t[k], u[k])
    ensures o.Keys == u.Keys
    ensures Changed(o, u).Keys <= w.Keys
  {
    forall k | k in Changed(o, u) ensures k in w {
      assert k in t;
    }
  }

  lemma KeptFields(o: Group, r: Option<Group>, w: Group)
    requires Kept(r, w)
    ensures var t := ApplyGroup(Some(o), r, w);
            && t.modPolicy == o.modPolicy
            && t.policies == ApplyEntries(o.policies, r.value.policies, w.policies, o.policies.Keys)
            && t.values == ApplyEntries(o.values, r.value.values, w.values, o.values.Keys)
            && t.groups.Keys == o.groups.Keys
  {
  }

  lemma KeptEntries(o: Group, r: Option<Group>, w: Group, u: Group)
    requires Kept(r, w)
    requires SameTree(ApplyGroup(Some(o), r, w), u)
    ensures !Touched(o, u)
    ensures Changed(o.policies, u.policies).Keys <= w.policies.Keys
    ensures Changed(o.values, u.values).Keys <= w.values.Keys
  {
    var t := ApplyGroup(Some(o), r, w);
    SameTreeUnfold(t, u);
    KeptFields(o, r, w);
    EntriesNamed(o.policies, r.value.policies, w.policies, t.policies, u.policies);
    EntriesNamed(o.values, r.value.values, w.values, t.values, u.values);
  }

  lemma KeptSubgroups(o: Group, r: Option<Group>, w: Group, u: Group)
    requires Kept(r, w)
    requires SameTree(ApplyGroup(Some(o), r, w), u)
    ensures o.groups.Keys == u.groups.Keys
    ensures forall k | k in o.groups ::
              SameTree(if k in w.groups then ApplyGroup(Sub(Some(o), k), Sub(r, k), w.groups[k]) else o.groups[k],
                       u.groups[k])
  {
    SameTreeUnfold(ApplyGroup(Some(o), r, w), u);
  }

  /** Below a group that the other update leaves at its version. */
  lemma {:induction false} KeptNamesAll(o: Group, r: Option<Group>, w: Group, u: Group)
    requires r.Some? ==> ReadOk(o, r.value)
    requires Kept(r, w)
    requires SameTree(ApplyGroup(Some(o), r, w), u)
    ensures Covers(w, WriteSet(o, u))
    decreases u, 0
  {
    KeptEntries(o, r, w, u);
    KeptSubgroups(o, r, w, u);
    forall k | k in WriteSet(o, u).groups ensures k in w.groups && Covers(w.groups[k], WriteSet(o, u).groups[k]) {
      SubgroupSets(o, u, k);
      NamesAll(o.groups[k], Sub(r, k), w.groups[k], u.groups[k]);
    }
  }

  lemma AdvancedFields(o: Group, r: Option<Group>, w: Group)
    requires !Kept(r, w)
    ensures var t := ApplyGroup(Some(o), r, w);
            && t.policies.Keys == w.policies.Keys && t.values.Keys == w.values.Keys && t.groups.Keys == w.groups.Keys
            && forall k | k in w.groups :: t.groups[k] == ApplyGroup(Sub(Some(o), k), Sub(r, k), w.groups[k])
  {
  }

  lemma AdvancedMembers(o: Group, r: Option<Group>, w: Group, u: Group)
    requires !Kept(r, w)
    requires SameTree(ApplyGroup(Some(o), r, w), u)
    ensures w.policies.Keys == u.policies.Keys && w.values.Keys == u.values.Keys && w.groups.Keys == u.groups.Keys
    ensures forall k | k in w.groups :: SameTree(ApplyGroup(Sub(Some(o), k), Sub(r, k), w.groups[k]), u.groups[k])
  {
    AdvancedFields(o, r, w);
    SameTreeUnfold(ApplyGroup(Some(o), r, w), u);
  }

  lemma {:induction false} AdvancedSubgroup(o: Group, r: Option<Group>, w: Group, u: Group, k: string)
    requires r.Some? ==> ReadOk(o, r.value)
    requires k in u.groups && k in w.groups
    requires SameTree(ApplyGroup(Sub(Some(o), k), Sub(r, k), w.groups[k]), u.groups[k])
    requires k in WriteSet(o, u).groups
    ensures Covers(w.groups[k], WriteSet(o, u).groups[k])
    decreases u, 0
  {
    SubgroupSets(o, u, k);
    if k in o.groups {
      NamesAll(o.groups[k], Sub(r, k), w.groups[k], u.groups[k]);
    } else {
      assert Sub(r, k) == None;
      AdditionNamesAll(w.groups[k], u.groups[k]);
    }
  }

  /** Below a group that the other update advances, which must list its members. */
  lemma {:induction false} AdvancedNamesAll(o: Group, r: Option<Group>, w: Group, u: Group)
    requires r.Some? ==> ReadOk(o, r.value)
    requires !Kept(r, w)
    requires SameTree(ApplyGroup(Some(o), r, w), u)
    ensures Covers(w, WriteSet(o, u))
    decreases u, 1
  {
    AdvancedMembers(o, r, w, u);
    forall k | k in WriteSet(o, u).groups ensures k in w.groups && Covers(w.groups[k], WriteSet(o, u).groups[k]) {
      assert k in u.groups by { SubgroupSets(o, u, k); }
      AdvancedSubgroup(o, r, w, u, k);
    }
  }

  lemma {:induction false} NamesAll(o: Group, r: Option<Group>, w: Group, u: Group)
    requires r.Some? ==> ReadOk(o, r.value)
    requires SameTree(ApplyGroup(Some(o), r, w), u)
    ensures Covers(w, WriteSet(o, u))
    decreases u, 2
  {
    if Kept(r, w) {
      KeptNamesAll(o, r, w, u);
    } else {
      AdvancedNamesAll(o, r, w, u);
    }
  }

  /** The computed write set is the smallest: whatever update turns the original
      into the updated content names, at every path, all that it names. */
  lemma WriteSetIsSmallest(o: Group, u: Group, r: Group, w: Group)
    requires Apply(o, r, w).Some? && SameTree(Apply(o, r, w).value, u)
    ensures Covers(w, WriteSet(o, u))
  {
    NamesAll(o, Some(r), w, u);
  }

  // ----- what the two sets hold -----

  lemma {:induction false} ReadSetInWriteSet(o: Group, u: Group)
    ensures Covers(WriteSet(o, u), ReadSet(o, u))
    decreases u
  {
    var r, w := ReadSet(o, u), WriteSet(o, u);
    forall k | k in r.groups ensures k in w.groups && Covers(w.groups[k], r.groups[k]) {
      SubgroupSets(o, u, k);
      ReadSetInWriteSet(o.groups[k], u.groups[k]);
    }
  }

  /** An entry is new at version 0 or at its next version, and then as in the target,
      or a bare reference to the version it has. */
  predicate EntryContents<C(==)>(o: map<string, Entry<C>>, u: map<string, Entry<C>>, w: map<string, Entry<C>>, nothing: C) {
    forall k | k in w ::
      && k in u
      && if k !in o then w[k] == u[k].(version := 0)
         else w[k] == u[k].(version := Bump(o[k].version)) || w[k] == Entry(o[k].version, "", nothing)
  }

  /** A group at its own version has no mod policy; one at the next version has that of
      the target; and a new group is the whole target at version 0. */
  predicate GroupContents(o: Group, u: Group, w: Group)
    decreases w
  {
    && ((w.version == o.version && w.modPolicy == "") || (w.version == Bump(o.version) && w.modPolicy == u.modPolicy))
    && EntryContents(o.policies, u.policies, w.policies, None)
    && EntryContents(o.values, u.values, w.values, [])
    && forall k | k in w.groups ::
         && k in u.groups
         && if k in o.groups then GroupContents(o.groups[k], u.groups[k], w.groups[k])
            else w.groups[k] == Erase(u.groups[k])
  }

  lemma {:induction false} WriteSetContents(o: Group, u: Group)
    ensures GroupContents(o, u, WriteSet(o, u))
    decreases u
  {
    var w := WriteSet(o, u);
    forall k | k in w.groups
      ensures k in u.groups
      ensures if k in o.groups then GroupContents(o.groups[k], u.groups[k], w.groups[k])
              else w.groups[k] == Erase(u.groups[k])
    {
      SubgroupSets(o, u, k);
      if k in o.groups {
        WriteSetContents(o.groups[k], u.groups[k]);
      }
    }
  }

  /** The read entries are those that the write set has at their own version, and bare. */
  ghost predicate EntriesRead<C>(o: map<string, Entry<C>>, r: map<string, Entry<C>>, w: map<string, Entry<C>>, nothing: C) {
    && (forall k :: k in r <==> k in w && k in o && w[k].version == o[k].version)
    && (forall k | k in r :: r[k] == Entry(o[k].version, "", nothing))
  }

  /** The read groups are those that the write set has and that exist, at their own
      version and without mod policy. */
  ghost predicate GroupsRead(o: Group, r: Group, w: Group)
    decreases r
  {
    && r.version == o.version && r.modPolicy == ""
    && EntriesRead(o.policies, r.policies, w.policies, None)
    && EntriesRead(o.values, r.values, w.values, [])
    && (forall k :: k in r.groups <==> k in w.groups && k in o.groups)
    && forall k | k in r.groups :: k in w.groups && k in o.groups && GroupsRead(o.groups[k], r.groups[k], w.groups[k])
  }

  lemma {:induction false} ReadSetContents(o: Group, u: Group)
    ensures GroupsRead(o, ReadSet(o, u), WriteSet(o, u))
    decreases u
  {
    var r, w := ReadSet(o, u), WriteSet(o, u);
    ReadEntries(o, u);
    forall k ensures k in r.groups <==> k in w.groups && k in o.groups {
      SubgroupSets(o, u, k);
    }
    forall k | k in r.groups ensures GroupsRead(o.groups[k], r.groups[k], w.groups[k]) {
      SubgroupSets(o, u, k);
      ReadSetContents(o.groups[k], u.groups[k]);
    }
  }

  lemma ReadEntries(o: Group, u: Group)
    ensures EntriesRead(o.policies, ReadSet(o, u).policies, WriteSet(o, u).policies, None)
    ensures EntriesRead(o.values, ReadSet(o, u).values, WriteSet(o, u).values, [])
  {
  }

  /** Neither set depends on the versions in the updated tree. */
  lemma {:induction false} UpdatedVersionsIgnored(o: Group, u: Group, v: Group)
    requires SameTree(u, v)
    ensures ReadSet(o, u) == ReadSet(o, v)
    ensures WriteSet(o, u) == WriteSet(o, v)
    decreases u
  {
    SameTreeUnfold(u, v);
    EntriesIgnored(o.policies, u.policies, v.policies, None);
    EntriesIgnored(o.values, u.values, v.values, []);
    var r, s := ReadSet(o, u).groups, ReadSet(o, v).groups;
    var w, x := WriteSet(o, u).groups, WriteSet(o, v).groups;
    forall k
      ensures (k in r <==> k in s) && (k in w <==> k in x)
      ensures (k in r ==> r[k] == s[k]) && (k in w ==> w[k] == x[k])
    {
      SubgroupSets(o, u, k);
      SubgroupSets(o, v, k);
      if k in u.groups && k in o.groups {
        UpdatedVersionsIgnored(o.groups[k], u.groups[k], v.groups[k]);
      }
    }
    assert r == s && w == x;
  }

  lemma EntriesIgnored<C>(o: map<string, Entry<C>>, u: map<string, Entry<C>>, v: map<string, Entry<C>>, nothing: C)
    requires u.Keys == v.Keys && forall k | k in u :: SameContent(u[k], v[k])
    ensures Changed(o, u) == Changed(o, v)
    ensures Unchanged(o, u, nothing) == Unchanged(o, v, nothing)
  {
  }

  // ----- where an unchanged element is named -----

  type Path = seq<string>

  function At(g: Group, p: Path): Option<Group> {
    if p == [] then Some(g)
    else if p[0] in g.groups then At(g.groups[p[0]], p[1..])
    else None
  }

  lemma {:induction false} NamedGroup(o: Group, u: Group, p: Path)
    requires At(o, p).Some? && At(u, p).Some? && At(WriteSet(o, u), p).Some?
    ensures At(WriteSet(o, u), p) == Some(WriteSet(At(o, p).value, At(u, p).value))
    decreases p
  {
    if p != [] {
      SubgroupSets(o, u, p[0]);
      NamedGroup(o.groups[p[0]], u.groups[p[0]], p[1..]);
    }
  }

  /** A group that differs, at any depth, is named together with its ancestors. */
  lemma {:induction false} DifferenceIsNamed(o: Group, u: Group, p: Path)
    requires At(o, p).Some? && At(u, p).Some? && !SameTree(At(o, p).value, At(u, p).value)
    ensures !SameTree(o, u)
    ensures At(WriteSet(o, u), p).Some?
    decreases p
  {
    if p != [] {
      var k := p[0];
      DifferenceIsNamed(o.groups[k], u.groups[k], p[1..]);
      SameTreeUnfold(o, u);
      SubgroupSets(o, u, k);
    }
  }

  predicate PolicyNamed(w: Group, p: Path, k: string) {
    At(w, p).Some? && k in At(w, p).value.policies
  }

  predicate ValueNamed(w: Group, p: Path, k: string) {
    At(w, p).Some? && k in At(w, p).value.values
  }

  /** An unchanged policy, value or subgroup is in the write set exactly when the
      mod policy or the direct membership of its parent changed. */
  lemma UnchangedNamedIffParentTouched(o: Group, u: Group, p: Path, k: string)
    requires At(o, p).Some? && At(u, p).Some?
    ensures var a, b := At(o, p).value, At(u, p).value;
            && (k in a.policies && k in b.policies && SameContent(a.policies[k], b.policies[k]) ==>
                  (PolicyNamed(WriteSet(o, u), p, k) <==> Touched(a, b)))
            && (k in a.values && k in b.values && SameContent(a.values[k], b.values[k]) ==>
                  (ValueNamed(WriteSet(o, u), p, k) <==> Touched(a, b)))
            && (k in a.groups && k in b.groups && SameTree(a.groups[k], b.groups[k]) ==>
                  (At(WriteSet(o, u), p + [k]).Some? <==> Touched(a, b)))
  {
    var a, b, w := At(o, p).value, At(u, p).value, WriteSet(o, u);
    AtStep(w, p, k);
    if At(w, p).Some? {
      NamedGroup(o, u, p);
      SubgroupSets(a, b, k);
    } else {
      if Touched(a, b) {
        SameTreeUnfold(a, b);
        DifferenceIsNamed(o, u, p);
      }
    }
  }

  lemma {:induction false} AtStep(g: Group, p: Path, k: string)
    ensures At(g, p + [k]) == if At(g, p).Some? && k in At(g, p).value.groups
                              then Some(At(g, p).value.groups[k]) else None
    decreases p
  {
    if p == [] {
      assert (p + [k])[1..] == [];
    } else {
      assert (p + [k])[1..] == p[1..] + [k];
      if p[0] in g.groups {
        AtStep(g.groups[p[0]], p[1..], k);
      }
    }
  }
}
