/** Channel configurations as trees of groups, values and policies.

    A configuration element carries a version, a 64-bit counter that wraps
    around, and a mod policy.  Values and policies differ only in what they
    carry, so both are an `Entry`. */
module ConfigTree {
  import opened Options
  import Utf8

  const MAX_VERSION := 0xFFFF_FFFF_FFFF_FFFF

  type Version = v: int | 0 <= v <= MAX_VERSION

  /** What `Version + 1` does on a 64-bit counter. */
  function Bump(v: Version): (r: Version)
    ensures r != v
    ensures v < MAX_VERSION ==> r == v + 1
  {
    if v == MAX_VERSION then 0 else v + 1
  }

  datatype Entry<C> = Entry(version: Version, modPolicy: string, content: C)

  /** A policy message: its type and its encoded rule; `None` models the nil message. */
  datatype PolicyMessage = PolicyMessage(kind: int, rule: Utf8.Bytes)

  type ConfigValue = Entry<Utf8.Bytes>
  type ConfigPolicy = Entry<Option<PolicyMessage>>

  datatype Group = Group(
    version: Version,
    modPolicy: string,
    policies: map<string, ConfigPolicy>,
    values: map<string, ConfigValue>,
    groups: map<string, Group>)

  /** The group that `protoutil.NewConfigGroup` returns. */
  const EMPTY_GROUP := Group(0, "", map[], map[], map[])

  // ----- content, that is everything but versions -----

  predicate SameContent<C(==)>(a: Entry<C>, b: Entry<C>) {
    a.modPolicy == b.modPolicy && a.content == b.content
  }

  function EraseEntries<C>(m: map<string, Entry<C>>): map<string, Entry<C>> {
    map k | k in m :: m[k].(version := 0)
  }

  /** The tree with every version, at every depth, set to zero. */
  function Erase(g: Group): Group {
    Group(0, g.modPolicy, EraseEntries(g.policies), EraseEntries(g.values),
          map k | k in g.groups :: Erase(g.groups[k]))
  }

  /** Two trees are equal at every depth when versions are ignored. */
  predicate SameTree(a: Group, b: Group) {
    Erase(a) == Erase(b)
  }

  /** The mod policy or the direct membership of the group changed. */
  predicate Touched(a: Group, b: Group) {
    || a.modPolicy != b.modPolicy
    || a.policies.Keys != b.policies.Keys
    || a.values.Keys != b.values.Keys
    || a.groups.Keys != b.groups.Keys
  }

  lemma SameEntries<C>(a: map<string, Entry<C>>, b: map<string, Entry<C>>)
    ensures EraseEntries(a) == EraseEntries(b) <==>
            a.Keys == b.Keys && forall k | k in a :: SameContent(a[k], b[k])
  {
    var ea, eb := EraseEntries(a), EraseEntries(b);
    assert ea.Keys == a.Keys && eb.Keys == b.Keys;
    if ea == eb {
      forall k | k in a ensures SameContent(a[k], b[k]) {
        assert ea[k] == eb[k];
      }
    }
  }

  /** `SameTree` unfolded one level: nothing at this level changed, no entry
      changed, and every subgroup is the same tree. */
  lemma SameTreeUnfold(a: Group, b: Group)
    ensures SameTree(a, b) <==>
            && !Touched(a, b)
            && (forall k | k in a.policies :: SameContent(a.policies[k], b.policies[k]))
            && (forall k | k in a.values :: SameContent(a.values[k], b.values[k]))
            && (forall k | k in a.groups :: SameTree(a.groups[k], b.groups[k]))
  {
    SameEntries(a.policies, b.policies);
    SameEntries(a.values, b.values);
    var ea, eb := Erase(a), Erase(b);
    assert ea.groups.Keys == a.groups.Keys && eb.groups.Keys == b.groups.Keys;
    if SameTree(a, b) {
      forall k | k in a.groups ensures SameTree(a.groups[k], b.groups[k]) {
        assert ea.groups[k] == eb.groups[k];
      }
    }
  }
}
