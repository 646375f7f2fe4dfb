/** Versions over any chain of updates, each computed against the configuration
    that the previous one left. */
module ConfigChain {
  import opened Options
  import opened ConfigTree
  import opened ConfigUpdate
  import opened ConfigApply
  import opened ConfigShape

  /** One step towards `target`: when nothing differs no update is made. */
  predicate Installed(before: Group, target: Group, after: Group) {
    if SameTree(before, target) then after == before
    else Apply(before, ReadSet(before, target), WriteSet(before, target)) == Some(after)
  }

  predicate Chain(configs: seq<Group>, targets: seq<Group>) {
    && |configs| == |targets| + 1
    && forall i | 0 <= i < |targets| :: Installed(configs[i], targets[i], configs[i + 1])
  }

  /** After each step the configuration is the target, and asking for the same
      target again finds no differences. */
  lemma StepReachesTarget(before: Group, target: Group, after: Group)
    requires Installed(before, target, after)
    ensures SameTree(after, target)
    ensures after == Stamped(before, after) == Stamped(before, target)
  {
    ApplyingTheUpdate(before, target);
    if SameTree(before, target) {
      StampedSame(before, target);
    }
    ApplyingTheUpdate(before, after);
    UpdatedVersionsIgnored(before, after, target);
  }

  lemma {:induction false} StampedAt(o: Group, u: Group, p: Path)
    requires At(o, p).Some? && At(u, p).Some?
    ensures At(Stamped(o, u), p) == Some(Stamped(At(o, p).value, At(u, p).value))
    decreases p
  {
    if p != [] {
      StampedAt(o.groups[p[0]], u.groups[p[0]], p[1..]);
    }
  }

  // ----- counting changes along the chain -----

  /** An element of a configuration: a group, or an entry of a group. */
  datatype Element = TheGroup(path: Path) | PolicyOf(path: Path, name: string) | ValueOf(path: Path, name: string)

  predicate Exists(g: Group, e: Element) {
    && At(g, e.path).Some?
    && match e
       case TheGroup(_) => true
       case PolicyOf(_, name) => name in At(g, e.path).value.policies
       case ValueOf(_, name) => name in At(g, e.path).value.values
  }

  function VersionOf(g: Group, e: Element): Version
    requires Exists(g, e)
  {
    var at := At(g, e.path).value;
    match e
    case TheGroup(_) => at.version
    case PolicyOf(_, name) => at.policies[name].version
    case ValueOf(_, name) => at.values[name].version
  }

  /** For a group: its mod policy or direct membership differs.  For an entry:
      its mod policy or content differs. */
  predicate ElementChanged(a: Group, b: Group, e: Element)
    requires Exists(a, e) && Exists(b, e)
  {
    var x, y := At(a, e.path).value, At(b, e.path).value;
    match e
    case TheGroup(_) => Touched(x, y)
    case PolicyOf(_, name) => !SameContent(x.policies[name], y.policies[name])
    case ValueOf(_, name) => !SameContent(x.values[name], y.values[name])
  }

  predicate Survives(configs: seq<Group>, e: Element) {
    forall i | 0 <= i < |configs| :: Exists(configs[i], e)
  }

  /** The versions that an element carries along the chain, and at which steps it changed. */
  predicate Observed(configs: seq<Group>, e: Element, versions: seq<Version>, changed: seq<bool>) {
    && Survives(configs, e)
    && |configs| == |versions| == |changed| + 1
    && (forall i | 0 <= i < |configs| :: versions[i] == VersionOf(configs[i], e))
    && (forall i | 0 <= i < |changed| :: changed[i] == ElementChanged(configs[i], configs[i + 1], e))
  }

  lemma StepVersion(before: Group, target: Group, after: Group, e: Element)
    requires Installed(before, target, after)
    requires Exists(before, e) && Exists(after, e)
    ensures VersionOf(after, e) == if ElementChanged(before, after, e) then Bump(VersionOf(before, e))
                                   else VersionOf(before, e)
  {
    StepReachesTarget(before, target, after);
    StampedAt(before, after, e.path);
  }

  /** Where a 64-bit counter stands after `n` increments from 0, that is `n`
      modulo 2^64. */
  function Wrap(n: nat): (r: Version)
    ensures n <= MAX_VERSION ==> r == n
  {
    if n <= MAX_VERSION then n else Wrap(n - MAX_VERSION - 1)
  }

  lemma {:induction false} WrapStep(n: nat)
    ensures Bump(Wrap(n)) == Wrap(n + 1)
  {
    if n > MAX_VERSION {
      WrapStep(n - MAX_VERSION - 1);
    }
  }

  /** A counter that advances at the flagged steps and stays at the others. */
  predicate Advances(versions: seq<Version>, changed: seq<bool>) {
    && |versions| == |changed| + 1
    && forall i | 0 <= i < |changed| :: versions[i + 1] == if changed[i] then Bump(versions[i]) else versions[i]
  }

  function Count(changed: seq<bool>, n: nat): nat
    requires n <= |changed|
  {
    if n == 0 then 0 else Count(changed, n - 1) + if changed[n - 1] then 1 else 0
  }

  lemma {:induction false} AdvancesCounts(versions: seq<Version>, changed: seq<bool>, n: nat)
    requires Advances(versions, changed) && n <= |changed|
    ensures versions[n] == Wrap(versions[0] + Count(changed, n))
  {
    if n > 0 {
      AdvancesCounts(versions, changed, n - 1);
      WrapStep(versions[0] + Count(changed, n - 1));
      assert versions[n - 1 + 1] == if changed[n - 1] then Bump(versions[n - 1]) else versions[n - 1];
    }
  }

  predicate NeverDecreases(versions: seq<Version>) {
    forall m, n | 0 <= m <= n < |versions| :: versions[m] <= versions[n]
  }

  lemma {:induction false} CountGrows(changed: seq<bool>, m: nat, n: nat)
    requires m <= n <= |changed|
    ensures Count(changed, m) <= Count(changed, n)
  {
    if m < n {
      CountGrows(changed, m, n - 1);
    }
  }

  lemma {:induction false} RunsOver(versions: seq<Version>, changed: seq<bool>, last: nat)
    requires Advances(versions, changed) && last <= |changed|
    requires versions[0] + Count(changed, last) > MAX_VERSION
    ensures !NeverDecreases(versions)
  {
    if versions[0] + Count(changed, last - 1) > MAX_VERSION {
      RunsOver(versions, changed, last - 1);
    } else {
      AdvancesCounts(versions, changed, last - 1);
      AdvancesCounts(versions, changed, last);
      assert versions[last] == Wrap(MAX_VERSION + 1) == 0;
    }
  }

  lemma DecreasesIffRunsOver(versions: seq<Version>, changed: seq<bool>)
    requires Advances(versions, changed)
    ensures NeverDecreases(versions) <==> versions[0] + Count(changed, |changed|) <= MAX_VERSION
  {
    if versions[0] + Count(changed, |changed|) <= MAX_VERSION {
      forall m, n | 0 <= m <= n < |versions| ensures versions[m] <= versions[n] {
        AdvancesCounts(versions, changed, m);
        AdvancesCounts(versions, changed, n);
        CountGrows(changed, m, n);
        CountGrows(changed, n, |changed|);
      }
    } else {
      RunsOver(versions, changed, |changed|);
    }
  }

  lemma ChainAdvances(configs: seq<Group>, targets: seq<Group>, e: Element, versions: seq<Version>, changed: seq<bool>)
    requires Chain(configs, targets) && Observed(configs, e, versions, changed)
    ensures Advances(versions, changed)
  {
    forall i | 0 <= i < |changed|
      ensures versions[i + 1] == if changed[i] then Bump(versions[i]) else versions[i]
    {
      StepVersion(configs[i], targets[i], configs[i + 1], e);
    }
  }

  /** A surviving element always carries its first version plus the number of steps
      that changed it, on the 64-bit counter. */
  lemma VersionsCountChanges(configs: seq<Group>, targets: seq<Group>, e: Element,
                             versions: seq<Version>, changed: seq<bool>, n: nat)
    requires Chain(configs, targets) && Observed(configs, e, versions, changed) && n < |versions|
    ensures versions[n] == Wrap(versions[0] + Count(changed, n))
  {
    ChainAdvances(configs, targets, e, versions, changed);
    AdvancesCounts(versions, changed, n);
  }

  /** A root with one policy. */
  function OnePolicy(version: Version, modPolicy: string): Group {
    EMPTY_GROUP.(policies := map["p" := Entry(version, modPolicy, None)])
  }

  /** A counter that runs over: a policy at the highest version whose mod policy
      changes is accepted at version 0. */
  lemma VersionRunsOver(before: string, after: string)
    requires before != after
    ensures Installed(OnePolicy(MAX_VERSION, before), OnePolicy(MAX_VERSION, after), OnePolicy(0, after))
  {
    var o, u := OnePolicy(MAX_VERSION, before), OnePolicy(MAX_VERSION, after);
    ApplyingTheUpdate(o, u);
    SameTreeUnfold(o, u);
    assert StampEntries(o.policies, u.policies) == OnePolicy(0, after).policies;
    assert Stamped(o, u).groups == map[];
  }

  /** The version of a surviving element never decreases along the chain, if and
      only if that counter does not run over. */
  lemma VersionsNeverDecrease(configs: seq<Group>, targets: seq<Group>, e: Element,
                              versions: seq<Version>, changed: seq<bool>)
    requires Chain(configs, targets) && Observed(configs, e, versions, changed)
    ensures NeverDecreases(versions) <==> versions[0] + Count(changed, |changed|) <= MAX_VERSION
  {
    ChainAdvances(configs, targets, e, versions, changed);
    DecreasesIffRunsOver(versions, changed);
  }
}
