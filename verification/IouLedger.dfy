/** Runs of the IOU application over the ledger.

    Anybody may propose any transaction and endorse it at any time; the approver
    endorses only what `ApproverView` accepts; and a transaction commits only with
    the approver's endorsement and if the versions it read are still current.
    The ledger numbers its states in the order of commitment, so a version is a
    position in the chain. */
module IouLedger {
  import opened Options
  import opened IouViews

  /** A committed state: the state, the position it replaced if it is an update, and
      the endorsements of its transaction, in order. */
  datatype Entry = Entry(iou: Iou, consumed: Option<nat>, endorsements: seq<Identity>)

  /** `current` maps a linear id to the position of its latest state. */
  datatype State = State(chain: seq<Entry>, current: map<string, nat>, pending: map<nat, Tx>)

  const INIT := State([], map[], map[])

  datatype Step =
    | Propose(txID: nat, tx: Tx)
    | Endorse(txID: nat, party: Identity)
    | Approve(txID: nat)
    | Commit(txID: nat)

  /** The versions the transaction read are those of the ledger. */
  predicate Current(s: State, tx: Tx) {
    forall i | 0 <= i < |tx.inputs| ::
      && tx.inputs[i].linearID in s.current
      && s.current[tx.inputs[i].linearID] == tx.inputs[i].version < |s.chain|
  }

  /** The states that the inputs refer to. */
  function InputStates(s: State, tx: Tx): (r: seq<Iou>)
    requires Current(s, tx)
    ensures |r| == |tx.inputs|
  {
    seq(|tx.inputs|, i requires 0 <= i < |tx.inputs| => s.chain[tx.inputs[i].version].iou)
  }

  predicate Enabled(s: State, step: Step, approver: Identity) {
    match step
    case Propose(id, tx) => id !in s.pending && tx.endorsements == []
    case Endorse(id, party) => id in s.pending && party != approver
    case Approve(id) =>
      && id in s.pending && Current(s, s.pending[id])
      && ApproverAccepts(s.pending[id], InputStates(s, s.pending[id]))
    case Commit(id) =>
      && id in s.pending && Current(s, s.pending[id])
      && approver in s.pending[id].endorsements
      && |s.pending[id].outputs| == 1
  }

  function Next(s: State, step: Step, approver: Identity): State
    requires Enabled(s, step, approver)
  {
    match step
    case Propose(id, tx) => s.(pending := s.pending[id := tx])
    case Endorse(id, party) => s.(pending := s.pending[id := Endorsed(s.pending[id], [party])])
    case Approve(id) => s.(pending := s.pending[id := Endorsed(s.pending[id], [approver])])
    case Commit(id) =>
      var tx := s.pending[id];
      var iou := tx.outputs[0];
      var consumed := if tx.inputs == [] then None else Some(tx.inputs[0].version);
      State(s.chain + [Entry(iou, consumed, tx.endorsements)], s.current[iou.linearID := |s.chain|],
            s.pending - {id})
  }

  /** The state after a run, or `None` if one of its steps cannot be taken. */
  function Run(steps: seq<Step>, approver: Identity): Option<State> {
    if steps == [] then Some(INIT)
    else
      match Run(steps[..|steps| - 1], approver)
      case None => None
      case Some(s) =>
        var step := steps[|steps| - 1];
        if Enabled(s, step, approver) then Some(Next(s, step, approver)) else None
  }

  // ----- what every run keeps -----

  /** The parties endorsed, in this order, before the approver did. */
  predicate EndorsedBeforeApprover(endorsements: seq<Identity>, parties: seq<Identity>, approver: Identity) {
    exists n :: 0 <= n < |endorsements| && endorsements[n] == approver &&
                forall p | p in parties :: p in endorsements[..n]
  }

  predicate GoodCreation(iou: Iou) {
    iou.amount >= 5 && |iou.owners| == 2 && iou.owners[0] != iou.owners[1]
  }

  predicate GoodUpdate(before: Iou, after: Iou) {
    after.linearID == before.linearID && after.amount < before.amount && Matches(before.owners, after.owners)
  }

  /** Position `m` holds the last state with this linear id before position `n`. */
  predicate LastOf(chain: seq<Entry>, m: nat, linearID: string, n: nat)
    requires m < n <= |chain|
  {
    && chain[m].iou.linearID == linearID
    && forall k | m < k < n :: chain[k].iou.linearID != linearID
  }

  /** What is known of a committed state. */
  predicate GoodEntry(chain: seq<Entry>, n: nat, approver: Identity)
    requires n < |chain|
  {
    var e := chain[n];
    && EndorsedBeforeApprover(e.endorsements, e.iou.owners, approver)
    && match e.consumed
       case None => GoodCreation(e.iou)
       case Some(m) => m < n && LastOf(chain, m, e.iou.linearID, n) && GoodUpdate(chain[m].iou, e.iou)
  }

  /** What the approver's endorsement on a pending transaction vouches for. */
  predicate GoodPending(chain: seq<Entry>, tx: Tx, approver: Identity) {
    approver in tx.endorsements ==>
      && |tx.outputs| == 1
      && |tx.inputs| <= 1
      && EndorsedBeforeApprover(tx.endorsements, tx.outputs[0].owners, approver)
      && if tx.inputs == [] then GoodCreation(tx.outputs[0])
         else && tx.inputs[0].version < |chain|
              && chain[tx.inputs[0].version].iou.linearID == tx.inputs[0].linearID
              && GoodUpdate(chain[tx.inputs[0].version].iou, tx.outputs[0])
  }

  ghost predicate Inv(s: State, approver: Identity) {
    && (forall id | id in s.current :: s.current[id] < |s.chain|)
    && (forall id | id in s.current :: LastOf(s.chain, s.current[id], id, |s.chain|))
    && (forall n | 0 <= n < |s.chain| :: s.chain[n].iou.linearID in s.current)
    && (forall n | 0 <= n < |s.chain| :: GoodEntry(s.chain, n, approver))
    && (forall id | id in s.pending :: GoodPending(s.chain, s.pending[id], approver))
  }

  lemma LaterEndorsement(endorsements: seq<Identity>, parties: seq<Identity>, approver: Identity, more: seq<Identity>)
    requires EndorsedBeforeApprover(endorsements, parties, approver)
    ensures EndorsedBeforeApprover(endorsements + more, parties, approver)
  {
    var n :| 0 <= n < |endorsements| && endorsements[n] == approver &&
             forall p | p in parties :: p in endorsements[..n];
    assert (endorsements + more)[..n] == endorsements[..n];
    assert (endorsements + more)[n] == approver;
  }

  lemma ApproveKeeps(s: State, id: nat, approver: Identity)
    requires Inv(s, approver) && Enabled(s, Approve(id), approver)
    ensures GoodPending(s.chain, Endorsed(s.pending[id], [approver]), approver)
  {
    var tx := s.pending[id];
    var done := Endorsed(tx, [approver]);
    var n := |tx.endorsements|;
    assert done.endorsements[n] == approver && done.endorsements[..n] == tx.endorsements;
    assert tx.inputs != [] ==> InputStates(s, tx)[0] == s.chain[tx.inputs[0].version].iou;
  }

  lemma EndorseKeeps(s: State, id: nat, party: Identity, approver: Identity)
    requires Inv(s, approver) && Enabled(s, Endorse(id, party), approver)
    ensures GoodPending(s.chain, Endorsed(s.pending[id], [party]), approver)
  {
    var tx := s.pending[id];
    var done := Endorsed(tx, [party]);
    if approver in done.endorsements {
      assert approver in tx.endorsements;
      LaterEndorsement(tx.endorsements, tx.outputs[0].owners, approver, [party]);
    }
  }

  lemma CommitKeeps(s: State, id: nat, approver: Identity)
    requires Inv(s, approver) && Enabled(s, Commit(id), approver)
    ensures Inv(Next(s, Commit(id), approver), approver)
  {
    var t := Next(s, Commit(id), approver);
    var n := |s.chain|;
    assert GoodPending(s.chain, s.pending[id], approver);
    forall k | 0 <= k < |t.chain| ensures GoodEntry(t.chain, k, approver) {
      if k < n {
        assert GoodEntry(s.chain, k, approver);
      } else if s.pending[id].inputs != [] {
        var input := s.pending[id].inputs[0];
        assert LastOf(s.chain, input.version, input.linearID, n);
      }
    }
    forall l | l in t.current ensures t.current[l] < |t.chain| && LastOf(t.chain, t.current[l], l, |t.chain|) {
      if l != t.chain[n].iou.linearID {
        assert LastOf(s.chain, s.current[l], l, n);
      }
    }
  }

  lemma StepKeeps(s: State, step: Step, approver: Identity)
    requires Inv(s, approver) && Enabled(s, step, approver)
    ensures Inv(Next(s, step, approver), approver)
  {
    match step
    case Propose(id, tx) =>
    case Endorse(id, party) => EndorseKeeps(s, id, party, approver);
    case Approve(id) => ApproveKeeps(s, id, approver);
    case Commit(id) => CommitKeeps(s, id, approver);
  }

  /** In every reachable state, every created IOU has an amount of at least 5 and two
      different owners; every update replaces the latest state of its linear id,
      strictly lowers the amount and has no owner that was not one before; and the
      owners of the new state endorsed before the approver did. */
  lemma {:induction false} EveryRun(steps: seq<Step>, approver: Identity)
    requires Run(steps, approver).Some?
    ensures Inv(Run(steps, approver).value, approver)
  {
    if steps != [] {
      var n := |steps| - 1;
      EveryRun(steps[..n], approver);
      StepKeeps(Run(steps[..n], approver).value, steps[n], approver);
    }
  }

  lemma RunThen(steps: seq<Step>, step: Step, approver: Identity)
    ensures Run(steps + [step], approver) ==
            match Run(steps, approver)
            case None => None
            case Some(s) => if Enabled(s, step, approver) then Some(Next(s, step, approver)) else None
  {
    assert (steps + [step])[..|steps|] == steps;
  }

  // ----- the life of one IOU -----

  /** The creation that a state goes back to. */
  function Origin(chain: seq<Entry>, n: nat): (c: nat)
    requires n < |chain|
    ensures c <= n
  {
    if chain[n].consumed.Some? && chain[n].consumed.value < n then Origin(chain, chain[n].consumed.value) else n
  }

  /** How many of the first `n` states go back to the creation `c`. */
  function Line(chain: seq<Entry>, c: nat, n: nat): nat
    requires n <= |chain|
  {
    if n == 0 then 0 else Line(chain, c, n - 1) + if Origin(chain, n - 1) == c then 1 else 0
  }

  lemma {:induction false} OriginIs(s: State, approver: Identity, n: nat)
    requires Inv(s, approver) && n < |s.chain|
    ensures s.chain[Origin(s.chain, n)].consumed.None?
    ensures s.chain[Origin(s.chain, n)].iou.linearID == s.chain[n].iou.linearID
  {
    assert GoodEntry(s.chain, n, approver);
    if s.chain[n].consumed.Some? {
      OriginIs(s, approver, s.chain[n].consumed.value);
    }
  }

  /** Nothing goes back to `c` after position `m` and before `n`. */
  lemma {:induction false} LineBetween(chain: seq<Entry>, c: nat, m: nat, n: nat)
    requires m < n <= |chain| && Origin(chain, m) == c && forall k | m < k < n :: Origin(chain, k) != c
    ensures Line(chain, c, n) == Line(chain, c, m) + 1
  {
    if m + 1 < n {
      LineBetween(chain, c, m, n - 1);
    }
  }

  /** The amount of an IOU falls with every update: it is at most the created amount
      less the number of states of this IOU so far. */
  lemma {:induction false} AmountFalls(s: State, approver: Identity, n: nat)
    requires Inv(s, approver) && n < |s.chain|
    ensures var c := Origin(s.chain, n);
            s.chain[n].iou.amount + Line(s.chain, c, n) <= s.chain[c].iou.amount
  {
    var chain, c := s.chain, Origin(s.chain, n);
    assert GoodEntry(chain, n, approver);
    if chain[n].consumed.None? {
      NoneBefore(chain, c, c);
    } else {
      var m := chain[n].consumed.value;
      AmountFalls(s, approver, m);
      OriginIs(s, approver, n);
      forall k | m < k < n ensures Origin(chain, k) != c {
        OriginIs(s, approver, k);
      }
      LineBetween(chain, c, m, n);
    }
  }

  lemma {:induction false} NoneBefore(chain: seq<Entry>, c: nat, n: nat)
    requires n <= |chain| && n <= c
    ensures Line(chain, c, n) == 0
  {
    if n > 0 {
      NoneBefore(chain, c, n - 1);
    }
  }

  /** The latest state of the IOU created at `c`. */
  lemma {:induction false} LatestOf(chain: seq<Entry>, c: nat, n: nat) returns (m: nat)
    requires c < n <= |chain| && Origin(chain, c) == c
    ensures c <= m < n && Origin(chain, m) == c && forall k | m < k < n :: Origin(chain, k) != c
  {
    if Origin(chain, n - 1) == c {
      m := n - 1;
    } else {
      m := LatestOf(chain, c, n - 1);
    }
  }

  /** In every run, an IOU created with amount A has at most A updates. */
  lemma UpdatesAreBounded(steps: seq<Step>, approver: Identity, c: nat)
    requires Run(steps, approver).Some?
    requires c < |Run(steps, approver).value.chain| && Run(steps, approver).value.chain[c].consumed.None?
    ensures var chain := Run(steps, approver).value.chain;
            Line(chain, c, |chain|) - 1 <= chain[c].iou.amount
  {
    EveryRun(steps, approver);
    var s := Run(steps, approver).value;
    var m := LatestOf(s.chain, c, |s.chain|);
    LineBetween(s.chain, c, m, |s.chain|);
    AmountFalls(s, approver, m);
  }

  // ----- linear ids -----

  /** Every state of a linear id but the first is an update of the one before it. */
  predicate SingleLine(chain: seq<Entry>) {
    forall m, n | 0 <= m < n < |chain| && LastOf(chain, m, chain[n].iou.linearID, n) ::
      chain[n].consumed == Some(m)
  }

  /** The guard that is missing from the approver: a creation has a new linear id. */
  predicate FreshOrUpdate(s: State, tx: Tx) {
    tx.inputs != [] || (|tx.outputs| == 1 && tx.outputs[0].linearID !in s.current)
  }

  lemma LastOfBefore(chain: seq<Entry>, e: Entry, m: nat, linearID: string, n: nat)
    requires m < n <= |chain|
    ensures LastOf(chain + [e], m, linearID, n) <==> LastOf(chain, m, linearID, n)
  {
    var longer := chain + [e];
    assert forall k | 0 <= k < n :: longer[k] == chain[k];
    if LastOf(longer, m, linearID, n) {
      forall k | m < k < n ensures chain[k].iou.linearID != linearID {
        assert longer[k].iou.linearID != linearID;
      }
    }
  }

  /** One more state keeps the single lines exactly if it replaces the last of its
      linear id, should there be one. */
  lemma SingleLineThen(chain: seq<Entry>, e: Entry)
    ensures SingleLine(chain + [e]) <==>
            && SingleLine(chain)
            && forall m | 0 <= m < |chain| && LastOf(chain, m, e.iou.linearID, |chain|) :: e.consumed == Some(m)
  {
    var longer := chain + [e];
    forall m, n | 0 <= m < n <= |chain|
      ensures LastOf(longer, m, longer[n].iou.linearID, n) <==> LastOf(chain, m, longer[n].iou.linearID, n)
    {
      LastOfBefore(chain, e, m, longer[n].iou.linearID, n);
    }
    if SingleLine(longer) {
      forall m, n | 0 <= m < n < |chain| && LastOf(chain, m, chain[n].iou.linearID, n)
        ensures chain[n].consumed == Some(m)
      {
        assert LastOf(longer, m, longer[n].iou.linearID, n);
      }
      forall m | 0 <= m < |chain| && LastOf(chain, m, e.iou.linearID, |chain|) ensures e.consumed == Some(m) {
        assert LastOf(longer, m, longer[|chain|].iou.linearID, |chain|);
      }
    }
  }

  /** A commitment keeps the single line of every linear id exactly under that guard. */
  lemma SingleLineStep(s: State, approver: Identity, id: nat)
    requires Inv(s, approver) && Enabled(s, Commit(id), approver) && SingleLine(s.chain)
    ensures SingleLine(Next(s, Commit(id), approver).chain) <==> FreshOrUpdate(s, s.pending[id])
  {
    var tx, n := s.pending[id], |s.chain|;
    var e := Next(s, Commit(id), approver).chain[n];
    assert GoodPending(s.chain, tx, approver);
    SingleLineThen(s.chain, e);
    var linearID := tx.outputs[0].linearID;
    assert tx.inputs != [] ==> e.consumed == Some(s.current[linearID]);
    assert linearID in s.current ==> LastOf(s.chain, s.current[linearID], linearID, n);
    forall m | 0 <= m < n && LastOf(s.chain, m, linearID, n)
      ensures linearID in s.current && s.current[linearID] == m
    {
      LastIsCurrent(s, approver, linearID, m);
    }
  }

  lemma LastIsCurrent(s: State, approver: Identity, linearID: string, m: nat)
    requires Inv(s, approver) && m < |s.chain| && LastOf(s.chain, m, linearID, |s.chain|)
    ensures linearID in s.current && s.current[linearID] == m
  {
    assert s.chain[m].iou.linearID in s.current;
    assert LastOf(s.chain, s.current[linearID], linearID, |s.chain|);
  }

  /** Every commitment of the run met the guard, in the state before it. */
  predicate EveryCommit(steps: seq<Step>, approver: Identity, guard: (State, Tx) -> bool) {
    forall n | 0 <= n < |steps| && steps[n].Commit? && Run(steps[..n], approver).Some? ::
      var s := Run(steps[..n], approver).value;
      steps[n].txID in s.pending ==> guard(s, s.pending[steps[n].txID])
  }

  lemma EveryCommitThen(steps: seq<Step>, step: Step, approver: Identity, guard: (State, Tx) -> bool)
    requires Run(steps, approver).Some? && Enabled(Run(steps, approver).value, step, approver)
    ensures var s := Run(steps, approver).value;
            EveryCommit(steps + [step], approver, guard) <==>
            EveryCommit(steps, approver, guard) && (step.Commit? ==> guard(s, s.pending[step.txID]))
  {
    var longer := steps + [step];
    assert longer[..|steps|] == steps && longer[|steps|] == step;
    assert forall n | 0 <= n < |steps| :: longer[..n] == steps[..n] && longer[n] == steps[n];
  }

  /** In every run, each linear id has a single line of states exactly when every
      commitment met the guard. */
  lemma {:induction false} SingleLineIffFresh(steps: seq<Step>, approver: Identity)
    requires Run(steps, approver).Some?
    ensures SingleLine(Run(steps, approver).value.chain) <==> EveryCommit(steps, approver, FreshOrUpdate)
  {
    if steps != [] {
      var front, step := steps[..|steps| - 1], steps[|steps| - 1];
      var s := Run(front, approver).value;
      assert front + [step] == steps;
      SingleLineIffFresh(front, approver);
      EveryCommitThen(front, step, approver, FreshOrUpdate);
      EveryRun(front, approver);
      if step.Commit? {
        if SingleLine(s.chain) {
          SingleLineStep(s, approver, step.txID);
        } else {
          SingleLineThen(s.chain, Next(s, step, approver).chain[|s.chain|]);
        }
      }
    }
  }

  /** Then the states of a linear id are those of one IOU. */
  lemma OriginIffSameID(steps: seq<Step>, approver: Identity, c: nat, n: nat)
    requires Run(steps, approver).Some? && EveryCommit(steps, approver, FreshOrUpdate)
    requires var chain := Run(steps, approver).value.chain; c < |chain| && n < |chain| && chain[c].consumed.None?
    ensures var chain := Run(steps, approver).value.chain;
            Origin(chain, n) == c <==> chain[n].iou.linearID == chain[c].iou.linearID
  {
    SingleLineIffFresh(steps, approver);
    EveryRun(steps, approver);
    var s := Run(steps, approver).value;
    var d := Origin(s.chain, n);
    OriginIs(s, approver, n);
    if d < c && s.chain[n].iou.linearID == s.chain[c].iou.linearID {
      LaterIsUpdate(s.chain, d, c);
    } else if c < d && s.chain[n].iou.linearID == s.chain[c].iou.linearID {
      LaterIsUpdate(s.chain, c, d);
    }
  }

  lemma LaterIsUpdate(chain: seq<Entry>, k: nat, n: nat)
    requires SingleLine(chain) && k < n < |chain| && chain[k].iou.linearID == chain[n].iou.linearID
    ensures chain[n].consumed.Some?
  {
    var m := LastBefore(chain, k, n);
    assert chain[n].consumed == Some(m);
  }

  lemma {:induction false} LastBefore(chain: seq<Entry>, k: nat, n: nat) returns (m: nat)
    requires k < n < |chain| && chain[k].iou.linearID == chain[n].iou.linearID
    ensures k <= m < n && LastOf(chain, m, chain[n].iou.linearID, n)
    decreases n - k
  {
    if exists j :: k < j < n && chain[j].iou.linearID == chain[n].iou.linearID {
      var j :| k < j < n && chain[j].iou.linearID == chain[n].iou.linearID;
      m := LastBefore(chain, j, n);
    } else {
      m := k;
    }
  }

  // ----- owners -----

  /** Every update has the owners of the state it replaces, up to their order. */
  predicate OwnersKept(chain: seq<Entry>) {
    forall n | 0 <= n < |chain| && chain[n].consumed.Some? && chain[n].consumed.value < |chain| ::
      multiset(chain[n].iou.owners) == multiset(chain[chain[n].consumed.value].iou.owners)
  }

  /** The guard that is missing from the approver: no owner is listed twice. */
  predicate OwnersDiffer(s: State, tx: Tx) {
    tx.inputs == [] || (|tx.outputs| == 1 && NoDuplicates(tx.outputs[0].owners))
  }

  lemma {:induction false} KeptOwnersDiffer(s: State, approver: Identity, n: nat)
    requires Inv(s, approver) && OwnersKept(s.chain) && n < |s.chain|
    ensures NoDuplicates(s.chain[n].iou.owners)
  {
    assert GoodEntry(s.chain, n, approver);
    if s.chain[n].consumed.Some? {
      var m := s.chain[n].consumed.value;
      KeptOwnersDiffer(s, approver, m);
      MatchIsPermutation(s.chain[m].iou.owners, s.chain[n].iou.owners);
    }
  }

  lemma OwnersKeptBefore(s: State, approver: Identity, e: Entry)
    requires Inv(s, approver)
    ensures OwnersKept(s.chain + [e]) ==> OwnersKept(s.chain)
    ensures OwnersKept(s.chain) && (e.consumed.Some? && e.consumed.value < |s.chain| ==>
              multiset(e.iou.owners) == multiset(s.chain[e.consumed.value].iou.owners)) && e.consumed != Some(|s.chain|) ==>
              OwnersKept(s.chain + [e])
  {
    var longer := s.chain + [e];
    forall n | 0 <= n < |s.chain| && s.chain[n].consumed.Some?
      ensures s.chain[n].consumed.value < |s.chain| && longer[n] == s.chain[n]
    {
      assert GoodEntry(s.chain, n, approver);
    }
  }

  /** A commitment keeps the owners of every IOU exactly under that guard. */
  lemma OwnersKeptStep(s: State, approver: Identity, id: nat)
    requires Inv(s, approver) && Enabled(s, Commit(id), approver) && OwnersKept(s.chain)
    ensures OwnersKept(Next(s, Commit(id), approver).chain) <==> OwnersDiffer(s, s.pending[id])
  {
    var t, tx, n := Next(s, Commit(id), approver), s.pending[id], |s.chain|;
    var e := t.chain[n];
    assert t.chain == s.chain + [e];
    assert GoodPending(s.chain, tx, approver);
    OwnersKeptBefore(s, approver, e);
    if tx.inputs != [] {
      var m := tx.inputs[0].version;
      KeptOwnersDiffer(s, approver, m);
      MatchIsPermutation(s.chain[m].iou.owners, e.iou.owners);
      assert t.chain[n].consumed == Some(m) && t.chain[m] == s.chain[m];
    }
  }

  /** In every run, all updates keep the owners exactly when every commitment met the guard. */
  lemma {:induction false} OwnersKeptIffTheyDiffer(steps: seq<Step>, approver: Identity)
    requires Run(steps, approver).Some?
    ensures OwnersKept(Run(steps, approver).value.chain) <==> EveryCommit(steps, approver, OwnersDiffer)
  {
    if steps != [] {
      var front, step := steps[..|steps| - 1], steps[|steps| - 1];
      var s := Run(front, approver).value;
      assert front + [step] == steps;
      OwnersKeptIffTheyDiffer(front, approver);
      EveryCommitThen(front, step, approver, OwnersDiffer);
      EveryRun(front, approver);
      if step.Commit? {
        if OwnersKept(s.chain) {
          OwnersKeptStep(s, approver, step.txID);
        } else {
          OwnersKeptBefore(s, approver, Next(s, step, approver).chain[|s.chain|]);
        }
      }
    }
  }

  // ----- runs that break the two promises -----

  function Endorsing(id: nat, parties: seq<Identity>): seq<Step> {
    if parties == [] then [] else Endorsing(id, parties[..|parties| - 1]) + [Endorse(id, parties[|parties| - 1])]
  }

  lemma {:induction false} EndorsingRun(steps: seq<Step>, approver: Identity, id: nat, parties: seq<Identity>)
    requires Run(steps, approver).Some? && id in Run(steps, approver).value.pending && approver !in parties
    ensures var s := Run(steps, approver).value;
            Run(steps + Endorsing(id, parties), approver) == Some(s.(pending := s.pending[id := Endorsed(s.pending[id], parties)]))
  {
    var s := Run(steps, approver).value;
    if parties == [] {
      assert steps + [] == steps && s.pending[id].endorsements + [] == s.pending[id].endorsements;
      assert s.pending[id := s.pending[id]] == s.pending;
    } else {
      var front, last := parties[..|parties| - 1], parties[|parties| - 1];
      EndorsingRun(steps, approver, id, front);
      assert steps + Endorsing(id, parties) == steps + Endorsing(id, front) + [Endorse(id, last)];
      RunThen(steps + Endorsing(id, front), Endorse(id, last), approver);
      EndorsedThen(s.pending[id], front, last);
      assert parties == front + [last];
      assert s.pending[id := Endorsed(s.pending[id], front)][id := Endorsed(s.pending[id], parties)] ==
             s.pending[id := Endorsed(s.pending[id], parties)];
    }
  }

  lemma EndorsedThen(tx: Tx, parties: seq<Identity>, party: Identity)
    ensures Endorsed(Endorsed(tx, parties), [party]) == Endorsed(tx, parties + [party])
  {
    assert tx.endorsements + parties + [party] == tx.endorsements + (parties + [party]);
  }

  /** A transaction on its way from the proposal to the ledger. */
  function WholeTx(id: nat, tx: Tx, parties: seq<Identity>): seq<Step> {
    [Propose(id, tx)] + Endorsing(id, parties) + [Approve(id)] + [Commit(id)]
  }

  lemma WholeTxRun(steps: seq<Step>, approver: Identity, id: nat, tx: Tx, parties: seq<Identity>)
    requires Run(steps, approver).Some? && approver !in parties && tx.endorsements == [] && |tx.outputs| == 1
    requires var s := Run(steps, approver).value;
             id !in s.pending && Current(s, tx) && ApproverAccepts(Endorsed(tx, parties), InputStates(s, tx))
    ensures var s := Run(steps, approver).value;
            var consumed := if tx.inputs == [] then None else Some(tx.inputs[0].version);
            Run(steps + WholeTx(id, tx, parties), approver) ==
            Some(State(s.chain + [Entry(tx.outputs[0], consumed, parties + [approver])],
                       s.current[tx.outputs[0].linearID := |s.chain|], s.pending))
  {
    var s := Run(steps, approver).value;
    var endorsed := steps + [Propose(id, tx)] + Endorsing(id, parties);
    ProposeAndEndorse(steps, approver, id, tx, parties);
    var t := Run(endorsed, approver).value;
    SameInputs(s, t, tx, t.pending[id]);
    ApproveAndCommit(endorsed, approver, id);
    Regroup(steps, [Propose(id, tx)], Endorsing(id, parties), [Approve(id)], [Commit(id)]);
    assert t.pending - {id} == s.pending;
  }

  lemma SameInputs(s: State, t: State, tx: Tx, other: Tx)
    requires t.chain == s.chain && t.current == s.current && other.inputs == tx.inputs && Current(s, tx)
    ensures Current(t, other) && InputStates(t, other) == InputStates(s, tx)
  {
  }

  lemma Regroup(a: seq<Step>, b: seq<Step>, c: seq<Step>, d: seq<Step>, e: seq<Step>)
    ensures a + (b + c + d + e) == a + b + c + d + e
  {
  }

  lemma ProposeAndEndorse(steps: seq<Step>, approver: Identity, id: nat, tx: Tx, parties: seq<Identity>)
    requires Run(steps, approver).Some? && approver !in parties && tx.endorsements == []
    requires id !in Run(steps, approver).value.pending
    ensures var s := Run(steps, approver).value;
            && Run(steps + [Propose(id, tx)] + Endorsing(id, parties), approver) ==
               Some(s.(pending := s.pending[id := Endorsed(tx, parties)]))
            && Endorsed(tx, parties).endorsements == parties
  {
    var s := Run(steps, approver).value;
    RunThen(steps, Propose(id, tx), approver);
    EndorsingRun(steps + [Propose(id, tx)], approver, id, parties);
    assert s.pending[id := tx][id := Endorsed(tx, parties)] == s.pending[id := Endorsed(tx, parties)];
  }

  lemma ApproveAndCommit(steps: seq<Step>, approver: Identity, id: nat)
    requires Run(steps, approver).Some? && Enabled(Run(steps, approver).value, Approve(id), approver)
    requires |Run(steps, approver).value.pending[id].outputs| == 1
    ensures var s := Run(steps, approver).value;
            var tx := s.pending[id];
            var consumed := if tx.inputs == [] then None else Some(tx.inputs[0].version);
            Run(steps + [Approve(id)] + [Commit(id)], approver) ==
            Some(State(s.chain + [Entry(tx.outputs[0], consumed, tx.endorsements + [approver])],
                       s.current[tx.outputs[0].linearID := |s.chain|], s.pending - {id}))
  {
    var s := Run(steps, approver).value;
    var tx := s.pending[id];
    RunThen(steps, Approve(id), approver);
    RunThen(steps + [Approve(id)], Commit(id), approver);
    assert (tx.endorsements + [approver])[|tx.endorsements|] == approver;
    assert s.pending[id := Endorsed(tx, [approver])] - {id} == s.pending - {id};
  }

  function CreationSteps(id: nat, amount: nat, linearID: string, a: Identity, b: Identity): seq<Step> {
    WholeTx(id, BorrowerCreation(amount, linearID, a, b), [a, b])
  }

  /** The same linear id is created twice: both commit, the first with 10 and the
      second with 100. */
  lemma CreationCanReuseID(approver: Identity, linearID: string, a: Identity, b: Identity)
    requires a != b && approver != a && approver != b
    ensures var r := Run(CreationSteps(0, 10, linearID, a, b) + CreationSteps(1, 100, linearID, a, b), approver);
            && r.Some? && |r.value.chain| == 2
            && r.value.chain[0].iou == Iou(10, linearID, [a, b]) && r.value.chain[1].iou == Iou(100, linearID, [a, b])
            && r.value.chain[1].consumed.None? && !SingleLine(r.value.chain)
  {
    CreationRun([], approver, 0, 10, linearID, a, b);
    var first := CreationSteps(0, 10, linearID, a, b);
    assert [] + first == first;
    CreationRun(first, approver, 1, 100, linearID, a, b);
    var chain := Run(first + CreationSteps(1, 100, linearID, a, b), approver).value.chain;
    if SingleLine(chain) {
      LaterIsUpdate(chain, 0, 1);
    }
  }

  lemma CreationRun(steps: seq<Step>, approver: Identity, id: nat, amount: nat, linearID: string, a: Identity, b: Identity)
    requires Run(steps, approver).Some? && id !in Run(steps, approver).value.pending
    requires amount >= 5 && a != b && approver != a && approver != b
    ensures var s := Run(steps, approver).value;
            Run(steps + CreationSteps(id, amount, linearID, a, b), approver) ==
            Some(State(s.chain + [Entry(Iou(amount, linearID, [a, b]), None, [a, b, approver])],
                       s.current[linearID := |s.chain|], s.pending))
  {
    var s, tx := Run(steps, approver).value, BorrowerCreation(amount, linearID, a, b);
    BorrowerCreationApproved(amount, linearID, a, b);
    assert InputStates(s, tx) == [];
    WholeTxRun(steps, approver, id, tx, [a, b]);
    assert [a, b] + [approver] == [a, b, approver];
  }

  /** An IOU always has two owners, if perhaps the same twice. */
  lemma {:induction false} TwoOwners(s: State, approver: Identity, n: nat)
    requires Inv(s, approver) && n < |s.chain|
    ensures |s.chain[n].iou.owners| == 2
  {
    assert GoodEntry(s.chain, n, approver);
    if s.chain[n].consumed.Some? {
      TwoOwners(s, approver, s.chain[n].consumed.value);
    }
  }

  /** After any run, the update that the borrower assembles from the latest state of an
      IOU, endorsed by its owners, commits if it lowers the amount: the next state has
      exactly the requested amount and is otherwise the same. */
  lemma UpdateRun(steps: seq<Step>, approver: Identity, id: nat, linearID: string, amount: nat)
    requires Run(steps, approver).Some? && id !in Run(steps, approver).value.pending
    requires linearID in Run(steps, approver).value.current
    requires var s := Run(steps, approver).value;
             s.current[linearID] < |s.chain| && amount < s.chain[s.current[linearID]].iou.amount
             && approver !in s.chain[s.current[linearID]].iou.owners
    ensures var s := Run(steps, approver).value;
            var version := s.current[linearID];
            var current := s.chain[version].iou;
            Run(steps + WholeTx(id, BorrowerUpdate(current, version, amount), current.owners), approver) ==
            Some(State(s.chain + [Entry(Iou(amount, linearID, current.owners), Some(version), current.owners + [approver])],
                       s.current[linearID := |s.chain|], s.pending))
  {
    var s := Run(steps, approver).value;
    var version := s.current[linearID];
    var current := s.chain[version].iou;
    var tx := BorrowerUpdate(current, version, amount);
    EveryRun(steps, approver);
    assert LastOf(s.chain, version, linearID, |s.chain|);
    TwoOwners(s, approver, version);
    BorrowerUpdateApproved(current, version, amount);
    assert InputStates(s, tx) == [current];
    WholeTxRun(steps, approver, id, tx, current.owners);
  }

  /** The update that lists one owner twice and drops the other. */
  function DroppingUpdate(linearID: string, a: Identity, b: Identity): Tx {
    BorrowerUpdate(Iou(10, linearID, [a, b]), 0, 9).(outputs := [Iou(9, linearID, [a, a])])
  }

  /** It commits with the endorsements of the first owner and the approver alone. */
  lemma OwnerCanBeDropped(approver: Identity, linearID: string, a: Identity, b: Identity)
    requires a != b && approver != a && approver != b
    ensures var steps := CreationSteps(0, 10, linearID, a, b) + WholeTx(1, DroppingUpdate(linearID, a, b), [a]);
            var r := Run(steps, approver);
            && r.Some? && |r.value.chain| == 2
            && r.value.chain[1] == Entry(Iou(9, linearID, [a, a]), Some(0), [a, approver])
            && r.value.chain[0].iou.owners == [a, b] && !OwnersKept(r.value.chain)
  {
    var first, tx := CreationSteps(0, 10, linearID, a, b), DroppingUpdate(linearID, a, b);
    var created := Entry(Iou(10, linearID, [a, b]), None, [a, b, approver]);
    FirstCreation(approver, linearID, a, b);
    CanUpdate(created, linearID, tx);
    DropAccepted(linearID, a, b);
    WholeTxRun(first, approver, 1, tx, [a]);
    assert [a] + [approver] == [a, approver];
    NotKept(created, Entry(Iou(9, linearID, [a, a]), Some(0), [a, approver]), a, b);
  }

  function OneState(e: Entry): State {
    State([e], map[e.iou.linearID := 0], map[])
  }

  lemma FirstCreation(approver: Identity, linearID: string, a: Identity, b: Identity)
    requires a != b && approver != a && approver != b
    ensures Run(CreationSteps(0, 10, linearID, a, b), approver) ==
            Some(OneState(Entry(Iou(10, linearID, [a, b]), None, [a, b, approver])))
  {
    var first, created := CreationSteps(0, 10, linearID, a, b), Entry(Iou(10, linearID, [a, b]), None, [a, b, approver]);
    CreationRun([], approver, 0, 10, linearID, a, b);
    assert [] + first == first;
    assert INIT.chain + [created] == [created] && INIT.current[linearID := 0] == map[linearID := 0];
  }

  lemma CanUpdate(e: Entry, linearID: string, tx: Tx)
    requires e.iou.linearID == linearID && tx.inputs == [Input(linearID, 0)]
    ensures Current(OneState(e), tx) && InputStates(OneState(e), tx) == [e.iou]
  {
  }

  lemma NotKept(created: Entry, updated: Entry, a: Identity, b: Identity)
    requires a != b && created.iou.owners == [a, b] && updated.iou.owners == [a, a] && updated.consumed == Some(0)
    ensures !OwnersKept([created] + [updated])
  {
    var chain := [created] + [updated];
    MatchAcceptsDuplicate(a, b);
    assert multiset(chain[1].iou.owners) != multiset(chain[0].iou.owners);
  }

  lemma DropAccepted(linearID: string, a: Identity, b: Identity)
    requires a != b
    ensures ApproverAccepts(Endorsed(DroppingUpdate(linearID, a, b), [a]), [Iou(10, linearID, [a, b])])
  {
    MatchAcceptsDuplicate(a, b);
    assert Endorsed(DroppingUpdate(linearID, a, b), [a]).endorsements == [a];
  }
}
