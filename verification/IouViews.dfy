/** `integration/fabric/iou/views`: what the borrower assembles and what the lender
    and the approver check before they endorse an IOU transaction. */
module IouViews {

  type Identity = string

  /** An IOU state: amount owed, linear id, owners. */
  datatype Iou = Iou(amount: nat, linearID: string, owners: seq<Identity>)

  datatype Command = Command(name: string, ids: seq<Identity>)

  /** A reference to a state in the ledger, by linear id and version. */
  datatype Input = Input(linearID: string, version: nat)

  /** A transaction.  Inputs and outputs are added through the state API, so an
      output is filed under its linear id. */
  datatype Tx = Tx(namespaces: seq<string>, commands: seq<Command>, inputs: seq<Input>, outputs: seq<Iou>,
                   endorsements: seq<Identity>)

  // ----- platform/fabric/services/state/identities.go -----

  predicate NoDuplicates(ids: seq<Identity>) {
    forall i, j | 0 <= i < j < |ids| :: ids[i] != ids[j]
  }

  /** What `Match` computes. */
  predicate Matches(own: seq<Identity>, ids: seq<Identity>) {
    |own| == |ids| && forall id | id in ids :: id in own
  }

  method Match(own: seq<Identity>, ids: seq<Identity>) returns (r: bool)
    ensures r <==> Matches(own, ids)
  {
    if |ids| != |own| {
      return false;
    }
    for i := 0 to |ids|
      invariant forall k | 0 <= k < i :: ids[k] in own
    {
      var found := false;
      for j := 0 to |own|
        invariant found <==> exists k :: 0 <= k < j && own[k] == ids[i]
      {
        if own[j] == ids[i] {
          found := true;
          break;
        }
      }
      if !found {
        assert ids[i] in ids;
        return false;
      }
    }
    return true;
  }

  /** `Match` promises equality of the identities up to their positions.  On a list
      without duplicates it delivers exactly that when, and only when, the other
      list has no duplicates either. */
  lemma MatchIsPermutation(own: seq<Identity>, ids: seq<Identity>)
    requires NoDuplicates(own)
    ensures multiset(own) == multiset(ids) <==> Matches(own, ids) && NoDuplicates(ids)
  {
    if multiset(own) == multiset(ids) {
      PermutationMatches(own, ids);
      SetOf(own);
      SetOf(ids);
    }
    if Matches(own, ids) && NoDuplicates(ids) {
      DistinctIsPermutation(own, ids);
    }
  }

  /** Whatever the own list, it delivers that for a passed list without duplicates. */
  lemma MatchOfDistinct(own: seq<Identity>, ids: seq<Identity>)
    requires NoDuplicates(ids)
    ensures multiset(own) == multiset(ids) <==> Matches(own, ids)
  {
    if multiset(own) == multiset(ids) {
      PermutationMatches(own, ids);
    }
    if Matches(own, ids) {
      DistinctIsPermutation(own, ids);
    }
  }

  lemma PermutationMatches(own: seq<Identity>, ids: seq<Identity>)
    requires multiset(own) == multiset(ids)
    ensures Matches(own, ids) && Elements(own) == Elements(ids)
  {
    assert |own| == |multiset(own)| == |multiset(ids)| == |ids|;
    forall id ensures id in own <==> id in ids {
      assert id in own <==> id in multiset(own) <==> id in multiset(ids) <==> id in ids;
    }
  }

  lemma DistinctIsPermutation(own: seq<Identity>, ids: seq<Identity>)
    requires Matches(own, ids) && NoDuplicates(ids)
    ensures multiset(own) == multiset(ids)
  {
    SetOf(own);
    SetOf(ids);
    var a, b := Elements(own), Elements(ids);
    SubsetIsSmaller(b, a);
    forall id ensures multiset(own)[id] == multiset(ids)[id] {
      assert id in own <==> id in a <==> id in b <==> id in ids;
      OccursOnce(own, id);
      OccursOnce(ids, id);
    }
  }

  /** It does accept a list with a duplicate in place of another identity. */
  lemma MatchAcceptsDuplicate(a: Identity, b: Identity)
    requires a != b
    ensures Matches([a, b], [a, a]) && multiset([a, b]) != multiset([a, a])
  {
    assert multiset([a, b])[b] == 1 && multiset([a, a])[b] == 0;
  }

  function Elements(ids: seq<Identity>): set<Identity> {
    set id | id in ids
  }

  lemma {:induction false} SetOf(ids: seq<Identity>)
    ensures |Elements(ids)| <= |ids|
    ensures |Elements(ids)| == |ids| <==> NoDuplicates(ids)
  {
    if ids != [] {
      var n := |ids| - 1;
      var init := ids[..n];
      SetOf(init);
      assert ids == init + [ids[n]];
      NoDuplicatesThen(init, ids[n]);
      assert Elements(ids) == Elements(init) + {ids[n]};
    }
  }

  lemma NoDuplicatesThen(ids: seq<Identity>, id: Identity)
    ensures NoDuplicates(ids + [id]) <==> NoDuplicates(ids) && id !in ids
  {
    var longer := ids + [id];
    if NoDuplicates(longer) {
      forall i, j | 0 <= i < j < |ids| ensures ids[i] != ids[j] {
        assert longer[i] != longer[j];
      }
      forall k | 0 <= k < |ids| ensures ids[k] != id {
        assert longer[k] != longer[|ids|];
      }
    }
  }

  lemma SubsetIsSmaller(b: set<Identity>, a: set<Identity>)
    requires b <= a
    ensures |b| <= |a|
    ensures |b| == |a| ==> a == b
  {
    assert a == b + (a - b);
  }

  lemma {:induction false} OccursOnce(ids: seq<Identity>, id: Identity)
    requires NoDuplicates(ids)
    ensures multiset(ids)[id] == if id in ids then 1 else 0
  {
    if ids != [] {
      var n := |ids| - 1;
      OccursOnce(ids[..n], id);
      assert ids == ids[..n] + [ids[n]];
    }
  }

  // ----- platform/fabric/services/endorser/transaction.go -----

  predicate EndorsedBy(tx: Tx, parties: seq<Identity>) {
    forall p | p in parties :: p in tx.endorsements
  }

  // ----- the checks -----

  /** `ApproverView.Call`, with the states that the inputs refer to. */
  predicate ApproverAccepts(tx: Tx, inputStates: seq<Iou>)
    requires |inputStates| == |tx.inputs|
  {
    && tx.namespaces == ["iou"]
    && |tx.commands| == 1
    && match tx.commands[0].name
       case "create" =>
         && |tx.inputs| == 0 && |tx.outputs| == 1
         && ApprovesCreation(tx, tx.outputs[0])
       case "update" =>
         && |tx.inputs| == 1 && |tx.outputs| == 1
         && ApprovesUpdate(tx, inputStates[0], tx.outputs[0])
       case _ => false
  }

  predicate ApprovesCreation(tx: Tx, iou: Iou)
    requires |tx.commands| == 1
  {
    && iou.amount >= 5
    && |iou.owners| == 2 && iou.owners[0] != iou.owners[1]
    && Matches(iou.owners, tx.commands[0].ids)
    && EndorsedBy(tx, iou.owners)
  }

  predicate ApprovesUpdate(tx: Tx, before: Iou, after: Iou) {
    && before.linearID == after.linearID
    && after.amount < before.amount
    && Matches(before.owners, after.owners)
    && EndorsedBy(tx, after.owners)
  }

  /** `CreateIOUResponderView.Call`. */
  predicate LenderAcceptsCreation(tx: Tx, lender: Identity, borrower: Identity) {
    && tx.namespaces == ["iou"]
    && |tx.commands| == 1 && tx.commands[0].name == "create"
    && |tx.inputs| == 0 && |tx.outputs| == 1
    && var iou := tx.outputs[0];
       && !(iou.amount < 5)
       && |iou.owners| == 2 && lender in iou.owners
       && Matches(tx.commands[0].ids, [lender, borrower])
       && Matches(iou.owners, [lender, borrower])
       && EndorsedBy(tx, [borrower])
  }

  /** `Identities.Filter`: the identities that satisfy the given test. */
  function Filter(ids: seq<Identity>, f: Identity -> bool): (r: seq<Identity>)
    ensures forall id :: id in r <==> id in ids && f(id)
  {
    if ids == [] then []
    else Filter(ids[..|ids| - 1], f) + if f(ids[|ids| - 1]) then [ids[|ids| - 1]] else []
  }

  /** An identity that passes the test ends up right after what those before it leave,
      so order and multiplicity are kept. */
  lemma {:induction false} FilterPosition(ids: seq<Identity>, f: Identity -> bool, i: nat)
    requires i < |ids| && f(ids[i])
    ensures |Filter(ids[..i], f)| < |Filter(ids, f)|
    ensures Filter(ids, f)[|Filter(ids[..i], f)|] == ids[i]
    ensures Filter(ids[..i], f) <= Filter(ids, f)
  {
    var n := |ids| - 1;
    var front, all := Filter(ids[..n], f), Filter(ids, f);
    assert front <= all;
    if i < n {
      FilterPosition(ids[..n], f, i);
      assert ids[..n][..i] == ids[..i] && ids[..n][i] == ids[i];
    } else {
      assert all == front + [ids[i]];
    }
  }

  method FilterIdentities(ids: seq<Identity>, f: Identity -> bool) returns (res: seq<Identity>)
    ensures res == Filter(ids, f)
  {
    res := [];
    for i := 0 to |ids|
      invariant res == Filter(ids[..i], f)
    {
      assert ids[..i + 1][..i] == ids[..i];
      if f(ids[i]) {
        res := res + [ids[i]];
      }
    }
    assert ids[..|ids|] == ids;
  }

  /** `UpdateIOUResponderView.Call`; `isMe` recognises the lender's identities. */
  predicate LenderAcceptsUpdate(tx: Tx, inputStates: seq<Iou>, isMe: Identity -> bool)
    requires |inputStates| == |tx.inputs|
  {
    && tx.namespaces == ["iou"]
    && |tx.commands| > 0 && tx.commands[0].name == "update"
    && |tx.inputs| == 1 && |tx.outputs| == 1
    && var before, after := inputStates[0], tx.outputs[0];
       && before.linearID == after.linearID
       && !(after.amount >= before.amount)
       && Matches(before.owners, after.owners)
       && |before.owners| == 2
       && isMe(before.owners[0]) != isMe(before.owners[1])
       && EndorsedBy(tx, Filter(before.owners, id => !isMe(id)))
  }

  // ----- what the borrower assembles -----

  /** `CreateIOUView.Call`, up to collecting endorsements. */
  function BorrowerCreation(amount: nat, freshID: string, borrower: Identity, lender: Identity): Tx {
    Tx(["iou"], [Command("create", [borrower, lender])], [], [Iou(amount, freshID, [borrower, lender])], [])
  }

  /** `UpdateIOUView.Call`, up to collecting endorsements. */
  function BorrowerUpdate(current: Iou, version: nat, amount: nat): Tx {
    Tx(["iou"], [Command("update", current.owners)], [Input(current.linearID, version)],
       [current.(amount := amount)], [])
  }

  function Endorsed(tx: Tx, parties: seq<Identity>): Tx {
    tx.(endorsements := tx.endorsements + parties)
  }

  /** A creation that the lender accepts is one that the approver accepts, once both
      have endorsed it and unless lender and borrower are the same. */
  lemma LenderThenApproverCreation(tx: Tx, lender: Identity, borrower: Identity)
    requires LenderAcceptsCreation(tx, lender, borrower) && lender != borrower
    ensures ApproverAccepts(Endorsed(tx, [lender]), [])
  {
    var owners, ids := tx.outputs[0].owners, tx.commands[0].ids;
    assert [lender, borrower][0] == lender && [lender, borrower][1] == borrower;
    assert lender in owners && borrower in owners && lender in ids && borrower in ids;
    assert Endorsed(tx, [lender]).endorsements[|tx.endorsements|] == lender;
    assert borrower in tx.endorsements by {
      assert borrower in [borrower];
    }
  }

  /** An update with a single command that the lender accepts is one that the
      approver accepts once the lender has endorsed it. */
  lemma LenderThenApproverUpdate(tx: Tx, inputStates: seq<Iou>, isMe: Identity -> bool, lender: Identity)
    requires |inputStates| == |tx.inputs| && LenderAcceptsUpdate(tx, inputStates, isMe) && |tx.commands| == 1
    requires lender in inputStates[0].owners && isMe(lender)
    ensures ApproverAccepts(Endorsed(tx, [lender]), inputStates)
  {
    var before, after := inputStates[0], tx.outputs[0];
    var done := Endorsed(tx, [lender]);
    forall p | p in after.owners ensures p in done.endorsements {
      assert p in before.owners;
      if isMe(p) {
        assert p == lender;
        assert done.endorsements[|tx.endorsements|] == lender;
      } else {
        assert p in Filter(before.owners, id => !isMe(id));
        assert p in tx.endorsements;
      }
    }
  }

  // ----- what acceptance means, for any transaction -----

  /** The two identities, in any order. */
  predicate IsPair(ids: seq<Identity>, a: Identity, b: Identity) {
    |ids| == 2 && a in ids && b in ids
  }

  /** The lender endorses exactly the creations, in this namespace and with this one
      command, of one IOU of at least 5 whose owners and whose command's identities are
      the lender and the borrower, and which the borrower has endorsed. */
  lemma LenderAcceptsCreationMeans(tx: Tx, lender: Identity, borrower: Identity)
    ensures LenderAcceptsCreation(tx, lender, borrower) <==>
            && tx.namespaces == ["iou"] && tx.inputs == []
            && (exists ids :: tx.commands == [Command("create", ids)] && IsPair(ids, lender, borrower))
            && (exists iou :: tx.outputs == [iou] && iou.amount >= 5 && IsPair(iou.owners, lender, borrower))
            && borrower in tx.endorsements
  {
    var both := [lender, borrower];
    assert lender in both && borrower in both && borrower in [borrower];
    if |tx.commands| == 1 {
      assert tx.commands == [tx.commands[0]] && tx.commands[0] == Command(tx.commands[0].name, tx.commands[0].ids);
    }
    if |tx.outputs| == 1 {
      assert tx.outputs == [tx.outputs[0]];
    }
  }

  /** The lender endorses exactly the updates of one of its own IOUs, shared with one
      other owner who has endorsed, that keep the linear id, lower the amount and list
      no owner that was not one before. */
  lemma LenderAcceptsUpdateMeans(tx: Tx, before: Iou, isMe: Identity -> bool)
    requires |tx.inputs| == 1
    ensures LenderAcceptsUpdate(tx, [before], isMe) <==>
            && tx.namespaces == ["iou"] && tx.commands != [] && tx.commands[0].name == "update"
            && (exists after :: tx.outputs == [after] && after.linearID == before.linearID && after.amount < before.amount
                                && Matches(before.owners, after.owners))
            && (exists mine, other :: (before.owners == [mine, other] || before.owners == [other, mine])
                                      && isMe(mine) && !isMe(other) && other in tx.endorsements)
  {
    if |tx.outputs| == 1 {
      assert tx.outputs == [tx.outputs[0]];
    }
    if |before.owners| == 2 {
      var a, b := before.owners[0], before.owners[1];
      assert before.owners == [a, b];
      var others := Filter(before.owners, id => !isMe(id));
      assert (a in others <==> !isMe(a)) && (b in others <==> !isMe(b));
    }
  }

  /** The command of what the borrower assembles names the owners, in their order. */
  lemma CommandNamesOwners(amount: nat, freshID: string, borrower: Identity, lender: Identity, current: Iou, version: nat)
    ensures var tx := BorrowerCreation(amount, freshID, borrower, lender);
            tx.outputs[0].owners == [borrower, lender] && tx.commands == [Command("create", tx.outputs[0].owners)]
    ensures var tx := BorrowerUpdate(current, version, amount);
            tx.outputs[0].owners == current.owners && tx.commands == [Command("update", tx.outputs[0].owners)]
  {
  }

  /** The lender accepts what the borrower assembles and has endorsed exactly when it
      asks for something allowed. */
  lemma BorrowerCreationEndorsed(amount: nat, freshID: string, borrower: Identity, lender: Identity)
    ensures LenderAcceptsCreation(Endorsed(BorrowerCreation(amount, freshID, borrower, lender), [borrower]), lender, borrower)
            <==> amount >= 5
  {
    var tx := Endorsed(BorrowerCreation(amount, freshID, borrower, lender), [borrower]);
    assert tx.endorsements == [borrower];
    assert lender in [borrower, lender];
  }

  lemma BorrowerUpdateEndorsed(current: Iou, version: nat, amount: nat, isMe: Identity -> bool)
    requires |current.owners| == 2 && !isMe(current.owners[0]) && isMe(current.owners[1])
    ensures LenderAcceptsUpdate(Endorsed(BorrowerUpdate(current, version, amount), [current.owners[0]]), [current], isMe)
            <==> amount < current.amount
  {
    var tx := Endorsed(BorrowerUpdate(current, version, amount), [current.owners[0]]);
    assert tx.endorsements == [current.owners[0]];
  }

  /** The approver endorses exactly creations and updates, in this namespace and with
      this one command, of one IOU.  A creation is of at least 5, names two different
      owners, and its command names two identities, all of them owners; an update keeps
      the linear id, lowers the amount and lists no owner that was not one before.  The
      owners have endorsed. */
  lemma ApproverAcceptsMeans(tx: Tx, inputStates: seq<Iou>)
    requires |inputStates| == |tx.inputs|
    ensures ApproverAccepts(tx, inputStates) <==>
            && tx.namespaces == ["iou"]
            && (exists command, iou ::
                  && tx.commands == [command] && tx.outputs == [iou] && (forall p | p in iou.owners :: p in tx.endorsements)
                  && (|| (&& command.name == "create" && tx.inputs == [] && iou.amount >= 5
                          && (exists a, b :: a != b && iou.owners == [a, b])
                          && |command.ids| == 2 && forall id | id in command.ids :: id in iou.owners)
                      || (&& command.name == "update" && |inputStates| == 1
                          && iou.linearID == inputStates[0].linearID && iou.amount < inputStates[0].amount
                          && Matches(inputStates[0].owners, iou.owners))))
  {
    if |tx.commands| == 1 && |tx.outputs| == 1 {
      assert tx.commands == [tx.commands[0]] && tx.outputs == [tx.outputs[0]];
      var owners := tx.outputs[0].owners;
      assert |owners| == 2 ==> owners == [owners[0], owners[1]];
    }
  }

  /** What the borrower assembles is approved, after the borrower and then the lender
      endorsed it, exactly when it asks for something allowed. */
  lemma BorrowerCreationApproved(amount: nat, freshID: string, borrower: Identity, lender: Identity)
    ensures ApproverAccepts(Endorsed(BorrowerCreation(amount, freshID, borrower, lender), [borrower, lender]), [])
            <==> amount >= 5 && borrower != lender
  {
    var tx := Endorsed(BorrowerCreation(amount, freshID, borrower, lender), [borrower, lender]);
    assert tx.endorsements == [borrower, lender];
  }

  lemma BorrowerUpdateApproved(current: Iou, version: nat, amount: nat)
    requires |current.owners| == 2
    ensures ApproverAccepts(Endorsed(BorrowerUpdate(current, version, amount), current.owners), [current])
            <==> amount < current.amount
  {
    var tx := Endorsed(BorrowerUpdate(current, version, amount), current.owners);
    assert tx.endorsements == current.owners;
  }
}
