/** The main results about the car registry, for every run and every interleaving. */
module CarTheorems {
  import opened Options
  import opened OrionKeys
  import opened CarRecords
  import opened CarProtocol
  import opened CarSafety

  /** The run leads to the state, on an Orion database. */
  predicate Reaches(steps: seq<Step>, hash: Hash, s: State) {
    Run(steps, Orion(hash)) == Some(s)
  }

  lemma Reached(steps: seq<Step>, hash: Hash, s: State)
    requires Reaches(steps, hash, s)
    ensures Inv(s, Orion(hash))
  {
    OrionIsSound(hash);
    RunKeeps(steps, Orion(hash));
  }

  /** What is stored under car keys is what the history leaves there, each car under
      the key that belongs to its registration; and the history is lawful: a car is
      minted under a free key, on request of its first owner, and handed on only by
      the owner of the moment. */
  lemma LedgerIsReplay(steps: seq<Step>, hash: Hash, s: State, key: string)
    requires Reaches(steps, hash, s) && HasCarPrefix(key)
    ensures Lawful(s.history, Orion(hash))
    ensures key in s.ledger <==> key in Replay(s.history, Orion(hash))
    ensures key in s.ledger ==>
              && s.ledger[key].value == CarValue(Replay(s.history, Orion(hash))[key])
              && key == StoredKey(Orion(hash), s.ledger[key].value.car.registration)
  {
    Reached(steps, hash, s);
    if key in s.ledger {
      CarAtKey(s.ledger, s.clock, s.history, Orion(hash), key);
    }
  }

  // ----- whether a car key holds its own registration -----

  /** A car on record was minted, with the registration it has. */
  lemma {:induction false} WasMinted(history: seq<Event>, keys: Keys, key: string) returns (car: CarRecord)
    requires key in Replay(history, keys)
    ensures CarMinted(car) in history && key == StoredKey(keys, car.registration)
    ensures car.registration == Replay(history, keys)[key].registration
  {
    var n := |history| - 1;
    var e := history[n];
    if e.CarMinted? && StoredKey(keys, e.car.registration) == key {
      car := e.car;
    } else {
      car := WasMinted(history[..n], keys, key);
    }
  }

  /** A car that was minted is on record from then on, with its registration. */
  lemma {:induction false} StaysOnRecord(history: seq<Event>, keys: Keys, i: nat)
    requires Lawful(history, keys) && i < |history| && history[i].CarMinted?
    ensures var key := StoredKey(keys, history[i].car.registration);
            && key in Replay(history, keys)
            && Replay(history, keys)[key].registration == history[i].car.registration
  {
    var n := |history| - 1;
    if i < n {
      LawfulBefore(history, keys, n);
      assert LawfulEvent(history[..n], history[n], keys);
      StaysOnRecord(history[..n], keys, i);
    }
  }

  lemma LawfulBefore(history: seq<Event>, keys: Keys, n: nat)
    requires Lawful(history, keys) && n <= |history|
    ensures Lawful(history[..n], keys)
  {
    forall k | 0 <= k < n ensures LawfulEvent(history[..n][..k], history[..n][k], keys) {
      assert LawfulEvent(history[..k], history[k], keys);
      assert history[..n][..k] == history[..k];
    }
  }

  /** No minted car shares its stored key with this registration. */
  predicate KeyUnshared(history: seq<Event>, registration: string) {
    forall i | 0 <= i < |history| && history[i].CarMinted? ::
      Sanitize(history[i].car.registration) == Sanitize(registration) ==> history[i].car.registration == registration
  }

  /** The key of a registration, if anything is there, holds a car of that registration
      exactly when no car was minted whose key `sanitizeKey` makes the same. */
  lemma OwnRegistrationIff(steps: seq<Step>, hash: Hash, s: State, registration: string)
    requires Reaches(steps, hash, s) && StoredKey(Orion(hash), registration) in s.ledger
    ensures var v := s.ledger[StoredKey(Orion(hash), registration)].value;
            v.CarValue? && (v.car.registration == registration <==> KeyUnshared(s.history, registration))
  {
    var keys := Orion(hash);
    var key := StoredKey(keys, registration);
    Reached(steps, hash, s);
    CarAt(s.ledger, s.clock, s.history, keys, registration);
    var minted := WasMinted(s.history, keys, key);
    var i :| 0 <= i < |s.history| && s.history[i] == CarMinted(minted);
    SharedKeyIff(hash, minted.registration, registration);
    forall k | 0 <= k < |s.history| && s.history[k].CarMinted?
      ensures Sanitize(s.history[k].car.registration) == Sanitize(registration) ==>
                s.history[k].car.registration == minted.registration
    {
      SharedKeyIff(hash, s.history[k].car.registration, registration);
      StaysOnRecord(s.history, keys, k);
    }
  }

  /** So with registrations that need no escaping every car key holds its own. */
  lemma PlainKeysHoldTheirOwn(steps: seq<Step>, hash: Hash, s: State, registration: string)
    requires Reaches(steps, hash, s) && StoredKey(Orion(hash), registration) in s.ledger
    requires !NeedsEscape(registration)
    requires forall i | 0 <= i < |s.history| && s.history[i].CarMinted? :: !NeedsEscape(s.history[i].car.registration)
    ensures StoredKey(Orion(hash), registration) == CarKey(registration)
    ensures CarUnder(s.ledger, CarKey(registration)).Some?
    ensures CarUnder(s.ledger, CarKey(registration)).value.registration == registration
  {
    StoredKeyIs(hash, registration);
    OwnRegistrationIff(steps, hash, s, registration);
  }

  // ----- nothing vanishes -----

  lemma StepGrows(s: State, step: Step, keys: Keys)
    requires Inv(s, keys) && Enabled(s, step, keys)
    ensures Grows(s.ledger, Next(s, step, keys).ledger)
    ensures s.history <= Next(s, step, keys).history
  {
    match step
    case InTransfer(id, a) => TransferLedger(s, id, a, keys);
    case InMint(id, a) => MintLedger(s, id, a, keys);
    case _ =>
  }

  /** However a run goes on, no record vanishes, versions never fall, a record changes
      only together with its version, a car keeps its registration, and the history
      is never rewritten. */
  lemma {:induction false} NothingVanishes(steps: seq<Step>, more: seq<Step>, hash: Hash, after: State) returns (s: State)
    requires Reaches(steps + more, hash, after)
    ensures Reaches(steps, hash, s) && Grows(s.ledger, after.ledger) && s.history <= after.history
  {
    if more == [] {
      assert steps + more == steps;
      s := after;
    } else {
      var n := |more| - 1;
      assert (steps + more)[..|steps + more| - 1] == steps + more[..n];
      var middle := Run(steps + more[..n], Orion(hash)).value;
      s := NothingVanishes(steps, more[..n], hash, middle);
      Reached(steps + more[..n], hash, middle);
      StepGrows(middle, more[n], Orion(hash));
      GrowsTwice(s.ledger, middle.ledger, after.ledger);
    }
  }

  lemma GrowsTwice(a: Ledger, b: Ledger, c: Ledger)
    requires Grows(a, b) && Grows(b, c)
    ensures Grows(a, c)
  {
  }

  // ----- a car changes hands only with both consents -----

  function CarUnder(ledger: Ledger, key: string): Option<CarRecord> {
    if key in ledger && ledger[key].value.CarValue? then Some(ledger[key].value.car) else None
  }

  /** The step commits a transfer from `a` to `b` that both had to sign and did sign;
      afterwards `b` and the DMV, and nobody else, may write the record. */
  ghost predicate ConsentedBy(s: State, step: Step, after: State, key: string, a: User, b: User, keys: Keys) {
    && step.InTransfer? && step.transferAction.DmvCommits? && step.id in s.transfers
    && s.transfers[step.id].deal.seller == a && s.transfers[step.id].deal.buyer == b
    && StoredKey(keys, s.transfers[step.id].deal.registration) == key
    && s.transfers[step.id].dmvPc.Committing?
    && (forall u | u == a || u == b ::
          u in s.transfers[step.id].dmvPc.env.mustSign && u in s.transfers[step.id].dmvPc.env.signed)
    && b != DMV
    && key in after.ledger
    && after.ledger[key].acl.readWriteUsers.Keys == {b, DMV}
    && after.ledger[key].acl.signAll
  }

  /** A new car belongs to a dealer who asked for it, and only the DMV may write it. */
  predicate MintedFor(s: State, after: State, key: string, car: CarRecord) {
    && key in after.ledger && after.ledger[key].acl == MintAcl(car.owner)
    && MintRequested(MintRequest(car.owner, car.registration)) in s.history
    && after.history == s.history + [CarMinted(car)]
  }

  /** A step leaves the car under a key as it is, mints it, or hands it on. */
  lemma OwnerChanges(steps: seq<Step>, hash: Hash, s: State, step: Step, key: string)
    requires Reaches(steps, hash, s) && Enabled(s, step, Orion(hash))
    ensures var after := Next(s, step, Orion(hash));
            match (CarUnder(s.ledger, key), CarUnder(after.ledger, key))
            case (None, None) => true
            case (None, Some(car)) => MintedFor(s, after, key, car)
            case (Some(car), None) => false
            case (Some(car), Some(next)) =>
              && next.registration == car.registration
              && (car.owner == next.owner || ConsentedBy(s, step, after, key, car.owner, next.owner, Orion(hash)))
  {
    Reached(steps, hash, s);
    match step
    case InTransfer(id, a) => TransferChangesOwner(s, id, a, Orion(hash), key);
    case InMint(id, a) => MintChangesOwner(s, id, a, Orion(hash), key);
    case _ =>
  }

  /** The transfer that hands a car on names the car's own registration exactly when
      no car was minted under a registration that shares the key with the named one. */
  lemma DealNamesTheCarIff(steps: seq<Step>, hash: Hash, s: State, id: nat)
    requires Reaches(steps, hash, s) && Enabled(s, InTransfer(id, DmvCommits), Orion(hash))
    ensures var named := s.transfers[id].deal.registration;
            var car := CarUnder(s.ledger, StoredKey(Orion(hash), named));
            && car.Some?
            && (car.value.registration == named <==> KeyUnshared(s.history, named))
  {
    Reached(steps, hash, s);
    CommitShape(s, id, Orion(hash));
    OwnRegistrationIff(steps, hash, s, s.transfers[id].deal.registration);
  }

  /** A transfer leaves the car under a key as it is, or hands it on. */
  ghost predicate KeptOrHandedOn(s: State, step: Step, after: State, key: string, keys: Keys) {
    var before, next := CarUnder(s.ledger, key), CarUnder(after.ledger, key);
    || next == before
    || (&& before.Some? && next.Some? && next.value.registration == before.value.registration
        && (|| before.value.owner == next.value.owner
            || ConsentedBy(s, step, after, key, before.value.owner, next.value.owner, keys)))
  }

  lemma TransferChangesOwner(s: State, id: nat, a: TransferAction, keys: Keys, key: string)
    requires Inv(s, keys) && id in s.transfers && TransferEnabled(s.ledger, s.transfers[id], a)
    ensures KeptOrHandedOn(s, InTransfer(id, a), AfterTransferStep(s, id, a, keys), key, keys)
  {
    var after := AfterTransferStep(s, id, a, keys);
    if !a.DmvCommits? {
      assert after.ledger == s.ledger;
    } else if key == StoredKey(keys, s.transfers[id].deal.registration) {
      CommitChangesOwner(s, id, keys);
    } else {
      CommitShape(s, id, keys);
      assert CarUnder(after.ledger, key) == CarUnder(s.ledger, key);
    }
  }

  lemma CommitChangesOwner(s: State, id: nat, keys: Keys)
    requires Inv(s, keys) && id in s.transfers && TransferEnabled(s.ledger, s.transfers[id], DmvCommits)
    ensures var d, after := s.transfers[id].deal, AfterTransferStep(s, id, DmvCommits, keys);
            var key := StoredKey(keys, d.registration);
            var before := CarUnder(s.ledger, key);
            && before.Some? && (before.value.owner == d.seller || before.value.owner == d.buyer)
            && CarUnder(after.ledger, key) == Some(before.value.(owner := d.buyer))
            && ConsentedBy(s, InTransfer(id, DmvCommits), after, key, d.seller, d.buyer, keys)
  {
    var t := s.transfers[id];
    assert GoodTransfer(s.ledger, s.history, id, t, keys);
    CommitFacts(s, t, keys);
    CommitShape(s, id, keys);
    CarAt(s.ledger, s.clock, s.history, keys, t.deal.registration);
    TwoWriters(BuyerAcl(t.deal.buyer), t.deal.buyer, DMV);
  }

  lemma MintChangesOwner(s: State, id: nat, a: MintAction, keys: Keys, key: string)
    requires Inv(s, keys) && id in s.mints && MintEnabled(s.ledger, s.mints[id], a, keys)
    ensures var after := AfterMintStep(s, id, a, keys);
            var before, next := CarUnder(s.ledger, key), CarUnder(after.ledger, key);
            next == before || (before.None? && next.Some? && MintedFor(s, after, key, next.value))
  {
    var m := s.mints[id];
    assert GoodMint(m, s.history, keys);
    if a.DealerCommits? {
      RequestIsNew(s, m, keys);
    } else if a.MinterCommits? {
      MintedIsNew(s, m.minterPc.request, m.minterPc.key, m.minterPc.version, keys);
    }
  }

  /** In every run a car can be written by the DMV, once it has been sold by its owner
      too, who then must both sign, and by nobody else. */
  lemma WhoMayWrite(steps: seq<Step>, hash: Hash, s: State, key: string)
    requires Reaches(steps, hash, s) && CarUnder(s.ledger, key).Some?
    ensures var owner, acl := CarUnder(s.ledger, key).value.owner, s.ledger[key].acl;
            || (acl.readWriteUsers.Keys == {DMV} && acl.readUsers.Keys == {owner} && !acl.signAll)
            || (acl.readWriteUsers.Keys == {DMV, owner} && acl.readUsers.Keys == {} && acl.signAll)
  {
    Reached(steps, hash, s);
    assert GoodAcl(s.ledger[key].value, s.ledger[key].acl);
  }

  // ----- the stages of a transfer -----

  /** The events occur in this order. */
  ghost predicate InOrder(history: seq<Event>, a: Event, b: Event, c: Event) {
    exists i, j, k :: 0 <= i < j < k < |history| && history[i] == a && history[j] == b && history[k] == c
  }

  /** Where the last event of the log sits in the history. */
  lemma {:induction false} LogPosition(history: seq<Event>, id: nat) returns (n: nat)
    requires Log(history, id) != []
    ensures n < |history| && history[n] == Log(history, id)[|Log(history, id)| - 1]
    ensures Log(history[..n], id) == Log(history, id)[..|Log(history, id)| - 1]
  {
    var m := |history| - 1;
    if Concerns(history[m], id) {
      n := m;
    } else {
      assert Log(history, id) == Log(history[..m], id);
      n := LogPosition(history[..m], id);
      assert history[..m][..n] == history[..n];
    }
  }

  /** If the seller's view returns, the buyer co-signed, then the DMV validated, then
      the transfer was committed, and nothing else is on record for this transfer. */
  lemma SellerReturnsAfterCommit(steps: seq<Step>, hash: Hash, s: State, id: nat)
    requires Reaches(steps, hash, s) && id in s.transfers && s.transfers[id].sellerPc.Returned?
    ensures InOrder(s.history, BuyerCoSigned(id), DmvValidated(id), TransferCommitted(id, s.transfers[id].deal))
    ensures Log(s.history, id) == Complete(id, s.transfers[id].deal)
  {
    Reached(steps, hash, s);
    assert GoodTransfer(s.ledger, s.history, id, s.transfers[id], Orion(hash));
    var log := Complete(id, s.transfers[id].deal);
    assert Log(s.history, id) == log;
    var k := LogPosition(s.history, id);
    var j := LogPosition(s.history[..k], id);
    assert s.history[..k][..j] == s.history[..j];
    var i := LogPosition(s.history[..j], id);
    assert s.history[i] == log[0] && s.history[j] == log[1] && s.history[k] == log[2];
  }

  /** Two transfers that committed did not read the same version of the same record. */
  lemma AtMostOneCommits(steps: seq<Step>, hash: Hash, s: State, id: nat, other: nat)
    requires Reaches(steps, hash, s) && id != other && id in s.transfers && other in s.transfers
    requires HasCommitted(s.transfers[id]) && HasCommitted(s.transfers[other])
    ensures s.transfers[id].dmvPc.env.dataReads != s.transfers[other].dmvPc.env.dataReads
  {
    Reached(steps, hash, s);
    assert Exclusive(s.transfers[id], s.transfers[other], Orion(hash));
    assert GoodTransfer(s.ledger, s.history, id, s.transfers[id], Orion(hash));
    assert GoodTransfer(s.ledger, s.history, other, s.transfers[other], Orion(hash));
  }

  /** A transfer commits only if the DMV, which sanitises the key again, finds the
      record that the seller read. */
  lemma CommitsOnlyIfStable(steps: seq<Step>, hash: Hash, s: State, id: nat)
    requires Reaches(steps, hash, s) && id in s.transfers && HasCommitted(s.transfers[id])
    ensures var registration := s.transfers[id].deal.registration;
            Sanitize(Sanitize(registration)) == Sanitize(registration)
  {
    Reached(steps, hash, s);
    assert GoodTransfer(s.ledger, s.history, id, s.transfers[id], Orion(hash));
    StableKeyIff(hash, s.transfers[id].deal.registration);
  }

  // ----- mints -----

  /** No car is minted twice, and no two cars are minted under one key. */
  lemma MintedOnce(steps: seq<Step>, hash: Hash, s: State, i: nat, j: nat)
    requires Reaches(steps, hash, s) && i < j < |s.history| && s.history[i].CarMinted? && s.history[j].CarMinted?
    ensures Sanitize(s.history[i].car.registration) != Sanitize(s.history[j].car.registration)
  {
    Reached(steps, hash, s);
    var before := s.history[..j];
    LawfulBefore(s.history, Orion(hash), j);
    assert LawfulEvent(before, s.history[j], Orion(hash));
    assert before[i] == s.history[i];
    StaysOnRecord(before, Orion(hash), i);
    SharedKeyIff(hash, s.history[i].car.registration, s.history[j].car.registration);
  }

  /** If the dealer's view returns, the dealer owned the car at some point of the run. */
  lemma DealerGotTheCar(steps: seq<Step>, hash: Hash, s: State, id: nat)
    requires Reaches(steps, hash, s) && id in s.mints && s.mints[id].dealerPc.DealerReturned?
    ensures OnceOwned(s.history, s.mints[id].registration, s.mints[id].dealer, Orion(hash))
  {
    Reached(steps, hash, s);
    assert GoodMint(s.mints[id], s.history, Orion(hash));
  }
}
