/** Exactly when a transfer or a mint that nobody disturbs goes through, and runs that
    show what shared and unstable keys do.  The ledger is taken not to refuse a
    commit for reasons other than a stale read or a missing signature. */
module CarProgress {
  import opened Options
  import opened OrionKeys
  import opened CarRecords
  import opened CarValidation
  import opened CarProtocol
  import opened CarSafety
  import opened CarTheorems

  // ----- going on from a state -----

  function Continue(s: State, steps: seq<Step>, keys: Keys): Option<State>
    decreases |steps|
  {
    if steps == [] then Some(s)
    else if Enabled(s, steps[0], keys) then Continue(Next(s, steps[0], keys), steps[1..], keys)
    else None
  }

  lemma ContinueStep(s: State, step: Step, rest: seq<Step>, keys: Keys)
    ensures Continue(s, [step] + rest, keys) ==
            if Enabled(s, step, keys) then Continue(Next(s, step, keys), rest, keys) else None
  {
    assert ([step] + rest)[1..] == rest;
  }

  lemma {:induction false} ContinueTwice(s: State, first: seq<Step>, second: seq<Step>, keys: Keys)
    ensures Continue(s, first + second, keys) ==
            match Continue(s, first, keys) case None => None case Some(middle) => Continue(middle, second, keys)
    decreases |first|
  {
    if first == [] {
      assert first + second == second;
    } else {
      assert (first + second)[1..] == first[1..] + second;
      if Enabled(s, first[0], keys) {
        ContinueTwice(Next(s, first[0], keys), first[1..], second, keys);
      }
    }
  }

  /** Running on is continuing from where the run leads. */
  lemma {:induction false} RunOn(steps: seq<Step>, more: seq<Step>, keys: Keys)
    ensures Run(steps + more, keys) ==
            match Run(steps, keys) case None => None case Some(s) => Continue(s, more, keys)
    decreases |more|
  {
    if more == [] {
      assert steps + more == steps;
    } else {
      var n := |more| - 1;
      assert (steps + more)[..|steps + more| - 1] == steps + more[..n];
      RunOn(steps, more[..n], keys);
      assert more == more[..n] + [more[n]];
      if Run(steps, keys).Some? {
        ContinueTwice(Run(steps, keys).value, more[..n], [more[n]], keys);
        if Run(steps + more[..n], keys).Some? {
          ContinueStep(Run(steps + more[..n], keys).value, more[n], [], keys);
          assert [more[n]] + [] == [more[n]];
        }
      }
    }
  }

  lemma {:induction false} ContinueKeeps(s: State, steps: seq<Step>, keys: Keys)
    requires Inv(s, keys) && Continue(s, steps, keys).Some?
    ensures Inv(Continue(s, steps, keys).value, keys)
    decreases |steps|
  {
    if steps != [] {
      StepKeeps(s, steps[0], keys);
      ContinueKeeps(Next(s, steps[0], keys), steps[1..], keys);
    }
  }

  // ----- a transfer -----

  function ToBuyer(id: nat): seq<Step> {
    [InTransfer(id, SellerReads), InTransfer(id, SellerSends), InTransfer(id, BuyerReceives)]
  }

  function CoSign(id: nat): seq<Step> {
    [InTransfer(id, BuyerChecks), InTransfer(id, BuyerSends), InTransfer(id, DmvReceives)]
  }

  function Settle(id: nat): seq<Step> {
    [InTransfer(id, DmvValidates), InTransfer(id, DmvCommits)]
  }

  function Acknowledge(id: nat): seq<Step> {
    [InTransfer(id, DmvAcks), InTransfer(id, BuyerHearsDmv), InTransfer(id, BuyerAcks), InTransfer(id, SellerHearsBuyer)]
  }

  /** All that the three parties do, with nothing in between. */
  function WholeTransfer(id: nat, d: Deal): seq<Step> {
    [StartTransfer(id, d)] + (ToBuyer(id) + (CoSign(id) + (Settle(id) + Acknowledge(id))))
  }

  /** The state with this transfer in place of the one under this id. */
  predicate Moves(s: State, after: Option<State>, id: nat, t: Transfer) {
    && after.Some?
    && after.value.ledger == s.ledger
    && id in after.value.transfers && after.value.transfers[id] == t
  }

  function Assembled(keys: Keys, d: Deal, car: CarRecord, version: nat): Transfer {
    NewTransfer(d).(sellerPc := AwaitingBuyer, buyerPc := Checking(TransferEnvelope(keys, d, car, version)))
  }

  function BothSigned(keys: Keys, d: Deal, car: CarRecord, version: nat): Envelope {
    TransferEnvelope(keys, d, car, version).(signed := [d.seller, d.buyer])
  }

  function BeforeCommit(keys: Keys, d: Deal, car: CarRecord, version: nat): Transfer {
    NewTransfer(d).(sellerPc := AwaitingBuyer, buyerPc := AwaitingDmv,
                    dmvPc := Validating(BothSigned(keys, d, car, version)))
  }

  function AfterCommit(keys: Keys, d: Deal, car: CarRecord, version: nat): Transfer {
    BeforeCommit(keys, d, car, version).(dmvPc := Committed(BothSigned(keys, d, car, version)))
  }

  lemma ReachesBuyer(s: State, id: nat, d: Deal, keys: Keys)
    requires GoodLedger(s.ledger, s.clock, s.history, keys) && id in s.transfers && s.transfers[id] == NewTransfer(d)
    ensures var key := StoredKey(keys, d.registration);
            && (key !in s.ledger ==> Continue(s, ToBuyer(id), keys).None?)
            && (key in s.ledger ==>
                  && s.ledger[key].value.CarValue?
                  && Moves(s, Continue(s, ToBuyer(id), keys), id,
                           Assembled(keys, d, s.ledger[key].value.car, s.ledger[key].version)))
  {
    var rest := [InTransfer(id, SellerSends), InTransfer(id, BuyerReceives)];
    assert ToBuyer(id) == [InTransfer(id, SellerReads)] + rest;
    ContinueStep(s, InTransfer(id, SellerReads), rest, keys);
    var s1 := Next(s, InTransfer(id, SellerReads), keys);
    assert rest == [InTransfer(id, SellerSends)] + [InTransfer(id, BuyerReceives)];
    ContinueStep(s1, InTransfer(id, SellerSends), [InTransfer(id, BuyerReceives)], keys);
    if StoredKey(keys, d.registration) in s.ledger {
      CarAt(s.ledger, s.clock, s.history, keys, d.registration);
      var s2 := Next(s1, InTransfer(id, SellerSends), keys);
      assert [InTransfer(id, BuyerReceives)] == [InTransfer(id, BuyerReceives)] + [];
      ContinueStep(s2, InTransfer(id, BuyerReceives), [], keys);
      assert Next(s2, InTransfer(id, BuyerReceives), keys).transfers[id].toBuyer == [];
    }
  }

  /** The access control that the seller writes has two users unless the buyer is the DMV. */
  lemma TwoUsersIff(buyer: User)
    ensures OwnedWithDmv(BuyerAcl(buyer), buyer, DMV) <==> buyer != DMV
  {
    if buyer == DMV {
      assert |BuyerAcl(buyer).readWriteUsers| == 1;
    } else {
      assert BuyerAcl(buyer).readWriteUsers.Keys == {DMV, buyer};
      assert |BuyerAcl(buyer).readWriteUsers| == |BuyerAcl(buyer).readWriteUsers.Keys|;
    }
  }

  /** The buyer accepts what the seller assembles exactly if the buyer is not the DMV. */
  lemma BuyerAcceptsIff(keys: Keys, d: Deal, car: CarRecord, version: nat)
    requires Sound(keys)
    ensures BuyerAccepts(TransferEnvelope(keys, d, car, version), d.buyer, DMV) <==> d.buyer != DMV
  {
    EnvelopeRecord(keys, d, car, version);
    TwoUsersIff(d.buyer);
  }

  lemma CoSigning(s: State, id: nat, d: Deal, car: CarRecord, version: nat, keys: Keys)
    requires Sound(keys) && id in s.transfers && s.transfers[id] == Assembled(keys, d, car, version)
    ensures d.buyer == DMV ==> Continue(s, CoSign(id), keys).None?
    ensures d.buyer != DMV ==> Moves(s, Continue(s, CoSign(id), keys), id, BeforeCommit(keys, d, car, version))
  {
    BuyerAcceptsIff(keys, d, car, version);
    var rest := [InTransfer(id, BuyerSends), InTransfer(id, DmvReceives)];
    assert CoSign(id) == [InTransfer(id, BuyerChecks)] + rest;
    ContinueStep(s, InTransfer(id, BuyerChecks), rest, keys);
    var s1 := Next(s, InTransfer(id, BuyerChecks), keys);
    assert rest == [InTransfer(id, BuyerSends)] + [InTransfer(id, DmvReceives)];
    ContinueStep(s1, InTransfer(id, BuyerSends), [InTransfer(id, DmvReceives)], keys);
    if d.buyer != DMV {
      assert s1.transfers[id].buyerPc.env == BothSigned(keys, d, car, version);
      var s2 := Next(s1, InTransfer(id, BuyerSends), keys);
      assert [InTransfer(id, DmvReceives)] == [InTransfer(id, DmvReceives)] + [];
      ContinueStep(s2, InTransfer(id, DmvReceives), [], keys);
      assert Next(s2, InTransfer(id, DmvReceives), keys).transfers[id].toDmv == [];
    }
  }

  predicate OwnedByParty(car: CarRecord, d: Deal) {
    car.owner == d.seller || car.owner == d.buyer
  }

  /** The DMV accepts the co-signed envelope exactly if the car belongs to a party and
      sanitising the key again finds it. */
  lemma DmvAcceptsIff(s: State, d: Deal, version: nat, keys: Keys)
    requires GoodLedger(s.ledger, s.clock, s.history, keys) && StoredKey(keys, d.registration) in s.ledger && d.buyer != DMV
    requires s.ledger[StoredKey(keys, d.registration)].value.CarValue?
    requires version <= s.ledger[StoredKey(keys, d.registration)].version
    ensures var car := s.ledger[StoredKey(keys, d.registration)].value.car;
            DmvAccepts(BothSigned(keys, d, car, version), Get(s.ledger, keys), DMV) <==>
            OwnedByParty(car, d) && Stable(keys, d.registration)
  {
    var key := StoredKey(keys, d.registration);
    var car := s.ledger[key].value.car;
    var env := BothSigned(keys, d, car, version);
    if DmvAccepts(env, Get(s.ledger, keys), DMV) {
      assert ReadVersion(env) == version;
      DmvReadsSameKey(s, d, env, keys);
    }
    if Stable(keys, d.registration) && OwnedByParty(car, d) {
      StableIsAccepted(s, d, car, version, keys);
    }
  }

  lemma StableIsAccepted(s: State, d: Deal, car: CarRecord, version: nat, keys: Keys)
    requires Sound(keys) && d.buyer != DMV && Stable(keys, d.registration) && OwnedByParty(car, d)
    requires CarUnder(s.ledger, StoredKey(keys, d.registration)) == Some(car)
    ensures DmvAccepts(BothSigned(keys, d, car, version), Get(s.ledger, keys), DMV)
  {
    var env, get := BothSigned(keys, d, car, version), Get(s.ledger, keys);
    EnvelopeRecord(keys, d, car, version);
    EnvelopeReads(s.ledger, keys, env.dataReads[0]);
    assert env.dataReads == [env.dataReads[0]];
    assert LastRecord(ReadValues(env.dataReads, get)) == car;
    TwoUsersIff(d.buyer);
  }

  /** The car has been handed over. */
  predicate HandedOver(after: Option<State>, id: nat, key: string, car: CarRecord, t: Transfer) {
    && after.Some?
    && CarUnder(after.value.ledger, key) == Some(car)
    && id in after.value.transfers && after.value.transfers[id] == t
  }

  lemma CommitEnabled(ledger: Ledger, t: Transfer, car: CarRecord, seen: Stored, keys: Keys)
    requires StoredKey(keys, t.deal.registration) in ledger
    requires t.dmvPc == Committing(BothSigned(keys, t.deal, car, ledger[StoredKey(keys, t.deal.registration)].version), seen)
    ensures TransferEnabled(ledger, t, DmvCommits)
  {
  }

  lemma CommitsIff(s: State, id: nat, d: Deal, keys: Keys)
    requires GoodLedger(s.ledger, s.clock, s.history, keys) && StoredKey(keys, d.registration) in s.ledger && d.buyer != DMV
    requires s.ledger[StoredKey(keys, d.registration)].value.CarValue?
    requires var at := s.ledger[StoredKey(keys, d.registration)];
             id in s.transfers && s.transfers[id] == BeforeCommit(keys, d, at.value.car, at.version)
    ensures var at := s.ledger[StoredKey(keys, d.registration)];
            && (!(OwnedByParty(at.value.car, d) && Stable(keys, d.registration)) ==> Continue(s, Settle(id), keys).None?)
            && (OwnedByParty(at.value.car, d) && Stable(keys, d.registration) ==>
                  HandedOver(Continue(s, Settle(id), keys), id, StoredKey(keys, d.registration),
                             at.value.car.(owner := d.buyer), AfterCommit(keys, d, at.value.car, at.version)))
  {
    var at := s.ledger[StoredKey(keys, d.registration)];
    DmvAcceptsIff(s, d, at.version, keys);
    assert Settle(id) == [InTransfer(id, DmvValidates)] + [InTransfer(id, DmvCommits)];
    ContinueStep(s, InTransfer(id, DmvValidates), [InTransfer(id, DmvCommits)], keys);
    var s1 := Next(s, InTransfer(id, DmvValidates), keys);
    assert [InTransfer(id, DmvCommits)] == [InTransfer(id, DmvCommits)] + [];
    ContinueStep(s1, InTransfer(id, DmvCommits), [], keys);
    if OwnedByParty(at.value.car, d) && Stable(keys, d.registration) {
      CommitEnabled(s.ledger, s1.transfers[id], at.value.car, at, keys);
      AfterCommitting(s1, id, d, at, keys);
    }
  }

  lemma AfterCommitting(s: State, id: nat, d: Deal, at: Stored, keys: Keys)
    requires at.value.CarValue? && id in s.transfers && TransferEnabled(s.ledger, s.transfers[id], DmvCommits)
    requires s.transfers[id] == BeforeCommit(keys, d, at.value.car, at.version).(
                                  dmvPc := Committing(BothSigned(keys, d, at.value.car, at.version), at))
    ensures HandedOver(Some(Next(s, InTransfer(id, DmvCommits), keys)), id, StoredKey(keys, d.registration),
                       at.value.car.(owner := d.buyer), AfterCommit(keys, d, at.value.car, at.version))
  {
  }

  lemma Acknowledging(s: State, id: nat, key: string, car: CarRecord, t: Transfer, keys: Keys)
    requires HandedOver(Some(s), id, key, car, t)
    requires t.dmvPc.Committed? && t.buyerPc.AwaitingDmv? && t.sellerPc.AwaitingBuyer? && t.acksToBuyer == t.acksToSeller == 0
    ensures HandedOver(Continue(s, Acknowledge(id), keys), id, key, car,
                       t.(dmvPc := AckedBuyer(t.dmvPc.env), buyerPc := BuyerDone, sellerPc := Returned))
  {
    var last := [InTransfer(id, BuyerAcks), InTransfer(id, SellerHearsBuyer)];
    assert Acknowledge(id) == [InTransfer(id, DmvAcks)] + ([InTransfer(id, BuyerHearsDmv)] + last);
    ContinueStep(s, InTransfer(id, DmvAcks), [InTransfer(id, BuyerHearsDmv)] + last, keys);
    var s1 := Next(s, InTransfer(id, DmvAcks), keys);
    ContinueStep(s1, InTransfer(id, BuyerHearsDmv), last, keys);
    var s2 := Next(s1, InTransfer(id, BuyerHearsDmv), keys);
    AcknowledgingSeller(s2, id, key, car, s2.transfers[id], keys);
  }

  lemma AcknowledgingSeller(s: State, id: nat, key: string, car: CarRecord, t: Transfer, keys: Keys)
    requires HandedOver(Some(s), id, key, car, t)
    requires t.buyerPc.AckingSeller? && t.sellerPc.AwaitingBuyer? && t.acksToSeller == 0
    ensures HandedOver(Continue(s, [InTransfer(id, BuyerAcks), InTransfer(id, SellerHearsBuyer)], keys), id, key, car,
                       t.(buyerPc := BuyerDone, sellerPc := Returned))
  {
    assert [InTransfer(id, BuyerAcks), InTransfer(id, SellerHearsBuyer)] ==
           [InTransfer(id, BuyerAcks)] + ([InTransfer(id, SellerHearsBuyer)] + []);
    ContinueStep(s, InTransfer(id, BuyerAcks), [InTransfer(id, SellerHearsBuyer)] + [], keys);
    var s1 := Next(s, InTransfer(id, BuyerAcks), keys);
    ContinueStep(s1, InTransfer(id, SellerHearsBuyer), [], keys);
  }

  /** What it takes for a transfer to go through. */
  predicate Sellable(ledger: Ledger, d: Deal, keys: Keys) {
    var car := CarUnder(ledger, StoredKey(keys, d.registration));
    car.Some? && OwnedByParty(car.value, d) && d.buyer != DMV && Stable(keys, d.registration)
  }

  /** The seller's view has returned, and the buyer owns the car, which is otherwise as
      it was before. */
  predicate Sold(before: State, after: State, id: nat, d: Deal, keys: Keys) {
    var key := StoredKey(keys, d.registration);
    && id in after.transfers && after.transfers[id].sellerPc.Returned? && after.transfers[id].deal == d
    && CarUnder(before.ledger, key).Some?
    && CarUnder(after.ledger, key) == Some(CarUnder(before.ledger, key).value.(owner := d.buyer))
  }

  /** From the moment the buyer checks. */
  lemma ChecksToEndIff(s: State, id: nat, d: Deal, keys: Keys)
    requires Inv(s, keys) && CarUnder(s.ledger, StoredKey(keys, d.registration)).Some?
    requires var at := s.ledger[StoredKey(keys, d.registration)];
             id in s.transfers && s.transfers[id] == Assembled(keys, d, at.value.car, at.version)
    ensures var end := Continue(s, CoSign(id) + (Settle(id) + Acknowledge(id)), keys);
            && (end.Some? <==> Sellable(s.ledger, d, keys))
            && (end.Some? ==> Sold(s, end.value, id, d, keys))
  {
    var at := s.ledger[StoredKey(keys, d.registration)];
    ContinueTwice(s, CoSign(id), Settle(id) + Acknowledge(id), keys);
    CoSigning(s, id, d, at.value.car, at.version, keys);
    if d.buyer != DMV {
      ContinueKeeps(s, CoSign(id), keys);
      var validating := Continue(s, CoSign(id), keys).value;
      ContinueTwice(validating, Settle(id), Acknowledge(id), keys);
      CommitsIff(validating, id, d, keys);
      if Sellable(s.ledger, d, keys) {
        Acknowledging(Continue(validating, Settle(id), keys).value, id, StoredKey(keys, d.registration),
                      at.value.car.(owner := d.buyer), AfterCommit(keys, d, at.value.car, at.version), keys);
      }
    }
  }

  lemma TransferIff(s: State, id: nat, d: Deal, keys: Keys)
    requires Inv(s, keys) && id !in s.transfers
    ensures var end := Continue(s, WholeTransfer(id, d), keys);
            && (end.Some? <==> Sellable(s.ledger, d, keys))
            && (end.Some? ==> Sold(s, end.value, id, d, keys))
  {
    var rest := CoSign(id) + (Settle(id) + Acknowledge(id));
    ContinueStep(s, StartTransfer(id, d), ToBuyer(id) + rest, keys);
    StepKeeps(s, StartTransfer(id, d), keys);
    var start := Next(s, StartTransfer(id, d), keys);
    ContinueTwice(start, ToBuyer(id), rest, keys);
    ReachesBuyer(start, id, d, keys);
    if StoredKey(keys, d.registration) in s.ledger {
      ContinueKeeps(start, ToBuyer(id), keys);
      ChecksToEndIff(Continue(start, ToBuyer(id), keys).value, id, d, keys);
    }
  }

  /** After any run, a new transfer goes through undisturbed if and only if its key
      holds a car that the seller (or already the buyer) owns, the buyer is not the
      DMV, and sanitising the registration twice is sanitising it once.  The buyer
      then owns that car. */
  lemma GoesThroughIff(steps: seq<Step>, hash: Hash, s: State, id: nat, d: Deal)
    requires Reaches(steps, hash, s) && id !in s.transfers
    ensures var car := CarUnder(s.ledger, StoredKey(Orion(hash), d.registration));
            var end := Run(steps + WholeTransfer(id, d), Orion(hash));
            && (end.Some? <==>
                  && car.Some? && OwnedByParty(car.value, d) && d.buyer != DMV
                  && Sanitize(Sanitize(d.registration)) == Sanitize(d.registration))
            && (end.Some? ==> Sold(s, end.value, id, d, Orion(hash)))
  {
    Reached(steps, hash, s);
    RunOn(steps, WholeTransfer(id, d), Orion(hash));
    TransferIff(s, id, d, Orion(hash));
    StableKeyIff(hash, d.registration);
  }

  // ----- a mint -----

  function AskForCar(id: nat): seq<Step> {
    [InMint(id, DealerReads), InMint(id, DealerCommits), InMint(id, DealerSends)]
  }

  function MintCar(id: nat): seq<Step> {
    [InMint(id, MinterReceives), InMint(id, MinterLoads), InMint(id, MinterReads), InMint(id, MinterCommits)]
  }

  function InspectCar(id: nat): seq<Step> {
    [InMint(id, MinterSends), InMint(id, DealerReceives), InMint(id, DealerInspects)]
  }

  function WholeMint(id: nat, dealer: User, registration: string): seq<Step> {
    [StartMint(id, dealer, registration)] + (AskForCar(id) + (MintCar(id) + InspectCar(id)))
  }

  /** Where a mint is refused: the dealer stops if the request exists, the DMV if there is
      no request under the key it got or its content does not fit, and again if there
      is a record under the key of the car. */
  lemma MintRefusals(ledger: Ledger, m: Mint, keys: Keys)
    ensures m.dealerPc.Requesting? ==>
              (MintNext(ledger, m, DealerReads, keys).dealerPc.DealerFailed? <==>
               keys.stored(MintKey(keys, Request(m))) in ledger)
    ensures m.minterPc.Loading? ==>
              (MintNext(ledger, m, MinterLoads, keys).minterPc.MinterFailed? <==>
               !exists r :: UnmarshalRequest(Get(ledger, keys)(m.minterPc.key)) == Some(r) && RequestMatchesKey(m.minterPc.key, r, keys))
    ensures m.minterPc.Loaded? ==>
              (MintNext(ledger, m, MinterReads, keys).minterPc.MinterFailed? <==>
               StoredKey(keys, m.minterPc.request.registration) in ledger)
    ensures m.dealerPc.Inspecting? ==>
              (MintNext(ledger, m, DealerInspects, keys).dealerPc.DealerFailed? <==>
               UnmarshalCar(Get(ledger, keys)(m.dealerPc.carKey), EMPTY_CAR) != Some(CarRecord(m.dealer, m.registration)))
  {
  }

  /** The request is on the ledger, and its key is on the way to the DMV. */
  predicate Asked(s: State, id: nat, r: MintRequest, keys: Keys) {
    var key := MintKey(keys, r);
    && key in s.ledger && s.ledger[key].value == MintValue(r)
    && id in s.mints
    && s.mints[id] == NewMint(r.dealer, r.registration).(dealerPc := AwaitingCar, toMinter := [key])
  }

  lemma AsksIff(s: State, id: nat, r: MintRequest, keys: Keys)
    requires Sound(keys) && id in s.mints && s.mints[id] == NewMint(r.dealer, r.registration)
    ensures var end := Continue(s, AskForCar(id), keys);
            && (end.Some? <==> MintKey(keys, r) !in s.ledger)
            && (end.Some? ==>
                  && Asked(end.value, id, r, keys)
                  && forall key | HasCarPrefix(key) :: key in end.value.ledger <==> key in s.ledger)
  {
    var rest := [InMint(id, DealerCommits), InMint(id, DealerSends)];
    assert keys.stored(MintKey(keys, r)) == MintKey(keys, r) && Request(s.mints[id]) == r;
    MintKeyIsNoCarKey(keys, r);
    assert AskForCar(id) == [InMint(id, DealerReads)] + rest;
    ContinueStep(s, InMint(id, DealerReads), rest, keys);
    var s1 := Next(s, InMint(id, DealerReads), keys);
    assert rest == [InMint(id, DealerCommits)] + [InMint(id, DealerSends)];
    ContinueStep(s1, InMint(id, DealerCommits), [InMint(id, DealerSends)], keys);
    if MintKey(keys, r) !in s.ledger {
      var s2 := Next(s1, InMint(id, DealerCommits), keys);
      assert [InMint(id, DealerSends)] == [InMint(id, DealerSends)] + [];
      ContinueStep(s2, InMint(id, DealerSends), [], keys);
    }
  }

  /** The car is on the ledger, and the DMV is about to tell the dealer. */
  predicate Made(s: State, id: nat, r: MintRequest, keys: Keys) {
    && CarUnder(s.ledger, StoredKey(keys, r.registration)) == Some(NewCar(r))
    && id in s.mints
    && s.mints[id] == NewMint(r.dealer, r.registration).(dealerPc := AwaitingCar, minterPc := Minted(CarKey(r.registration)))
  }

  lemma MintsIff(s: State, id: nat, r: MintRequest, keys: Keys)
    requires Sound(keys) && Asked(s, id, r, keys)
    ensures var end := Continue(s, MintCar(id), keys);
            && (end.Some? <==> StoredKey(keys, r.registration) !in s.ledger)
            && (end.Some? ==> Made(end.value, id, r, keys))
  {
    var key := MintKey(keys, r);
    assert keys.stored(key) == key && RequestMatchesKey(key, r, keys);
    var rest := [InMint(id, MinterLoads), InMint(id, MinterReads), InMint(id, MinterCommits)];
    assert MintCar(id) == [InMint(id, MinterReceives)] + rest;
    ContinueStep(s, InMint(id, MinterReceives), rest, keys);
    var s1 := Next(s, InMint(id, MinterReceives), keys);
    assert s1.mints[id].toMinter == [];
    var last := [InMint(id, MinterReads), InMint(id, MinterCommits)];
    assert rest == [InMint(id, MinterLoads)] + last;
    ContinueStep(s1, InMint(id, MinterLoads), last, keys);
    var s2 := Next(s1, InMint(id, MinterLoads), keys);
    LoadedMintsIff(s2, id, r, s.ledger[key].version, keys);
  }

  lemma LoadedMintsIff(s: State, id: nat, r: MintRequest, version: nat, keys: Keys)
    requires var key := MintKey(keys, r);
             && keys.stored(key) == key && key in s.ledger && s.ledger[key].version == version
             && id in s.mints
             && s.mints[id] == NewMint(r.dealer, r.registration).(dealerPc := AwaitingCar, minterPc := Loaded(key, r, version))
    ensures var end := Continue(s, [InMint(id, MinterReads), InMint(id, MinterCommits)], keys);
            && (end.Some? <==> StoredKey(keys, r.registration) !in s.ledger)
            && (end.Some? ==> Made(end.value, id, r, keys))
  {
    assert [InMint(id, MinterReads), InMint(id, MinterCommits)] == [InMint(id, MinterReads)] + [InMint(id, MinterCommits)];
    ContinueStep(s, InMint(id, MinterReads), [InMint(id, MinterCommits)], keys);
    var s1 := Next(s, InMint(id, MinterReads), keys);
    assert [InMint(id, MinterCommits)] == [InMint(id, MinterCommits)] + [];
    ContinueStep(s1, InMint(id, MinterCommits), [], keys);
  }

  lemma Inspecting(s: State, id: nat, r: MintRequest, keys: Keys)
    requires Made(s, id, r, keys)
    ensures var end := Continue(s, InspectCar(id), keys);
            && end.Some? && CarUnder(end.value.ledger, StoredKey(keys, r.registration)) == Some(NewCar(r))
            && id in end.value.mints && end.value.mints[id].dealerPc.DealerReturned?
            && end.value.transfers == s.transfers
  {
    var rest := [InMint(id, DealerReceives), InMint(id, DealerInspects)];
    assert InspectCar(id) == [InMint(id, MinterSends)] + rest;
    ContinueStep(s, InMint(id, MinterSends), rest, keys);
    var s1 := Next(s, InMint(id, MinterSends), keys);
    assert rest == [InMint(id, DealerReceives)] + [InMint(id, DealerInspects)];
    ContinueStep(s1, InMint(id, DealerReceives), [InMint(id, DealerInspects)], keys);
    var s2 := Next(s1, InMint(id, DealerReceives), keys);
    assert [InMint(id, DealerInspects)] == [InMint(id, DealerInspects)] + [];
    ContinueStep(s2, InMint(id, DealerInspects), [], keys);
  }

  lemma {:induction false} MintsLeaveTransfers(s: State, steps: seq<Step>, keys: Keys)
    requires Continue(s, steps, keys).Some? && forall i | 0 <= i < |steps| :: steps[i].StartMint? || steps[i].InMint?
    ensures Continue(s, steps, keys).value.transfers == s.transfers
    decreases |steps|
  {
    if steps != [] {
      MintsLeaveTransfers(Next(s, steps[0], keys), steps[1..], keys);
    }
  }

  lemma MintIff(s: State, id: nat, r: MintRequest, keys: Keys)
    requires Sound(keys) && id !in s.mints
    ensures var end := Continue(s, WholeMint(id, r.dealer, r.registration), keys);
            && (end.Some? <==> MintKey(keys, r) !in s.ledger && StoredKey(keys, r.registration) !in s.ledger)
            && (end.Some? ==>
                  && CarUnder(end.value.ledger, StoredKey(keys, r.registration)) == Some(NewCar(r))
                  && id in end.value.mints && end.value.mints[id].dealerPc.DealerReturned?)
  {
    var rest := MintCar(id) + InspectCar(id);
    var begin := StartMint(id, r.dealer, r.registration);
    ContinueStep(s, begin, AskForCar(id) + rest, keys);
    var start := Next(s, begin, keys);
    ContinueTwice(start, AskForCar(id), rest, keys);
    AsksIff(start, id, r, keys);
    if MintKey(keys, r) !in s.ledger {
      var asked := Continue(start, AskForCar(id), keys).value;
      ContinueTwice(asked, MintCar(id), InspectCar(id), keys);
      MintsIff(asked, id, r, keys);
      assert HasCarPrefix(StoredKey(keys, r.registration));
      if StoredKey(keys, r.registration) !in s.ledger {
        Inspecting(Continue(asked, MintCar(id), keys).value, id, r, keys);
      }
    }
  }

  /** After any run, a new mint goes through undisturbed if and only if there is no
      such request and nothing under the key of the car.  The dealer then owns it. */
  lemma MintGoesThroughIff(steps: seq<Step>, hash: Hash, s: State, id: nat, dealer: User, registration: string)
    requires Reaches(steps, hash, s) && id !in s.mints
    ensures var end := Run(steps + WholeMint(id, dealer, registration), Orion(hash));
            && (end.Some? <==>
                  && MintKey(Orion(hash), MintRequest(dealer, registration)) !in s.ledger
                  && StoredKey(Orion(hash), registration) !in s.ledger)
            && (end.Some? ==>
                  && CarUnder(end.value.ledger, StoredKey(Orion(hash), registration)) == Some(CarRecord(dealer, registration))
                  && id in end.value.mints && end.value.mints[id].dealerPc.DealerReturned?
                  && end.value.transfers == s.transfers)
  {
    var keys, script := Orion(hash), WholeMint(id, dealer, registration);
    OrionIsSound(hash);
    RunOn(steps, script, keys);
    MintIff(s, id, MintRequest(dealer, registration), keys);
    if Continue(s, script, keys).Some? {
      OnlyMints(id, dealer, registration);
      MintsLeaveTransfers(s, script, keys);
    }
  }

  lemma OnlyMints(id: nat, dealer: User, registration: string)
    ensures var script := WholeMint(id, dealer, registration);
            forall i | 0 <= i < |script| :: script[i].StartMint? || script[i].InMint?
  {
  }

  // ----- runs with shared and unstable keys -----

  lemma FirstMint(hash: Hash, dealer: User, registration: string) returns (s: State)
    ensures Reaches(WholeMint(0, dealer, registration), hash, s) && s.transfers == map[]
    ensures CarUnder(s.ledger, StoredKey(Orion(hash), registration)) == Some(CarRecord(dealer, registration))
  {
    assert Reaches([], hash, INIT);
    MintGoesThroughIff([], hash, INIT, 0, dealer, registration);
    assert [] + WholeMint(0, dealer, registration) == WholeMint(0, dealer, registration);
    s := Run(WholeMint(0, dealer, registration), Orion(hash)).value;
  }

  /** Once `a b` is minted, the key of `YSBi` holds `a b`, and the dealer can sell `a b`
      with a transfer that names `YSBi`. */
  lemma SharedKeyRun(hash: Hash, dealer: User, buyer: User) returns (s: State, after: State)
    requires buyer != DMV
    ensures var mint, deal := WholeMint(0, dealer, "a b"), Deal(dealer, buyer, "YSBi");
            && Reaches(mint, hash, s) && Reaches(mint + WholeTransfer(0, deal), hash, after)
            && CarUnder(s.ledger, StoredKey(Orion(hash), "YSBi")) == Some(CarRecord(dealer, "a b"))
            && CarUnder(after.ledger, StoredKey(Orion(hash), "a b")) == Some(CarRecord(buyer, "a b"))
            && TransferCommitted(0, deal) in after.history
  {
    var mint, deal := WholeMint(0, dealer, "a b"), Deal(dealer, buyer, "YSBi");
    s := FirstMint(hash, dealer, "a b");
    SharedExample();
    SharedKeyIff(hash, "a b", "YSBi");
    GoesThroughIff(mint, hash, s, 0, deal);
    after := Run(mint + WholeTransfer(0, deal), Orion(hash)).value;
    SellerReturnsAfterCommit(mint + WholeTransfer(0, deal), hash, after, 0);
  }

  /** Two spaces and a question mark: the car is minted, but its owner cannot sell it. */
  lemma UnstableKeyRun(hash: Hash, dealer: User) returns (s: State)
    ensures Reaches(WholeMint(0, dealer, "  ?"), hash, s)
    ensures CarUnder(s.ledger, StoredKey(Orion(hash), "  ?")) == Some(CarRecord(dealer, "  ?"))
    ensures forall buyer :: Run(WholeMint(0, dealer, "  ?") + WholeTransfer(0, Deal(dealer, buyer, "  ?")), Orion(hash)).None?
  {
    s := FirstMint(hash, dealer, "  ?");
    UnstableExample();
    forall buyer
      ensures Run(WholeMint(0, dealer, "  ?") + WholeTransfer(0, Deal(dealer, buyer, "  ?")), Orion(hash)).None?
    {
      GoesThroughIff(WholeMint(0, dealer, "  ?"), hash, s, 0, Deal(dealer, buyer, "  ?"));
    }
  }

  /** Nor does any transfer that names it commit, whatever else happens. */
  lemma NeverSold(steps: seq<Step>, hash: Hash, s: State, id: nat)
    requires Reaches(steps, hash, s) && id in s.transfers && s.transfers[id].deal.registration == "  ?"
    ensures !HasCommitted(s.transfers[id])
  {
    UnstableExample();
    if HasCommitted(s.transfers[id]) {
      CommitsOnlyIfStable(steps, hash, s, id);
    }
  }
}
