/** What every run of the mint and transfer protocols keeps, whatever the
    interleaving: the ledger is the replay of a lawful history, and every transfer
    goes through its stages in order. */
module CarSafety {
  import opened Options
  import opened CarRecords
  import opened CarValidation
  import opened CarProtocol

  // ----- the history of a run -----

  /** The cars that the events leave, under the keys that they are stored under. */
  function Replay(history: seq<Event>, keys: Keys): map<string, CarRecord> {
    if history == [] then map[]
    else After(Replay(history[..|history| - 1], keys), history[|history| - 1], keys)
  }

  function After(cars: map<string, CarRecord>, e: Event, keys: Keys): map<string, CarRecord> {
    match e
    case CarMinted(car) => cars[StoredKey(keys, car.registration) := car]
    case TransferCommitted(_, deal) =>
      var key := StoredKey(keys, deal.registration);
      if key in cars then cars[key := cars[key].(owner := deal.buyer)] else cars
    case _ => cars
  }

  /** A car is minted under a free key, for a dealer who asked for it; a transfer
      concerns a car that exists, and its owner is the seller unless it is the buyer
      already. */
  predicate LawfulEvent(before: seq<Event>, e: Event, keys: Keys) {
    match e
    case CarMinted(car) =>
      && StoredKey(keys, car.registration) !in Replay(before, keys)
      && MintRequested(MintRequest(car.owner, car.registration)) in before
    case TransferCommitted(_, deal) =>
      var cars, key := Replay(before, keys), StoredKey(keys, deal.registration);
      && key in cars
      && (cars[key].owner == deal.seller || cars[key].owner == deal.buyer)
      && deal.buyer != DMV
    case _ => true
  }

  predicate Lawful(history: seq<Event>, keys: Keys) {
    forall n | 0 <= n < |history| :: LawfulEvent(history[..n], history[n], keys)
  }

  lemma LawfulThen(history: seq<Event>, e: Event, keys: Keys)
    requires Lawful(history, keys) && LawfulEvent(history, e, keys)
    ensures Lawful(history + [e], keys)
  {
    var longer := history + [e];
    forall n | 0 <= n < |longer| ensures LawfulEvent(longer[..n], longer[n], keys) {
      if n < |history| {
        assert longer[..n] == history[..n];
      } else {
        assert longer[..n] == history;
      }
    }
  }

  lemma ReplayThen(history: seq<Event>, e: Event, keys: Keys)
    ensures Replay(history + [e], keys) == After(Replay(history, keys), e, keys)
  {
    assert (history + [e])[..|history|] == history;
  }

  predicate Concerns(e: Event, id: nat) {
    (e.BuyerCoSigned? || e.DmvValidated? || e.TransferCommitted?) && e.id == id
  }

  /** The events of one transfer, in order. */
  function Log(history: seq<Event>, id: nat): seq<Event> {
    if history == [] then []
    else
      var e := history[|history| - 1];
      Log(history[..|history| - 1], id) + if Concerns(e, id) then [e] else []
  }

  lemma LogThen(history: seq<Event>, e: Event, id: nat)
    ensures Log(history + [e], id) == Log(history, id) + if Concerns(e, id) then [e] else []
  {
    assert (history + [e])[..|history|] == history;
  }

  /** Everything a transfer does: the buyer co-signs, the DMV validates, the ledger commits. */
  function Complete(id: nat, deal: Deal): seq<Event> {
    [BuyerCoSigned(id), DmvValidated(id), TransferCommitted(id, deal)]
  }

  // ----- the ledger -----

  /** A record sits under its own stored key and is the one the history leaves there. */
  predicate GoodRecord(key: string, v: Value, history: seq<Event>, keys: Keys) {
    match v
    case CarValue(car) =>
      && key == StoredKey(keys, car.registration)
      && key in Replay(history, keys) && Replay(history, keys)[key] == car
    case MintValue(request) => key == MintKey(keys, request) && MintRequested(request) in history
    case NotJson => false
  }

  ghost predicate GoodLedger(ledger: Ledger, clock: nat, history: seq<Event>, keys: Keys) {
    && Sound(keys)
    && (forall key | key in ledger :: ledger[key].version < clock)
    && (forall key | key in ledger :: GoodRecord(key, ledger[key].value, history, keys))
    && (forall key | key in Replay(history, keys) :: key in ledger)
    && (forall key | key in ledger :: GoodAcl(ledger[key].value, ledger[key].acl))
  }

  /** Who may do what: a car is as it was minted for its owner or as it was sold to its
      owner, and a request is its dealer's. */
  predicate GoodAcl(v: Value, acl: AccessControl) {
    match v
    case CarValue(car) => acl == MintAcl(car.owner) || acl == BuyerAcl(car.owner)
    case MintValue(request) => acl == RequestAcl(request.dealer)
    case NotJson => true
  }

  /** A car key holds the car that the history leaves there, and that car belongs there. */
  lemma CarAtKey(ledger: Ledger, clock: nat, history: seq<Event>, keys: Keys, key: string)
    requires GoodLedger(ledger, clock, history, keys) && HasCarPrefix(key) && key in ledger
    ensures key in Replay(history, keys) && ledger[key].value == CarValue(Replay(history, keys)[key])
    ensures key == StoredKey(keys, ledger[key].value.car.registration)
  {
    var v := ledger[key].value;
    assert GoodRecord(key, v, history, keys);
    if v.MintValue? {
      MintKeyIsNoCarKey(keys, v.request);
    }
  }

  lemma CarAt(ledger: Ledger, clock: nat, history: seq<Event>, keys: Keys, registration: string)
    requires GoodLedger(ledger, clock, history, keys) && StoredKey(keys, registration) in ledger
    ensures var key := StoredKey(keys, registration);
            && key in Replay(history, keys) && ledger[key].value == CarValue(Replay(history, keys)[key])
            && key == StoredKey(keys, ledger[key].value.car.registration)
  {
    CarAtKey(ledger, clock, history, keys, StoredKey(keys, registration));
  }

  /** No record vanishes, a record changes only to a later version, and a car keeps
      its registration. */
  predicate Grows(before: Ledger, after: Ledger) {
    forall key | key in before ::
      && key in after
      && before[key].version <= after[key].version
      && (before[key].version == after[key].version ==> before[key] == after[key])
      && (before[key].value.CarValue? ==> SameCar(before[key].value, after[key].value))
  }

  predicate SameCar(v: Value, w: Value)
    requires v.CarValue?
  {
    w.CarValue? && w.car.registration == v.car.registration
  }

  // ----- a transfer -----

  function ReadVersion(env: Envelope): nat {
    if |env.dataReads| == 1 && env.dataReads[0].version.Some? then env.dataReads[0].version.value else 0
  }

  /** The envelope is the one the seller assembled, for a version the car had. */
  predicate Carries(ledger: Ledger, d: Deal, env: Envelope, signed: seq<User>, keys: Keys) {
    var key := StoredKey(keys, d.registration);
    && key in ledger && ledger[key].value.CarValue?
    && env == TransferEnvelope(keys, d, ledger[key].value.car, ReadVersion(env)).(signed := signed)
    && ReadVersion(env) <= ledger[key].version
  }

  /** What the DMV saw when it validated, related to the ledger now. */
  predicate Validated(ledger: Ledger, d: Deal, env: Envelope, seen: Stored, keys: Keys) {
    var key := StoredKey(keys, d.registration);
    && key in ledger
    && ReadVersion(env) <= seen.version <= ledger[key].version
    && (seen.version == ledger[key].version ==> seen == ledger[key])
    && seen.value.CarValue?
    && (seen.value.car.owner == d.seller || seen.value.car.owner == d.buyer)
    && OwnedWithDmv(BuyerAcl(d.buyer), d.buyer, DMV)
    && Stable(keys, d.registration)
  }

  predicate GoodEnvelopes(ledger: Ledger, t: Transfer, keys: Keys) {
    && (t.sellerPc.Signed? ==> Carries(ledger, t.deal, t.sellerPc.env, [t.deal.seller], keys))
    && (forall i | 0 <= i < |t.toBuyer| :: Carries(ledger, t.deal, t.toBuyer[i], [t.deal.seller], keys))
    && (t.buyerPc.Checking? ==> Carries(ledger, t.deal, t.buyerPc.env, [t.deal.seller], keys))
    && (t.buyerPc.CoSigned? ==> Carries(ledger, t.deal, t.buyerPc.env, [t.deal.seller, t.deal.buyer], keys))
    && (forall i | 0 <= i < |t.toDmv| :: Carries(ledger, t.deal, t.toDmv[i], [t.deal.seller, t.deal.buyer], keys))
    && GoodDmv(ledger, t, keys)
  }

  predicate GoodDmv(ledger: Ledger, t: Transfer, keys: Keys) {
    match t.dmvPc
    case Validating(env) => Carries(ledger, t.deal, env, [t.deal.seller, t.deal.buyer], keys)
    case Committing(env, seen) => Carries(ledger, t.deal, env, [t.deal.seller, t.deal.buyer], keys) && Validated(ledger, t.deal, env, seen, keys)
    case Committed(env) => Superseded(ledger, t.deal, env, keys)
    case AckedBuyer(env) => Superseded(ledger, t.deal, env, keys)
    case _ => true
  }

  /** The version that the transfer read is no longer the current one. */
  predicate Superseded(ledger: Ledger, d: Deal, env: Envelope, keys: Keys) {
    && Carries(ledger, d, env, [d.seller, d.buyer], keys)
    && ReadVersion(env) < ledger[StoredKey(keys, d.registration)].version
    && Stable(keys, d.registration)
  }

  /** How many of the stages are on record, given where the parties are. */
  predicate AtStage(t: Transfer, done: nat) {
    && (t.buyerPc.AwaitingEnvelope? || t.buyerPc.Checking? ==> done == 0)
    && (t.buyerPc.CoSigned? || t.toDmv != [] ==> done >= 1)
    && (t.dmvPc.AwaitingTransfer? ==> done <= 1)
    && (t.dmvPc.Validating? ==> done == 1)
    && (t.dmvPc.Committing? ==> done == 2)
    && (t.dmvPc.Committed? || t.dmvPc.AckedBuyer? || t.acksToBuyer > 0 ==> done == 3)
    && (t.buyerPc.AckingSeller? || t.buyerPc.BuyerDone? || t.acksToSeller > 0 ==> done == 3)
    && (t.sellerPc.Returned? ==> done == 3)
  }

  predicate GoodTransfer(ledger: Ledger, history: seq<Event>, id: nat, t: Transfer, keys: Keys) {
    && GoodEnvelopes(ledger, t, keys)
    && Log(history, id) <= Complete(id, t.deal)
    && AtStage(t, |Log(history, id)|)
  }

  predicate HasCommitted(t: Transfer) {
    t.dmvPc.Committed? || t.dmvPc.AckedBuyer?
  }

  /** Of two transfers that read the same version of a record, at most one commits. */
  predicate Exclusive(t: Transfer, u: Transfer, keys: Keys) {
    HasCommitted(t) && HasCommitted(u) && StoredKey(keys, t.deal.registration) == StoredKey(keys, u.deal.registration)
    ==> ReadVersion(t.dmvPc.env) != ReadVersion(u.dmvPc.env)
  }

  // ----- a mint -----

  /** After the first `n` events the dealer owns the car. */
  predicate OwnedAfter(history: seq<Event>, n: nat, registration: string, dealer: User, keys: Keys)
    requires n <= |history|
  {
    var cars, key := Replay(history[..n], keys), StoredKey(keys, registration);
    key in cars && cars[key] == CarRecord(dealer, registration)
  }

  /** The dealer owned the car at some point of the history. */
  ghost predicate OnceOwned(history: seq<Event>, registration: string, dealer: User, keys: Keys) {
    exists n: nat :: n <= |history| && OwnedAfter(history, n, registration, dealer, keys)
  }

  ghost predicate GoodMint(m: Mint, history: seq<Event>, keys: Keys) {
    && (forall i | 0 <= i < |m.toMinter| :: m.toMinter[i] == MintKey(keys, Request(m)))
    && (m.minterPc.Loading? ==> m.minterPc.key == MintKey(keys, Request(m)))
    && (m.minterPc.Loaded? || m.minterPc.Minting? ==> MintRequested(m.minterPc.request) in history)
    && (m.minterPc.Minted? ==> HasCarPrefix(m.minterPc.carKey))
    && (forall i | 0 <= i < |m.toDealer| :: HasCarPrefix(m.toDealer[i]))
    && (m.dealerPc.Inspecting? ==> HasCarPrefix(m.dealerPc.carKey))
    && (m.dealerPc.DealerReturned? ==> OnceOwned(history, m.registration, m.dealer, keys))
  }

  // ----- the invariant -----

  ghost predicate Inv(s: State, keys: Keys) {
    && GoodLedger(s.ledger, s.clock, s.history, keys)
    && Lawful(s.history, keys)
    && GoodTransfers(s.ledger, s.history, s.transfers, keys)
    && TransfersExclude(s.transfers, keys)
    && GoodMints(s.mints, s.history, keys)
    && NoOtherLogs(s.transfers, s.history)
  }

  ghost predicate GoodTransfers(ledger: Ledger, history: seq<Event>, transfers: map<nat, Transfer>, keys: Keys) {
    forall id | id in transfers :: GoodTransfer(ledger, history, id, transfers[id], keys)
  }

  ghost predicate TransfersExclude(transfers: map<nat, Transfer>, keys: Keys) {
    forall id, other | id in transfers && other in transfers && id != other :: Exclusive(transfers[id], transfers[other], keys)
  }

  ghost predicate GoodMints(mints: map<nat, Mint>, history: seq<Event>, keys: Keys) {
    forall id | id in mints :: GoodMint(mints[id], history, keys)
  }

  ghost predicate NoOtherLogs(transfers: map<nat, Transfer>, history: seq<Event>) {
    forall id | id !in transfers :: Log(history, id) == []
  }

  // ----- what a step does to a transfer that does not take it -----

  lemma CarriesKept(before: Ledger, after: Ledger, d: Deal, env: Envelope, signed: seq<User>, keys: Keys)
    requires Grows(before, after) && Carries(before, d, env, signed, keys)
    ensures Carries(after, d, env, signed, keys)
  {
  }

  lemma EnvelopesKept(before: Ledger, after: Ledger, t: Transfer, keys: Keys)
    requires Grows(before, after) && GoodEnvelopes(before, t, keys)
    ensures GoodEnvelopes(after, t, keys)
  {
    forall i | 0 <= i < |t.toBuyer| ensures Carries(after, t.deal, t.toBuyer[i], [t.deal.seller], keys) {
      CarriesKept(before, after, t.deal, t.toBuyer[i], [t.deal.seller], keys);
    }
    forall i | 0 <= i < |t.toDmv| ensures Carries(after, t.deal, t.toDmv[i], [t.deal.seller, t.deal.buyer], keys) {
      CarriesKept(before, after, t.deal, t.toDmv[i], [t.deal.seller, t.deal.buyer], keys);
    }
    var key := StoredKey(keys, t.deal.registration);
    assert key in before ==> key in after;
  }

  // ----- what a step does to the transfer that takes it -----

  /** What both validators read off the envelope that the seller assembled. */
  lemma EnvelopeRecord(keys: Keys, d: Deal, car: CarRecord, version: nat)
    requires Sound(keys)
    ensures var env := TransferEnvelope(keys, d, car, version);
            && GoodWrites(env)
            && NewRecord(env) == CarRecord(d.buyer, car.registration)
            && LastAcl(env.dataWrites) == Some(BuyerAcl(d.buyer))
  {
    var env := TransferEnvelope(keys, d, car, version);
    assert WrittenValues(env.dataWrites) == [CarValue(car.(owner := d.buyer))];
    assert WriteKeys(env.dataWrites) == [StoredKey(keys, d.registration)];
  }

  lemma EnvelopeReads(ledger: Ledger, keys: Keys, r: DataRead)
    requires HasCarPrefix(r.key)
    ensures ReadValues([r], Get(ledger, keys)) == [Get(ledger, keys)(r.key)]
    ensures CarKeys(ReadKeys([r]))
  {
  }

  /** Whatever is stored under a car key given to `Get` is a car. */
  lemma GetsCar(s: State, keys: Keys, key: string)
    requires GoodLedger(s.ledger, s.clock, s.history, keys) && HasCarPrefix(key) && keys.stored(key) in s.ledger
    ensures var v := s.ledger[keys.stored(key)].value;
            v.CarValue? && keys.stored(key) == StoredKey(keys, v.car.registration)
  {
    assert key == CarKey(key[|CAR_PREFIX|..]);
    CarAt(s.ledger, s.clock, s.history, keys, key[|CAR_PREFIX|..]);
  }

  lemma SellerReadsKeeps(s: State, t: Transfer, keys: Keys)
    requires GoodLedger(s.ledger, s.clock, s.history, keys) && GoodEnvelopes(s.ledger, t, keys) && t.sellerPc.Selling?
    ensures GoodEnvelopes(s.ledger, TransferNext(s.ledger, t, SellerReads, keys), keys)
  {
    var key := StoredKey(keys, t.deal.registration);
    if key in s.ledger {
      CarAt(s.ledger, s.clock, s.history, keys, t.deal.registration);
      var next := TransferNext(s.ledger, t, SellerReads, keys);
      assert Carries(s.ledger, next.deal, next.sellerPc.env, [t.deal.seller], keys);
    }
  }

  /** The DMV gives the stored key to `Get` once more.  If it accepts, the record it
      found has the registration of the one the seller read, so it is that one. */
  lemma DmvReadsSameKey(s: State, d: Deal, env: Envelope, keys: Keys)
    requires GoodLedger(s.ledger, s.clock, s.history, keys) && Carries(s.ledger, d, env, env.signed, keys)
    requires DmvAccepts(env, Get(s.ledger, keys), DMV)
    ensures Stable(keys, d.registration)
    ensures var car := s.ledger[StoredKey(keys, d.registration)].value.car;
            car.owner in env.mustSign && OwnedWithDmv(BuyerAcl(d.buyer), d.buyer, DMV)
  {
    var key := StoredKey(keys, d.registration);
    var car := s.ledger[key].value.car;
    CarAt(s.ledger, s.clock, s.history, keys, d.registration);
    EnvelopeRecord(keys, d, car, ReadVersion(env));
    assert env.dataReads == [env.dataReads[0]];
    EnvelopeReads(s.ledger, keys, env.dataReads[0]);
    assert ReadValues(env.dataReads, Get(s.ledger, keys))[0] == Get(s.ledger, keys)(key);
    GetsCar(s, keys, key);
  }

  lemma DmvValidatesKeeps(s: State, t: Transfer, keys: Keys)
    requires GoodLedger(s.ledger, s.clock, s.history, keys) && GoodEnvelopes(s.ledger, t, keys) && t.dmvPc.Validating?
    ensures GoodDmv(s.ledger, TransferNext(s.ledger, t, DmvValidates, keys), keys)
  {
    var env, key := t.dmvPc.env, StoredKey(keys, t.deal.registration);
    var next := TransferNext(s.ledger, t, DmvValidates, keys);
    assert Carries(s.ledger, t.deal, env, [t.deal.seller, t.deal.buyer], keys);
    assert env.dataReads[0].key == key;
    if DmvAccepts(env, Get(s.ledger, keys), DMV) {
      DmvReadsSameKey(s, t.deal, env, keys);
      SeenIsCurrent(s.ledger, t.deal, env, keys);
      assert next.dmvPc == Committing(env, s.ledger[key]);
    } else {
      assert next.dmvPc.DmvFailed?;
    }
  }

  lemma SeenIsCurrent(ledger: Ledger, d: Deal, env: Envelope, keys: Keys)
    requires Carries(ledger, d, env, [d.seller, d.buyer], keys) && Stable(keys, d.registration)
    requires ledger[StoredKey(keys, d.registration)].value.car.owner in env.mustSign
    requires OwnedWithDmv(BuyerAcl(d.buyer), d.buyer, DMV)
    ensures Validated(ledger, d, env, ledger[StoredKey(keys, d.registration)], keys)
  {
  }

  lemma MessageKeeps(ledger: Ledger, t: Transfer, a: TransferAction, keys: Keys)
    requires GoodEnvelopes(ledger, t, keys) && TransferEnabled(ledger, t, a)
    requires a.SellerSends? || a.BuyerReceives? || a.BuyerSends? || a.DmvReceives?
    ensures GoodEnvelopes(ledger, TransferNext(ledger, t, a, keys), keys)
  {
  }

  lemma BuyerChecksKeeps(ledger: Ledger, t: Transfer, keys: Keys)
    requires GoodEnvelopes(ledger, t, keys) && t.buyerPc.Checking?
    ensures GoodEnvelopes(ledger, TransferNext(ledger, t, BuyerChecks, keys), keys)
  {
    assert Carries(ledger, t.deal, t.buyerPc.env, [t.deal.seller], keys);
  }

  lemma EnvelopesStep(s: State, t: Transfer, a: TransferAction, keys: Keys)
    requires GoodLedger(s.ledger, s.clock, s.history, keys) && GoodEnvelopes(s.ledger, t, keys)
    requires TransferEnabled(s.ledger, t, a) && !a.DmvCommits?
    ensures GoodEnvelopes(s.ledger, TransferNext(s.ledger, t, a, keys), keys)
  {
    if a.SellerSends? || a.BuyerReceives? || a.BuyerSends? || a.DmvReceives? {
      MessageKeeps(s.ledger, t, a, keys);
    } else if a.BuyerChecks? {
      BuyerChecksKeeps(s.ledger, t, keys);
    } else if a.SellerReads? {
      SellerReadsKeeps(s, t, keys);
    } else if a.DmvValidates? {
      DmvEnvelopes(s, t, keys);
    } else {
      NoEnvelopeMoves(s.ledger, t, a, keys);
    }
  }

  lemma DmvEnvelopes(s: State, t: Transfer, keys: Keys)
    requires GoodLedger(s.ledger, s.clock, s.history, keys) && GoodEnvelopes(s.ledger, t, keys) && t.dmvPc.Validating?
    ensures GoodEnvelopes(s.ledger, TransferNext(s.ledger, t, DmvValidates, keys), keys)
  {
    DmvValidatesKeeps(s, t, keys);
  }

  lemma NoEnvelopeMoves(ledger: Ledger, t: Transfer, a: TransferAction, keys: Keys)
    requires GoodEnvelopes(ledger, t, keys) && TransferEnabled(ledger, t, a)
    requires a.DmvAcks? || a.BuyerHearsDmv? || a.BuyerAcks? || a.SellerHearsBuyer? || a.SellerGivesUp? || a.BuyerGivesUp? || a.DmvGivesUp?
    ensures GoodEnvelopes(ledger, TransferNext(ledger, t, a, keys), keys)
  {
  }

  /** The stages of a transfer come in order, each once. */
  lemma StagesStep(ledger: Ledger, id: nat, t: Transfer, a: TransferAction, log: seq<Event>, keys: Keys)
    requires TransferEnabled(ledger, t, a) && log <= Complete(id, t.deal) && AtStage(t, |log|)
    ensures var next := TransferNext(ledger, t, a, keys);
            && log + TransferEvents(id, next, a) <= Complete(id, next.deal)
            && AtStage(next, |log + TransferEvents(id, next, a)|)
  {
    var next := TransferNext(ledger, t, a, keys);
    var events := TransferEvents(id, next, a);
    assert Complete(id, next.deal) == Complete(id, t.deal);
    if events == [] {
      assert log + events == log;
    } else {
      assert log == Complete(id, t.deal)[..|log|];
      assert log + events == Complete(id, t.deal)[..|log| + 1];
    }
  }

  // ----- what a step does to the ledger and the history -----

  predicate ChangesOwners(e: Event) {
    e.CarMinted? || e.TransferCommitted?
  }

  lemma LedgerThen(ledger: Ledger, clock: nat, history: seq<Event>, e: Event, keys: Keys)
    requires GoodLedger(ledger, clock, history, keys) && !ChangesOwners(e)
    ensures GoodLedger(ledger, clock, history + [e], keys)
  {
    ReplayThen(history, e, keys);
    forall key | key in ledger ensures GoodRecord(key, ledger[key].value, history + [e], keys) {
      assert GoodRecord(key, ledger[key].value, history, keys);
    }
  }

  /** A car is written together with the event that leaves it there. */
  lemma CarWritten(s: State, e: Event, key: string, car: CarRecord, acl: AccessControl, keys: Keys)
    requires GoodLedger(s.ledger, s.clock, s.history, keys)
    requires key == StoredKey(keys, car.registration)
    requires After(Replay(s.history, keys), e, keys) == Replay(s.history, keys)[key := car]
    requires key in s.ledger ==> s.ledger[key].value.CarValue? && s.ledger[key].value.car.registration == car.registration
    requires GoodAcl(CarValue(car), acl)
    ensures var after := Write(s, key, CarValue(car), acl);
            && GoodLedger(after.ledger, after.clock, s.history + [e], keys)
            && Grows(s.ledger, after.ledger)
  {
    var after := Write(s, key, CarValue(car), acl);
    CarGrows(s, key, car, acl);
    ReplayThen(s.history, e, keys);
    forall k | k in after.ledger ensures GoodRecord(k, after.ledger[k].value, s.history + [e], keys) {
      if k != key {
        RecordKept(k, s.ledger[k].value, s.history, e, key, car, keys);
      }
    }
    forall k | k in after.ledger ensures GoodAcl(after.ledger[k].value, after.ledger[k].acl) {
      assert k != key ==> after.ledger[k] == s.ledger[k];
    }
  }

  lemma CarGrows(s: State, key: string, car: CarRecord, acl: AccessControl)
    requires forall k | k in s.ledger :: s.ledger[k].version < s.clock
    requires key in s.ledger ==> s.ledger[key].value.CarValue? && s.ledger[key].value.car.registration == car.registration
    ensures Grows(s.ledger, Write(s, key, CarValue(car), acl).ledger)
  {
  }

  lemma RecordKept(k: string, v: Value, history: seq<Event>, e: Event, key: string, car: CarRecord, keys: Keys)
    requires GoodRecord(k, v, history, keys) && k != key
    requires Replay(history + [e], keys) == Replay(history, keys)[key := car]
    ensures GoodRecord(k, v, history + [e], keys)
  {
  }

  lemma RequestWritten(s: State, r: MintRequest, keys: Keys)
    requires GoodLedger(s.ledger, s.clock, s.history, keys) && MintKey(keys, r) !in s.ledger
    ensures var after := Write(s, MintKey(keys, r), MintValue(r), RequestAcl(r.dealer));
            && GoodLedger(after.ledger, after.clock, s.history + [MintRequested(r)], keys)
            && Grows(s.ledger, after.ledger)
  {
    var history := s.history + [MintRequested(r)];
    var after := Write(s, MintKey(keys, r), MintValue(r), RequestAcl(r.dealer));
    LedgerThen(s.ledger, s.clock, s.history, MintRequested(r), keys);
    assert history[|s.history|] == MintRequested(r);
    forall k | k in after.ledger
      ensures GoodRecord(k, after.ledger[k].value, history, keys) && GoodAcl(after.ledger[k].value, after.ledger[k].acl)
    {
      if k != MintKey(keys, r) {
        assert GoodRecord(k, s.ledger[k].value, history, keys);
      }
    }
  }

  lemma LogMore(history: seq<Event>, events: seq<Event>, id: nat)
    requires |events| <= 1 && forall e | e in events :: !Concerns(e, id)
    ensures Log(history + events, id) == Log(history, id)
  {
    if events == [] {
      assert history + events == history;
    } else {
      assert events == [events[0]];
      LogThen(history, events[0], id);
    }
  }

  lemma TransferKept(before: Ledger, after: Ledger, history: seq<Event>, events: seq<Event>, id: nat, t: Transfer, keys: Keys)
    requires GoodTransfer(before, history, id, t, keys) && Grows(before, after)
    requires |events| <= 1 && forall e | e in events :: !Concerns(e, id)
    ensures GoodTransfer(after, history + events, id, t, keys)
  {
    EnvelopesKept(before, after, t, keys);
    LogMore(history, events, id);
  }

  lemma MintKept(m: Mint, history: seq<Event>, events: seq<Event>, keys: Keys)
    requires GoodMint(m, history, keys)
    ensures GoodMint(m, history + events, keys)
  {
    if m.dealerPc.DealerReturned? {
      var n: nat :| n <= |history| && OwnedAfter(history, n, m.registration, m.dealer, keys);
      assert (history + events)[..n] == history[..n];
      assert OwnedAfter(history + events, n, m.registration, m.dealer, keys);
    }
  }

  // ----- commitment of a transfer -----

  /** A transfer commits only while the version the seller read is current.  What the
      DMV saw is no older than that and no newer than the ledger, so it is what the
      ledger holds: the owner is the seller, unless it is the buyer already. */
  lemma CommitFacts(s: State, t: Transfer, keys: Keys)
    requires GoodLedger(s.ledger, s.clock, s.history, keys) && GoodEnvelopes(s.ledger, t, keys)
    requires TransferEnabled(s.ledger, t, DmvCommits)
    ensures var d, env, key := t.deal, t.dmvPc.env, StoredKey(keys, t.deal.registration);
            && key in s.ledger && s.ledger[key].value.CarValue?
            && env.dataWrites == [DataWrite(key, CarValue(s.ledger[key].value.car.(owner := d.buyer)), Some(BuyerAcl(d.buyer)))]
            && env.mustSign == env.signed == [d.seller, d.buyer]
            && ReadVersion(env) == s.ledger[key].version
            && OwnedWithDmv(BuyerAcl(d.buyer), d.buyer, DMV) && Stable(keys, d.registration)
            && LawfulEvent(s.history, TransferCommitted(0, d), keys)
  {
    var d, env, seen := t.deal, t.dmvPc.env, t.dmvPc.seen;
    assert Carries(s.ledger, d, env, [d.seller, d.buyer], keys) && Validated(s.ledger, d, env, seen, keys);
    assert env.dataReads[0] == DataRead(StoredKey(keys, d.registration), Some(ReadVersion(env)));
    assert seen == s.ledger[StoredKey(keys, d.registration)];
    CarAt(s.ledger, s.clock, s.history, keys, d.registration);
    assert d.buyer == DMV ==> |BuyerAcl(d.buyer).readWriteUsers| == 1;
  }

  /** The car after the transfer: it has another owner, and is otherwise the same. */
  function TransferredCar(s: State, d: Deal, keys: Keys): CarRecord
    requires StoredKey(keys, d.registration) in s.ledger && s.ledger[StoredKey(keys, d.registration)].value.CarValue?
  {
    s.ledger[StoredKey(keys, d.registration)].value.car.(owner := d.buyer)
  }

  /** The state after a commitment. */
  lemma CommitShape(s: State, id: nat, keys: Keys)
    requires Inv(s, keys) && id in s.transfers && TransferEnabled(s.ledger, s.transfers[id], DmvCommits)
    ensures var d, after := s.transfers[id].deal, AfterTransferStep(s, id, DmvCommits, keys);
            var key := StoredKey(keys, d.registration);
            && key in s.ledger && s.ledger[key].value.CarValue?
            && var w := Write(s, key, CarValue(TransferredCar(s, d, keys)), BuyerAcl(d.buyer));
               && after.ledger == w.ledger && after.clock == w.clock
               && after.history == s.history + [TransferCommitted(id, d)]
               && LawfulEvent(s.history, TransferCommitted(id, d), keys)
  {
    assert GoodTransfer(s.ledger, s.history, id, s.transfers[id], keys);
    CommitFacts(s, s.transfers[id], keys);
  }

  lemma CommitLedger(s: State, id: nat, keys: Keys)
    requires Inv(s, keys) && id in s.transfers && TransferEnabled(s.ledger, s.transfers[id], DmvCommits)
    ensures var after := AfterTransferStep(s, id, DmvCommits, keys);
            && GoodLedger(after.ledger, after.clock, after.history, keys)
            && Lawful(after.history, keys)
            && Grows(s.ledger, after.ledger)
  {
    var d := s.transfers[id].deal;
    CommitShape(s, id, keys);
    CarAt(s.ledger, s.clock, s.history, keys, d.registration);
    CarWritten(s, TransferCommitted(id, d), StoredKey(keys, d.registration), TransferredCar(s, d, keys), BuyerAcl(d.buyer), keys);
    LawfulThen(s.history, TransferCommitted(id, d), keys);
  }

  lemma TransferLedger(s: State, id: nat, a: TransferAction, keys: Keys)
    requires Inv(s, keys) && id in s.transfers && TransferEnabled(s.ledger, s.transfers[id], a)
    ensures var after := AfterTransferStep(s, id, a, keys);
            && GoodLedger(after.ledger, after.clock, after.history, keys)
            && Lawful(after.history, keys)
            && Grows(s.ledger, after.ledger)
  {
    if a.DmvCommits? {
      CommitLedger(s, id, keys);
    } else {
      HistoryThen(s, TransferEvents(id, TransferNext(s.ledger, s.transfers[id], a, keys), a), keys);
    }
  }

  /** The ledger need not change with an event that changes no owner. */
  lemma HistoryThen(s: State, events: seq<Event>, keys: Keys)
    requires GoodLedger(s.ledger, s.clock, s.history, keys) && Lawful(s.history, keys)
    requires |events| <= 1 && forall e | e in events :: !ChangesOwners(e)
    ensures GoodLedger(s.ledger, s.clock, s.history + events, keys) && Lawful(s.history + events, keys)
  {
    if events == [] {
      assert s.history + events == s.history;
    } else {
      assert events == [events[0]];
      LedgerThen(s.ledger, s.clock, s.history, events[0], keys);
      LawfulThen(s.history, events[0], keys);
    }
  }

  lemma LogOfActing(history: seq<Event>, events: seq<Event>, id: nat)
    requires |events| <= 1 && forall e | e in events :: Concerns(e, id)
    ensures Log(history + events, id) == Log(history, id) + events
  {
    if events == [] {
      assert history + events == history && Log(history, id) + events == Log(history, id);
    } else {
      assert events == [events[0]];
      LogThen(history, events[0], id);
    }
  }

  lemma ActingTransfer(s: State, id: nat, a: TransferAction, keys: Keys)
    requires Inv(s, keys) && id in s.transfers && TransferEnabled(s.ledger, s.transfers[id], a)
    ensures var after := AfterTransferStep(s, id, a, keys);
            GoodTransfer(after.ledger, after.history, id, after.transfers[id], keys)
  {
    var t, after := s.transfers[id], AfterTransferStep(s, id, a, keys);
    assert GoodTransfer(s.ledger, s.history, id, t, keys);
    StagesStep(s.ledger, id, t, a, Log(s.history, id), keys);
    LogOfActing(s.history, TransferEvents(id, after.transfers[id], a), id);
    if a.DmvCommits? {
      CommittedEnvelope(s, id, keys);
    } else {
      EnvelopesStep(s, t, a, keys);
    }
  }

  lemma CommittedEnvelope(s: State, id: nat, keys: Keys)
    requires Inv(s, keys) && id in s.transfers && TransferEnabled(s.ledger, s.transfers[id], DmvCommits)
    ensures var after := AfterTransferStep(s, id, DmvCommits, keys);
            GoodEnvelopes(after.ledger, after.transfers[id], keys)
  {
    var t, after := s.transfers[id], AfterTransferStep(s, id, DmvCommits, keys);
    assert GoodTransfer(s.ledger, s.history, id, t, keys);
    CommitLedger(s, id, keys);
    CommitFacts(s, t, keys);
    EnvelopesKept(s.ledger, after.ledger, t, keys);
    assert after.ledger[StoredKey(keys, t.deal.registration)].version == s.clock;
  }

  lemma CommitIsExclusive(s: State, id: nat, other: nat, a: TransferAction, keys: Keys)
    requires Inv(s, keys) && id in s.transfers && other in s.transfers && id != other
    requires TransferEnabled(s.ledger, s.transfers[id], a)
    ensures Exclusive(AfterTransferStep(s, id, a, keys).transfers[id], s.transfers[other], keys)
  {
    var t, u := s.transfers[id], s.transfers[other];
    assert Exclusive(t, u, keys);
    assert GoodTransfer(s.ledger, s.history, id, t, keys) && GoodTransfer(s.ledger, s.history, other, u, keys);
    if a.DmvCommits? {
      CommitFacts(s, t, keys);
      assert HasCommitted(u) ==> Superseded(s.ledger, u.deal, u.dmvPc.env, keys);
    } else {
      CommitsOnlyByCommit(s.ledger, t, a, keys);
    }
  }

  lemma CommitsOnlyByCommit(ledger: Ledger, t: Transfer, a: TransferAction, keys: Keys)
    requires TransferEnabled(ledger, t, a) && !a.DmvCommits?
    ensures var next := TransferNext(ledger, t, a, keys);
            next.deal == t.deal && (HasCommitted(next) ==> HasCommitted(t) && next.dmvPc.env == t.dmvPc.env)
  {
  }

  lemma TransfersStep(s: State, id: nat, a: TransferAction, keys: Keys)
    requires Inv(s, keys) && id in s.transfers && TransferEnabled(s.ledger, s.transfers[id], a)
    ensures var after := AfterTransferStep(s, id, a, keys);
            GoodTransfers(after.ledger, after.history, after.transfers, keys)
  {
    var after := AfterTransferStep(s, id, a, keys);
    var events := TransferEvents(id, after.transfers[id], a);
    TransferLedger(s, id, a, keys);
    ActingTransfer(s, id, a, keys);
    EventsAreIts(id, after.transfers[id], a);
    forall other | other in s.transfers && other != id
      ensures GoodTransfer(after.ledger, s.history + events, other, s.transfers[other], keys)
    {
      assert GoodTransfer(s.ledger, s.history, other, s.transfers[other], keys);
      TransferKept(s.ledger, after.ledger, s.history, events, other, s.transfers[other], keys);
    }
  }

  lemma EventsAreIts(id: nat, t: Transfer, a: TransferAction)
    ensures |TransferEvents(id, t, a)| <= 1
    ensures forall e, other | e in TransferEvents(id, t, a) :: Concerns(e, other) <==> other == id
  {
  }

  lemma ExclusionStep(s: State, id: nat, a: TransferAction, keys: Keys)
    requires Inv(s, keys) && id in s.transfers && TransferEnabled(s.ledger, s.transfers[id], a)
    ensures TransfersExclude(AfterTransferStep(s, id, a, keys).transfers, keys)
  {
    var next := AfterTransferStep(s, id, a, keys).transfers[id];
    forall other | other in s.transfers && other != id
      ensures Exclusive(next, s.transfers[other], keys) && Exclusive(s.transfers[other], next, keys)
    {
      CommitIsExclusive(s, id, other, a, keys);
    }
  }

  lemma MintsKept(mints: map<nat, Mint>, history: seq<Event>, events: seq<Event>, keys: Keys)
    requires GoodMints(mints, history, keys)
    ensures GoodMints(mints, history + events, keys)
  {
    forall id | id in mints ensures GoodMint(mints[id], history + events, keys) {
      MintKept(mints[id], history, events, keys);
    }
  }

  lemma TransferStepKeeps(s: State, id: nat, a: TransferAction, keys: Keys)
    requires Inv(s, keys) && id in s.transfers && TransferEnabled(s.ledger, s.transfers[id], a)
    ensures Inv(AfterTransferStep(s, id, a, keys), keys)
  {
    var after := AfterTransferStep(s, id, a, keys);
    var events := TransferEvents(id, after.transfers[id], a);
    TransferLedger(s, id, a, keys);
    TransfersStep(s, id, a, keys);
    ExclusionStep(s, id, a, keys);
    MintsKept(s.mints, s.history, events, keys);
    EventsAreIts(id, after.transfers[id], a);
    NoOtherLogsThen(s.transfers, s.history, events, id);
    assert after.transfers.Keys == s.transfers.Keys && after.history == s.history + events;
  }

  lemma NoOtherLogsThen(transfers: map<nat, Transfer>, history: seq<Event>, events: seq<Event>, id: nat)
    requires NoOtherLogs(transfers, history) && id in transfers && |events| <= 1
    requires forall e, other | e in events :: Concerns(e, other) <==> other == id
    ensures NoOtherLogs(transfers, history + events)
  {
    forall other | other !in transfers ensures Log(history + events, other) == [] {
      LogMore(history, events, other);
    }
  }

  // ----- steps of a mint -----

  lemma ActingMint(s: State, id: nat, a: MintAction, keys: Keys)
    requires Inv(s, keys) && id in s.mints && MintEnabled(s.ledger, s.mints[id], a, keys)
    ensures GoodMint(MintNext(s.ledger, s.mints[id], a, keys), s.history, keys)
  {
    var m := s.mints[id];
    assert GoodMint(m, s.history, keys);
    if a.MinterLoads? {
      LoadedRequest(s, m, keys);
    } else if a.DealerInspects? && Inspected(s.ledger, m, m.dealerPc.carKey, keys) {
      InspectedIsOwned(s, m, m.dealerPc.carKey, keys);
    }
  }

  /** The request that the DMV loads is one that its dealer recorded. */
  lemma LoadedRequest(s: State, m: Mint, keys: Keys)
    requires GoodLedger(s.ledger, s.clock, s.history, keys)
    requires m.minterPc.Loading? && m.minterPc.key == MintKey(keys, Request(m))
    ensures var next := MintNext(s.ledger, m, MinterLoads, keys);
            next.minterPc.Loaded? ==> MintRequested(next.minterPc.request) in s.history
  {
    var key := m.minterPc.key;
    assert keys.stored(key) == key;
    if key in s.ledger {
      assert GoodRecord(key, s.ledger[key].value, s.history, keys);
      MintKeyIsNoCarKey(keys, Request(m));
    }
  }

  lemma InspectedIsOwned(s: State, m: Mint, carKey: string, keys: Keys)
    requires GoodLedger(s.ledger, s.clock, s.history, keys)
    requires HasCarPrefix(carKey) && Inspected(s.ledger, m, carKey, keys)
    ensures OnceOwned(s.history, m.registration, m.dealer, keys)
  {
    GetsCar(s, keys, carKey);
    CarAt(s.ledger, s.clock, s.history, keys, m.registration);
    assert s.history[..|s.history|] == s.history;
    assert OwnedAfter(s.history, |s.history|, m.registration, m.dealer, keys);
  }

  lemma MintLedger(s: State, id: nat, a: MintAction, keys: Keys)
    requires Inv(s, keys) && id in s.mints && MintEnabled(s.ledger, s.mints[id], a, keys)
    ensures var after := AfterMintStep(s, id, a, keys);
            && GoodLedger(after.ledger, after.clock, after.history, keys)
            && Lawful(after.history, keys)
            && Grows(s.ledger, after.ledger)
  {
    var m := s.mints[id];
    assert GoodMint(m, s.history, keys);
    if a.DealerCommits? {
      RequestIsNew(s, m, keys);
      RequestWritten(s, Request(m), keys);
      LawfulThen(s.history, MintRequested(Request(m)), keys);
    } else if a.MinterCommits? {
      MintCommitLedger(s, m.minterPc.request, m.minterPc.key, m.minterPc.version, keys);
    } else {
      assert s.history + MintEvents(m, a) == s.history;
    }
  }

  lemma RequestIsNew(s: State, m: Mint, keys: Keys)
    requires Sound(keys) && ReadsCurrent(s.ledger, [DataRead(keys.stored(MintKey(keys, Request(m))), None)])
    ensures MintKey(keys, Request(m)) !in s.ledger
  {
    var gets := [DataRead(keys.stored(MintKey(keys, Request(m))), None)];
    assert gets[0].key !in s.ledger;
  }

  lemma MintedIsNew(s: State, r: MintRequest, key: string, version: nat, keys: Keys)
    requires ReadsCurrent(s.ledger, [DataRead(keys.stored(key), Some(version)), DataRead(StoredKey(keys, r.registration), None)])
    ensures StoredKey(keys, r.registration) !in s.ledger
  {
    var gets := [DataRead(keys.stored(key), Some(version)), DataRead(StoredKey(keys, r.registration), None)];
    assert gets[1].key !in s.ledger;
  }

  lemma MintCommitLedger(s: State, r: MintRequest, key: string, version: nat, keys: Keys)
    requires GoodLedger(s.ledger, s.clock, s.history, keys) && Lawful(s.history, keys)
    requires MintRequested(r) in s.history
    requires ReadsCurrent(s.ledger, [DataRead(keys.stored(key), Some(version)), DataRead(StoredKey(keys, r.registration), None)])
    ensures var after := Write(s, StoredKey(keys, r.registration), CarValue(NewCar(r)),
                               MintAcl(r.dealer));
            && GoodLedger(after.ledger, after.clock, s.history + [CarMinted(NewCar(r))], keys)
            && Grows(s.ledger, after.ledger)
    ensures Lawful(s.history + [CarMinted(NewCar(r))], keys)
  {
    MintedIsNew(s, r, key, version, keys);
    CarWritten(s, CarMinted(NewCar(r)), StoredKey(keys, r.registration), NewCar(r),
               MintAcl(r.dealer), keys);
    LawfulThen(s.history, CarMinted(NewCar(r)), keys);
  }

  lemma MintStepKeeps(s: State, id: nat, a: MintAction, keys: Keys)
    requires Inv(s, keys) && id in s.mints && MintEnabled(s.ledger, s.mints[id], a, keys)
    ensures Inv(AfterMintStep(s, id, a, keys), keys)
  {
    var after, events := AfterMintStep(s, id, a, keys), MintEvents(s.mints[id], a);
    MintLedger(s, id, a, keys);
    ActingMint(s, id, a, keys);
    MintsKept(after.mints, s.history, events, keys);
    forall t | t in s.transfers ensures GoodTransfer(after.ledger, after.history, t, s.transfers[t], keys) {
      TransferKept(s.ledger, after.ledger, s.history, events, t, s.transfers[t], keys);
    }
    forall t | t !in s.transfers ensures Log(after.history, t) == [] {
      LogMore(s.history, events, t);
    }
  }

  // ----- every run -----

  lemma StepKeeps(s: State, step: Step, keys: Keys)
    requires Inv(s, keys) && Enabled(s, step, keys)
    ensures Inv(Next(s, step, keys), keys)
  {
    match step
    case InTransfer(id, a) => TransferStepKeeps(s, id, a, keys);
    case InMint(id, a) => MintStepKeeps(s, id, a, keys);
    case StartTransfer(id, deal) => assert GoodTransfer(s.ledger, s.history, id, NewTransfer(deal), keys);
    case StartMint(id, dealer, registration) => assert GoodMint(NewMint(dealer, registration), s.history, keys);
  }

  lemma {:induction false} RunKeeps(steps: seq<Step>, keys: Keys)
    requires Sound(keys) && Run(steps, keys).Some?
    ensures Inv(Run(steps, keys).value, keys)
  {
    if steps != [] {
      var front := steps[..|steps| - 1];
      RunKeeps(front, keys);
      StepKeeps(Run(front, keys).value, steps[|steps| - 1], keys);
    }
  }
}
