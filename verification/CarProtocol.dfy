/** The mint and transfer protocols of `integration/orion/cars/views` as one system
    of interleaved steps: dealers, sellers, buyers and the DMV, the messages between
    them, and the Orion ledger.  Every key goes through `sanitizeKey` on its way to
    the ledger, and the keys in an envelope are those that result.

    A read, a message and a commit are separate steps.  The ledger rejects a
    transaction if a version it read is no longer current or a user that must
    sign did not; it may also reject for reasons of its own.  A party may give up
    at any time, which stands for errors, panics and timeouts. */
module CarProtocol {
  import opened Options
  import opened CarRecords
  import opened CarValidation

  datatype Stored = Stored(value: Value, version: nat, acl: AccessControl)

  type Ledger = map<string, Stored>

  // ----- a transfer -----

  datatype SellerPc = Selling | Signed(env: Envelope) | AwaitingBuyer | Returned | SellerFailed

  datatype BuyerPc =
    | AwaitingEnvelope
    | Checking(env: Envelope)
    | CoSigned(env: Envelope)
    | AwaitingDmv
    | AckingSeller
    | BuyerDone
    | BuyerFailed

  /** `seen` is what the DMV's own read returned when it validated. */
  datatype DmvPc =
    | AwaitingTransfer
    | Validating(env: Envelope)
    | Committing(env: Envelope, seen: Stored)
    | Committed(env: Envelope)
    | AckedBuyer(env: Envelope)
    | DmvFailed

  /** Who sells which car to whom. */
  datatype Deal = Deal(seller: User, buyer: User, registration: string)

  /** One run of `TransferView` with the responder flows it starts.  The queues hold
      the messages under way; an acknowledgement carries nothing. */
  datatype Transfer = Transfer(
    deal: Deal, sellerPc: SellerPc, buyerPc: BuyerPc, dmvPc: DmvPc,
    toBuyer: seq<Envelope>, toDmv: seq<Envelope>, acksToBuyer: nat, acksToSeller: nat)

  function NewTransfer(deal: Deal): Transfer {
    Transfer(deal, Selling, AwaitingEnvelope, AwaitingTransfer, [], [], 0, 0)
  }

  /** What the seller assembles from the record it read. */
  function TransferEnvelope(keys: Keys, d: Deal, car: CarRecord, version: nat): Envelope {
    Envelope([DataRead(StoredKey(keys, d.registration), Some(version))],
             [DataWrite(StoredKey(keys, d.registration), CarValue(car.(owner := d.buyer)), Some(BuyerAcl(d.buyer)))],
             [d.seller, d.buyer], [d.seller])
  }

  function BuyerAcl(buyer: User): AccessControl {
    AccessControl(map[], map[DMV := true, buyer := true], true)
  }

  // ----- a mint -----

  /** The DMV may read the request, and its dealer may write it. */
  function RequestAcl(dealer: User): AccessControl {
    AccessControl(map[DMV := true], map[dealer := true], false)
  }

  /** The dealer may read the new car, and the DMV may write it. */
  function MintAcl(dealer: User): AccessControl {
    AccessControl(map[dealer := true], map[DMV := true], false)
  }

  datatype DealerPc =
    | Requesting
    | Registering
    | Registered
    | AwaitingCar
    | Inspecting(carKey: string)
    | DealerReturned
    | DealerFailed

  datatype MinterPc =
    | AwaitingRequest
    | Loading(key: string)
    | Loaded(key: string, request: MintRequest, version: nat)
    | Minting(key: string, request: MintRequest, version: nat)
    | Minted(carKey: string)
    | MinterDone
    | MinterFailed

  /** One run of `MintRequestView` with the approval flow it starts. */
  datatype Mint = Mint(
    dealer: User, registration: string, dealerPc: DealerPc, minterPc: MinterPc,
    toMinter: seq<string>, toDealer: seq<string>)

  function NewMint(dealer: User, registration: string): Mint {
    Mint(dealer, registration, Requesting, AwaitingRequest, [], [])
  }

  function Request(m: Mint): MintRequest {
    MintRequest(m.dealer, m.registration)
  }

  // ----- the system -----

  /** What a run leaves on record: the requests and cars written to the ledger, and
      how far each transfer got. */
  datatype Event =
    | MintRequested(request: MintRequest)
    | CarMinted(car: CarRecord)
    | BuyerCoSigned(id: nat)
    | DmvValidated(id: nat)
    | TransferCommitted(id: nat, deal: Deal)

  datatype State = State(
    ledger: Ledger, clock: nat, transfers: map<nat, Transfer>, mints: map<nat, Mint>, history: seq<Event>)

  const INIT := State(map[], 0, map[], map[], [])

  datatype TransferAction =
    | SellerReads
    | SellerSends
    | BuyerReceives
    | BuyerChecks
    | BuyerSends
    | DmvReceives
    | DmvValidates
    | DmvCommits
    | DmvAcks
    | BuyerHearsDmv
    | BuyerAcks
    | SellerHearsBuyer
    | SellerGivesUp
    | BuyerGivesUp
    | DmvGivesUp

  datatype MintAction =
    | DealerReads
    | DealerCommits
    | DealerSends
    | MinterReceives
    | MinterLoads
    | MinterReads
    | MinterCommits
    | MinterSends
    | DealerReceives
    | DealerInspects
    | DealerGivesUp
    | MinterGivesUp

  datatype Step =
    | StartTransfer(id: nat, deal: Deal)
    | StartMint(id: nat, dealer: User, registration: string)
    | InTransfer(id: nat, transferAction: TransferAction)
    | InMint(id: nat, mintAction: MintAction)

  // ----- the ledger -----

  predicate ReadsCurrent(ledger: Ledger, gets: seq<DataRead>) {
    forall i | 0 <= i < |gets| ::
      match gets[i].version
      case None => gets[i].key !in ledger
      case Some(v) => gets[i].key in ledger && ledger[gets[i].key].version == v
  }

  predicate FullySigned(env: Envelope) {
    forall u | u in env.mustSign :: u in env.signed
  }

  /** `Get`, which looks the stored key up. */
  function Get(ledger: Ledger, keys: Keys): Lookups {
    (key: string) => if keys.stored(key) in ledger then ledger[keys.stored(key)].value else NotJson
  }

  /** Writes a record at the next version. */
  function Write(s: State, key: string, value: Value, acl: AccessControl): State {
    s.(ledger := s.ledger[key := Stored(value, s.clock, acl)], clock := s.clock + 1)
  }

  // ----- steps of a transfer -----

  predicate TransferEnabled(ledger: Ledger, t: Transfer, a: TransferAction) {
    match a
    case SellerReads => t.sellerPc.Selling?
    case SellerSends => t.sellerPc.Signed?
    case BuyerReceives => t.buyerPc.AwaitingEnvelope? && t.toBuyer != []
    case BuyerChecks => t.buyerPc.Checking?
    case BuyerSends => t.buyerPc.CoSigned?
    case DmvReceives => t.dmvPc.AwaitingTransfer? && t.toDmv != []
    case DmvValidates => t.dmvPc.Validating?
    case DmvCommits =>
      && t.dmvPc.Committing? && ReadsCurrent(ledger, t.dmvPc.env.dataReads) && FullySigned(t.dmvPc.env)
      && |t.dmvPc.env.dataWrites| == 1 && t.dmvPc.env.dataWrites[0].acl.Some?
    case DmvAcks => t.dmvPc.Committed?
    case BuyerHearsDmv => t.buyerPc.AwaitingDmv? && t.acksToBuyer > 0
    case BuyerAcks => t.buyerPc.AckingSeller?
    case SellerHearsBuyer => t.sellerPc.AwaitingBuyer? && t.acksToSeller > 0
    case SellerGivesUp => !t.sellerPc.Returned?
    case BuyerGivesUp => !t.buyerPc.BuyerDone?
    case DmvGivesUp => !t.dmvPc.Committed? && !t.dmvPc.AckedBuyer?
  }

  /** The transfer after the step. */
  function TransferNext(ledger: Ledger, t: Transfer, a: TransferAction, keys: Keys): Transfer
    requires TransferEnabled(ledger, t, a)
  {
    match a
    case SellerReads =>
      var key := StoredKey(keys, t.deal.registration);
      var car := if key in ledger then UnmarshalCar(ledger[key].value, EMPTY_CAR) else None;
      if car.None? then t.(sellerPc := SellerFailed)
      else t.(sellerPc := Signed(TransferEnvelope(keys, t.deal, car.value, ledger[key].version)))
    case SellerSends => t.(sellerPc := AwaitingBuyer, toBuyer := t.toBuyer + [t.sellerPc.env])
    case BuyerReceives => t.(buyerPc := Checking(t.toBuyer[0]), toBuyer := t.toBuyer[1..])
    case BuyerChecks =>
      var env := t.buyerPc.env;
      if BuyerAccepts(env, t.deal.buyer, DMV) then t.(buyerPc := CoSigned(env.(signed := env.signed + [t.deal.buyer])))
      else t.(buyerPc := BuyerFailed)
    case BuyerSends => t.(buyerPc := AwaitingDmv, toDmv := t.toDmv + [t.buyerPc.env])
    case DmvReceives => t.(dmvPc := Validating(t.toDmv[0]), toDmv := t.toDmv[1..])
    case DmvValidates =>
      var env := t.dmvPc.env;
      if DmvAccepts(env, Get(ledger, keys), DMV) && |env.dataReads| > 0 && keys.stored(env.dataReads[0].key) in ledger
      then t.(dmvPc := Committing(env, ledger[keys.stored(env.dataReads[0].key)]))
      else t.(dmvPc := DmvFailed)
    case DmvCommits => t.(dmvPc := Committed(t.dmvPc.env))
    case DmvAcks => t.(dmvPc := AckedBuyer(t.dmvPc.env), acksToBuyer := t.acksToBuyer + 1)
    case BuyerHearsDmv => t.(buyerPc := AckingSeller, acksToBuyer := t.acksToBuyer - 1)
    case BuyerAcks => t.(buyerPc := BuyerDone, acksToSeller := t.acksToSeller + 1)
    case SellerHearsBuyer => t.(sellerPc := Returned, acksToSeller := t.acksToSeller - 1)
    case SellerGivesUp => t.(sellerPc := SellerFailed)
    case BuyerGivesUp => t.(buyerPc := BuyerFailed)
    case DmvGivesUp => t.(dmvPc := DmvFailed)
  }

  /** What the step adds to the history, `t` being the transfer after it. */
  function TransferEvents(id: nat, t: Transfer, a: TransferAction): seq<Event> {
    match a
    case BuyerChecks => if t.buyerPc.CoSigned? then [BuyerCoSigned(id)] else []
    case DmvValidates => if t.dmvPc.Committing? then [DmvValidated(id)] else []
    case DmvCommits => [TransferCommitted(id, t.deal)]
    case _ => []
  }

  function AfterTransferStep(s: State, id: nat, a: TransferAction, keys: Keys): State
    requires id in s.transfers && TransferEnabled(s.ledger, s.transfers[id], a)
  {
    var t := s.transfers[id];
    var next := TransferNext(s.ledger, t, a, keys);
    var written := if !a.DmvCommits? then s
                   else var w := t.dmvPc.env.dataWrites[0]; Write(s, w.key, w.value, w.acl.value);
    written.(transfers := s.transfers[id := next], history := s.history + TransferEvents(id, next, a))
  }

  // ----- steps of a mint -----

  predicate MintEnabled(ledger: Ledger, m: Mint, a: MintAction, keys: Keys) {
    match a
    case DealerReads => m.dealerPc.Requesting?
    case DealerCommits =>
      m.dealerPc.Registering? && ReadsCurrent(ledger, [DataRead(keys.stored(MintKey(keys, Request(m))), None)])
    case DealerSends => m.dealerPc.Registered?
    case MinterReceives => m.minterPc.AwaitingRequest? && m.toMinter != []
    case MinterLoads => m.minterPc.Loading?
    case MinterReads => m.minterPc.Loaded?
    case MinterCommits =>
      && m.minterPc.Minting?
      && ReadsCurrent(ledger, [DataRead(keys.stored(m.minterPc.key), Some(m.minterPc.version)),
                               DataRead(StoredKey(keys, m.minterPc.request.registration), None)])
    case MinterSends => m.minterPc.Minted?
    case DealerReceives => m.dealerPc.AwaitingCar? && m.toDealer != []
    case DealerInspects => m.dealerPc.Inspecting?
    case DealerGivesUp => !m.dealerPc.DealerReturned?
    case MinterGivesUp => !m.minterPc.Minted?
  }

  /** `validateMintRequest`: what follows the key's prefix is the id of the content. */
  predicate RequestMatchesKey(key: string, r: MintRequest, keys: Keys) {
    |key| >= |MINT_PREFIX| && key[|MINT_PREFIX|..] == RequestID(keys, r)
  }

  /** With a hash that tells them apart, the check lets only the content pass that the
      key was made for. */
  lemma KeyBindsContent(keys: Keys, r: MintRequest, q: MintRequest)
    requires Injective(keys.hash, Joined(r), Joined(q))
    ensures RequestMatchesKey(MintKey(keys, r), q, keys) <==> Joined(r) == Joined(q)
  {
    RequestKeyIff(keys, r, q);
    assert MintKey(keys, r)[|MINT_PREFIX|..] == RequestID(keys, r);
  }

  /** `json.Unmarshal` into an empty mint request. */
  function UnmarshalRequest(v: Value): Option<MintRequest> {
    match v
    case CarValue(car) => Some(MintRequest("", car.registration))
    case MintValue(request) => Some(request)
    case NotJson => None
  }

  /** The inspection that ends a mint: the car is there, with the registration asked
      for and the dealer as its owner. */
  predicate Inspected(ledger: Ledger, m: Mint, carKey: string, keys: Keys) {
    UnmarshalCar(Get(ledger, keys)(carKey), EMPTY_CAR) == Some(CarRecord(m.dealer, m.registration))
  }

  function MintNext(ledger: Ledger, m: Mint, a: MintAction, keys: Keys): Mint
    requires MintEnabled(ledger, m, a, keys)
  {
    match a
    case DealerReads =>
      m.(dealerPc := if keys.stored(MintKey(keys, Request(m))) in ledger then DealerFailed else Registering)
    case DealerCommits => m.(dealerPc := Registered)
    case DealerSends => m.(dealerPc := AwaitingCar, toMinter := m.toMinter + [MintKey(keys, Request(m))])
    case MinterReceives => m.(minterPc := Loading(m.toMinter[0]), toMinter := m.toMinter[1..])
    case MinterLoads =>
      var key := m.minterPc.key;
      var request := UnmarshalRequest(Get(ledger, keys)(key));
      if request.None? || !RequestMatchesKey(key, request.value, keys) then m.(minterPc := MinterFailed)
      else m.(minterPc := Loaded(key, request.value, ledger[keys.stored(key)].version))
    case MinterReads =>
      var Loaded(key, request, version) := m.minterPc;
      m.(minterPc := if StoredKey(keys, request.registration) in ledger then MinterFailed
                     else Minting(key, request, version))
    case MinterCommits => m.(minterPc := Minted(CarKey(m.minterPc.request.registration)))
    case MinterSends => m.(minterPc := MinterDone, toDealer := m.toDealer + [m.minterPc.carKey])
    case DealerReceives => m.(dealerPc := Inspecting(m.toDealer[0]), toDealer := m.toDealer[1..])
    case DealerInspects =>
      m.(dealerPc := if Inspected(ledger, m, m.dealerPc.carKey, keys) then DealerReturned else DealerFailed)
    case DealerGivesUp => m.(dealerPc := DealerFailed)
    case MinterGivesUp => m.(minterPc := MinterFailed)
  }

  function MintEvents(m: Mint, a: MintAction): seq<Event> {
    if a.DealerCommits? then [MintRequested(Request(m))]
    else if a.MinterCommits? && m.minterPc.Minting? then [CarMinted(NewCar(m.minterPc.request))]
    else []
  }

  function NewCar(r: MintRequest): CarRecord {
    CarRecord(r.dealer, r.registration)
  }

  function AfterMintStep(s: State, id: nat, a: MintAction, keys: Keys): State
    requires id in s.mints && MintEnabled(s.ledger, s.mints[id], a, keys)
  {
    var m := s.mints[id];
    var written :=
      if a.DealerCommits? then
        Write(s, keys.stored(MintKey(keys, Request(m))), MintValue(Request(m)),
              RequestAcl(m.dealer))
      else if a.MinterCommits? then
        var r := m.minterPc.request;
        Write(s, StoredKey(keys, r.registration), CarValue(NewCar(r)),
              MintAcl(r.dealer))
      else s;
    written.(mints := s.mints[id := MintNext(s.ledger, m, a, keys)], history := s.history + MintEvents(m, a))
  }

  // ----- runs -----

  predicate Enabled(s: State, step: Step, keys: Keys) {
    match step
    case StartTransfer(id, _) => id !in s.transfers
    case StartMint(id, _, _) => id !in s.mints
    case InTransfer(id, a) => id in s.transfers && TransferEnabled(s.ledger, s.transfers[id], a)
    case InMint(id, a) => id in s.mints && MintEnabled(s.ledger, s.mints[id], a, keys)
  }

  function Next(s: State, step: Step, keys: Keys): State
    requires Enabled(s, step, keys)
  {
    match step
    case StartTransfer(id, deal) => s.(transfers := s.transfers[id := NewTransfer(deal)])
    case StartMint(id, dealer, registration) =>
      s.(mints := s.mints[id := NewMint(dealer, registration)])
    case InTransfer(id, a) => AfterTransferStep(s, id, a, keys)
    case InMint(id, a) => AfterMintStep(s, id, a, keys)
  }

  /** The state after a run, or `None` if one of its steps cannot be taken. */
  function Run(steps: seq<Step>, keys: Keys): Option<State> {
    if steps == [] then Some(INIT)
    else
      match Run(steps[..|steps| - 1], keys)
      case None => None
      case Some(s) =>
        var step := steps[|steps| - 1];
        if Enabled(s, step, keys) then Some(Next(s, step, keys)) else None
  }
}
