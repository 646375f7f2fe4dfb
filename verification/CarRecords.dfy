/** `integration/orion/cars/states`: the records of the car registry, how they are
    keyed, and the transactions that carry them. */
module CarRecords {
  import opened Options
  import opened Base64Encoding
  import opened OrionKeys
  import opened Utf8

  type User = string

  const CAR_PREFIX := "car~"
  const MINT_PREFIX := "mint-request~"
  const DMV: User := "dmv"

  datatype CarRecord = CarRecord(owner: User, registration: string)

  datatype MintRequest = MintRequest(dealer: User, registration: string)

  /** What is stored under a key: the JSON of a record, or bytes that are not JSON. */
  datatype Value = CarValue(car: CarRecord) | MintValue(request: MintRequest) | NotJson

  function CarKey(registration: string): string {
    CAR_PREFIX + registration
  }

  /** SHA-256, of which nothing is assumed. */
  type Hash = string -> Bytes

  /** The hash in request ids, and the key under which the database stores what a view
      reads or writes under a key. */
  datatype Keys = Keys(hash: Hash, stored: string -> string)

  function Orion(hash: Hash): Keys {
    Keys(hash, Sanitize)
  }

  function StoredKey(keys: Keys, registration: string): string {
    keys.stored(CarKey(registration))
  }

  /** The request id is a hash of the dealer and the registration, joined by `_`. */
  function RequestID(keys: Keys, r: MintRequest): string {
    Base64(keys.hash(Joined(r)), true)
  }

  function MintKey(keys: Keys, r: MintRequest): string {
    MINT_PREFIX + RequestID(keys, r)
  }

  predicate HasCarPrefix(key: string) {
    CAR_PREFIX <= key
  }

  /** `json.Unmarshal` into a car record: a field that the value does not have keeps
      the content it had. */
  function UnmarshalCar(v: Value, before: CarRecord): Option<CarRecord> {
    match v
    case CarValue(car) => Some(car)
    case MintValue(request) => Some(CarRecord(before.owner, request.registration))
    case NotJson => None
  }

  const EMPTY_CAR := CarRecord("", "")

  lemma CarKeyInjective(a: string, b: string)
    requires CarKey(a) == CarKey(b)
    ensures a == b
  {
    assert a == CarKey(a)[|CAR_PREFIX|..] == CarKey(b)[|CAR_PREFIX|..] == b;
  }

  predicate Injective(hash: Hash, x: string, y: string) {
    hash(x) == hash(y) ==> x == y
  }

  /** What is hashed for a request. */
  function Joined(r: MintRequest): string {
    r.dealer + "_" + r.registration
  }

  /** With a hash that tells them apart, two requests share a key exactly if dealer and
      registration, joined, read the same. */
  lemma RequestKeyIff(keys: Keys, r: MintRequest, q: MintRequest)
    requires Injective(keys.hash, Joined(r), Joined(q))
    ensures MintKey(keys, r) == MintKey(keys, q) <==> Joined(r) == Joined(q)
  {
    if MintKey(keys, r) == MintKey(keys, q) {
      assert RequestID(keys, r) == MintKey(keys, r)[|MINT_PREFIX|..] == MintKey(keys, q)[|MINT_PREFIX|..] == RequestID(keys, q);
      Base64Injective(keys.hash(Joined(r)), keys.hash(Joined(q)), true);
    }
  }

  /** So dealers without a `_` in their names have different keys for different requests. */
  lemma RequestsOfDealers(keys: Keys, r: MintRequest, q: MintRequest)
    requires Injective(keys.hash, Joined(r), Joined(q)) && '_' !in r.dealer && '_' !in q.dealer
    ensures MintKey(keys, r) == MintKey(keys, q) <==> r == q
  {
    RequestKeyIff(keys, r, q);
    if Joined(r) == Joined(q) {
      NotShorter(r, q);
      NotShorter(q, r);
      var n := |r.dealer|;
      assert r.dealer == Joined(r)[..n] == Joined(q)[..n] == q.dealer;
      assert r.registration == Joined(r)[n + 1..] == Joined(q)[n + 1..] == q.registration;
    }
  }

  lemma NotShorter(r: MintRequest, q: MintRequest)
    requires Joined(r) == Joined(q) && '_' !in q.dealer
    ensures |r.dealer| >= |q.dealer|
  {
    assert forall k | 0 <= k < |q.dealer| :: Joined(q)[k] == q.dealer[k];
    assert Joined(r)[|r.dealer|] == '_';
  }

  /** Others may share one: dealer `a_b` with `c`, and dealer `a` with `b_c`. */
  lemma SharedRequestKey(keys: Keys)
    ensures MintKey(keys, MintRequest("a_b", "c")) == MintKey(keys, MintRequest("a", "b_c"))
  {
    assert Joined(MintRequest("a_b", "c")) == "a_b_c" == Joined(MintRequest("a", "b_c"));
  }

  lemma MintKeyIsNoCarKey(keys: Keys, r: MintRequest)
    ensures !HasCarPrefix(MintKey(keys, r))
  {
    assert MintKey(keys, r)[0] == 'm';
  }

  /** What the protocols need of the stored keys: cars stay apart from requests. */
  ghost predicate Sound(keys: Keys) {
    && (forall registration :: HasCarPrefix(StoredKey(keys, registration)))
    && (forall r :: keys.stored(MintKey(keys, r)) == MintKey(keys, r))
  }

  /** `sanitizeKey` provides it. */
  lemma OrionIsSound(hash: Hash)
    ensures Sound(Orion(hash))
  {
    forall registration ensures HasCarPrefix(StoredKey(Orion(hash), registration)) {
      StoredKeyIs(hash, registration);
    }
    forall r ensures Sanitize(MintKey(Orion(hash), r)) == MintKey(Orion(hash), r) {
      MintKeyStored(hash, r);
    }
  }

  /** A mint request is stored under its own key. */
  lemma MintKeyStored(hash: Hash, r: MintRequest)
    ensures Sanitize(MintKey(Orion(hash), r)) == MintKey(Orion(hash), r)
  {
    var digest := hash(Joined(r));
    UrlSafe(digest);
    EscapeConcat(MINT_PREFIX, Base64(digest, true));
    assert !NeedsEscape(MINT_PREFIX);
  }

  /** Of a car key, only the registration is changed. */
  lemma StoredKeyIs(hash: Hash, registration: string)
    ensures StoredKey(Orion(hash), registration) == CarKey(Sanitize(registration))
    ensures HasCarPrefix(StoredKey(Orion(hash), registration))
  {
    SanitizePrefixed("car", registration);
    assert CAR_PREFIX == "car" + "~";
  }

  lemma SharedKeyIff(hash: Hash, a: string, b: string)
    ensures StoredKey(Orion(hash), a) == StoredKey(Orion(hash), b) <==> Sanitize(a) == Sanitize(b)
  {
    StoredKeyIs(hash, a);
    StoredKeyIs(hash, b);
    if StoredKey(Orion(hash), a) == StoredKey(Orion(hash), b) {
      CarKeyInjective(Sanitize(a), Sanitize(b));
    }
  }

  /** Giving a stored key to `Get` finds the same record again. */
  predicate Stable(keys: Keys, registration: string) {
    keys.stored(StoredKey(keys, registration)) == StoredKey(keys, registration)
  }

  /** It does exactly when sanitising the registration again changes nothing. */
  lemma StableKeyIff(hash: Hash, registration: string)
    ensures Stable(Orion(hash), registration) <==> Sanitize(Sanitize(registration)) == Sanitize(registration)
  {
    StoredKeyIs(hash, registration);
    SharedKeyIff(hash, registration, Sanitize(registration));
  }

  // ----- transactions -----

  datatype AccessControl = AccessControl(readUsers: map<User, bool>, readWriteUsers: map<User, bool>, signAll: bool)

  /** A key that was read, with its version; `None` if the key was absent. */
  datatype DataRead = DataRead(key: string, version: Option<nat>)

  datatype DataWrite = DataWrite(key: string, value: Value, acl: Option<AccessControl>)

  datatype Envelope = Envelope(dataReads: seq<DataRead>, dataWrites: seq<DataWrite>, mustSign: seq<User>, signed: seq<User>)

  predicate Grants(users: map<User, bool>, u: User) {
    u in users && users[u]
  }

  /** The new owner and the DMV, and nobody else, may write, and all must sign. */
  predicate OwnedWithDmv(acl: AccessControl, owner: User, dmv: User) {
    && Grants(acl.readWriteUsers, owner) && Grants(acl.readWriteUsers, dmv)
    && |acl.readWriteUsers| == 2 && |acl.readUsers| == 0
    && acl.signAll
  }

  lemma TwoWriters(acl: AccessControl, owner: User, dmv: User)
    requires OwnedWithDmv(acl, owner, dmv) && owner != dmv
    ensures acl.readWriteUsers.Keys == {owner, dmv}
  {
    var rest := acl.readWriteUsers.Keys - {owner, dmv};
    assert acl.readWriteUsers.Keys == rest + {owner, dmv};
    assert |acl.readWriteUsers.Keys| == |rest| + |{owner, dmv}|;
  }

  /** The access control is this one and no other, unless the owner is the DMV. */
  predicate OnlyWriters(acl: AccessControl, owner: User, dmv: User) {
    if owner != dmv then acl == AccessControl(map[], map[owner := true, dmv := true], true)
    else OwnedWithDmv(acl, owner, dmv)
  }

  lemma OnlyWritersIff(acl: AccessControl, owner: User, dmv: User)
    ensures OwnedWithDmv(acl, owner, dmv) <==> OnlyWriters(acl, owner, dmv)
  {
    if owner != dmv {
      var both := map[owner := true, dmv := true];
      assert both.Keys == {owner, dmv} && |both| == |both.Keys|;
      if OwnedWithDmv(acl, owner, dmv) {
        TwoWriters(acl, owner, dmv);
        assert acl.readWriteUsers == both;
      }
    }
  }
}
