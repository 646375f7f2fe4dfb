/** The checks of `integration/orion/cars/views/transfer.go`: what the buyer and the
    DMV look for in a transfer that somebody else assembled. */
module CarValidation {
  import opened Options
  import opened CarRecords

  /** `Panicked` stands for a nil access control being used. */
  datatype Verdict = Accepted | Rejected | Panicked

  // ----- decoding several values into one record -----

  predicate Decodable(values: seq<Value>) {
    forall i | 0 <= i < |values| :: !values[i].NotJson?
  }

  /** The owner in the last car record, if there is one. */
  function LastOwner(values: seq<Value>): User {
    if values == [] then EMPTY_CAR.owner
    else if values[|values| - 1].CarValue? then values[|values| - 1].car.owner
    else LastOwner(values[..|values| - 1])
  }

  /** The registration in the last value: every kind of record has one. */
  function LastRegistration(values: seq<Value>): string {
    if values == [] then EMPTY_CAR.registration
    else
      match values[|values| - 1]
      case CarValue(car) => car.registration
      case MintValue(request) => request.registration
      case NotJson => ""
  }

  function LastRecord(values: seq<Value>): CarRecord {
    CarRecord(LastOwner(values), LastRegistration(values))
  }

  /** The owner is that of the car record after which there is no other. */
  lemma {:induction false} LastOwnerIs(values: seq<Value>, i: nat)
    requires i < |values| && values[i].CarValue? && forall j | i < j < |values| :: !values[j].CarValue?
    ensures LastOwner(values) == values[i].car.owner
  {
    if i < |values| - 1 {
      LastOwnerIs(values[..|values| - 1], i);
    }
  }

  /** Without any car record it stays empty. */
  lemma {:induction false} NoOwner(values: seq<Value>)
    requires forall i | 0 <= i < |values| :: !values[i].CarValue?
    ensures LastOwner(values) == EMPTY_CAR.owner
  {
    if values != [] {
      NoOwner(values[..|values| - 1]);
    }
  }

  /** The last car record among the values names this owner, or there is none and the
      name is empty. */
  ghost predicate NamesOwner(values: seq<Value>, owner: User) {
    || (exists i :: 0 <= i < |values| && LastCar(values, i) && values[i].car.owner == owner)
    || ((forall i | 0 <= i < |values| :: !values[i].CarValue?) && owner == "")
  }

  predicate LastCar(values: seq<Value>, i: nat)
    requires i < |values|
  {
    values[i].CarValue? && forall j | i < j < |values| :: !values[j].CarValue?
  }

  lemma {:induction false} SomeLastCar(values: seq<Value>, k: nat) returns (i: nat)
    requires k < |values| && values[k].CarValue?
    ensures i < |values| && LastCar(values, i)
    decreases |values| - k
  {
    if j :| k < j < |values| && values[j].CarValue? {
      i := SomeLastCar(values, j);
    } else {
      i := k;
    }
  }

  lemma NamesOwnerIff(values: seq<Value>, owner: User)
    ensures LastOwner(values) == owner <==> NamesOwner(values, owner)
  {
    if k :| 0 <= k < |values| && values[k].CarValue? {
      var i := SomeLastCar(values, k);
      LastOwnerIs(values, i);
      forall n | 0 <= n < |values| && LastCar(values, n) ensures n == i {
      }
    } else {
      NoOwner(values);
    }
  }

  /** Decoding one more value into the record that the others left. */
  lemma DecodeOneMore(values: seq<Value>, v: Value)
    ensures Decodable(values + [v]) <==> Decodable(values) && !v.NotJson?
    ensures !v.NotJson? ==> UnmarshalCar(v, LastRecord(values)) == Some(LastRecord(values + [v]))
  {
    var more := values + [v];
    assert more[..|more| - 1] == values && more[|more| - 1] == v;
    if Decodable(more) {
      forall i | 0 <= i < |values| ensures !values[i].NotJson? {
        assert more[i] == values[i];
      }
    }
  }

  // ----- the loops -----

  predicate CarKeys(keys: seq<string>) {
    forall i | 0 <= i < |keys| :: HasCarPrefix(keys[i])
  }

  function WriteKeys(writes: seq<DataWrite>): (r: seq<string>)
    ensures |r| == |writes| && forall i | 0 <= i < |r| :: r[i] == writes[i].key
  {
    seq(|writes|, i requires 0 <= i < |writes| => writes[i].key)
  }

  function WrittenValues(writes: seq<DataWrite>): (r: seq<Value>)
    ensures |r| == |writes| && forall i | 0 <= i < |r| :: r[i] == writes[i].value
  {
    seq(|writes|, i requires 0 <= i < |writes| => writes[i].value)
  }

  /** The access control of the last write; nil if that write has none. */
  function LastAcl(writes: seq<DataWrite>): Option<AccessControl> {
    if writes == [] then None else writes[|writes| - 1].acl
  }

  /** The loop over the writes.  It fails exactly if some key is no car key or some
      value is not JSON.  Otherwise it leaves the owner of the last car record, the
      registration of the last write, and the access control of the last write. */
  method VisitWrites(writes: seq<DataWrite>) returns (ok: bool, car: CarRecord, acl: Option<AccessControl>)
    ensures ok <==> CarKeys(WriteKeys(writes)) && Decodable(WrittenValues(writes))
    ensures ok ==> car == LastRecord(WrittenValues(writes)) && acl == LastAcl(writes)
  {
    car, acl := EMPTY_CAR, None;
    for i := 0 to |writes|
      invariant CarKeys(WriteKeys(writes[..i])) && Decodable(WrittenValues(writes[..i]))
      invariant car == LastRecord(WrittenValues(writes[..i])) && acl == LastAcl(writes[..i])
    {
      var w := writes[i];
      var next := UnmarshalCar(w.value, car);
      if !HasCarPrefix(w.key) || next.None? {
        assert WriteKeys(writes)[i] == w.key && WrittenValues(writes)[i] == w.value;
        return false, car, acl;
      }
      DecodeOneMore(WrittenValues(writes[..i]), w.value);
      assert WrittenValues(writes[..i + 1]) == WrittenValues(writes[..i]) + [w.value];
      car, acl := next.value, w.acl;
    }
    assert writes[..|writes|] == writes;
    ok := true;
  }

  /** What `Get` returns for a key when the DMV reads; a missing key yields no bytes,
      which are not JSON. */
  type Lookups = string -> Value

  function ReadKeys(dataReads: seq<DataRead>): (r: seq<string>)
    ensures |r| == |dataReads| && forall i | 0 <= i < |r| :: r[i] == dataReads[i].key
  {
    seq(|dataReads|, i requires 0 <= i < |dataReads| => dataReads[i].key)
  }

  function ReadValues(dataReads: seq<DataRead>, get: Lookups): (r: seq<Value>)
    ensures |r| == |dataReads| && forall i | 0 <= i < |r| :: r[i] == get(dataReads[i].key)
  {
    seq(|dataReads|, i requires 0 <= i < |dataReads| => get(dataReads[i].key))
  }

  /** The loop over the reads.  It fails exactly if some key is no car key or holds no
      record; otherwise it leaves the owner of the last car record and the
      registration of the last record. */
  method VisitReads(dataReads: seq<DataRead>, get: Lookups) returns (ok: bool, car: CarRecord)
    ensures ok <==> CarKeys(ReadKeys(dataReads)) && Decodable(ReadValues(dataReads, get))
    ensures ok ==> car == LastRecord(ReadValues(dataReads, get))
  {
    car := EMPTY_CAR;
    ghost var keys, values := ReadKeys(dataReads), ReadValues(dataReads, get);
    for i := 0 to |dataReads|
      invariant forall k | 0 <= k < i :: HasCarPrefix(keys[k])
      invariant Decodable(values[..i]) && car == LastRecord(values[..i])
    {
      var v := get(dataReads[i].key);
      var next := UnmarshalCar(v, car);
      assert values[i] == v && keys[i] == dataReads[i].key;
      if !HasCarPrefix(dataReads[i].key) || next.None? {
        return false, car;
      }
      DecodeOneMore(values[..i], v);
      assert values[..i + 1] == values[..i] + [v];
      car := next.value;
    }
    assert values[..|values|] == values;
    ok := true;
  }

  /** The loops that look two users up in a list. */
  method Lookup(users: seq<User>, a: User, b: User) returns (hasA: bool, hasB: bool)
    ensures hasA <==> a in users
    ensures hasB <==> b in users
  {
    hasA, hasB := false, false;
    for i := 0 to |users|
      invariant hasA <==> a in users[..i]
      invariant hasB <==> b in users[..i]
    {
      if users[i] == a {
        hasA := true;
      }
      if users[i] == b {
        hasB := true;
      }
      assert users[..i + 1] == users[..i] + [users[i]];
    }
    assert users[..|users|] == users;
  }

  // ----- the buyer -----

  predicate GoodWrites(tx: Envelope) {
    CarKeys(WriteKeys(tx.dataWrites)) && Decodable(WrittenValues(tx.dataWrites))
  }

  /** The record that the transaction leaves, as the checks see it. */
  function NewRecord(tx: Envelope): CarRecord {
    LastRecord(WrittenValues(tx.dataWrites))
  }

  /** When the buyer co-signs: the record written last makes the buyer the owner, only
      the buyer and the DMV may write it, exactly one user has signed, and that user
      and the buyer must sign. */
  predicate BuyerAccepts(tx: Envelope, buyer: User, dmv: User) {
    && GoodWrites(tx)
    && NewRecord(tx).owner == buyer
    && LastAcl(tx.dataWrites).Some? && OwnedWithDmv(LastAcl(tx.dataWrites).value, buyer, dmv)
    && |tx.signed| == 1
    && buyer in tx.mustSign && tx.signed[0] in tx.mustSign
  }

  /** When the buyer's check crashes: it gets to the access control, and there is none. */
  predicate BuyerPanics(tx: Envelope, buyer: User) {
    GoodWrites(tx) && NewRecord(tx).owner == buyer && LastAcl(tx.dataWrites).None?
  }

  /** `buyerValidateTransaction`. */
  method BuyerValidate(tx: Envelope, buyer: User, dmv: User) returns (v: Verdict)
    ensures v.Accepted? <==> BuyerAccepts(tx, buyer, dmv)
    ensures v.Panicked? <==> BuyerPanics(tx, buyer)
  {
    var ok, car, lastAcl := VisitWrites(tx.dataWrites);
    if !ok || car.owner != buyer {
      return Rejected;
    }
    if lastAcl.None? {
      return Panicked;
    }
    var acl := lastAcl.value;
    if !Grants(acl.readWriteUsers, car.owner) || !Grants(acl.readWriteUsers, dmv) ||
       |acl.readWriteUsers| != 2 || |acl.readUsers| != 0 || !acl.signAll {
      return Rejected;
    }
    if |tx.signed| != 1 {
      return Rejected;
    }
    var seller := tx.signed[0];
    var hasBuyer, hasSeller := Lookup(tx.mustSign, buyer, seller);
    if !hasBuyer || !hasSeller {
      return Rejected;
    }
    return Accepted;
  }

  // ----- the DMV -----

  /** The owner in the record read last and the new owner in the record written last
      must sign and have signed, and the registration is the same. */
  predicate Consented(tx: Envelope, before: CarRecord, after: CarRecord) {
    && before.owner in tx.mustSign && after.owner in tx.mustSign
    && before.owner in tx.signed && after.owner in tx.signed
    && after.registration == before.registration
  }

  predicate GoodReads(tx: Envelope, get: Lookups) {
    CarKeys(ReadKeys(tx.dataReads)) && Decodable(ReadValues(tx.dataReads, get))
  }

  /** The DMV gets to the access control. */
  predicate DmvReachesAcl(tx: Envelope, get: Lookups) {
    GoodReads(tx, get) && GoodWrites(tx) && Consented(tx, LastRecord(ReadValues(tx.dataReads, get)), NewRecord(tx))
  }

  /** When the DMV commits: moreover only the new owner and the DMV may write the record. */
  predicate DmvAccepts(tx: Envelope, get: Lookups, dmv: User) {
    && DmvReachesAcl(tx, get)
    && LastAcl(tx.dataWrites).Some? && OwnedWithDmv(LastAcl(tx.dataWrites).value, NewRecord(tx).owner, dmv)
  }

  /** When the DMV's check crashes. */
  predicate DmvPanics(tx: Envelope, get: Lookups) {
    DmvReachesAcl(tx, get) && LastAcl(tx.dataWrites).None?
  }

  /** `dmvValidateTransaction`, with what the ledger holds at the time. */
  method DmvValidate(tx: Envelope, get: Lookups, dmv: User) returns (v: Verdict)
    ensures v.Accepted? <==> DmvAccepts(tx, get, dmv)
    ensures v.Panicked? <==> DmvPanics(tx, get)
  {
    var readOk, before := VisitReads(tx.dataReads, get);
    if !readOk {
      return Rejected;
    }
    var ok, car, lastAcl := VisitWrites(tx.dataWrites);
    if !ok {
      return Rejected;
    }
    var hasSeller, hasBuyer := Lookup(tx.mustSign, before.owner, car.owner);
    if !hasBuyer || !hasSeller {
      return Rejected;
    }
    hasSeller, hasBuyer := Lookup(tx.signed, before.owner, car.owner);
    if !hasBuyer || !hasSeller {
      return Rejected;
    }
    if car.registration != before.registration {
      return Rejected;
    }
    if lastAcl.None? {
      return Panicked;
    }
    var acl := lastAcl.value;
    if !Grants(acl.readWriteUsers, car.owner) || !Grants(acl.readWriteUsers, dmv) ||
       |acl.readWriteUsers| != 2 || |acl.readUsers| != 0 || !acl.signAll {
      return Rejected;
    }
    return Accepted;
  }

  // ----- what acceptance means, for any envelope -----

  /** Every write is of a record under a car key. */
  predicate WritesCars(writes: seq<DataWrite>) {
    forall i | 0 <= i < |writes| :: CAR_PREFIX <= writes[i].key && !writes[i].value.NotJson?
  }

  lemma WritesCarsIff(tx: Envelope)
    ensures GoodWrites(tx) <==> WritesCars(tx.dataWrites)
  {
    var writes := tx.dataWrites;
    if GoodWrites(tx) {
      forall i | 0 <= i < |writes| ensures CAR_PREFIX <= writes[i].key && !writes[i].value.NotJson? {
        assert WriteKeys(writes)[i] == writes[i].key && WrittenValues(writes)[i] == writes[i].value;
      }
    }
  }

  /** The buyer co-signs exactly the envelopes whose last car record names the buyer,
      whose last write lets exactly the buyer and the DMV write, both of them signing,
      and which one user has signed who, like the buyer, must sign. */
  lemma BuyerAcceptsMeans(tx: Envelope, buyer: User, dmv: User)
    ensures BuyerAccepts(tx, buyer, dmv) <==>
            && tx.dataWrites != [] && WritesCars(tx.dataWrites)
            && NamesOwner(WrittenValues(tx.dataWrites), buyer)
            && tx.dataWrites[|tx.dataWrites| - 1].acl.Some?
            && OnlyWriters(tx.dataWrites[|tx.dataWrites| - 1].acl.value, buyer, dmv)
            && (exists seller :: tx.signed == [seller] && seller in tx.mustSign)
            && buyer in tx.mustSign
  {
    WritesCarsIff(tx);
    NamesOwnerIff(WrittenValues(tx.dataWrites), buyer);
    if LastAcl(tx.dataWrites).Some? {
      OnlyWritersIff(LastAcl(tx.dataWrites).value, buyer, dmv);
    }
    if |tx.signed| == 1 {
      assert tx.signed == [tx.signed[0]];
    }
  }

  /** So if the last write is of a car record, what the buyer co-signs makes the buyer
      the owner of that record. */
  lemma CoSignedGoesToBuyer(tx: Envelope, buyer: User, dmv: User)
    requires BuyerAccepts(tx, buyer, dmv) && tx.dataWrites[|tx.dataWrites| - 1].value.CarValue?
    ensures var last := tx.dataWrites[|tx.dataWrites| - 1];
            last.value.car.owner == buyer && last.acl.Some? && OnlyWriters(last.acl.value, buyer, dmv)
  {
    BuyerAcceptsMeans(tx, buyer, dmv);
    LastOwnerIs(WrittenValues(tx.dataWrites), |tx.dataWrites| - 1);
    NamesOwnerIff(WrittenValues(tx.dataWrites), buyer);
  }

  /** Every read is of a record under a car key. */
  predicate ReadsCars(dataReads: seq<DataRead>, get: Lookups) {
    forall i | 0 <= i < |dataReads| :: CAR_PREFIX <= dataReads[i].key && !get(dataReads[i].key).NotJson?
  }

  lemma ReadsCarsIff(tx: Envelope, get: Lookups)
    ensures GoodReads(tx, get) <==> ReadsCars(tx.dataReads, get)
  {
    var gets := tx.dataReads;
    if GoodReads(tx, get) {
      forall i | 0 <= i < |gets| ensures CAR_PREFIX <= gets[i].key && !get(gets[i].key).NotJson? {
        assert ReadKeys(gets)[i] == gets[i].key && ReadValues(gets, get)[i] == get(gets[i].key);
      }
    }
  }

  /** Both must sign and have signed. */
  predicate SignedByBoth(tx: Envelope, a: User, b: User) {
    a in tx.mustSign && b in tx.mustSign && a in tx.signed && b in tx.signed
  }

  /** The DMV accepts exactly the envelopes that hand a car on from the owner `a` in the
      last record read to the owner `b` in the last record written, both of whom must
      sign and have signed, under the same registration, and whose last write lets
      exactly `b` and the DMV write. */
  lemma DmvAcceptsMeans(tx: Envelope, get: Lookups, dmv: User)
    ensures DmvAccepts(tx, get, dmv) <==>
            && tx.dataWrites != [] && WritesCars(tx.dataWrites) && ReadsCars(tx.dataReads, get)
            && LastRegistration(ReadValues(tx.dataReads, get)) == LastRegistration(WrittenValues(tx.dataWrites))
            && tx.dataWrites[|tx.dataWrites| - 1].acl.Some?
            && exists a, b ::
                 && NamesOwner(ReadValues(tx.dataReads, get), a) && NamesOwner(WrittenValues(tx.dataWrites), b)
                 && SignedByBoth(tx, a, b)
                 && OnlyWriters(tx.dataWrites[|tx.dataWrites| - 1].acl.value, b, dmv)
  {
    var x, y := ReadValues(tx.dataReads, get), WrittenValues(tx.dataWrites);
    WritesCarsIff(tx);
    ReadsCarsIff(tx, get);
    forall u ensures (LastOwner(x) == u <==> NamesOwner(x, u)) && (LastOwner(y) == u <==> NamesOwner(y, u)) {
      NamesOwnerIff(x, u);
      NamesOwnerIff(y, u);
    }
    if LastAcl(tx.dataWrites).Some? {
      OnlyWritersIff(LastAcl(tx.dataWrites).value, LastOwner(y), dmv);
    }
    if DmvAccepts(tx, get, dmv) {
      assert NamesOwner(x, LastOwner(x)) && NamesOwner(y, LastOwner(y)) && SignedByBoth(tx, LastOwner(x), LastOwner(y));
    }
  }

  /** The access control, present or missing, of any write but the last makes no
      difference to the verdicts. */
  lemma EarlierAclIsIgnored(tx: Envelope, i: nat, acl: Option<AccessControl>, buyer: User, dmv: User, get: Lookups)
    requires i + 1 < |tx.dataWrites|
    ensures var other := tx.(dataWrites := tx.dataWrites[i := tx.dataWrites[i].(acl := acl)]);
            && (BuyerAccepts(other, buyer, dmv) <==> BuyerAccepts(tx, buyer, dmv))
            && (BuyerPanics(other, buyer) <==> BuyerPanics(tx, buyer))
            && (DmvAccepts(other, get, dmv) <==> DmvAccepts(tx, get, dmv))
            && (DmvPanics(other, get) <==> DmvPanics(tx, get))
  {
    SameWrites(tx.dataWrites, i, acl);
  }

  lemma SameWrites(writes: seq<DataWrite>, i: nat, acl: Option<AccessControl>)
    requires i + 1 < |writes|
    ensures var others := writes[i := writes[i].(acl := acl)];
            && WriteKeys(others) == WriteKeys(writes)
            && WrittenValues(others) == WrittenValues(writes)
            && LastAcl(others) == LastAcl(writes)
  {
  }
}
