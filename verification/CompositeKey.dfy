/** `pkg/utils/compose/compose.go`: composite keys, built in a string builder from
    an object type and attributes separated by U+0000. */
module CompositeKey {
  import opened Options
  import opened Utf8

  datatype Result<+T> = Ok(value: T) | Err(error: Error)

  datatype Error = NotUtf8 | ForbiddenRune(rune: Rune, position: nat)

  predicate Forbidden(c: Rune) {
    c == 0 || c == MAX_RUNE
  }

  /** What an object type or attribute must be: UTF-8 without U+0000 and U+10FFFF. */
  predicate Attribute(s: Bytes) {
    Valid(s) && forall i | 0 <= i < |Runes(s)| :: !Forbidden(Runes(s)[i])
  }

  predicate Attributes(ss: seq<Bytes>) {
    forall i | 0 <= i < |ss| :: Attribute(ss[i])
  }

  // ----- keys -----

  /** Every attribute followed by the separator. */
  function Joined(atts: seq<Bytes>): Bytes {
    if atts == [] then [] else atts[0] + [0] + Joined(atts[1..])
  }

  function Key(objectType: Bytes, atts: seq<Bytes>): Bytes {
    [0] + Joined([objectType] + atts)
  }

  /** `s` up to the first separator, and what follows it. */
  function Cut(s: Bytes): Option<(Bytes, Bytes)> {
    if s == [] then None
    else if s[0] == 0 then Some(([], s[1..]))
    else
      match Cut(s[1..])
      case None => None
      case Some((before, after)) => Some(([s[0]] + before, after))
  }

  lemma CutShrinks(s: Bytes)
    ensures Cut(s).Some? ==> |Cut(s).value.1| < |s|
  {
  }

  /** The pieces between separators; the last byte must be one. */
  function Pieces(s: Bytes): Option<seq<Bytes>>
    decreases |s|
  {
    if s == [] then Some([])
    else
      CutShrinks(s);
      match Cut(s)
      case None => None
      case Some((before, after)) =>
        match Pieces(after)
        case None => None
        case Some(rest) => Some([before] + rest)
  }

  /** The object type and the attributes that a key was made of. */
  function Decode(key: Bytes): Option<(Bytes, seq<Bytes>)> {
    if key == [] || key[0] != 0 then None
    else
      match Pieces(key[1..])
      case None => None
      case Some(pieces) => if pieces == [] then None else Some((pieces[0], pieces[1..]))
  }

  // ----- keys decode uniquely -----

  lemma NoSeparator(s: Bytes)
    requires Attribute(s)
    ensures 0 !in s
  {
    NulByteIsNulRune(s);
  }

  lemma {:induction false} CutJoined(a: Bytes, rest: Bytes)
    requires 0 !in a
    ensures Cut(a + [0] + rest) == Some((a, rest))
  {
    var s := a + [0] + rest;
    if a == [] {
      assert s[1..] == rest;
    } else {
      assert s[1..] == a[1..] + [0] + rest;
      CutJoined(a[1..], rest);
      assert [a[0]] + a[1..] == a;
    }
  }

  lemma {:induction false} PiecesOfJoined(atts: seq<Bytes>)
    requires Attributes(atts)
    ensures Pieces(Joined(atts)) == Some(atts)
  {
    if atts != [] {
      NoSeparator(atts[0]);
      CutJoined(atts[0], Joined(atts[1..]));
      PiecesOfJoined(atts[1..]);
      assert [atts[0]] + atts[1..] == atts;
    }
  }

  /** Decoding a composite key gives back what it was made of, so no two lists of
      parts share a key. */
  lemma DecodeKey(objectType: Bytes, atts: seq<Bytes>)
    requires Attribute(objectType) && Attributes(atts)
    ensures Decode(Key(objectType, atts)) == Some((objectType, atts))
  {
    var parts := [objectType] + atts;
    assert Key(objectType, atts)[1..] == Joined(parts);
    PiecesOfJoined(parts);
    assert parts[1..] == atts;
  }

  lemma {:induction false} JoinedConcat(a: seq<Bytes>, b: seq<Bytes>)
    ensures Joined(a + b) == Joined(a) + Joined(b)
  {
    if a == [] {
      assert a + b == b;
    } else {
      assert (a + b)[1..] == a[1..] + b;
      JoinedConcat(a[1..], b);
    }
  }

  /** Appending attributes to a key makes the key of the longer list. */
  lemma KeyConcat(objectType: Bytes, a: seq<Bytes>, b: seq<Bytes>)
    ensures Key(objectType, a + b) == Key(objectType, a) + Joined(b)
  {
    JoinedConcat([objectType] + a, b);
    assert [objectType] + a + b == [objectType] + (a + b);
  }

  lemma JoinedThen(atts: seq<Bytes>, i: nat)
    requires i < |atts|
    ensures Joined(atts[..i + 1]) == Joined(atts[..i]) + atts[i] + [0]
  {
    assert atts[..i] + [atts[i]] == atts[..i + 1];
    JoinedConcat(atts[..i], [atts[i]]);
    assert Joined([atts[i]]) == atts[i] + [0];
  }

  lemma Appended(start: Bytes, written: Bytes, att: Bytes)
    ensures start + written + att + [0] == start + (written + att + [0])
  {
  }

  lemma KeyThen(objectType: Bytes, atts: seq<Bytes>, i: nat)
    requires i < |atts|
    ensures Key(objectType, atts[..i + 1]) == Key(objectType, atts[..i]) + atts[i] + [0]
  {
    assert atts[..i] + [atts[i]] == atts[..i + 1];
    KeyConcat(objectType, atts[..i], [atts[i]]);
    assert Joined([atts[i]]) == atts[i] + [0];
  }

  // ----- ranges of keys -----

  /** The keys between which `CreateRangeKeysForPartialCompositeKey` looks. */
  function RangeEnd(key: Bytes): Bytes {
    key + Encode(MAX_RUNE)
  }

  /** `a` is a list of parts that starts with the parts `b`. */
  predicate StartsWith(a: seq<Bytes>, b: seq<Bytes>) {
    b <= a
  }

  lemma AttributeBelowMax(a: Bytes, rest: Bytes)
    requires Attribute(a) && a != []
    ensures Less(a + rest, Encode(MAX_RUNE))
  {
    var c, w := FirstRune(a), Width(a);
    assert Runes(a)[0] == c;
    EncodeDecode(a);
    EncodeOrder(c, MAX_RUNE, a[w..] + rest, []);
    assert Encode(c) + (a[w..] + rest) == a + rest;
    assert Encode(MAX_RUNE) + [] == Encode(MAX_RUNE);
  }

  lemma JoinedBelowMax(atts: seq<Bytes>)
    requires Attributes(atts)
    ensures Less(Joined(atts), Encode(MAX_RUNE))
  {
    if atts != [] {
      var a, rest := atts[0], [0] + Joined(atts[1..]);
      assert Joined(atts) == a + rest;
      if a != [] {
        AttributeBelowMax(a, rest);
      }
    }
  }

  lemma {:induction false} BetweenIsPrefix(p: Bytes, k: Bytes, top: Bytes)
    requires AtMost(p, k) && Less(k, p + top)
    ensures p <= k
  {
    if p != [] {
      assert (p + top)[1..] == p[1..] + top;
      BetweenIsPrefix(p[1..], k[1..], top);
      assert k == [k[0]] + k[1..] && p == [p[0]] + p[1..];
    }
  }

  lemma {:induction false} PrefixOfJoined(a: seq<Bytes>, b: seq<Bytes>)
    requires Attributes(a) && Attributes(b) && Joined(a) <= Joined(b)
    ensures a <= b
  {
    if a != [] {
      assert b != [];
      NoSeparator(a[0]);
      NoSeparator(b[0]);
      var n := |Joined(a)|;
      var tail := Joined(b)[n..];
      assert Joined(b) == a[0] + [0] + (Joined(a[1..]) + tail);
      CutJoined(a[0], Joined(a[1..]) + tail);
      CutJoined(b[0], Joined(b[1..]));
      assert Joined(b[1..]) == Joined(a[1..]) + tail;
      PrefixOfJoined(a[1..], b[1..]);
    }
  }

  /** Among composite keys, the range from a key up to, but not including, the key
      followed by U+10FFFF holds exactly the keys that extend it. */
  lemma RangeIsExtensions(objectType: Bytes, atts: seq<Bytes>, otherType: Bytes, otherAtts: seq<Bytes>)
    requires Attribute(objectType) && Attributes(atts)
    requires Attribute(otherType) && Attributes(otherAtts)
    ensures var p, k := Key(objectType, atts), Key(otherType, otherAtts);
            AtMost(p, k) && Less(k, RangeEnd(p)) <==> otherType == objectType && StartsWith(otherAtts, atts)
  {
    var p, k := Key(objectType, atts), Key(otherType, otherAtts);
    if otherType == objectType && StartsWith(otherAtts, atts) {
      var rest := otherAtts[|atts|..];
      assert atts + rest == otherAtts;
      KeyConcat(objectType, atts, rest);
      JoinedBelowMax(rest);
      LessPrefix(p, Joined(rest), Encode(MAX_RUNE));
      LessPrefix(p, [], Joined(rest));
      assert p + [] == p;
    }
    if AtMost(p, k) && Less(k, RangeEnd(p)) {
      BetweenIsPrefix(p, k, Encode(MAX_RUNE));
      var a, b := [objectType] + atts, [otherType] + otherAtts;
      assert Joined(a) == p[1..] <= k[1..] == Joined(b);
      PrefixOfJoined(a, b);
      assert a[0] == b[0] && a[1..] == atts && b[1..] == otherAtts;
    }
  }

  // ----- the operations -----

  /** `validateCompositeKeyAttribute`. */
  method ValidateAttribute(str: Bytes) returns (r: Result<()>)
    ensures r.Ok? <==> Attribute(str)
    ensures r == Err(NotUtf8) <==> !Valid(str)
    ensures r.Err? && r.error.ForbiddenRune? ==>
              && Valid(str) && Forbidden(r.error.rune)
              && r.error.position < |str|
              && Attribute(str[..r.error.position])
              && Encode(r.error.rune) <= str[r.error.position..]
  {
    if !Valid(str) {
      return Err(NotUtf8);
    }
    var index := 0;
    assert str[0..] == str;
    while index < |str|
      invariant index <= |str| && Valid(str[index..])
      invariant Attribute(str[..index])
      invariant Attribute(str) <==> Attribute(str[index..])
    {
      var c, w := FirstRune(str[index..]), Width(str[index..]);
      ScanStep(str, index);
      if Forbidden(c) {
        return Err(ForbiddenRune(c, index));
      }
      index := index + w;
    }
    return Ok(());
  }

  /** One step of the scan at `index`, after an acceptable prefix. */
  lemma ScanStep(str: Bytes, index: nat)
    requires index < |str| && Valid(str[index..]) && Attribute(str[..index])
    ensures var rest := str[index..];
            var c, w := FirstRune(rest), Width(rest);
            && w > 0 && rest[w..] == str[index + w..]
            && Encode(c) <= rest
            && (Attribute(rest) <==> !Forbidden(c) && Attribute(rest[w..]))
            && (!Forbidden(c) ==> Attribute(str[..index + w]))
  {
    var rest := str[index..];
    var c, w := FirstRune(rest), Width(rest);
    EncodeDecode(rest);
    AttributeStep(rest);
    if !Forbidden(c) {
      AttributeGrows(str[..index], c);
      assert str[..index] + Encode(c) == str[..index + w];
    }
  }

  lemma AttributeStep(s: Bytes)
    requires Valid(s) && s != []
    ensures Attribute(s) <==> !Forbidden(FirstRune(s)) && Attribute(s[Width(s)..])
  {
    var rest := Runes(s[Width(s)..]);
    assert Runes(s) == [FirstRune(s)] + rest;
    if Attribute(s) {
      assert !Forbidden(Runes(s)[0]);
      forall i | 0 <= i < |rest| ensures !Forbidden(rest[i]) {
        assert rest[i] == Runes(s)[i + 1];
      }
    }
  }

  lemma {:induction false} AttributeGrows(s: Bytes, c: Rune)
    requires Attribute(s) && !Forbidden(c)
    ensures Attribute(s + Encode(c))
  {
    if s == [] {
      DecodeEncode(c, []);
      assert Encode(c) + [] == Encode(c) == s + Encode(c);
      AttributeStep(Encode(c));
    } else {
      var w := Width(s);
      AttributeStep(s);
      AttributeGrows(s[w..], c);
      FirstKept(s, Encode(c));
      AttributeStep(s + Encode(c));
    }
  }

  /** What follows the first character does not change it. */
  lemma FirstKept(s: Bytes, t: Bytes)
    requires Width(s) > 0
    ensures Width(s + t) == Width(s) && FirstRune(s + t) == FirstRune(s)
    ensures (s + t)[Width(s)..] == s[Width(s)..] + t
  {
    var w := Width(s);
    EncodeDecode(s);
    DecodeEncode(FirstRune(s), s[w..] + t);
    assert s + t == Encode(FirstRune(s)) + (s[w..] + t);
  }

  /** `strings.Builder`. */
  class Builder {
    var contents: Bytes

    constructor ()
      ensures contents == []
    {
      contents := [];
    }

    method WriteString(s: Bytes)
      modifies this
      ensures contents == old(contents) + s
    {
      contents := contents + s;
    }

    method WriteRune(c: Rune)
      modifies this
      ensures contents == old(contents) + Encode(c)
    {
      contents := contents + Encode(c);
    }
  }

  /** How many of the attributes precede the first one that is not allowed. */
  function Allowed(atts: seq<Bytes>): (n: nat)
    ensures n <= |atts|
    ensures n == |atts| <==> Attributes(atts)
  {
    if atts == [] then 0
    else if Attribute(atts[0]) then 1 + Allowed(atts[1..])
    else 0
  }

  lemma {:induction false} AllowedIs(atts: seq<Bytes>, n: nat)
    requires n < |atts| && Attributes(atts[..n]) && !Attribute(atts[n])
    ensures Allowed(atts) == n
  {
    if n > 0 {
      assert atts[..n][0] == atts[0];
      assert atts[1..][..n - 1] == atts[..n][1..];
      AllowedIs(atts[1..], n - 1);
    }
  }

  /** Appends the attributes; on a bad attribute the earlier ones stay written. */
  method AppendAttributes(sb: Builder, attributes: seq<Bytes>) returns (r: Result<Bytes>)
    modifies sb
    ensures r.Ok? <==> Attributes(attributes)
    ensures sb.contents == old(sb.contents) + Joined(attributes[..Allowed(attributes)])
    ensures r.Ok? ==> r.value == sb.contents == old(sb.contents) + Joined(attributes)
  {
    for i := 0 to |attributes|
      invariant Attributes(attributes[..i])
      invariant sb.contents == old(sb.contents) + Joined(attributes[..i])
    {
      var valid := ValidateAttribute(attributes[i]);
      if valid.Err? {
        AllowedIs(attributes, i);
        return Err(valid.error);
      }
      ghost var before := sb.contents;
      sb.WriteString(attributes[i]);
      sb.WriteRune(0);
      JoinedThen(attributes, i);
      Appended(old(sb.contents), Joined(attributes[..i]), attributes[i]);
      assert sb.contents == before + attributes[i] + [0];
    }
    assert attributes[..|attributes|] == attributes;
    return Ok(sb.contents);
  }

  /** `CreateCompositeKey`: the key follows whatever the builder holds. */
  method CreateCompositeKey(sb: Builder, objectType: Bytes, attributes: seq<Bytes>) returns (r: Result<Bytes>)
    modifies sb
    ensures r.Ok? <==> Attribute(objectType) && Attributes(attributes)
    ensures r.Ok? ==> r.value == sb.contents == old(sb.contents) + Key(objectType, attributes)
    ensures !Attribute(objectType) ==> sb.contents == old(sb.contents)
    ensures Attribute(objectType) ==>
              sb.contents == old(sb.contents) + Key(objectType, attributes[..Allowed(attributes)])
  {
    var valid := ValidateAttribute(objectType);
    if valid.Err? {
      return Err(valid.error);
    }
    sb.WriteString([0]);
    sb.WriteString(objectType);
    sb.WriteRune(0);
    assert sb.contents == old(sb.contents) + Key(objectType, []) by {
      assert [objectType] + [] == [objectType] && Joined([objectType]) == objectType + [0] + Joined([]);
    }
    for i := 0 to |attributes|
      invariant Attributes(attributes[..i])
      invariant sb.contents == old(sb.contents) + Key(objectType, attributes[..i])
    {
      valid := ValidateAttribute(attributes[i]);
      if valid.Err? {
        AllowedIs(attributes, i);
        return Err(valid.error);
      }
      ghost var before := sb.contents;
      sb.WriteString(attributes[i]);
      sb.WriteRune(0);
      KeyThen(objectType, attributes, i);
      Appended(old(sb.contents), Key(objectType, attributes[..i]), attributes[i]);
      assert sb.contents == before + attributes[i] + [0];
    }
    assert attributes[..|attributes|] == attributes;
    return Ok(sb.contents);
  }

  /** Creating a key and appending to it on the same builder is creating the key of
      the concatenated list at once. */
  method CreateThenAppend(sb: Builder, objectType: Bytes, a: seq<Bytes>, b: seq<Bytes>) returns (r: Result<Bytes>)
    modifies sb
    ensures r.Ok? <==> Attribute(objectType) && Attributes(a + b)
    ensures r.Ok? ==> r.value == sb.contents == old(sb.contents) + Key(objectType, a + b)
  {
    assert Attributes(a + b) <==> Attributes(a) && Attributes(b) by {
      AttributesConcat(a, b);
    }
    var created := CreateCompositeKey(sb, objectType, a);
    if created.Err? {
      return created;
    }
    KeyConcat(objectType, a, b);
    r := AppendAttributes(sb, b);
  }

  lemma AttributesConcat(a: seq<Bytes>, b: seq<Bytes>)
    ensures Attributes(a + b) <==> Attributes(a) && Attributes(b)
  {
    if Attributes(a + b) {
      forall i | 0 <= i < |a| ensures Attribute(a[i]) {
        assert a[i] == (a + b)[i];
      }
      forall i | 0 <= i < |b| ensures Attribute(b[i]) {
        assert b[i] == (a + b)[|a| + i];
      }
    }
  }

  // ----- transaction topics -----

  const TX: Bytes := [0x74, 0x78]

  function TopicAttributes(network: Bytes, channel: Bytes, txID: Bytes): seq<Bytes> {
    if txID == [] then [network, channel] else [network, channel, txID]
  }

  /** `CreateTxTopic`; `None` stands for the panic on attributes that are not allowed. */
  method CreateTxTopic(network: Bytes, channel: Bytes, txID: Bytes) returns (sb: Builder, topic: Option<Bytes>)
    ensures fresh(sb)
    ensures topic.Some? <==> Attribute(network) && Attribute(channel) && Attribute(txID)
    ensures topic.Some? ==> topic.value == sb.contents == Key(TX, TopicAttributes(network, channel, txID))
  {
    sb := new Builder();
    var atts := TopicAttributes(network, channel, txID);
    TxIsAttribute();
    assert Attributes(atts) <==> Attribute(network) && Attribute(channel) && Attribute(txID) by {
      assert atts[0] == network && atts[1] == channel && (|atts| == 3 ==> atts[2] == txID);
      assert Attribute([]);
    }
    var r := CreateCompositeKey(sb, TX, atts);
    topic := if r.Ok? then Some(r.value) else None;
  }

  /** The topic, byte by byte: the network before the channel, and the transaction last
      if there is one. */
  lemma TopicBytes(network: Bytes, channel: Bytes, txID: Bytes)
    ensures Key(TX, TopicAttributes(network, channel, txID)) ==
            [0] + [0x74, 0x78] + [0] + network + [0] + channel + [0] + if txID == [] then [] else txID + [0]
  {
    KeyConcat(TX, [], TopicAttributes(network, channel, txID));
    assert [] + TopicAttributes(network, channel, txID) == TopicAttributes(network, channel, txID);
    assert Key(TX, []) == [0] + TX + [0] by {
      assert [TX] + [] == [TX] && Joined([TX]) == TX + [0] + Joined([]);
    }
    JoinedTwo(network, channel);
    if txID == [] {
      assert Joined([network, channel]) + [] == Joined([network, channel]);
    } else {
      JoinedConcat([network, channel], [txID]);
      assert [network, channel] + [txID] == [network, channel, txID];
      assert Joined([txID]) == txID + [0];
    }
  }

  lemma JoinedTwo(a: Bytes, b: Bytes)
    ensures Joined([a, b]) == a + [0] + b + [0]
  {
    assert [a, b][1..] == [b] && Joined([b]) == b + [0];
  }

  lemma TxIsAttribute()
    ensures Attribute(TX)
  {
    AttributeGrows([], 0x74);
    AttributeGrows([0x74], 0x78);
    assert [] + Encode(0x74) == [0x74] && [0x74] + Encode(0x78) == TX;
  }

  /** Topics of distinct (network, channel, transaction) triples are distinct. */
  lemma TopicsDiffer(n: Bytes, c: Bytes, t: Bytes, n': Bytes, c': Bytes, t': Bytes)
    requires Attribute(n) && Attribute(c) && Attribute(t)
    requires Attribute(n') && Attribute(c') && Attribute(t')
    requires Key(TX, TopicAttributes(n, c, t)) == Key(TX, TopicAttributes(n', c', t'))
    ensures n == n' && c == c' && t == t'
  {
    TxIsAttribute();
    DecodeKey(TX, TopicAttributes(n, c, t));
    DecodeKey(TX, TopicAttributes(n', c', t'));
    var a, b := TopicAttributes(n, c, t), TopicAttributes(n', c', t');
    assert a[0] == b[0] && a[1] == b[1];
  }
}
