/** `sanitizeKey` of `platform/orion/core/generic/session.go`: the key under which
    Orion stores what a view reads and writes.

    A key is cut at each `~`.  A component that `url.PathEscape` would change is
    replaced by the base64 of its bytes, as section 4 of RFC 4648 defines it. */
module OrionKeys {
  import opened Base64Encoding
  import opened Utf8

  /** The bytes of a Go string. */
  function BytesOf(s: string): Bytes {
    EncodeAll(seq(|s|, i requires 0 <= i < |s| => s[i] as int))
  }

  function Encoded(s: string): string {
    Base64(BytesOf(s), false)
  }

  // ----- what a URL path segment may hold -----

  /** The characters that `url.PathEscape` leaves as they are: the unreserved ones of
      section 2.3 of RFC 3986, and the reserved ones that have no meaning of their own
      within a segment. */
  predicate Plain(c: char) {
    'a' <= c <= 'z' || 'A' <= c <= 'Z' || '0' <= c <= '9' || c in "-_.~$&+:=@"
  }

  /** What becomes of the characters that are neither letters nor digits. */
  lemma SpecialCharacters(c: char)
    ensures c in "$&+-.:=@_~" ==> Plain(c)
    ensures c in " !'()*,/;?" ==> !Plain(c)
    ensures c in "#%<>[]^`{|}" ==> !Plain(c)
    ensures c == '"' || c == '\\' || c < ' ' || c > '~' ==> !Plain(c)
  {
  }

  predicate NeedsEscape(s: string) {
    exists i :: 0 <= i < |s| && !Plain(s[i])
  }

  const HEX := "0123456789ABCDEF"

  /** Section 2.1 of RFC 3986: each byte as `%` and two hexadecimal digits. */
  function Percent(b: Bytes): string {
    if b == [] then "" else ['%', HEX[b[0] / 16], HEX[b[0] % 16]] + Percent(b[1..])
  }

  function PathEscape(s: string): string {
    if s == "" then ""
    else (if Plain(s[0]) then [s[0]] else Percent(Encode(s[0] as int))) + PathEscape(s[1..])
  }

  lemma PercentLonger(b: Bytes)
    requires b != []
    ensures |Percent(b)| >= 3
  {
  }

  lemma {:induction false} PathEscapeLonger(s: string)
    ensures |PathEscape(s)| >= |s|
    ensures NeedsEscape(s) ==> |PathEscape(s)| > |s|
    ensures !NeedsEscape(s) ==> PathEscape(s) == s
  {
    if s != "" {
      EscapeStep(s);
      PathEscapeLonger(s[1..]);
      PercentLonger(Encode(s[0] as int));
      assert s == [s[0]] + s[1..];
    }
  }

  /** Escaping changes a component exactly when one of its characters needs it. */
  lemma EscapedIff(s: string)
    ensures PathEscape(s) != s <==> NeedsEscape(s)
  {
    PathEscapeLonger(s);
  }

  predicate AnyEscape(cs: seq<string>) {
    exists i :: 0 <= i < |cs| && NeedsEscape(cs[i])
  }

  // ----- components -----

  function Split(s: string): (r: seq<string>)
    ensures |r| >= 1
  {
    if s == "" then [""]
    else
      var rest := Split(s[1..]);
      if s[0] == '~' then [""] + rest else [[s[0]] + rest[0]] + rest[1..]
  }

  function Join(cs: seq<string>): string
    requires |cs| >= 1
  {
    if |cs| == 1 then cs[0] else cs[0] + "~" + Join(cs[1..])
  }

  function Safe(c: string): string {
    if NeedsEscape(c) then Encoded(c) else c
  }

  function SafeAll(cs: seq<string>): (r: seq<string>)
    ensures |r| == |cs|
  {
    if cs == [] then [] else [Safe(cs[0])] + SafeAll(cs[1..])
  }

  lemma {:induction false} SafeAllAt(cs: seq<string>, i: nat)
    requires i < |cs|
    ensures SafeAll(cs)[i] == Safe(cs[i])
  {
    if i > 0 {
      SafeAllAt(cs[1..], i - 1);
    }
  }

  predicate EndsOpen(key: string) {
    key != "" && key[|key| - 1] == '~'
  }

  /** The key as Orion stores it.  If anything was replaced, a `~` at the end is doubled. */
  function Sanitize(key: string): string {
    if !NeedsEscape(key) then key
    else Join(SafeAll(Split(key))) + if EndsOpen(key) then "~" else ""
  }

  // ----- the operation -----

  lemma {:induction false} JoinSplit(s: string)
    ensures Join(Split(s)) == s
  {
    if s != "" {
      JoinSplit(s[1..]);
      var rest := Split(s[1..]);
      if s[0] == '~' {
        assert Split(s)[1..] == rest;
      } else {
        assert |rest| > 1 ==> Split(s)[1..] == rest[1..];
      }
    }
  }

  lemma {:induction false} SplitEscape(s: string)
    ensures NeedsEscape(s) <==> AnyEscape(Split(s))
  {
    if s != "" {
      var rest, cs := Split(s[1..]), Split(s);
      SplitEscape(s[1..]);
      EscapeStep(s);
      AnyEscapeStep(cs);
      AnyEscapeStep(rest);
      if s[0] == '~' {
        assert cs[1..] == rest;
      } else {
        assert cs[1..] == rest[1..] && cs[0][1..] == rest[0];
        EscapeStep(cs[0]);
      }
    }
  }

  lemma EscapeStep(s: string)
    requires s != ""
    ensures NeedsEscape(s) <==> !Plain(s[0]) || NeedsEscape(s[1..])
  {
    if NeedsEscape(s) && Plain(s[0]) {
      var i :| 0 <= i < |s| && !Plain(s[i]);
      assert s[1..][i - 1] == s[i];
    }
  }

  lemma {:induction false} JoinThen(cs: seq<string>, c: string)
    requires |cs| >= 1
    ensures Join(cs + [c]) == Join(cs) + "~" + c
  {
    if |cs| == 1 {
      assert (cs + [c])[1..] == [c];
    } else {
      assert (cs + [c])[1..] == cs[1..] + [c];
      JoinThen(cs[1..], c);
    }
  }

  /** The loop that writes the components into a builder. */
  method WriteJoined(components: seq<string>) returns (b: string)
    requires |components| >= 1
    ensures b == Join(components)
  {
    b := "";
    for i := 0 to |components|
      invariant i == 0 ==> b == ""
      invariant 0 < i ==> b == Join(components[..i]) + if i < |components| then "~" else ""
    {
      if i > 0 {
        JoinThen(components[..i], components[i]);
        assert components[..i] + [components[i]] == components[..i + 1];
      }
      b := b + components[i];
      if i < |components| - 1 {
        b := b + "~";
      }
    }
    assert components[..|components|] == components;
  }

  /** The loop that replaces the components that need it. */
  method ReplaceComponents(original: seq<string>) returns (components: seq<string>, escaped: bool)
    ensures components == SafeAll(original)
    ensures escaped <==> AnyEscape(original)
  {
    components, escaped := original, false;
    for i := 0 to |original|
      invariant components == SafeAll(original[..i]) + original[i..]
      invariant escaped <==> AnyEscape(original[..i])
    {
      var c := original[i];
      var cc, changed := Replace(c);
      AnyEscapeThen(original[..i], c);
      SafeAllThen(original[..i], c);
      Replaced(SafeAll(original[..i]), original, i, cc);
      assert original[..i + 1] == original[..i] + [c];
      if changed {
        components, escaped := components[i := cc], true;
      }
    }
    assert original[..|original|] == original;
  }

  method Replace(c: string) returns (cc: string, changed: bool)
    ensures cc == Safe(c)
    ensures changed <==> NeedsEscape(c)
    ensures !changed ==> cc == c
  {
    EscapedIff(c);
    changed := c != PathEscape(c);
    cc := if changed then Encoded(c) else c;
  }

  lemma {:induction false} SafeAllThen(cs: seq<string>, c: string)
    ensures SafeAll(cs + [c]) == SafeAll(cs) + [Safe(c)]
  {
    if cs == [] {
      assert ([c])[1..] == [] && cs + [c] == [c];
    } else {
      assert (cs + [c])[1..] == cs[1..] + [c];
      SafeAllThen(cs[1..], c);
    }
  }

  lemma Replaced(done: seq<string>, original: seq<string>, i: nat, cc: string)
    requires i == |done| < |original|
    ensures (done + original[i..])[i := cc] == done + [cc] + original[i + 1..]
    ensures original[i] == cc ==> done + original[i..] == done + [cc] + original[i + 1..]
  {
  }

  lemma AnyEscapeThen(cs: seq<string>, c: string)
    ensures AnyEscape(cs + [c]) <==> AnyEscape(cs) || NeedsEscape(c)
  {
    if AnyEscape(cs) {
      var i :| 0 <= i < |cs| && NeedsEscape(cs[i]);
      assert (cs + [c])[i] == cs[i];
    }
    assert (cs + [c])[|cs|] == c;
  }

  method SanitizeKey(key: string) returns (r: string)
    ensures r == Sanitize(key)
  {
    var components, escaped := ReplaceComponents(Split(key));
    SplitEscape(key);
    if !escaped {
      return key;
    }
    var b := WriteJoined(components);
    r := b;
    if EndsOpen(key) {
      r := r + "~";
    }
    assert b + "" == b && NeedsEscape(key);
  }

  // ----- a key with a harmless first component -----

  lemma EscapeConcat(a: string, b: string)
    ensures NeedsEscape(a + b) <==> NeedsEscape(a) || NeedsEscape(b)
  {
    if NeedsEscape(a) {
      var i :| 0 <= i < |a| && !Plain(a[i]);
      assert (a + b)[i] == a[i];
    }
    if NeedsEscape(b) {
      var i :| 0 <= i < |b| && !Plain(b[i]);
      assert (a + b)[|a| + i] == b[i];
    }
  }

  lemma {:induction false} SplitPrefixed(p: string, r: string)
    requires '~' !in p
    ensures Split(p + "~" + r) == [p] + Split(r)
  {
    var s := p + "~" + r;
    if p == "" {
      assert s[1..] == r;
    } else {
      assert s[1..] == p[1..] + "~" + r;
      SplitPrefixed(p[1..], r);
      assert [p[0]] + p[1..] == p;
    }
  }

  /** Only what follows such a component is replaced. */
  lemma SanitizePrefixed(p: string, r: string)
    requires '~' !in p && !NeedsEscape(p)
    ensures Sanitize(p + "~" + r) == p + "~" + Sanitize(r)
  {
    var key := p + "~" + r;
    assert NeedsEscape(key) <==> NeedsEscape(r) by {
      EscapeConcat(p, "~");
      EscapeConcat(p + "~", r);
    }
    if NeedsEscape(r) {
      SplitPrefixed(p, r);
      SafeJoined(p, Split(r));
      assert EndsOpen(key) == EndsOpen(r);
      var joined, end := Join(SafeAll(Split(r))), if EndsOpen(r) then "~" else "";
      assert Sanitize(key) == p + "~" + joined + end;
      assert p + "~" + joined + end == p + "~" + (joined + end);
    }
  }

  lemma SafeJoined(p: string, cs: seq<string>)
    requires !NeedsEscape(p) && |cs| >= 1
    ensures Join(SafeAll([p] + cs)) == p + "~" + Join(SafeAll(cs))
  {
    assert ([p] + cs)[1..] == cs;
    assert SafeAll([p] + cs)[1..] == SafeAll(cs);
  }

  // ----- keys that need no escaping -----

  lemma {:induction false} Base64Symbols(b: Bytes, url: bool, c: char)
    requires c in Base64(b, url)
    ensures c != '~' && (Plain(c) || (c == '/' && !url))
    decreases |b|
  {
    if c in Base64(Rest(b), url) {
      Base64Symbols(Rest(b), url, c);
    } else {
      assert c in Group(b, url);
      GroupSymbols(b, url, c);
    }
  }

  lemma GroupSymbols(b: Bytes, url: bool, c: char)
    requires b != [] && c in Group(b, url)
    ensures c != '~' && (Plain(c) || (c == '/' && !url))
  {
  }

  lemma UrlSafe(b: Bytes)
    ensures !NeedsEscape(Base64(b, true))
  {
    if NeedsEscape(Base64(b, true)) {
      var i :| 0 <= i < |Base64(b, true)| && !Plain(Base64(b, true)[i]);
      Base64Symbols(b, true, Base64(b, true)[i]);
    }
  }

  // ----- when sanitising again changes nothing -----

  lemma {:induction false} EncodeAllLonger(cs: seq<Rune>)
    ensures |EncodeAll(cs)| >= |cs|
  {
    if cs != [] {
      EncodeAllLonger(cs[1..]);
    }
  }

  lemma SafeLonger(c: string)
    ensures |Safe(c)| >= |c|
    ensures NeedsEscape(c) ==> |Safe(c)| > |c|
  {
    if NeedsEscape(c) {
      EncodeAllLonger(seq(|c|, i requires 0 <= i < |c| => c[i] as int));
      Base64Longer(BytesOf(c), false);
    }
  }

  lemma {:induction false} JoinedLonger(cs: seq<string>)
    requires |cs| >= 1
    ensures |Join(SafeAll(cs))| >= |Join(cs)|
    ensures AnyEscape(cs) ==> |Join(SafeAll(cs))| > |Join(cs)|
  {
    SafeLonger(cs[0]);
    if |cs| > 1 {
      JoinedLonger(cs[1..]);
      assert SafeAll(cs)[1..] == SafeAll(cs[1..]);
      AnyEscapeStep(cs);
    }
  }

  lemma AnyEscapeStep(cs: seq<string>)
    requires cs != []
    ensures AnyEscape(cs) <==> NeedsEscape(cs[0]) || AnyEscape(cs[1..])
  {
    if AnyEscape(cs) {
      var i :| 0 <= i < |cs| && NeedsEscape(cs[i]);
      assert i > 0 ==> cs[1..][i - 1] == cs[i];
    }
    if AnyEscape(cs[1..]) {
      var i :| 0 <= i < |cs[1..]| && NeedsEscape(cs[1..][i]);
      assert cs[1..][i] == cs[i + 1];
    }
  }

  /** A key is stored under itself exactly when no character needs escaping. */
  lemma UnchangedIff(key: string)
    ensures Sanitize(key) == key <==> !NeedsEscape(key)
  {
    if NeedsEscape(key) {
      SplitEscape(key);
      JoinSplit(key);
      JoinedLonger(Split(key));
    }
  }

  lemma {:induction false} JoinEscape(cs: seq<string>)
    requires |cs| >= 1
    ensures NeedsEscape(Join(cs)) <==> AnyEscape(cs)
  {
    if |cs| > 1 {
      JoinEscape(cs[1..]);
      EscapeConcat(cs[0], "~");
      EscapeConcat(cs[0] + "~", Join(cs[1..]));
      AnyEscapeStep(cs);
    }
  }

  lemma SafeEscape(c: string)
    ensures NeedsEscape(Safe(c)) <==> NeedsEscape(c) && '/' in Encoded(c)
  {
    if NeedsEscape(c) && NeedsEscape(Safe(c)) {
      var i :| 0 <= i < |Safe(c)| && !Plain(Safe(c)[i]);
      Base64Symbols(BytesOf(c), false, Safe(c)[i]);
    }
    if NeedsEscape(c) && '/' in Encoded(c) {
      var i :| 0 <= i < |Encoded(c)| && Encoded(c)[i] == '/';
      assert !Plain(Safe(c)[i]);
    }
  }

  /** Sanitising twice is sanitising once exactly when no component that is replaced
      has a slash in its base64. */
  lemma StableIff(key: string)
    ensures Sanitize(Sanitize(key)) == Sanitize(key) <==>
            forall i | 0 <= i < |Split(key)| :: NeedsEscape(Split(key)[i]) ==> '/' !in Encoded(Split(key)[i])
  {
    UnchangedIff(Sanitize(key));
    SplitEscape(key);
    if NeedsEscape(key) {
      var cs := Split(key);
      JoinEscape(SafeAll(cs));
      EscapeConcat(Join(SafeAll(cs)), if EndsOpen(key) then "~" else "");
      forall i | 0 <= i < |cs|
        ensures NeedsEscape(SafeAll(cs)[i]) <==> NeedsEscape(cs[i]) && '/' in Encoded(cs[i])
      {
        SafeAllAt(cs, i);
        SafeEscape(cs[i]);
      }
    }
  }

  // ----- when two keys are stored under one -----

  lemma EncodedInjective(a: string, b: string)
    requires Encoded(a) == Encoded(b)
    ensures a == b
  {
    Base64Injective(BytesOf(a), BytesOf(b), false);
    var x := seq(|a|, i requires 0 <= i < |a| => a[i] as int);
    var y := seq(|b|, i requires 0 <= i < |b| => b[i] as int);
    EncodedIsValid(x);
    EncodedIsValid(y);
    assert x == y;
    forall i | 0 <= i < |a| ensures a[i] == b[i] {
      assert x[i] == y[i];
    }
  }

  lemma {:induction false} SplitWhole(s: string)
    requires '~' !in s
    ensures Split(s) == [s]
  {
    if s != "" {
      SplitWhole(s[1..]);
      assert [s[0]] + s[1..] == s;
    }
  }

  /** A key of one component. */
  lemma SanitizeWhole(s: string)
    requires '~' !in s
    ensures Sanitize(s) == Safe(s)
  {
    if NeedsEscape(s) {
      SplitWhole(s);
      assert SafeAll([s]) == [Safe(s)];
      assert Safe(s) + "" == Safe(s);
    }
  }

  /** A component is replaced by the text of another exactly when one needs escaping and
      the other one is its base64. */
  lemma SafeIff(x: string, y: string)
    ensures Safe(x) == Safe(y) <==>
            || x == y
            || (NeedsEscape(x) && !NeedsEscape(y) && y == Encoded(x))
            || (NeedsEscape(y) && !NeedsEscape(x) && x == Encoded(y))
  {
    if NeedsEscape(x) && NeedsEscape(y) && Encoded(x) == Encoded(y) {
      EncodedInjective(x, y);
    }
  }

  predicate Whole(cs: seq<string>) {
    forall i | 0 <= i < |cs| :: '~' !in cs[i]
  }

  lemma {:induction false} SplitIsWhole(s: string)
    ensures Whole(Split(s))
  {
    if s != "" {
      SplitIsWhole(s[1..]);
    }
  }

  lemma {:induction false} SplitJoin(cs: seq<string>)
    requires |cs| >= 1 && Whole(cs)
    ensures Split(Join(cs)) == cs
  {
    if |cs| == 1 {
      SplitWhole(cs[0]);
    } else {
      SplitJoin(cs[1..]);
      SplitPrefixed(cs[0], Join(cs[1..]));
    }
  }

  /** One more empty component at the end of an open key. */
  function Doubled(cs: seq<string>, open: bool): seq<string> {
    if open then cs + [""] else cs
  }

  /** The components of the stored key. */
  function StoredComponents(key: string): (r: seq<string>)
    ensures |r| >= 1
  {
    Doubled(SafeAll(Split(key)), NeedsEscape(key) && EndsOpen(key))
  }

  lemma SafeIsWhole(c: string)
    requires '~' !in c
    ensures '~' !in Safe(c)
  {
    if NeedsEscape(c) && '~' in Encoded(c) {
      Base64Symbols(BytesOf(c), false, '~');
    }
  }

  lemma StoredIsWhole(key: string)
    ensures Whole(StoredComponents(key))
  {
    var cs := Split(key);
    SplitIsWhole(key);
    forall i | 0 <= i < |cs| ensures '~' !in SafeAll(cs)[i] {
      SafeAllAt(cs, i);
      SafeIsWhole(cs[i]);
    }
  }

  lemma NothingReplaced(cs: seq<string>)
    requires !AnyEscape(cs)
    ensures SafeAll(cs) == cs
  {
    forall i | 0 <= i < |cs| ensures SafeAll(cs)[i] == cs[i] {
      SafeAllAt(cs, i);
    }
  }

  lemma SanitizeJoins(key: string)
    ensures Sanitize(key) == Join(StoredComponents(key))
  {
    var safe := SafeAll(Split(key));
    SplitEscape(key);
    if !NeedsEscape(key) {
      NothingReplaced(Split(key));
      JoinSplit(key);
    } else if EndsOpen(key) {
      JoinThen(safe, "");
      assert Join(safe) + "~" + "" == Join(safe) + "~";
    } else {
      assert Join(safe) + "" == Join(safe);
    }
  }

  /** Any two keys are stored under one exactly when their stored components are equal. */
  lemma SharedIff(a: string, b: string)
    ensures Sanitize(a) == Sanitize(b) <==> StoredComponents(a) == StoredComponents(b)
  {
    SanitizeJoins(a);
    SanitizeJoins(b);
    StoredIsWhole(a);
    StoredIsWhole(b);
    SplitJoin(StoredComponents(a));
    SplitJoin(StoredComponents(b));
  }

  lemma {:induction false} EndsOpenIff(s: string)
    ensures s != "" ==> (EndsOpen(s) <==> Split(s)[|Split(s)| - 1] == "")
  {
    if |s| > 1 {
      EndsOpenIff(s[1..]);
    }
  }

  lemma SafeEmptyIff(c: string)
    ensures Safe(c) == "" <==> c == ""
  {
    SafeLonger(c);
  }

  lemma SafeEnd(s: string)
    requires s != ""
    ensures OpenIff(SafeAll(Split(s)), EndsOpen(s))
  {
    EndsOpenIff(s);
    SafeAllAt(Split(s), |Split(s)| - 1);
    SafeEmptyIff(Split(s)[|Split(s)| - 1]);
  }

  /** Said of the keys themselves: keys that need no escaping share with none but
      themselves; a key that does shares with the text it is stored as; and two that do
      share if their components are pairwise replaced by the same. */
  lemma SharedCases(a: string, b: string)
    ensures Sanitize(a) == Sanitize(b) <==>
            if !NeedsEscape(a) then a == Sanitize(b)
            else if !NeedsEscape(b) then b == Sanitize(a)
            else SafeAll(Split(a)) == SafeAll(Split(b))
  {
    if NeedsEscape(a) && NeedsEscape(b) {
      SharedIff(a, b);
      SafeEnd(a);
      SafeEnd(b);
      SameDoubled(SafeAll(Split(a)), SafeAll(Split(b)), EndsOpen(a), EndsOpen(b));
    }
  }

  predicate OpenIff(cs: seq<string>, open: bool) {
    |cs| >= 1 && (open <==> cs[|cs| - 1] == "")
  }

  /** Doubling an empty last component keeps different lists different. */
  lemma SameDoubled(x: seq<string>, y: seq<string>, xOpen: bool, yOpen: bool)
    requires OpenIff(x, xOpen) && OpenIff(y, yOpen)
    ensures Doubled(x, xOpen) == Doubled(y, yOpen) <==> x == y
  {
    var v, w := Doubled(x, xOpen), Doubled(y, yOpen);
    if v == w {
      assert v[|v| - 1] == w[|w| - 1];
      assert x == v[..|x|] && y == w[..|y|];
    }
  }

  /** Two different keys of one component are stored under one exactly when one of
      them needs escaping and the other one is its base64. */
  lemma SharedSingleIff(a: string, b: string)
    requires '~' !in a && '~' !in b && a != b
    ensures Sanitize(a) == Sanitize(b) <==>
            || (NeedsEscape(a) && !NeedsEscape(b) && b == Encoded(a))
            || (NeedsEscape(b) && !NeedsEscape(a) && a == Encoded(b))
  {
    SanitizeWhole(a);
    SanitizeWhole(b);
    SafeIff(a, b);
  }

  /** A component and its base64 share a key, unless there is a slash in the latter. */
  lemma SharedWithBase64(c: string)
    requires '~' !in c && NeedsEscape(c) && '/' !in Encoded(c)
    ensures Sanitize(c) == Encoded(c) == Sanitize(Encoded(c))
  {
    SanitizeWhole(c);
    SafeEscape(c);
  }

  /** Keys with different numbers of components: the `~` that is doubled at the end of
      one may already be double in the other. */
  lemma DoubledSeparator(c: string)
    requires '~' !in c && NeedsEscape(c) && '/' !in Encoded(c)
    ensures Sanitize(c + "~") == Encoded(c) + "~~" == Sanitize(Encoded(c) + "~~")
    ensures Split(c + "~") == [c, ""] && Split(Encoded(c) + "~~") == [Encoded(c), "", ""]
  {
    StoredDoubled(c);
    var e := Encoded(c);
    SafeEscape(c);
    SafeIsWhole(c);
    EscapeConcat(e, "~~");
    assert e + "~~" == e + "~" + "~" && "~" == "" + "~" + "";
    SplitPrefixed("", "");
    SplitPrefixed(e, "~");
  }

  lemma StoredDoubled(c: string)
    requires '~' !in c && NeedsEscape(c)
    ensures Sanitize(c + "~") == Encoded(c) + "~~" && Split(c + "~") == [c, ""]
  {
    EscapeConcat(c, "~");
    assert c + "~" == c + "~" + "";
    SplitPrefixed(c, "");
    SafePair(c);
    assert Encoded(c) + "~" + "~" == Encoded(c) + "~~";
  }

  lemma SafePair(c: string)
    requires NeedsEscape(c)
    ensures Join(SafeAll([c, ""])) == Encoded(c) + "~"
  {
    assert [c, ""][1..] == [""] && SafeAll([""]) == [""];
    assert SafeAll([c, ""]) == [Encoded(c), ""];
    assert [Encoded(c), ""][1..] == [""];
  }

  // ----- at some registrations -----

  lemma {:induction false} EncodeAscii(cs: seq<Rune>)
    requires forall i | 0 <= i < |cs| :: cs[i] < 128
    ensures EncodeAll(cs) == cs
  {
    if cs != [] {
      EncodeAscii(cs[1..]);
      assert cs == [cs[0]] + cs[1..];
    }
  }

  lemma Ascii(s: string, b: Bytes)
    requires |s| == |b| && forall i | 0 <= i < |s| :: s[i] as int == b[i] < 128
    ensures BytesOf(s) == b
  {
    var cs: seq<Rune> := seq(|s|, i requires 0 <= i < |s| => s[i] as int);
    EncodeAscii(cs);
    assert cs == b;
  }

  /** `a b` is stored as `YSBi`, and so is `YSBi`. */
  lemma SharedExample()
    ensures Sanitize("a b") == "YSBi" == Sanitize("YSBi")
  {
    EncodedExample();
    SharedWithBase64("a b");
  }

  lemma EncodedExample()
    ensures NeedsEscape("a b") && Encoded("a b") == "YSBi"
  {
    assert !Plain("a b"[1]);
    var b: Bytes := [97, 32, 98];
    Ascii("a b", b);
    OneGroup(b, 24, 18, 1, 34);
    assert Symbol(24, false) == 'Y' && Symbol(18, false) == 'S' && Symbol(1, false) == 'B' && Symbol(34, false) == 'i';
  }

  /** With a `~` at the end, `a b` is stored as `YSBi` with two. */
  lemma DoubledExample()
    ensures Sanitize("a b~") == "YSBi~~" == Sanitize("YSBi~~")
  {
    EncodedExample();
    DoubledSeparator("a b");
    assert "a b" + "~" == "a b~" && "YSBi" + "~~" == "YSBi~~";
  }

  /** Two spaces and a question mark are stored as `ICA/`, which is not stored as itself. */
  lemma UnstableExample()
    ensures Sanitize("  ?") == "ICA/" != Sanitize("ICA/")
  {
    var b: Bytes := [32, 32, 63];
    Ascii("  ?", b);
    OneGroup(b, 8, 2, 0, 63);
    assert !Plain("  ?"[0]) && !Plain("ICA/"[3]);
    SanitizeWhole("  ?");
    UnchangedIff("ICA/");
  }
}
