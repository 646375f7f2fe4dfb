/** `integration/nwo/fsc/node/node.go`: the sorted imports of a node and the table
    of their aliases.  Strings are byte strings, compared byte by byte. */
module Imports {
  import opened Utf8

  const SLASH: Byte := 0x2F
  const ZERO: Byte := 0x30

  datatype Alias = Alias(original: Bytes, alias: Bytes)

  // ----- the order of strings -----

  lemma {:induction false} Irreflexive(a: Bytes)
    ensures !Less(a, a)
  {
    if a != [] {
      Irreflexive(a[1..]);
    }
  }

  lemma {:induction false} Transitive(a: Bytes, b: Bytes, c: Bytes)
    requires Less(a, b) && Less(b, c)
    ensures Less(a, c)
  {
    if a != [] && a[0] == b[0] == c[0] {
      Transitive(a[1..], b[1..], c[1..]);
    }
  }

  lemma {:induction false} Trichotomy(a: Bytes, b: Bytes)
    ensures a == b || Less(a, b) || Less(b, a)
  {
    if a != [] && b != [] && a[0] == b[0] {
      Trichotomy(a[1..], b[1..]);
      assert a == [a[0]] + a[1..] && b == [b[0]] + b[1..];
    }
  }

  predicate StrictlySorted(s: seq<Bytes>) {
    forall i, j | 0 <= i < j < |s| :: Less(s[i], s[j])
  }

  // ----- aliases -----

  /** What follows the last slash. */
  function LastElement(path: Bytes): Bytes {
    if path == [] then []
    else if path[|path| - 1] == SLASH then []
    else LastElement(path[..|path| - 1]) + [path[|path| - 1]]
  }

  /** `strconv.Itoa` on a natural number. */
  function Itoa(n: nat): (r: Bytes)
    ensures r != []
  {
    if n < 10 then [ZERO + n] else Itoa(n / 10) + [ZERO + n % 10]
  }

  /** The number that decimal digits stand for. */
  function Atoi(s: Bytes): int {
    if s == [] then 0 else Atoi(s[..|s| - 1]) * 10 + (s[|s| - 1] - ZERO)
  }

  /** The digits, read in base ten, give the number back; and there is no leading zero. */
  lemma {:induction false} AtoiItoa(n: nat)
    ensures Atoi(Itoa(n)) == n
    ensures forall i | 0 <= i < |Itoa(n)| :: ZERO <= Itoa(n)[i] <= ZERO + 9
    ensures n > 0 ==> Itoa(n)[0] != ZERO
  {
    var s := Itoa(n);
    if n >= 10 {
      AtoiItoa(n / 10);
      assert s[..|s| - 1] == Itoa(n / 10);
    } else {
      assert s[..|s| - 1] == [];
    }
  }

  lemma ItoaInjective(m: nat, n: nat)
    requires Itoa(m) == Itoa(n)
    ensures m == n
  {
    AtoiItoa(m);
    AtoiItoa(n);
  }

  /** The alias of the path that is number `n` among those with this last element. */
  function Numbered(element: Bytes, n: nat): Bytes {
    if n == 0 then element else element + Itoa(n)
  }

  lemma NumberedInjective(element: Bytes, m: nat, n: nat)
    requires Numbered(element, m) == Numbered(element, n)
    ensures m == n
  {
    var k := |element|;
    if m > 0 && n > 0 {
      assert Itoa(m) == Numbered(element, m)[k..] == Numbered(element, n)[k..] == Itoa(n);
      ItoaInjective(m, n);
    }
  }

  /** The first path keeps the element as its alias; number `n` has the digits of `n`
      after it. */
  lemma NumberedIs(element: Bytes, n: nat)
    ensures element <= Numbered(element, n)
    ensures n == 0 ==> Numbered(element, n) == element
    ensures n > 0 ==> Numbered(element, n) != element && Atoi(Numbered(element, n)[|element|..]) == n
  {
    AtoiItoa(n);
    assert n > 0 ==> Numbered(element, n)[|element|..] == Itoa(n);
  }

  /** The paths whose alias derives from the given last element. */
  function Sharing(aliases: map<Bytes, Alias>, element: Bytes): set<Bytes> {
    set p | p in aliases && aliases[p].original == element
  }

  /** Each alias is its last element with a number, and paths that share a last
      element have different aliases, numbered without a gap. */
  ghost predicate WellNumbered(aliases: map<Bytes, Alias>) {
    && (forall p | p in aliases ::
          && aliases[p].original == LastElement(p)
          && exists n: nat :: n < |Sharing(aliases, aliases[p].original)| &&
                              aliases[p].alias == Numbered(aliases[p].original, n))
    && (forall p, q | p in aliases && q in aliases && p != q && aliases[p].original == aliases[q].original ::
          aliases[p].alias != aliases[q].alias)
  }

  lemma FreshNumber(aliases: map<Bytes, Alias>, e: Bytes, p: Bytes)
    requires WellNumbered(aliases) && p in aliases && aliases[p].original == e
    ensures aliases[p].alias != Numbered(e, |Sharing(aliases, e)|)
  {
    var n: nat :| n < |Sharing(aliases, e)| && aliases[p].alias == Numbered(e, n);
    if aliases[p].alias == Numbered(e, |Sharing(aliases, e)|) {
      NumberedInjective(e, n, |Sharing(aliases, e)|);
    }
  }

  lemma SharingGrows(aliases: map<Bytes, Alias>, path: Bytes, a: Alias, f: Bytes)
    requires path !in aliases
    ensures |Sharing(aliases[path := a], f)| == |Sharing(aliases, f)| + if f == a.original then 1 else 0
  {
    if f == a.original {
      assert Sharing(aliases[path := a], f) == Sharing(aliases, f) + {path};
    } else {
      assert Sharing(aliases[path := a], f) == Sharing(aliases, f);
    }
  }

  /** The table with the next number for a new path. */
  function Added(aliases: map<Bytes, Alias>, path: Bytes): map<Bytes, Alias> {
    var e := LastElement(path);
    aliases[path := Alias(e, Numbered(e, |Sharing(aliases, e)|))]
  }

  /** Giving a new path the next free number keeps the table well numbered. */
  lemma NextNumber(aliases: map<Bytes, Alias>, path: Bytes)
    requires WellNumbered(aliases) && path !in aliases
    ensures WellNumbered(Added(aliases, path))
  {
    var e := LastElement(path);
    var a := Alias(e, Numbered(e, |Sharing(aliases, e)|));
    var next := aliases[path := a];
    forall p | p in next
      ensures exists n: nat :: n < |Sharing(next, next[p].original)| &&
                               next[p].alias == Numbered(next[p].original, n)
    {
      SharingGrows(aliases, path, a, next[p].original);
      if p != path {
        var n: nat :| n < |Sharing(aliases, aliases[p].original)| && aliases[p].alias == Numbered(aliases[p].original, n);
        assert n < |Sharing(next, next[p].original)|;
      }
    }
    forall p | p in aliases && aliases[p].original == e ensures aliases[p].alias != a.alias {
      FreshNumber(aliases, e, p);
    }
  }

  // ----- the node -----

  /** `sort.SearchStrings`: the least index whose element is not below `x`. */
  method Search(s: seq<Bytes>, x: Bytes) returns (index: nat)
    requires StrictlySorted(s)
    ensures index <= |s|
    ensures forall k | 0 <= k < index :: Less(s[k], x)
    ensures forall k | index <= k < |s| :: AtMost(x, s[k])
  {
    var lo, hi := 0, |s|;
    while lo < hi
      invariant lo <= hi <= |s|
      invariant forall k | 0 <= k < lo :: Less(s[k], x)
      invariant forall k | hi <= k < |s| :: AtMost(x, s[k])
    {
      var mid := (lo + hi) / 2;
      if Less(s[mid], x) {
        forall k | 0 <= k <= mid ensures Less(s[k], x) {
          if k < mid {
            Transitive(s[k], s[mid], x);
          }
        }
        lo := mid + 1;
      } else {
        forall k | mid <= k < |s| ensures AtMost(x, s[k]) {
          Trichotomy(s[mid], x);
          if mid < k && x != s[mid] {
            Transitive(x, s[mid], s[k]);
          }
        }
        hi := mid;
      }
    }
    index := lo;
  }

  lemma InsertSorted(s: seq<Bytes>, x: Bytes, index: nat)
    requires StrictlySorted(s) && index <= |s|
    requires forall k | 0 <= k < index :: Less(s[k], x)
    requires forall k | index <= k < |s| :: Less(x, s[k])
    ensures StrictlySorted(s[..index] + [x] + s[index..])
    ensures forall p :: p in s[..index] + [x] + s[index..] <==> p in s || p == x
  {
    assert s == s[..index] + s[index..];
  }

  class Node {
    var imports: seq<Bytes>
    var aliases: map<Bytes, Alias>

    /** The imports are sorted without duplicates, they are exactly the paths that
        have an alias, and the aliases are well numbered. */
    ghost predicate Valid()
      reads this
    {
      && StrictlySorted(imports)
      && (forall p :: p in imports <==> p in aliases)
      && WellNumbered(aliases)
    }

    constructor ()
      ensures Valid() && imports == [] && aliases == map[]
    {
      imports, aliases := [], map[];
    }

    /** `addImport`: returns the alias of the path, assigning one if it is new. */
    method AddImport(path: Bytes) returns (alias: Bytes)
      requires Valid()
      modifies this
      ensures Valid()
      ensures path in aliases && alias == aliases[path].alias
      ensures forall p :: p in imports <==> p in old(imports) || p == path
      ensures path in old(aliases) ==> imports == old(imports) && aliases == old(aliases)
      ensures path !in old(aliases) ==> aliases == Added(old(aliases), path)
    {
      var index := Search(imports, path);
      if index < |imports| && imports[index] == path {
        return aliases[path].alias;
      }
      NotFound(imports, path, index);
      var element := LastElement(path);
      var counter := CountSharing(element);
      var newAlias := element;
      if counter > 0 {
        newAlias := newAlias + Itoa(counter);
      }
      NextNumber(aliases, path);
      InsertSorted(imports, path, index);
      aliases := aliases[path := Alias(element, newAlias)];
      imports := imports[..index] + [path] + imports[index..];
      alias := newAlias;
    }

    /** The loop over the alias table, in any order. */
    method CountSharing(element: Bytes) returns (counter: nat)
      ensures counter == |Sharing(aliases, element)|
    {
      counter := 0;
      var todo := aliases.Keys;
      ghost var seen: set<Bytes> := {};
      while todo != {}
        invariant todo <= aliases.Keys
        invariant seen == set p | p in aliases && p !in todo && aliases[p].original == element
        invariant counter == |seen|
        decreases |todo|
      {
        var p :| p in todo;
        todo := todo - {p};
        if aliases[p].original == element {
          counter := counter + 1;
          seen := seen + {p};
        }
      }
      assert seen == Sharing(aliases, element);
    }
  }

  lemma NotFound(s: seq<Bytes>, x: Bytes, index: nat)
    requires StrictlySorted(s) && index <= |s|
    requires forall k | 0 <= k < index :: Less(s[k], x)
    requires forall k | index <= k < |s| :: AtMost(x, s[k])
    requires index < |s| ==> s[index] != x
    ensures x !in s
    ensures forall k | index <= k < |s| :: Less(x, s[k])
  {
    Irreflexive(x);
    forall k | index <= k < |s| ensures Less(x, s[k]) {
      if index < k && x == s[k] {
        Transitive(x, s[index], s[k]);
      }
    }
  }

  // ----- aliases of paths with different last elements may clash -----

  predicate Distinct(aliases: map<Bytes, Alias>) {
    forall p, q | p in aliases && q in aliases && p != q :: aliases[p].alias != aliases[q].alias
  }

  /** Adding a path keeps all aliases distinct exactly when its candidate alias is
      not yet taken, which can only be by a path with another last element. */
  lemma StaysDistinct(aliases: map<Bytes, Alias>, path: Bytes)
    requires WellNumbered(aliases) && Distinct(aliases) && path !in aliases
    ensures var e := LastElement(path);
            var candidate := Numbered(e, |Sharing(aliases, e)|);
            Distinct(Added(aliases, path)) <==>
            forall p | p in aliases && aliases[p].original != e :: aliases[p].alias != candidate
  {
    var e := LastElement(path);
    var candidate := Numbered(e, |Sharing(aliases, e)|);
    var next := aliases[path := Alias(e, candidate)];
    if Distinct(next) {
      forall p | p in aliases && aliases[p].original != e ensures aliases[p].alias != candidate {
        assert next[p] == aliases[p] && next[path].alias == candidate;
      }
    }
    forall p | p in aliases && aliases[p].original == e ensures aliases[p].alias != candidate {
      FreshNumber(aliases, e, p);
    }
  }

  /** They do clash: with two imports that end in `e`, imported as `e` and `e1`, an
      import that ends in `e1` gets the alias `e1` again. */
  lemma AliasesMayClash(a: Bytes, b: Bytes, c: Bytes)
    requires a != b && LastElement(a) == LastElement(b) && LastElement(c) == Numbered(LastElement(a), 1)
    ensures var table := Added(Added(Added(map[], a), b), c);
            b in table && c in table && b != c && table[b].alias == table[c].alias
  {
    var e := LastElement(a);
    var one := Added(map[], a);
    var two := Added(one, b);
    assert Sharing(one, e) == {a};
    assert |LastElement(c)| > |e|;
    assert Sharing(two, LastElement(c)) == {};
  }

  /** Such imports exist: `a/x`, `b/x` and `c/x1`. */
  lemma ClashingImports() returns (a: Bytes, b: Bytes, c: Bytes)
    ensures a != b && LastElement(a) == LastElement(b) && LastElement(c) == Numbered(LastElement(a), 1)
  {
    var x := [0x78];
    assert Itoa(1) == [ZERO + 1];
    a, b, c := [0x61] + [SLASH] + x, [0x62] + [SLASH] + x, [0x63] + [SLASH] + (x + Itoa(1));
    LastElementOf([0x61], x);
    LastElementOf([0x62], x);
    LastElementOf([0x63], x + Itoa(1));
    assert a[0] != b[0];
  }

  /** A path without a slash is its own last element. */
  lemma {:induction false} LastElementWhole(e: Bytes)
    requires SLASH !in e
    ensures LastElement(e) == e
  {
    if e != [] {
      var n := |e| - 1;
      LastElementWhole(e[..n]);
      assert e[..n] + [e[n]] == e;
    }
  }

  lemma {:induction false} LastElementOf(prefix: Bytes, e: Bytes)
    requires SLASH !in e
    ensures LastElement(prefix + [SLASH] + e) == e
  {
    var path := prefix + [SLASH] + e;
    if e != [] {
      var n := |e| - 1;
      assert path[..|path| - 1] == prefix + [SLASH] + e[..n];
      LastElementOf(prefix, e[..n]);
      assert e[..n] + [e[n]] == e;
    }
  }
}
