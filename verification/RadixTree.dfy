/**
 The abstract value of a compressed radix trie, the functions that `insert` and `lookup` of
 RadixTrieRoutingIndex.ts compute on it, and what holds of every trie that inserts can build:
 it refines a finite map, it has one canonical shape, and it uses at most two nodes per key.
 */
module RadixTree {
  import opened Options

  /** A node; `children` is filed by the first character of each child's prefix. */
  datatype Tree<T> = Tree(prefix: string, isLeaf: bool, value: Option<T>, children: map<char, Tree<T>>)

  const EMPTY_PREFIX: string := ""

  function EmptyTree<T>(): Tree<T> {
    Tree(EMPTY_PREFIX, false, None, map[])
  }

  /** The length of the longest common prefix. */
  function CommonPrefixLength(a: string, b: string): (n: nat)
    ensures n <= |a| && n <= |b| && a[..n] == b[..n]
    ensures n < |a| && n < |b| ==> a[n] != b[n]
  {
    if a == "" || b == "" || a[0] != b[0] then 0
    else 1 + CommonPrefixLength(a[1..], b[1..])
  }

  lemma {:induction false} CommonPrefixIsUnique(a: string, b: string, n: nat)
    requires n <= |a| && n <= |b| && a[..n] == b[..n]
    requires n < |a| && n < |b| ==> a[n] != b[n]
    ensures CommonPrefixLength(a, b) == n
  {
    var m := CommonPrefixLength(a, b);
    assert forall i | 0 <= i < n :: a[i] == a[..n][i] == b[..n][i] == b[i];
    assert forall i | 0 <= i < m :: a[i] == a[..m][i] == b[..m][i] == b[i];
  }

  // ---------- lookup and insert ----------

  function Lookup<T>(t: Tree<T>, key: string): Option<T>
    decreases t, 0
  {
    if key == "" then (if t.isLeaf then t.value else None)
    else if key[0] !in t.children then None
    else LookupVia(t.children[key[0]], key)
  }

  /** The rest of a lookup of `key`, once it has moved on to `child`. */
  function LookupVia<T>(child: Tree<T>, key: string): Option<T>
    decreases child, 1
  {
    if child.prefix <= key then Lookup(child, key[|child.prefix|..]) else None
  }

  function NewLeaf<T>(prefix: string, value: T): Tree<T> {
    Tree(prefix, true, Some(value), map[])
  }

  function WithChild<T>(t: Tree<T>, c: char, child: Tree<T>): Tree<T> {
    t.(children := t.children[c := child])
  }

  function Insert<T>(t: Tree<T>, key: string, value: T): Tree<T>
    decreases t, 0
  {
    if key == "" then t.(isLeaf := true, value := Some(value))
    else if key[0] !in t.children then WithChild(t, key[0], NewLeaf(key, value))
    else WithChild(t, key[0], InsertVia(t.children[key[0]], key, value))
  }

  /** What `child` becomes when `key`, which shares its first character, is inserted there. */
  function InsertVia<T>(child: Tree<T>, key: string, value: T): Tree<T>
    decreases child, 1
  {
    var n := CommonPrefixLength(key, child.prefix);
    if n == |child.prefix| then Insert(child, key[n..], value)
    else SplitNode(child, n, key, value)
  }

  /** The part of `child` below a cut after the first `n` characters of its prefix. */
  function Lower<T>(child: Tree<T>, n: nat): Tree<T>
    requires n < |child.prefix|
  {
    child.(prefix := child.prefix[n..])
  }

  /** The part above the cut, before it is given children; it is marked when `key` ends at the cut. */
  function Upper<T>(child: Tree<T>, n: nat, key: string, value: T): Tree<T>
    requires n < |child.prefix| && n <= |key|
  {
    if n == |key| then NewLeaf(child.prefix[..n], value) else Tree(child.prefix[..n], false, None, map[])
  }

  /** What `child` becomes when `key` leaves its prefix after the first `n` characters. */
  function SplitNode<T>(child: Tree<T>, n: nat, key: string, value: T): Tree<T>
    requires n < |child.prefix| && n <= |key|
  {
    var upper := WithChild(Upper(child, n, key, value), child.prefix[n], Lower(child, n));
    if n == |key| then upper else WithChild(upper, key[n], NewLeaf(key[n..], value))
  }

  // ---------- the canonical shape ----------

  /** A node that is not the root is marked or branches. */
  ghost predicate Compressed<T>(t: Tree<T>) {
    t.isLeaf || |t.children| >= 2
  }

  ghost predicate FiledUnder<T>(c: char, child: Tree<T>) {
    child.prefix != "" && child.prefix[0] == c
  }

  ghost predicate Canonical<T>(t: Tree<T>) {
    && (t.isLeaf <==> t.value.Some?)
    && forall c | c in t.children ::
         FiledUnder(c, t.children[c]) && Compressed(t.children[c]) && Canonical(t.children[c])
  }

  ghost predicate CanonicalRoot<T>(t: Tree<T>) {
    t.prefix == "" && Canonical(t)
  }

  lemma WithChildCanonical<T>(t: Tree<T>, c: char, child: Tree<T>)
    requires Canonical(t) && Canonical(child) && Compressed(child) && FiledUnder(c, child)
    ensures Canonical(WithChild(t, c, child))
    ensures Compressed(t) ==> Compressed(WithChild(t, c, child))
  {
    MoreChildren(t.children, c, child);
  }

  lemma MoreChildren<T>(m: map<char, Tree<T>>, c: char, child: Tree<T>)
    ensures |m| <= |m[c := child]|
  {
    assert m[c := child].Keys == m.Keys + {c};
    CardinalityMonotone(m.Keys, m[c := child].Keys);
    assert |m.Keys| == |m| && |m[c := child].Keys| == |m[c := child]|;
  }

  lemma LowerCanonical<T>(child: Tree<T>, n: nat)
    requires Canonical(child) && Compressed(child) && n < |child.prefix|
    ensures Canonical(Lower(child, n)) && Compressed(Lower(child, n)) && FiledUnder(child.prefix[n], Lower(child, n))
  {
  }

  lemma TwoChildren<T>(t: Tree<T>, c: char, a: Tree<T>, d: char, b: Tree<T>)
    requires c != d
    ensures Compressed(WithChild(WithChild(t, c, a), d, b))
  {
    var r := WithChild(WithChild(t, c, a), d, b);
    CardinalityMonotone({c, d}, r.children.Keys);
    assert |{c, d}| == 2;
  }

  lemma SplitNodeCanonical<T>(child: Tree<T>, n: nat, key: string, value: T)
    requires Canonical(child) && Compressed(child)
    requires n < |child.prefix| && n <= |key|
    requires n < |key| ==> key[n] != child.prefix[n]
    ensures Canonical(SplitNode(child, n, key, value)) && Compressed(SplitNode(child, n, key, value))
  {
    LowerCanonical(child, n);
    var upper := Upper(child, n, key, value);
    WithChildCanonical(upper, child.prefix[n], Lower(child, n));
    if n < |key| {
      var branch := NewLeaf(key[n..], value);
      WithChildCanonical(WithChild(upper, child.prefix[n], Lower(child, n)), key[n], branch);
      TwoChildren(upper, child.prefix[n], Lower(child, n), key[n], branch);
    }
  }

  lemma {:induction false} InsertCanonical<T>(t: Tree<T>, key: string, value: T)
    requires Canonical(t)
    ensures Canonical(Insert(t, key, value)) && Insert(t, key, value).prefix == t.prefix
    ensures Compressed(t) ==> Compressed(Insert(t, key, value))
    decreases t, 0
  {
    if key != "" {
      if key[0] !in t.children {
        WithChildCanonical(t, key[0], NewLeaf(key, value));
      } else {
        InsertViaCanonical(t.children[key[0]], key, value);
        WithChildCanonical(t, key[0], InsertVia(t.children[key[0]], key, value));
      }
    }
  }

  lemma {:induction false} InsertViaCanonical<T>(child: Tree<T>, key: string, value: T)
    requires Canonical(child) && Compressed(child)
    requires key != "" && FiledUnder(key[0], child)
    ensures var r := InsertVia(child, key, value);
            Canonical(r) && Compressed(r) && FiledUnder(key[0], r)
    decreases child, 1
  {
    var n := CommonPrefixLength(key, child.prefix);
    if n == |child.prefix| {
      InsertCanonical(child, key[n..], value);
    } else {
      SplitNodeCanonical(child, n, key, value);
    }
  }

  lemma {:induction false} CardinalityMonotone<X>(a: set<X>, b: set<X>)
    requires a <= b
    ensures |a| <= |b|
    decreases a
  {
    if a != {} {
      var x :| x in a;
      CardinalityMonotone(a - {x}, b - {x});
    }
  }

  // ---------- refinement of a finite map ----------

  lemma LookupWithChild<T>(t: Tree<T>, c: char, child: Tree<T>, q: string)
    ensures Lookup(WithChild(t, c, child), q)
            == if q != "" && q[0] == c then LookupVia(child, q) else Lookup(t, q)
  {
  }

  lemma LookupLeaf<T>(key: string, value: T, q: string)
    ensures LookupVia(NewLeaf(key, value), q) == if q == key then Some(value) else None
  {
    if key <= q {
      assert q == key + q[|key|..];
    }
  }

  /** A prefix test can be made in two pieces. */
  lemma CutPrefix(p: string, n: nat, q: string)
    requires n <= |p|
    ensures p <= q <==> p[..n] <= q && p[n..] <= q[n..]
    ensures p <= q ==> q[|p|..] == q[n..][|p| - n..]
  {
    assert p == p[..n] + p[n..];
    if p[..n] <= q {
      assert q == p[..n] + q[n..];
    }
    if p <= q {
      assert q[..n] == p[..n] && q[n..|p|] == p[n..];
    }
  }

  lemma LookupViaLower<T>(child: Tree<T>, n: nat, q: string)
    requires n < |child.prefix| && child.prefix[..n] <= q
    ensures LookupVia(Lower(child, n), q[n..]) == LookupVia(child, q)
  {
    CutPrefix(child.prefix, n, q);
    LookupIgnoresPrefix(child, child.prefix[n..], q[if child.prefix <= q then |child.prefix| else 0..]);
  }

  lemma LookupIgnoresPrefix<T>(t: Tree<T>, prefix: string, q: string)
    ensures Lookup(t.(prefix := prefix), q) == Lookup(t, q)
  {
  }

  lemma LookupInSplit<T>(child: Tree<T>, n: nat, key: string, value: T, rest: string)
    requires n < |child.prefix| && n <= |key|
    requires n < |key| ==> key[n] != child.prefix[n]
    ensures Lookup(SplitNode(child, n, key, value), rest)
            == if rest == key[n..] then Some(value) else LookupVia(Lower(child, n), rest)
  {
    var upper := Upper(child, n, key, value);
    LookupWithChild(upper, child.prefix[n], Lower(child, n), rest);
    if n < |key| {
      LookupWithChild(WithChild(upper, child.prefix[n], Lower(child, n)), key[n], NewLeaf(key[n..], value), rest);
      LookupLeaf(key[n..], value, rest);
    }
  }

  lemma LookupAfterSplit<T>(child: Tree<T>, n: nat, key: string, value: T, q: string)
    requires n == CommonPrefixLength(key, child.prefix) && n < |child.prefix|
    ensures LookupVia(SplitNode(child, n, key, value), q)
            == if q == key then Some(value) else LookupVia(child, q)
  {
    CutPrefix(child.prefix, n, q);
    assert key == child.prefix[..n] + key[n..];
    if child.prefix[..n] <= q {
      assert q == child.prefix[..n] + q[n..];
      LookupViaLower(child, n, q);
      LookupInSplit(child, n, key, value, q[n..]);
    }
  }

  /** One insertion answers `key` with `value` and no other key differently. */
  lemma {:induction false} LookupAfterInsert<T>(t: Tree<T>, key: string, value: T, q: string)
    requires Canonical(t)
    ensures Lookup(Insert(t, key, value), q) == if q == key then Some(value) else Lookup(t, q)
    decreases t, 0
  {
    if key != "" {
      if key[0] !in t.children {
        LookupWithChild(t, key[0], NewLeaf(key, value), q);
        LookupLeaf(key, value, q);
      } else {
        var child := t.children[key[0]];
        LookupWithChild(t, key[0], InsertVia(child, key, value), q);
        LookupAfterInsertVia(child, key, value, q);
      }
    }
  }

  lemma EqualAfterPrefix(p: string, a: string, b: string)
    requires p <= a && p <= b
    ensures a == b <==> a[|p|..] == b[|p|..]
  {
    assert a == p + a[|p|..] && b == p + b[|p|..];
  }

  lemma {:induction false} LookupAfterInsertVia<T>(child: Tree<T>, key: string, value: T, q: string)
    requires Canonical(child)
    ensures LookupVia(InsertVia(child, key, value), q)
            == if q == key then Some(value) else LookupVia(child, q)
    decreases child, 1
  {
    var n := CommonPrefixLength(key, child.prefix);
    if n == |child.prefix| {
      InsertCanonical(child, key[n..], value);
      if child.prefix <= q {
        LookupAfterInsert(child, key[n..], value, q[n..]);
        EqualAfterPrefix(child.prefix, key, q);
      }
    } else {
      LookupAfterSplit(child, n, key, value, q);
    }
  }

  /** The keys that are stored at or below a node, relative to it. */
  ghost function Keys<T>(t: Tree<T>): set<string>
    decreases t, 0
  {
    (if t.isLeaf then {""} else {}) + KeysBelow(t, t.children.Keys)
  }

  /** The keys that are stored at or below a child, relative to its parent. */
  ghost function KeysVia<T>(child: Tree<T>): set<string>
    decreases child, 1
  {
    Prefixed(child.prefix, Keys(child))
  }

  ghost function Prefixed(prefix: string, keys: set<string>): (r: set<string>)
    ensures forall k :: k in r <==> prefix <= k && k[|prefix|..] in keys
  {
    var r := set s | s in keys :: prefix + s;
    assert forall k :: prefix <= k ==> k == prefix + k[|prefix|..];
    assert forall s :: (prefix + s)[|prefix|..] == s;
    r
  }

  /** The keys that are stored below the children filed under `cs`. */
  ghost function KeysBelow<T>(t: Tree<T>, cs: set<char>): set<string>
    requires cs <= t.children.Keys
    decreases t, 0, cs
  {
    set c, k | c in cs && k in KeysVia(t.children[c]) :: k
  }

  lemma KeysViaStart<T>(t: Tree<T>, c: char, k: string)
    requires Canonical(t) && c in t.children && k in KeysVia(t.children[c])
    ensures k != "" && k[0] == c
  {
    assert FiledUnder(c, t.children[c]);
  }

  lemma {:induction false} KeysAreFound<T>(t: Tree<T>, k: string)
    requires Canonical(t)
    ensures k in Keys(t) <==> Lookup(t, k).Some?
    decreases t, 0
  {
    forall c | c in t.children && k in KeysVia(t.children[c]) ensures k != "" && k[0] == c {
      KeysViaStart(t, c, k);
    }
    if k != "" && k[0] in t.children {
      KeysViaAreFound(t.children[k[0]], k);
    }
  }

  lemma {:induction false} KeysViaAreFound<T>(child: Tree<T>, k: string)
    requires Canonical(child)
    ensures k in KeysVia(child) <==> LookupVia(child, k).Some?
    decreases child, 1
  {
    if child.prefix <= k {
      KeysAreFound(child, k[|child.prefix|..]);
    }
  }

  /** The finite map that a trie stands for. */
  ghost function Contents<T>(t: Tree<T>): map<string, T>
    requires Canonical(t)
  {
    map k | k in Keys(t) :: (KeysAreFound(t, k); Lookup(t, k).value)
  }

  /** `lookup` is application of the finite map. */
  lemma LookupRefinesMap<T>(t: Tree<T>, k: string)
    requires Canonical(t)
    ensures Lookup(t, k) == if k in Contents(t) then Some(Contents(t)[k]) else None
  {
    KeysAreFound(t, k);
  }

  /** `insert` is update of the finite map. */
  lemma InsertRefinesMap<T>(t: Tree<T>, key: string, value: T)
    requires Canonical(t)
    ensures Canonical(Insert(t, key, value))
    ensures Contents(Insert(t, key, value)) == Contents(t)[key := value]
  {
    InsertCanonical(t, key, value);
    var r := Insert(t, key, value);
    forall k ensures k in Contents(r) <==> k in Contents(t)[key := value]
             ensures k in Contents(r) ==> Contents(r)[k] == Contents(t)[key := value][k]
    {
      LookupAfterInsert(t, key, value, k);
      LookupRefinesMap(t, k);
      LookupRefinesMap(r, k);
    }
  }

  // ---------- uniqueness of the shape ----------

  /** Every node of a compressed trie leads to a stored key. */
  lemma {:induction false} SomeKey<T>(t: Tree<T>) returns (k: string)
    requires Canonical(t) && Compressed(t)
    ensures Lookup(t, k).Some?
    decreases t
  {
    if t.isLeaf {
      k := "";
    } else {
      assert t.children.Keys != {};
      var c :| c in t.children;
      k := KeyVia(t, c);
    }
  }

  lemma {:induction false} KeyVia<T>(t: Tree<T>, c: char) returns (k: string)
    requires Canonical(t) && c in t.children
    ensures k != "" && k[0] == c && Lookup(t, k).Some?
    decreases t, 0
  {
    var child := t.children[c];
    var s := SomeKey(child);
    k := child.prefix + s;
    assert FiledUnder(c, child) && k[|child.prefix|..] == s;
  }

  /** A compressed node stores a key that does not continue with `d`. */
  lemma KeyAvoiding<T>(t: Tree<T>, d: char) returns (k: string)
    requires Canonical(t) && Compressed(t)
    ensures Lookup(t, k).Some? && (k == "" || k[0] != d)
  {
    if t.isLeaf {
      k := "";
    } else {
      assert |t.children.Keys| >= 2;
      assert !(t.children.Keys <= {d}) by {
        if t.children.Keys <= {d} {
          CardinalityMonotone(t.children.Keys, {d});
        }
      }
      var c :| c in t.children && c != d;
      k := KeyVia(t, c);
    }
  }

  ghost predicate SameLookups<T(!new)>(a: Tree<T>, b: Tree<T>) {
    forall k :: Lookup(a, k) == Lookup(b, k)
  }

  /** What is found below `a`'s child starts with the prefix of `b`'s. */
  lemma SharedKey<T(!new)>(a: Tree<T>, b: Tree<T>, c: char, s: string)
    requires Canonical(a) && SameLookups(a, b)
    requires c in a.children && c in b.children
    requires Lookup(a.children[c], s).Some?
    ensures b.children[c].prefix <= a.children[c].prefix + s
  {
    var k := a.children[c].prefix + s;
    assert FiledUnder(c, a.children[c]) && k[|a.children[c].prefix|..] == s;
    assert k[0] == c && LookupVia(a.children[c], k).Some?;
    assert Lookup(a, k) == Lookup(b, k) == LookupVia(b.children[c], k);
  }

  lemma PrefixByDivergence(p: string, q: string, s: string)
    requires q <= p + s
    requires |p| < |q| ==> s == "" || s[0] != q[|p|]
    ensures q <= p
  {
    assert q == (p + s)[..|q|];
    assert |q| <= |p| ==> q == p[..|q|];
  }

  /** Children in the same place of two tries with the same answers: `a`'s prefix cannot be shorter. */
  lemma PrefixNotShorter<T(!new)>(a: Tree<T>, b: Tree<T>, c: char)
    requires Canonical(a) && Canonical(b) && SameLookups(a, b)
    requires c in a.children && c in b.children
    ensures b.children[c].prefix <= a.children[c].prefix
  {
    var p, q := a.children[c].prefix, b.children[c].prefix;
    var s := KeyAvoiding(a.children[c], if |p| < |q| then q[|p|] else c);
    SharedKey(a, b, c, s);
    PrefixByDivergence(p, q, s);
  }

  lemma SameChildren<T(!new)>(a: Tree<T>, b: Tree<T>, c: char)
    requires Canonical(a) && SameLookups(a, b)
    requires c in a.children
    ensures c in b.children
  {
    var k := KeyVia(a, c);
    assert Lookup(a, k) == Lookup(b, k);
  }

  lemma LookupBelow<T>(t: Tree<T>, c: char, k: string)
    requires Canonical(t) && c in t.children
    ensures Lookup(t, t.children[c].prefix + k) == Lookup(t.children[c], k)
  {
    var full := t.children[c].prefix + k;
    assert FiledUnder(c, t.children[c]);
    assert full[0] == c && full[|t.children[c].prefix|..] == k;
  }

  lemma SameAnswer<T(!new)>(a: Tree<T>, b: Tree<T>, key: string)
    requires SameLookups(a, b)
    ensures Lookup(a, key) == Lookup(b, key)
  {
  }

  lemma SameBelow<T(!new)>(a: Tree<T>, b: Tree<T>, c: char)
    requires Canonical(a) && Canonical(b) && SameLookups(a, b) && c in a.children && c in b.children
    requires a.children[c].prefix == b.children[c].prefix
    ensures SameLookups(a.children[c], b.children[c])
  {
    forall k ensures Lookup(a.children[c], k) == Lookup(b.children[c], k) {
      SameAnswer(a, b, a.children[c].prefix + k);
      LookupBelow(a, c, k);
      LookupBelow(b, c, k);
    }
  }

  /** Two canonical tries that answer every key alike are the same trie. */
  lemma {:induction false} SameLookupsSameTree<T(!new)>(a: Tree<T>, b: Tree<T>)
    requires Canonical(a) && Canonical(b) && a.prefix == b.prefix
    requires SameLookups(a, b)
    ensures a == b
    decreases a
  {
    SameAnswer(a, b, "");
    forall c ensures c in a.children <==> c in b.children {
      if c in a.children { SameChildren(a, b, c); }
      if c in b.children { SameChildren(b, a, c); }
    }
    forall c | c in a.children ensures a.children[c] == b.children[c] {
      var x, y := a.children[c], b.children[c];
      PrefixNotShorter(a, b, c);
      PrefixNotShorter(b, a, c);
      assert x.prefix == y.prefix;
      SameBelow(a, b, c);
      SameLookupsSameTree(x, y);
    }
    assert a.children == b.children;
  }

  /** The shape of a trie is a function of the finite map it stands for. */
  lemma CanonicalFormIsUnique<T(!new)>(a: Tree<T>, b: Tree<T>)
    requires CanonicalRoot(a) && CanonicalRoot(b)
    ensures a == b <==> Contents(a) == Contents(b)
  {
    if Contents(a) == Contents(b) {
      forall k ensures Lookup(a, k) == Lookup(b, k) {
        LookupRefinesMap(a, k);
        LookupRefinesMap(b, k);
      }
      SameLookupsSameTree(a, b);
    }
  }

  // ---------- runs of inserts ----------

  function InsertAll<T>(t: Tree<T>, entries: seq<(string, T)>): Tree<T>
    decreases entries
  {
    if entries == [] then t
    else InsertAll(Insert(t, entries[0].0, entries[0].1), entries[1..])
  }

  function UpdateAll<T>(m: map<string, T>, entries: seq<(string, T)>): map<string, T>
    decreases entries
  {
    if entries == [] then m
    else UpdateAll(m[entries[0].0 := entries[0].1], entries[1..])
  }

  lemma {:induction false} InsertAllRefinesMap<T>(t: Tree<T>, entries: seq<(string, T)>)
    requires CanonicalRoot(t)
    ensures CanonicalRoot(InsertAll(t, entries))
    ensures Contents(InsertAll(t, entries)) == UpdateAll(Contents(t), entries)
    decreases entries
  {
    if entries != [] {
      InsertRefinesMap(t, entries[0].0, entries[0].1);
      InsertAllRefinesMap(Insert(t, entries[0].0, entries[0].1), entries[1..]);
    }
  }

  /** Whatever the order of the inserts, equal contents mean an equal trie. */
  lemma BuildOrderIsInvisible<T(!new)>(xs: seq<(string, T)>, ys: seq<(string, T)>)
    ensures InsertAll<T>(EmptyTree(), xs) == InsertAll(EmptyTree(), ys)
            <==> UpdateAll<T>(map[], xs) == UpdateAll(map[], ys)
  {
    EmptyContents<T>();
    InsertAllRefinesMap<T>(EmptyTree(), xs);
    InsertAllRefinesMap<T>(EmptyTree(), ys);
    CanonicalFormIsUnique<T>(InsertAll(EmptyTree(), xs), InsertAll(EmptyTree(), ys));
  }

  /** Every finite map comes about by updates. */
  lemma {:induction false} EntriesOf<T>(base: map<string, T>, m: map<string, T>) returns (entries: seq<(string, T)>)
    ensures UpdateAll(base, entries) == base + m
    decreases m.Keys
  {
    if m.Keys == {} {
      entries := [];
      assert base + m == base;
    } else {
      var k :| k in m.Keys;
      var rest := EntriesOf(base[k := m[k]], m - {k});
      entries := [(k, m[k])] + rest;
      assert base[k := m[k]] + (m - {k}) == base + m;
      assert entries[1..] == rest;
    }
  }

  /** The canonical tries are exactly those that inserts can build. */
  lemma CanonicalIffReachable<T(!new)>(t: Tree<T>)
    ensures CanonicalRoot(t) <==> exists entries :: t == InsertAll(EmptyTree(), entries)
  {
    EmptyContents<T>();
    if CanonicalRoot(t) {
      var entries := EntriesOf(map[], Contents(t));
      InsertAllRefinesMap(EmptyTree(), entries);
      assert map[] + Contents(t) == Contents(t);
      CanonicalFormIsUnique(t, InsertAll(EmptyTree(), entries));
    }
    forall entries | t == InsertAll(EmptyTree(), entries) ensures CanonicalRoot(t) {
      InsertAllRefinesMap<T>(EmptyTree(), entries);
    }
  }

  lemma EmptyContents<T>()
    ensures CanonicalRoot<T>(EmptyTree()) && Contents<T>(EmptyTree()) == map[]
  {
    assert Keys<T>(EmptyTree()) == {};
  }

  /** Inserts of distinct keys commute, as trees. */
  lemma InsertsCommute<T(!new)>(t: Tree<T>, k1: string, v1: T, k2: string, v2: T)
    requires CanonicalRoot(t) && k1 != k2
    ensures Insert(Insert(t, k1, v1), k2, v2) == Insert(Insert(t, k2, v2), k1, v1)
  {
    var a := InsertTwo(t, k1, v1, k2, v2);
    var b := InsertTwo(t, k2, v2, k1, v1);
    UpdatesCommute(Contents(t), k1, v1, k2, v2);
    CanonicalFormIsUnique(a, b);
  }

  lemma UpdatesCommute<K, T>(m: map<K, T>, k1: K, v1: T, k2: K, v2: T)
    requires k1 != k2
    ensures m[k1 := v1][k2 := v2] == m[k2 := v2][k1 := v1]
  {
  }

  lemma InsertTwo<T>(t: Tree<T>, k1: string, v1: T, k2: string, v2: T) returns (r: Tree<T>)
    requires CanonicalRoot(t)
    ensures r == Insert(Insert(t, k1, v1), k2, v2) && CanonicalRoot(r)
    ensures Contents(r) == Contents(t)[k1 := v1][k2 := v2]
  {
    InsertCanonical(t, k1, v1);
    InsertRefinesMap(t, k1, v1);
    InsertCanonical(Insert(t, k1, v1), k2, v2);
    InsertRefinesMap(Insert(t, k1, v1), k2, v2);
    r := Insert(Insert(t, k1, v1), k2, v2);
  }

  // ---------- size ----------

  ghost function Sum(cs: set<char>, f: map<char, nat>): nat
    requires cs <= f.Keys
  {
    if cs == {} then 0 else
      var c := Pick(cs);
      f[c] + Sum(cs - {c}, f)
  }

  ghost function Pick(cs: set<char>): (c: char)
    requires cs != {}
    ensures c in cs
  {
    var c :| c in cs; c
  }

  ghost function NodeCounts<T>(t: Tree<T>): map<char, nat>
    decreases t, 0
  {
    map c | c in t.children :: NodeCount(t.children[c])
  }

  ghost function NodeCount<T>(t: Tree<T>): nat
    decreases t, 1
  {
    1 + Sum(t.children.Keys, NodeCounts(t))
  }

  ghost function KeyCounts<T>(t: Tree<T>): map<char, nat> {
    map c | c in t.children :: |Keys(t.children[c])|
  }

  lemma {:induction false} PrefixedCardinality(p: string, s: set<string>)
    ensures |Prefixed(p, s)| == |s|
    decreases s
  {
    if s == {} {
      assert Prefixed(p, s) == {};
    } else {
      var y :| y in s;
      PrefixedCardinality(p, s - {y});
      assert (p + y)[|p|..] == y;
      forall k ensures k in Prefixed(p, s) <==> k in Prefixed(p, s - {y}) + {p + y} {
        assert p <= k ==> k == p + k[|p|..];
      }
      assert Prefixed(p, s) == Prefixed(p, s - {y}) + {p + y};
    }
  }

  lemma {:induction false} KeysBelowCardinality<T>(t: Tree<T>, cs: set<char>)
    requires Canonical(t) && cs <= t.children.Keys
    ensures |KeysBelow(t, cs)| == Sum(cs, KeyCounts(t))
    decreases cs
  {
    if cs == {} {
      assert KeysBelow(t, cs) == {};
    } else {
      var c := Pick(cs);
      KeysBelowCardinality(t, cs - {c});
      PrefixedCardinality(t.children[c].prefix, Keys(t.children[c]));
      KeysBelowSplit(t, cs, c);
    }
  }

  lemma KeysBelowSplit<T>(t: Tree<T>, cs: set<char>, c: char)
    requires Canonical(t) && c in cs && cs <= t.children.Keys
    ensures KeysBelow(t, cs) == KeysBelow(t, cs - {c}) + KeysVia(t.children[c])
    ensures KeysBelow(t, cs - {c}) !! KeysVia(t.children[c])
  {
    forall d, k | d in t.children && k in KeysVia(t.children[d]) ensures k != "" && k[0] == d {
      KeysViaStart(t, d, k);
    }
  }

  lemma {:induction false} ChildSums(cs: set<char>, nodes: map<char, nat>, keys: map<char, nat>)
    requires cs <= nodes.Keys && cs <= keys.Keys
    requires forall c | c in cs :: nodes[c] + 1 <= 2 * keys[c]
    ensures Sum(cs, nodes) + |cs| <= 2 * Sum(cs, keys)
    decreases cs
  {
    if cs != {} {
      ChildSums(cs - {Pick(cs)}, nodes, keys);
    }
  }

  lemma {:induction false} NodesBelow<T>(t: Tree<T>)
    requires Canonical(t)
    ensures NodeCount(t) - 1 + |t.children| <= 2 * |KeysBelow(t, t.children.Keys)|
    ensures Compressed(t) ==> NodeCount(t) + 1 <= 2 * |Keys(t)|
    decreases t
  {
    forall c | c in t.children ensures NodeCounts(t)[c] + 1 <= 2 * KeyCounts(t)[c] {
      NodesBelow(t.children[c]);
    }
    ChildSums(t.children.Keys, NodeCounts(t), KeyCounts(t));
    KeysBelowCardinality(t, t.children.Keys);
    assert |t.children.Keys| == |t.children|;
    RootKeyIsExtra(t);
  }

  lemma RootKeyIsExtra<T>(t: Tree<T>)
    requires Canonical(t)
    ensures |Keys(t)| == |KeysBelow(t, t.children.Keys)| + if t.isLeaf then 1 else 0
  {
    forall c | c in t.children && "" in KeysVia(t.children[c]) ensures false {
      KeysViaStart(t, c, "");
    }
    assert "" !in KeysBelow(t, t.children.Keys);
  }

  /** A trie with K >= 1 keys has at most 2K nodes, the root included. */
  lemma AtMostTwoNodesPerKey<T>(t: Tree<T>)
    requires CanonicalRoot(t) && Contents(t) != map[]
    ensures NodeCount(t) <= 2 * |Contents(t)|
  {
    NodesBelow(t);
    RootKeyIsExtra(t);
    assert |Contents(t)| == |Keys(t)| by {
      assert Contents(t).Keys == Keys(t);
    }
    if t.children.Keys == {} {
      assert KeysBelow(t, t.children.Keys) == {};
    }
  }
}
