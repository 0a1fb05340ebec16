/**
 The abstract value of the multi-way search tree of BPlusTreeDatabaseIndex.ts, the functions that
 `splitChild`, `insertNonFull`, `insert` and `search` compute on it, and what holds after every
 sequence of inserts. Keys are integers, standing for any totally ordered key type.
 */
module BTree {
  import opened Options

  datatype Tree<V> = Node(isLeaf: bool, keys: seq<int>, values: seq<V>, children: seq<Tree<V>>)

  // ---------- positions in a key sequence ----------

  ghost predicate Sorted(s: seq<int>) {
    forall i, j | 0 <= i <= j < |s| :: s[i] <= s[j]
  }

  ghost predicate StrictlySorted(s: seq<int>) {
    forall i, j | 0 <= i < j < |s| :: s[i] < s[j]
  }

  /** Where the scan of `insertNonFull`, from the right while the key is smaller, stops. */
  function RightScan(keys: seq<int>, key: int): (p: nat)
    ensures p <= |keys|
    ensures p > 0 ==> keys[p - 1] <= key
    ensures forall i | p <= i < |keys| :: key < keys[i]
  {
    if keys != [] && key < keys[|keys| - 1] then RightScan(keys[..|keys| - 1], key) else |keys|
  }

  /** Where the scan of `search`, from the left while the key is not smaller, stops. */
  function LeftScan(keys: seq<int>, key: int): (p: nat)
    ensures p <= |keys|
    ensures p < |keys| ==> key < keys[p]
    ensures forall i | 0 <= i < p :: keys[i] <= key
  {
    if keys != [] && key >= keys[0] then 1 + LeftScan(keys[1..], key) else 0
  }

  lemma {:induction false} LeftScanIsUnique(keys: seq<int>, key: int, p: nat)
    requires p <= |keys| && (forall i | 0 <= i < p :: keys[i] <= key) && (p < |keys| ==> key < keys[p])
    ensures LeftScan(keys, key) == p
  {
    if keys != [] && p > 0 {
      assert keys[0] <= key;
      LeftScanIsUnique(keys[1..], key, p - 1);
    }
  }

  lemma {:induction false} RightScanIsUnique(keys: seq<int>, key: int, p: nat)
    requires p <= |keys| && (p > 0 ==> keys[p - 1] <= key) && (forall i | p <= i < |keys| :: key < keys[i])
    ensures RightScan(keys, key) == p
  {
    if p < |keys| {
      assert key < keys[|keys| - 1];
      RightScanIsUnique(keys[..|keys| - 1], key, p);
    }
  }

  function InsertAt<T>(s: seq<T>, p: nat, x: T): seq<T>
    requires p <= |s|
  {
    s[..p] + [x] + s[p..]
  }

  lemma InsertAtBeforeLast<T>(s: seq<T>, p: nat, x: T)
    requires p < |s|
    ensures InsertAt(s[..|s| - 1], p, x) + [s[|s| - 1]] == InsertAt(s, p, x)
  {
    assert s == s[..|s| - 1] + [s[|s| - 1]];
  }

  /** Insertion into a sorted sequence. */
  function SortedInsert(s: seq<int>, key: int): seq<int> {
    var n := |s| - 1;
    if s != [] && key < s[n] then SortedInsert(s[..n], key) + [s[n]] else s + [key]
  }

  lemma {:induction false} SortedInsertIsInsertAt(s: seq<int>, key: int)
    ensures SortedInsert(s, key) == InsertAt(s, RightScan(s, key), key)
    decreases |s|
  {
    var n := |s| - 1;
    if s != [] && key < s[n] {
      SortedInsertIsInsertAt(s[..n], key);
      InsertAtBeforeLast(s, RightScan(s[..n], key), key);
    }
  }

  /** The keys around place `p` are not in the way of the key. */
  ghost predicate IsPlace(s: seq<int>, p: nat, key: int) {
    p <= |s| && (p > 0 ==> s[p - 1] <= key) && (p < |s| ==> key <= s[p])
  }

  /** Among sorted keys, all places for a key come to the same. */
  lemma AnyPlaceWillDo(s: seq<int>, p: nat, key: int)
    requires Sorted(s) && IsPlace(s, p, key)
    ensures InsertAt(s, p, key) == SortedInsert(s, key)
  {
    SortedInsertIsInsertAt(s, key);
    var r := RightScan(s, key);
    forall j | p <= j < r ensures s[j] == key {
      assert s[p] <= s[j] <= s[r - 1];
    }
    SameInsert(s, p, r, key);
  }

  lemma SameInsert(s: seq<int>, p: nat, r: nat, key: int)
    requires p <= r <= |s| && forall j | p <= j < r :: s[j] == key
    ensures InsertAt(s, p, key) == InsertAt(s, r, key)
  {
  }

  lemma PlaceInside(a: seq<int>, x: seq<int>, b: seq<int>, p: nat, key: int)
    requires IsPlace(x, p, key) && (a != [] ==> a[|a| - 1] <= key) && (b != [] ==> key <= b[0])
    ensures IsPlace(a + x + b, |a| + p, key) && InsertAt(a + x + b, |a| + p, key) == a + InsertAt(x, p, key) + b
  {
    var s := a + x + b;
    assert p > 0 ==> s[|a| + p - 1] == x[p - 1];
    assert p < |x| ==> s[|a| + p] == x[p];
    InsertInside(a, x, b, p, key);
  }

  lemma InsertInside<T>(a: seq<T>, x: seq<T>, b: seq<T>, p: nat, y: T)
    requires p <= |x|
    ensures InsertAt(a + x + b, |a| + p, y) == a + InsertAt(x, p, y) + b
  {
    var s := a + x + b;
    assert s[..|a| + p] == a + x[..p] && s[|a| + p..] == x[p..] + b;
  }

  lemma Regroup<T>(a: seq<T>, b: seq<T>, c: seq<T>, d: seq<T>)
    ensures a + (b + c) + d == (a + b) + (c + d)
    ensures a + (b + c) == a + b + c
  {
  }

  lemma {:induction false} SortedInsertElements(s: seq<int>, key: int)
    ensures multiset(SortedInsert(s, key)) == multiset(s) + multiset{key}
    ensures forall x :: x in SortedInsert(s, key) <==> x in s || x == key
    decreases |s|
  {
    var n := |s| - 1;
    if s != [] && key < s[n] {
      SortedInsertElements(s[..n], key);
      assert s == s[..n] + [s[n]];
    }
  }

  lemma SortedSnoc(s: seq<int>, x: int)
    requires Sorted(s) && forall y | y in s :: y <= x
    ensures Sorted(s + [x])
    ensures StrictlySorted(s) && x !in s ==> StrictlySorted(s + [x])
  {
    assert forall i | 0 <= i < |s| :: s[i] in s;
  }

  lemma LastIsLargest(s: seq<int>)
    requires Sorted(s) && s != []
    ensures forall y | y in s :: y <= s[|s| - 1]
    ensures Sorted(s[..|s| - 1]) && (StrictlySorted(s) ==> StrictlySorted(s[..|s| - 1]) && s[|s| - 1] !in s[..|s| - 1])
  {
  }

  lemma {:induction false} SortedInsertKeeps(s: seq<int>, key: int)
    requires Sorted(s)
    ensures Sorted(SortedInsert(s, key))
    ensures StrictlySorted(s) && key !in s ==> StrictlySorted(SortedInsert(s, key))
    decreases |s|
  {
    var n := |s| - 1;
    if s == [] {
      SortedSnoc(s, key);
    } else {
      LastIsLargest(s);
      if key < s[n] {
        SortedInsertKeeps(s[..n], key);
        SortedInsertElements(s[..n], key);
        SortedSnoc(SortedInsert(s[..n], key), s[n]);
      } else {
        SortedSnoc(s, key);
      }
    }
  }

  lemma InsertAtElements<T>(s: seq<T>, p: nat, x: T)
    requires p <= |s|
    ensures multiset(InsertAt(s, p, x)) == multiset(s) + multiset{x}
    ensures |InsertAt(s, p, x)| == |s| + 1
  {
    assert s == s[..p] + s[p..];
  }

  // ---------- the operations ----------

  /** The first `n` elements, or all, as `splice` and `slice` take them. */
  function Take<T>(s: seq<T>, n: nat): seq<T> {
    if n <= |s| then s[..n] else s
  }

  function Drop<T>(s: seq<T>, n: nat): seq<T> {
    if n <= |s| then s[n..] else []
  }

  function SplitLeft<V>(child: Tree<V>, order: nat): Tree<V>
    requires 1 <= order <= |child.keys|
  {
    var c := child.(keys := child.keys[..order - 1]);
    if child.isLeaf then c.(values := Take(child.values, order - 1)) else c.(children := Take(child.children, order))
  }

  function SplitRight<V>(child: Tree<V>, order: nat): Tree<V>
    requires 1 <= order <= |child.keys|
  {
    if child.isLeaf then Node(true, child.keys[order..], Drop(child.values, order - 1), [])
    else Node(false, child.keys[order..], [], Drop(child.children, order))
  }

  /** Splits child `i`; its median key moves up, out of the child. */
  function SplitChild<V>(parent: Tree<V>, i: nat, order: nat): Tree<V>
    requires i < |parent.children| && i <= |parent.keys|
    requires 1 <= order <= |parent.children[i].keys|
  {
    var child := parent.children[i];
    parent.(keys := InsertAt(parent.keys, i, child.keys[order - 1]),
            children := parent.children[..i] + [SplitLeft(child, order), SplitRight(child, order)] + parent.children[i + 1..])
  }

  /** So many keys do not make a node split. */
  predicate FitsNode(order: nat, n: nat) {
    order == 0 || n <= 2 * order - 1
  }

  /**
   All leaves at depth `h`, at most 2·order-1 keys a node, at least order-1 in a node that has a parent. An index
   of order 0 never splits, so it stays a single leaf of any size.
   */
  ghost predicate WellFormed<V>(t: Tree<V>, h: nat, order: nat)
    decreases h
  {
    && FitsNode(order, |t.keys|) && (order == 0 ==> h == 0)
    && (t.isLeaf <==> h == 0)
    && (h == 0 ==> t.children == [] && |t.keys| <= |t.values|)
    && (h > 0 ==> t.values == [] && |t.children| == |t.keys| + 1)
    && (h > 0 ==> forall i | 0 <= i < |t.children| ::
          WellFormed(t.children[i], h - 1, order) && order - 1 <= |t.children[i].keys|)
  }

  ghost predicate Full<V>(t: Tree<V>, order: nat) {
    |t.keys| == 2 * order - 1
  }

  /** An insert below the node finds room, though the node itself may be full if the child that it goes to is not. */
  ghost predicate HasRoom<V>(t: Tree<V>, h: nat, order: nat, key: int)
    requires WellFormed(t, h, order)
  {
    Full(t, order) ==> h > 0 && !Full(t.children[RightScan(t.keys, key)], order)
  }

  ghost predicate HasRoomForAll<V>(t: Tree<V>, h: nat, order: nat)
    requires WellFormed(t, h, order)
  {
    forall key :: HasRoom(t, h, order, key)
  }

  lemma SplitChildWellFormed<V>(t: Tree<V>, h: nat, order: nat, i: nat)
    requires h > 0 && WellFormed(t, h, order) && !Full(t, order)
    requires i < |t.children| && Full(t.children[i], order)
    ensures var r := SplitChild(t, i, order);
            && WellFormed(r, h, order)
            && !Full(r.children[i], order) && !Full(r.children[i + 1], order)
  {
    var child := t.children[i];
    assert WellFormed(child, h - 1, order);
    var left, right := SplitLeft(child, order), SplitRight(child, order);
    assert WellFormed(left, h - 1, order) && WellFormed(right, h - 1, order);
    var r := SplitChild(t, i, order);
    forall j | 0 <= j < |r.children| ensures WellFormed(r.children[j], h - 1, order) && order - 1 <= |r.children[j].keys| {
      if j < i {
        assert r.children[j] == t.children[j];
      } else if j > i + 1 {
        assert r.children[j] == t.children[j - 1];
      }
    }
  }

  function WithChild<V>(t: Tree<V>, i: nat, child: Tree<V>): Tree<V>
    requires i < |t.children|
  {
    t.(children := t.children[i := child])
  }

  lemma WithChildWellFormed<V>(t: Tree<V>, h: nat, order: nat, i: nat, child: Tree<V>)
    requires h > 0 && WellFormed(t, h, order) && i < |t.children|
    requires WellFormed(child, h - 1, order) && order - 1 <= |child.keys|
    ensures WellFormed(WithChild(t, i, child), h, order)
  {
  }

  function InsertIntoLeaf<V>(t: Tree<V>, key: int, value: V): Tree<V>
    requires |t.keys| <= |t.values|
  {
    var p := RightScan(t.keys, key);
    t.(keys := InsertAt(t.keys, p, key), values := InsertAt(t.values, p, value))
  }

  /** The node in which the walk of `insertNonFull` goes on, with its full child split on the way. */
  function MakeRoom<V>(t: Tree<V>, h: nat, order: nat, key: int): (r: (Tree<V>, nat))
    requires h > 0 && WellFormed(t, h, order) && HasRoom(t, h, order, key)
    ensures WellFormed(r.0, h, order) && r.1 < |r.0.children| && !Full(r.0.children[r.1], order)
  {
    var i := RightScan(t.keys, key);
    if |t.children[i].keys| == 2 * order - 1 then
      SplitChildWellFormed(t, h, order, i);
      var s := SplitChild(t, i, order);
      (s, if key > s.keys[i] then i + 1 else i)
    else (t, i)
  }

  function InsertNonFull<V>(t: Tree<V>, h: nat, order: nat, key: int, value: V): (r: Tree<V>)
    requires WellFormed(t, h, order) && HasRoom(t, h, order, key)
    ensures WellFormed(r, h, order) && |t.keys| <= |r.keys|
    decreases h
  {
    if t.isLeaf then InsertIntoLeaf(t, key, value)
    else
      var (s, i) := MakeRoom(t, h, order, key);
      var child := InsertNonFull(s.children[i], h - 1, order, key, value);
      WithChild(s, i, child)
  }

  ghost predicate IsRoot<V>(t: Tree<V>, h: nat, order: nat) {
    WellFormed(t, h, order) && (h > 0 ==> t.keys != [])
  }

  /** A full root is put below a new root and split. */
  function Raise<V>(root: Tree<V>, h: nat, order: nat): (r: Tree<V>)
    requires WellFormed(root, h, order) && |root.keys| == 2 * order - 1
    ensures WellFormed(r, h + 1, order) && |r.keys| == 1 && HasRoomForAll(r, h + 1, order)
  {
    var s := Node(false, [], [], [root]);
    assert WellFormed(s, h + 1, order);
    SplitChildWellFormed(s, h + 1, order, 0);
    SplitChild(s, 0, order)
  }

  /** An insert through a full root. */
  function InsertAbove<V>(root: Tree<V>, h: nat, order: nat, key: int, value: V): (r: Tree<V>)
    requires WellFormed(root, h, order) && |root.keys| == 2 * order - 1
    ensures WellFormed(r, h + 1, order) && r.keys != []
  {
    InsertNonFull(Raise(root, h, order), h + 1, order, key, value)
  }

  /** The new root and the new height. */
  function Insert<V>(root: Tree<V>, h: nat, order: nat, key: int, value: V): (r: (Tree<V>, nat))
    requires IsRoot(root, h, order)
    ensures IsRoot(r.0, r.1, order)
  {
    if |root.keys| == 2 * order - 1 then (InsertAbove(root, h, order, key, value), h + 1)
    else (InsertNonFull(root, h, order, key, value), h)
  }

  // ---------- the keys in order ----------

  /** All keys, of inner nodes too, from left to right. */
  function InOrder<V>(t: Tree<V>): seq<int>
    decreases t, 1
  {
    if t.children == [] then t.keys else InOrder(t.children[0]) + KeysAfter(t.keys, t.children[1..])
  }

  /** Each key followed by the keys of the child to its right. */
  function KeysAfter<V>(keys: seq<int>, children: seq<Tree<V>>): seq<int>
    decreases children, 0
  {
    if keys == [] || children == [] then []
    else [keys[0]] + InOrder(children[0]) + KeysAfter(keys[1..], children[1..])
  }

  /** Each key preceded by the keys of the child to its left. */
  function KeysBefore<V>(children: seq<Tree<V>>, keys: seq<int>): seq<int>
    requires |keys| == |children|
  {
    if keys == [] then []
    else
      var n := |keys| - 1;
      KeysBefore(children[..n], keys[..n]) + InOrder(children[n]) + [keys[n]]
  }

  ghost function Before<V>(t: Tree<V>, i: nat): seq<int>
    requires i <= |t.children| && i <= |t.keys|
  {
    KeysBefore(t.children[..i], t.keys[..i])
  }

  ghost function After<V>(t: Tree<V>, i: nat): seq<int>
    requires i < |t.children| && i <= |t.keys|
  {
    KeysAfter(t.keys[i..], t.children[i + 1..])
  }

  lemma BeforeNext<V>(t: Tree<V>, i: nat)
    requires i < |t.children| && i < |t.keys|
    ensures Before(t, i + 1) == Before(t, i) + InOrder(t.children[i]) + [t.keys[i]]
  {
    assert t.children[..i + 1][..i] == t.children[..i] && t.keys[..i + 1][..i] == t.keys[..i];
  }

  lemma AfterNext<V>(t: Tree<V>, i: nat)
    requires i + 1 < |t.children| && i < |t.keys|
    ensures After(t, i) == [t.keys[i]] + InOrder(t.children[i + 1]) + After(t, i + 1)
  {
    assert t.keys[i..][1..] == t.keys[i + 1..] && t.children[i + 1..][1..] == t.children[i + 2..];
  }

  /** The keys to the left of child `i`, its own, and the keys to its right. */
  lemma {:induction false} InOrderAround<V>(t: Tree<V>, i: nat)
    requires |t.children| == |t.keys| + 1 && i <= |t.keys|
    ensures InOrder(t) == Before(t, i) + InOrder(t.children[i]) + After(t, i)
    decreases i
  {
    if i == 0 {
      assert t.keys[0..] == t.keys;
    } else {
      InOrderAround(t, i - 1);
      BeforeNext(t, i - 1);
      AfterNext(t, i - 1);
      Reassociate(Before(t, i - 1), InOrder(t.children[i - 1]), [t.keys[i - 1]], InOrder(t.children[i]), After(t, i));
    }
  }

  lemma Reassociate<T>(a: seq<T>, b: seq<T>, c: seq<T>, d: seq<T>, e: seq<T>)
    ensures a + b + (c + d + e) == (a + b + c) + d + e
    ensures (a + b + c) + d + e == a + (b + c + d) + e
  {
  }

  lemma InOrderOfLeft<V>(child: Tree<V>, order: nat)
    requires 1 <= order <= |child.keys| && |child.children| == |child.keys| + 1 && !child.isLeaf
    ensures InOrder(SplitLeft(child, order)) + [child.keys[order - 1]] == Before(child, order)
  {
    var left := SplitLeft(child, order);
    BeforeNext(child, order - 1);
    InOrderAround(left, order - 1);
    assert left.keys[..order - 1] == child.keys[..order - 1] && left.children[..order - 1] == child.children[..order - 1];
  }

  lemma InOrderOfRight<V>(child: Tree<V>, order: nat)
    requires 1 <= order <= |child.keys| && |child.children| == |child.keys| + 1 && !child.isLeaf
    ensures InOrder(SplitRight(child, order)) == InOrder(child.children[order]) + After(child, order)
  {
    var right := SplitRight(child, order);
    assert right.children[1..] == child.children[order + 1..];
  }

  lemma InOrderOfHalves<V>(child: Tree<V>, h: nat, order: nat)
    requires WellFormed(child, h, order) && Full(child, order)
    ensures InOrder(SplitLeft(child, order)) + [child.keys[order - 1]] + InOrder(SplitRight(child, order)) == InOrder(child)
  {
    if child.isLeaf {
      CutInThree(child.keys, order - 1);
    } else {
      InOrderAround(child, order);
      InOrderOfLeft(child, order);
      InOrderOfRight(child, order);
      Regroup(Before(child, order), InOrder(child.children[order]), After(child, order), []);
    }
  }

  lemma CutInThree<T>(s: seq<T>, i: nat)
    requires i < |s|
    ensures s[..i] + [s[i]] + s[i + 1..] == s
  {
  }

  lemma SplitKeepsSides<V>(t: Tree<V>, order: nat, i: nat)
    requires |t.children| == |t.keys| + 1 && i < |t.children| && 1 <= order <= |t.children[i].keys|
    ensures var r := SplitChild(t, i, order);
            Before(r, i) == Before(t, i) && After(r, i + 1) == After(t, i)
  {
    var r := SplitChild(t, i, order);
    assert r.keys[..i] == t.keys[..i] && r.children[..i] == t.children[..i];
    assert r.keys[i + 1..] == t.keys[i..] && r.children[i + 2..] == t.children[i + 1..];
  }

  /** A split rearranges nodes, not keys. */
  lemma SplitKeepsInOrder<V>(t: Tree<V>, h: nat, order: nat, i: nat)
    requires h > 0 && WellFormed(t, h, order)
    requires i < |t.children| && Full(t.children[i], order)
    ensures InOrder(SplitChild(t, i, order)) == InOrder(t)
  {
    var r, child := SplitChild(t, i, order), t.children[i];
    assert WellFormed(child, h - 1, order);
    InOrderOfHalves(child, h - 1, order);
    SplitKeepsSides(t, order, i);
    InOrderAround(t, i);
    InOrderAround(r, i);
    AfterNext(r, i);
    Reassociate(Before(t, i), InOrder(r.children[i]), [child.keys[order - 1]], InOrder(r.children[i + 1]), After(t, i));
  }

  lemma InOrderWithChild<V>(t: Tree<V>, i: nat, child: Tree<V>)
    requires |t.children| == |t.keys| + 1 && i <= |t.keys|
    ensures InOrder(WithChild(t, i, child)) == Before(t, i) + InOrder(child) + After(t, i)
  {
    var r := WithChild(t, i, child);
    InOrderAround(r, i);
    assert r.children[..i] == t.children[..i] && r.children[i + 1..] == t.children[i + 1..];
  }

  /** The keys beside child `i` are bounded by its neighbouring keys. */
  lemma Separated<V>(t: Tree<V>, i: nat, key: int)
    requires |t.children| == |t.keys| + 1 && i <= |t.keys|
    requires i > 0 ==> t.keys[i - 1] <= key
    requires i < |t.keys| ==> key <= t.keys[i]
    ensures Before(t, i) != [] ==> Before(t, i)[|Before(t, i)| - 1] <= key
    ensures After(t, i) != [] ==> key <= After(t, i)[0]
  {
    if i > 0 {
      BeforeNext(t, i - 1);
    }
    if i < |t.keys| {
      AfterNext(t, i);
    }
  }

  /** A key that is inserted into the keys of a child is inserted into those of the tree. */
  lemma PlaceInTree<V>(t: Tree<V>, i: nat, key: int, child: Tree<V>, p: nat)
    requires IsBetween(t, i, key) && i <= |t.keys| && IsPlace(InOrder(t.children[i]), p, key)
    requires InOrder(child) == InsertAt(InOrder(t.children[i]), p, key)
    ensures IsPlace(InOrder(t), |Before(t, i)| + p, key)
    ensures InOrder(WithChild(t, i, child)) == InsertAt(InOrder(t), |Before(t, i)| + p, key)
  {
    Separated(t, i, key);
    InOrderAround(t, i);
    InOrderWithChild(t, i, child);
    PlaceInside(Before(t, i), InOrder(t.children[i]), After(t, i), p, key);
  }

  /** `after` is `before` with the key at a place for it. */
  ghost predicate IsPut(before: seq<int>, after: seq<int>, p: nat, key: int) {
    IsPlace(before, p, key) && after == InsertAt(before, p, key)
  }

  /** The keys of `r` in order are those of `t` and the key, at a place for it. */
  ghost predicate Adds<V>(t: Tree<V>, r: Tree<V>, key: int) {
    exists p :: IsPut(InOrder(t), InOrder(r), p, key)
  }

  lemma LeafAdds<V>(t: Tree<V>, key: int, value: V)
    requires t.isLeaf && t.children == [] && |t.keys| <= |t.values|
    ensures Adds(t, InsertIntoLeaf(t, key, value), key)
  {
    var r := InsertIntoLeaf(t, key, value);
    assert InOrder(t) == t.keys && InOrder(r) == r.keys;
    assert IsPut(InOrder(t), InOrder(r), RightScan(t.keys, key), key);
  }

  lemma InnerAdds<V>(t: Tree<V>, h: nat, order: nat, key: int, s: Tree<V>, i: nat, child: Tree<V>)
    requires h > 0 && WellFormed(t, h, order) && HasRoom(t, h, order, key) && (s, i) == MakeRoom(t, h, order, key)
    requires Adds(s.children[i], child, key)
    ensures Adds(t, WithChild(s, i, child), key)
  {
    var p :| IsPut(InOrder(s.children[i]), InOrder(child), p, key);
    MakeRoomInOrder(t, h, order, key, s, i);
    PlaceInTree(s, i, key, child, p);
    assert IsPut(InOrder(t), InOrder(WithChild(s, i, child)), |Before(s, i)| + p, key);
  }

  /** Insertion changes the keys in order by the one that it adds. */
  lemma {:induction false} InsertAdds<V>(t: Tree<V>, h: nat, order: nat, key: int, value: V)
    requires WellFormed(t, h, order) && HasRoom(t, h, order, key)
    ensures Adds(t, InsertNonFull(t, h, order, key, value), key)
    decreases h, 1
  {
    if t.isLeaf {
      LeafAdds(t, key, value);
    } else {
      InsertBelowAdds(t, h, order, key, value);
    }
  }

  lemma {:induction false} InsertBelowAdds<V>(t: Tree<V>, h: nat, order: nat, key: int, value: V)
    requires h > 0 && WellFormed(t, h, order) && HasRoom(t, h, order, key)
    ensures Adds(t, InsertNonFull(t, h, order, key, value), key)
    decreases h, 0
  {
    var (s, i) := MakeRoom(t, h, order, key);
    var child := InsertNonFull(s.children[i], h - 1, order, key, value);
    InsertAdds(s.children[i], h - 1, order, key, value);
    InnerAdds(t, h, order, key, s, i, child);
    assert InsertNonFull(t, h, order, key, value) == WithChild(s, i, child);
  }

  /** Insertion puts the key where sorted insertion puts it. */
  lemma InsertNonFullInOrder<V>(t: Tree<V>, h: nat, order: nat, key: int, value: V)
    requires WellFormed(t, h, order) && HasRoom(t, h, order, key)
    requires Sorted(InOrder(t))
    ensures InOrder(InsertNonFull(t, h, order, key, value)) == SortedInsert(InOrder(t), key)
  {
    InsertAdds(t, h, order, key, value);
    var p :| IsPut(InOrder(t), InOrder(InsertNonFull(t, h, order, key, value)), p, key);
    AnyPlaceWillDo(InOrder(t), p, key);
  }

  /** The child is between the keys beside it. */
  ghost predicate IsBetween<V>(s: Tree<V>, i: nat, key: int) {
    |s.children| == |s.keys| + 1 && (i > 0 ==> i - 1 < |s.keys| && s.keys[i - 1] <= key) && (i < |s.keys| ==> key <= s.keys[i])
  }

  /** Beside the promoted key lie the keys that were beside the child. */
  lemma SplitSeparates<V>(t: Tree<V>, order: nat, key: int, i: nat, s: Tree<V>)
    requires |t.children| == |t.keys| + 1 && i == RightScan(t.keys, key) && 1 <= order <= |t.children[i].keys|
    requires s == SplitChild(t, i, order)
    ensures |s.children| == |s.keys| + 1 && i < |s.keys|
    ensures IsBetween(s, if key > s.keys[i] then i + 1 else i, key)
  {
    var promoted := t.children[i].keys[order - 1];
    assert s.keys == InsertAt(t.keys, i, promoted);
    assert s.keys[i] == promoted && (i > 0 ==> s.keys[i - 1] == t.keys[i - 1]);
    assert i + 1 < |s.keys| ==> s.keys[i + 1] == t.keys[i];
  }

  lemma ScanIsBetween<V>(t: Tree<V>, key: int)
    requires |t.children| == |t.keys| + 1
    ensures IsBetween(t, RightScan(t.keys, key), key)
  {
  }

  lemma MakeRoomInOrder<V>(t: Tree<V>, h: nat, order: nat, key: int, s: Tree<V>, i: nat)
    requires h > 0 && WellFormed(t, h, order) && HasRoom(t, h, order, key) && (s, i) == MakeRoom(t, h, order, key)
    ensures InOrder(s) == InOrder(t) && IsBetween(s, i, key)
  {
    var p := RightScan(t.keys, key);
    if |t.children[p].keys| == 2 * order - 1 {
      SplitKeepsInOrder(t, h, order, p);
      SplitSeparates(t, order, key, p, s);
    } else {
      ScanIsBetween(t, key);
    }
  }

  lemma RaiseInOrder<V>(root: Tree<V>, h: nat, order: nat)
    requires WellFormed(root, h, order) && |root.keys| == 2 * order - 1
    ensures InOrder(Raise(root, h, order)) == InOrder(root)
  {
    var s := Node(false, [], [], [root]);
    assert WellFormed(s, h + 1, order);
    SplitKeepsInOrder(s, h + 1, order, 0);
    assert [root][1..] == [];
  }

  lemma InsertInOrder<V>(root: Tree<V>, h: nat, order: nat, key: int, value: V)
    requires IsRoot(root, h, order) && Sorted(InOrder(root))
    ensures InOrder(Insert(root, h, order, key, value).0) == SortedInsert(InOrder(root), key)
  {
    if |root.keys| == 2 * order - 1 {
      RaiseInOrder(root, h, order);
      InsertNonFullInOrder(Raise(root, h, order), h + 1, order, key, value);
    } else {
      InsertNonFullInOrder(root, h, order, key, value);
    }
  }

  // ---------- the values ----------

  /** The values of all leaves from left to right. */
  function AllValues<V>(t: Tree<V>): seq<V>
    decreases t, 1
  {
    if t.isLeaf then t.values else ValuesOf(t.children)
  }

  function ValuesOf<V>(children: seq<Tree<V>>): seq<V>
    decreases children, 0
  {
    if children == [] then [] else AllValues(children[0]) + ValuesOf(children[1..])
  }

  lemma {:induction false} ValuesOfConcat<V>(a: seq<Tree<V>>, b: seq<Tree<V>>)
    ensures ValuesOf(a + b) == ValuesOf(a) + ValuesOf(b)
    decreases |a|
  {
    if a == [] {
      assert a + b == b;
    } else {
      assert (a + b)[1..] == a[1..] + b;
      ValuesOfConcat(a[1..], b);
    }
  }

  lemma ValuesAround<V>(children: seq<Tree<V>>, i: nat)
    requires i < |children|
    ensures ValuesOf(children) == ValuesOf(children[..i]) + AllValues(children[i]) + ValuesOf(children[i + 1..])
  {
    assert children == children[..i] + children[i..];
    ValuesOfConcat(children[..i], children[i..]);
  }

  lemma SplitKeepsValues<V>(t: Tree<V>, h: nat, order: nat, i: nat)
    requires h > 0 && WellFormed(t, h, order)
    requires i < |t.children| && Full(t.children[i], order)
    ensures AllValues(SplitChild(t, i, order)) == AllValues(t)
  {
    var child := t.children[i];
    assert WellFormed(child, h - 1, order);
    var left, right := SplitLeft(child, order), SplitRight(child, order);
    assert AllValues(left) + AllValues(right) == AllValues(child) by {
      if !child.isLeaf {
        assert child.children == child.children[..order] + child.children[order..];
        ValuesOfConcat(child.children[..order], child.children[order..]);
      }
    }
    ValuesAround(t.children, i);
    ValuesOfConcat(t.children[..i] + [left, right], t.children[i + 1..]);
    ValuesOfConcat(t.children[..i], [left, right]);
    ValuesOfTwo(left, right);
  }

  lemma ValuesOfTwo<V>(a: Tree<V>, b: Tree<V>)
    ensures ValuesOf([a, b]) == AllValues(a) + AllValues(b)
  {
    assert [a, b][1..] == [b];
    assert ValuesOf([b]) == AllValues(b) + ValuesOf([b][1..]);
  }

  /** `after` is `before` with one value more, at some place. */
  ghost predicate AddsValue<V>(before: seq<V>, after: seq<V>, value: V) {
    exists p: nat :: p <= |before| && after == InsertAt(before, p, value)
  }

  lemma AddsValueInside<V>(a: seq<V>, before: seq<V>, after: seq<V>, b: seq<V>, value: V)
    requires AddsValue(before, after, value)
    ensures AddsValue(a + before + b, a + after + b, value)
  {
    var p: nat :| p <= |before| && after == InsertAt(before, p, value);
    InsertInside(a, before, b, p, value);
    assert a + after + b == InsertAt(a + before + b, |a| + p, value);
  }

  lemma WithChildValues<V>(t: Tree<V>, i: nat, child: Tree<V>, value: V)
    requires !t.isLeaf && i < |t.children| && AddsValue(AllValues(t.children[i]), AllValues(child), value)
    ensures AddsValue(AllValues(t), AllValues(WithChild(t, i, child)), value)
  {
    var cs := t.children[i := child];
    ValuesAround(t.children, i);
    ValuesAround(cs, i);
    assert cs[..i] == t.children[..i] && cs[i + 1..] == t.children[i + 1..];
    AddsValueInside(ValuesOf(cs[..i]), AllValues(t.children[i]), AllValues(child), ValuesOf(cs[i + 1..]), value);
  }

  lemma MakeRoomValues<V>(t: Tree<V>, h: nat, order: nat, key: int, s: Tree<V>, i: nat)
    requires h > 0 && WellFormed(t, h, order) && HasRoom(t, h, order, key) && (s, i) == MakeRoom(t, h, order, key)
    ensures AllValues(s) == AllValues(t)
  {
    var p := RightScan(t.keys, key);
    if |t.children[p].keys| == 2 * order - 1 {
      SplitKeepsValues(t, h, order, p);
    }
  }

  lemma StepValues<V>(t: Tree<V>, h: nat, order: nat, key: int, s: Tree<V>, i: nat, child: Tree<V>, value: V)
    requires h > 0 && WellFormed(t, h, order) && HasRoom(t, h, order, key) && (s, i) == MakeRoom(t, h, order, key)
    requires AddsValue(AllValues(s.children[i]), AllValues(child), value)
    ensures AddsValue(AllValues(t), AllValues(WithChild(s, i, child)), value)
  {
    MakeRoomValues(t, h, order, key, s, i);
    WithChildValues(s, i, child, value);
  }

  lemma LeafAddsValue<V>(t: Tree<V>, key: int, value: V)
    requires t.isLeaf && |t.keys| <= |t.values|
    ensures AddsValue(AllValues(t), AllValues(InsertIntoLeaf(t, key, value)), value)
  {
    assert AllValues(InsertIntoLeaf(t, key, value)) == InsertAt(AllValues(t), RightScan(t.keys, key), value);
  }

  /** One value is added, and the others keep their order. */
  lemma {:induction false} InsertNonFullValues<V>(t: Tree<V>, h: nat, order: nat, key: int, value: V)
    requires WellFormed(t, h, order) && HasRoom(t, h, order, key)
    ensures AddsValue(AllValues(t), AllValues(InsertNonFull(t, h, order, key, value)), value)
    decreases h
  {
    if t.isLeaf {
      LeafAddsValue(t, key, value);
    } else {
      var (s, i) := MakeRoom(t, h, order, key);
      InsertNonFullValues(s.children[i], h - 1, order, key, value);
      StepValues(t, h, order, key, s, i, InsertNonFull(s.children[i], h - 1, order, key, value), value);
    }
  }

  lemma RaiseValues<V>(root: Tree<V>, h: nat, order: nat)
    requires WellFormed(root, h, order) && |root.keys| == 2 * order - 1
    ensures AllValues(Raise(root, h, order)) == AllValues(root)
  {
    var s := Node(false, [], [], [root]);
    assert WellFormed(s, h + 1, order);
    SplitKeepsValues(s, h + 1, order, 0);
    assert ValuesOf([root]) == AllValues(root) + ValuesOf([root][1..]);
  }

  lemma InsertValues<V>(root: Tree<V>, h: nat, order: nat, key: int, value: V)
    requires IsRoot(root, h, order)
    ensures var before, after := AllValues(root), AllValues(Insert(root, h, order, key, value).0);
            AddsValue(before, after, value) && multiset(after) == multiset(before) + multiset{value}
  {
    if |root.keys| == 2 * order - 1 {
      RaiseValues(root, h, order);
      InsertNonFullValues(Raise(root, h, order), h + 1, order, key, value);
    } else {
      InsertNonFullValues(root, h, order, key, value);
    }
    AddedValue(AllValues(root), AllValues(Insert(root, h, order, key, value).0), value);
  }

  lemma AddedValue<V>(before: seq<V>, after: seq<V>, value: V)
    requires AddsValue(before, after, value)
    ensures multiset(after) == multiset(before) + multiset{value}
  {
    var p: nat :| p <= |before| && after == InsertAt(before, p, value);
    InsertAtElements(before, p, value);
  }

  // ---------- the size of a tree of a given height ----------

  function Pow(b: nat, e: nat): nat {
    if e == 0 then 1 else b * Pow(b, e - 1)
  }

  lemma {:induction false} AfterLength<V>(t: Tree<V>, i: nat, m: nat)
    requires |t.children| == |t.keys| + 1 && i <= |t.keys|
    requires forall j | 0 <= j < |t.children| :: m <= |InOrder(t.children[j])| + 1
    ensures (|t.keys| - i) * m <= |After(t, i)|
    decreases |t.keys| - i
  {
    if i < |t.keys| {
      AfterNext(t, i);
      AfterLength(t, i + 1, m);
      assert (|t.keys| - i) * m == (|t.keys| - (i + 1)) * m + m;
    }
  }

  lemma NodeSize<V>(t: Tree<V>, m: nat, n: nat)
    requires |t.children| == |t.keys| + 1 && n <= |t.children|
    requires forall j | 0 <= j < |t.children| :: m <= |InOrder(t.children[j])| + 1
    ensures n * m <= |InOrder(t)| + 1
  {
    InOrderAround(t, 0);
    AfterLength(t, 0, m);
    MulStep(|t.keys|, m);
    MulMonotone(n, |t.keys| + 1, m);
  }

  lemma MulStep(k: nat, m: nat)
    ensures (k + 1) * m == k * m + m
  {
  }

  lemma MulMonotone(a: nat, b: nat, m: nat)
    requires a <= b
    ensures a * m <= b * m
  {
    assert b * m == a * m + (b - a) * m;
  }

  /** A subtree of height `h` holds at least order^(h+1) - 1 keys. */
  lemma {:induction false} SubtreeSize<V>(t: Tree<V>, h: nat, order: nat)
    requires WellFormed(t, h, order) && order - 1 <= |t.keys|
    ensures Pow(order, h + 1) <= |InOrder(t)| + 1
    decreases h
  {
    if h == 0 {
      assert Pow(order, 1) == order * Pow(order, 0) == order;
    } else {
      forall j | 0 <= j < |t.children| ensures Pow(order, h) <= |InOrder(t.children[j])| + 1 {
        SubtreeSize(t.children[j], h - 1, order);
      }
      NodeSize(t, Pow(order, h), order);
    }
  }

  /** A tree of height h >= 1 holds at least 2·order^h - 1 keys. */
  lemma TreeSize<V>(t: Tree<V>, h: nat, order: nat)
    requires h >= 1 && IsRoot(t, h, order)
    ensures 2 * Pow(order, h) <= |InOrder(t)| + 1
  {
    forall j | 0 <= j < |t.children| ensures Pow(order, h) <= |InOrder(t.children[j])| + 1 {
      SubtreeSize(t.children[j], h - 1, order);
    }
    NodeSize(t, Pow(order, h), 2);
  }

  // ---------- search ----------

  function IndexOf(keys: seq<int>, key: int): (i: nat)
    ensures i <= |keys| && (i < |keys| ==> keys[i] == key)
    ensures forall j | 0 <= j < i :: keys[j] != key
  {
    if keys == [] || keys[0] == key then 0 else 1 + IndexOf(keys[1..], key)
  }

  lemma IndexOfIsUnique(keys: seq<int>, key: int, i: nat)
    requires i <= |keys| && (i < |keys| ==> keys[i] == key) && forall j | 0 <= j < i :: keys[j] != key
    ensures IndexOf(keys, key) == i
  {
  }

  function SearchLeaf<V>(keys: seq<int>, values: seq<V>, key: int): Option<V>
    requires |keys| <= |values|
  {
    var i := IndexOf(keys, key);
    if i < |keys| then Some(values[i]) else None
  }

  function Search<V>(t: Tree<V>, h: nat, order: nat, key: int): Option<V>
    requires WellFormed(t, h, order)
    decreases h
  {
    if t.isLeaf then SearchLeaf(t.keys, t.values, key)
    else Search(t.children[LeftScan(t.keys, key)], h - 1, order, key)
  }

  ghost predicate InLeaf<V>(t: Tree<V>, key: int) {
    if t.isLeaf then key in t.keys else exists i | 0 <= i < |t.children| :: InLeaf(t.children[i], key)
  }

  ghost predicate InInner<V>(t: Tree<V>, key: int) {
    !t.isLeaf && (key in t.keys || exists i | 0 <= i < |t.children| :: InInner(t.children[i], key))
  }

  lemma {:induction false} KeyInBefore<V>(t: Tree<V>, i: nat, j: nat)
    requires |t.children| == |t.keys| + 1 && i < j <= |t.keys|
    ensures t.keys[i] in Before(t, j)
    decreases j
  {
    BeforeNext(t, j - 1);
    if i < j - 1 {
      KeyInBefore(t, i, j - 1);
    } else {
      assert Before(t, j)[|Before(t, j)| - 1] == t.keys[i];
    }
  }

  /** What is below child `j` lies strictly between the keys beside it. */
  lemma ChildRange<V>(t: Tree<V>, j: nat, x: int)
    requires |t.children| == |t.keys| + 1 && j <= |t.keys| && StrictlySorted(InOrder(t))
    requires x in InOrder(t.children[j])
    ensures forall i | 0 <= i < j :: t.keys[i] < x
    ensures j < |t.keys| ==> x < t.keys[j]
    ensures StrictlySorted(InOrder(t.children[j]))
  {
    var a, m, b := Before(t, j), InOrder(t.children[j]), After(t, j);
    InOrderAround(t, j);
    var s := a + m + b;
    var k :| 0 <= k < |m| && m[k] == x;
    assert s[|a| + k] == x;
    forall i | 0 <= i < j ensures t.keys[i] < x {
      KeyInBefore(t, i, j);
      var l :| 0 <= l < |a| && a[l] == t.keys[i];
      assert s[l] == a[l];
    }
    if j < |t.keys| {
      AfterNext(t, j);
      assert s[|a| + |m|] == t.keys[j];
    }
    StrictInfix(a, m, b);
  }

  lemma StrictInfix(a: seq<int>, x: seq<int>, b: seq<int>)
    requires StrictlySorted(a + x + b)
    ensures StrictlySorted(x)
  {
    var s := a + x + b;
    assert forall i | 0 <= i < |x| :: x[i] == s[|a| + i];
  }

  lemma {:induction false} LeafKeysAreKeys<V>(t: Tree<V>, h: nat, order: nat, key: int)
    requires WellFormed(t, h, order) && InLeaf(t, key)
    ensures key in InOrder(t)
    decreases h
  {
    if !t.isLeaf {
      var i :| 0 <= i < |t.children| && InLeaf(t.children[i], key);
      LeafKeysAreKeys(t.children[i], h - 1, order, key);
      InOrderAround(t, i);
    }
  }

  /** With distinct keys, `search` finds exactly the keys that sit in a leaf. */
  lemma {:induction false} SearchFindsLeafKeys<V>(t: Tree<V>, h: nat, order: nat, key: int)
    requires WellFormed(t, h, order) && StrictlySorted(InOrder(t))
    ensures Search(t, h, order, key).Some? <==> InLeaf(t, key)
    decreases h
  {
    if !t.isLeaf {
      var p := LeftScan(t.keys, key);
      forall i | 0 <= i < |t.children| && InLeaf(t.children[i], key) ensures i == p {
        LeafKeysAreKeys(t.children[i], h - 1, order, key);
        ChildRange(t, i, key);
      }
      ChildStrict(t, p);
      SearchFindsLeafKeys(t.children[p], h - 1, order, key);
    }
  }

  lemma ChildStrict<V>(t: Tree<V>, j: nat)
    requires |t.children| == |t.keys| + 1 && j <= |t.keys| && StrictlySorted(InOrder(t))
    ensures StrictlySorted(InOrder(t.children[j]))
  {
    InOrderAround(t, j);
    StrictInfix(Before(t, j), InOrder(t.children[j]), After(t, j));
  }

  lemma {:induction false} InnerKeysAreKeys<V>(t: Tree<V>, h: nat, order: nat, key: int)
    requires WellFormed(t, h, order) && InInner(t, key)
    ensures key in InOrder(t)
    decreases h
  {
    if key in t.keys {
      var i :| 0 <= i < |t.keys| && t.keys[i] == key;
      KeyInBefore(t, i, |t.keys|);
      InOrderAround(t, |t.keys|);
    } else {
      var i :| 0 <= i < |t.children| && InInner(t.children[i], key);
      InnerKeysAreKeys(t.children[i], h - 1, order, key);
      InOrderAround(t, i);
    }
  }

  /** A key that was promoted to an inner node is in no leaf. */
  lemma {:induction false} InnerKeysAreNotInLeaves<V>(t: Tree<V>, h: nat, order: nat, key: int)
    requires WellFormed(t, h, order) && StrictlySorted(InOrder(t)) && InInner(t, key)
    ensures !InLeaf(t, key)
    decreases h
  {
    forall j | 0 <= j < |t.children| ensures !InLeaf(t.children[j], key) {
      if InLeaf(t.children[j], key) {
        LeafKeysAreKeys(t.children[j], h - 1, order, key);
        InnerKeyBelow(t, h, order, key, j);
        ChildStrict(t, j);
        InnerKeysAreNotInLeaves(t.children[j], h - 1, order, key);
      }
    }
  }

  lemma {:induction false} InnerKeyBelow<V>(t: Tree<V>, h: nat, order: nat, key: int, j: nat)
    requires h > 0 && WellFormed(t, h, order) && StrictlySorted(InOrder(t)) && InInner(t, key)
    requires j < |t.children| && key in InOrder(t.children[j])
    ensures InInner(t.children[j], key)
  {
    ChildRange(t, j, key);
    if key in t.keys {
      var i :| 0 <= i < |t.keys| && t.keys[i] == key;
      KeysStrict(t, j, i);
    } else {
      var i :| 0 <= i < |t.children| && InInner(t.children[i], key);
      InnerKeysAreKeys(t.children[i], h - 1, order, key);
      ChildRange(t, i, key);
    }
  }

  lemma KeysStrict<V>(t: Tree<V>, i: nat, j: nat)
    requires |t.children| == |t.keys| + 1 && i < j < |t.keys| && StrictlySorted(InOrder(t))
    ensures t.keys[i] < t.keys[j]
  {
    KeyInBefore(t, i, j);
    BeforeNext(t, j);
    InOrderAround(t, j + 1);
    var a := Before(t, j + 1);
    var l :| 0 <= l < |Before(t, j)| && Before(t, j)[l] == t.keys[i];
    assert InOrder(t)[l] == a[l] && InOrder(t)[|a| - 1] == a[|a| - 1];
  }

  // ---------- what search answers ----------

  /** The leaves from left to right. */
  function Leaves<V>(t: Tree<V>): seq<Tree<V>>
    decreases t, 1
  {
    if t.isLeaf then [t] else LeavesOf(t.children)
  }

  function LeavesOf<V>(children: seq<Tree<V>>): seq<Tree<V>>
    decreases children, 0
  {
    if children == [] then [] else Leaves(children[0]) + LeavesOf(children[1..])
  }

  lemma {:induction false} ChildOfLeaf<V>(children: seq<Tree<V>>, leaf: Tree<V>) returns (j: nat)
    requires leaf in LeavesOf(children)
    ensures j < |children| && leaf in Leaves(children[j])
    decreases |children|
  {
    if leaf in Leaves(children[0]) {
      j := 0;
    } else {
      j := ChildOfLeaf(children[1..], leaf);
      j := j + 1;
    }
  }

  lemma {:induction false} LeafKeysAreFound<V>(t: Tree<V>, h: nat, order: nat, leaf: Tree<V>, i: nat)
    requires WellFormed(t, h, order) && leaf in Leaves(t) && i < |leaf.keys|
    ensures InLeaf(t, leaf.keys[i]) && |leaf.keys| <= |leaf.values|
    decreases h
  {
    if !t.isLeaf {
      var j := ChildOfLeaf(t.children, leaf);
      LeafKeysAreFound(t.children[j], h - 1, order, leaf, i);
    }
  }

  /** With distinct keys, `search` answers the `i`-th key of a leaf with the `i`-th value of the leaf. */
  lemma {:induction false} LeafAnswers<V>(t: Tree<V>, h: nat, order: nat, leaf: Tree<V>, i: nat)
    requires WellFormed(t, h, order) && StrictlySorted(InOrder(t)) && leaf in Leaves(t) && i < |leaf.keys|
    ensures i < |leaf.values| && Search(t, h, order, leaf.keys[i]) == Some(leaf.values[i])
    decreases h
  {
    LeafKeysAreFound(t, h, order, leaf, i);
    if t.isLeaf {
      StrictIndexOf(t.keys, i);
    } else {
      var j := ChildOfLeaf(t.children, leaf);
      ChildStrict(t, j);
      LeafAnswers(t.children[j], h - 1, order, leaf, i);
      LeafKeysAreFound(t.children[j], h - 1, order, leaf, i);
      LeafKeysAreKeys(t.children[j], h - 1, order, leaf.keys[i]);
      ChildRange(t, j, leaf.keys[i]);
      LeftScanIsUnique(t.keys, leaf.keys[i], j);
    }
  }

  lemma SortedInfix(a: seq<int>, x: seq<int>, b: seq<int>)
    requires Sorted(a + x + b)
    ensures Sorted(x)
  {
    var s := a + x + b;
    assert forall i | 0 <= i < |x| :: x[i] == s[|a| + i];
  }

  lemma KeysSorted<V>(t: Tree<V>, i: nat, j: nat)
    requires |t.children| == |t.keys| + 1 && i < j < |t.keys| && Sorted(InOrder(t))
    ensures t.keys[i] <= t.keys[j]
  {
    KeyInBefore(t, i, j);
    BeforeNext(t, j);
    InOrderAround(t, j + 1);
    var a := Before(t, j + 1);
    var l :| 0 <= l < |Before(t, j)| && Before(t, j)[l] == t.keys[i];
    assert InOrder(t)[l] == a[l] && InOrder(t)[|a| - 1] == a[|a| - 1];
  }

  /** A key that is new to the tree is searched for below the child that lies around it. */
  lemma NewKeyIsBelow<V>(s: Tree<V>, i: nat, key: int)
    requires IsBetween(s, i, key) && i <= |s.keys| && Sorted(InOrder(s)) && key !in InOrder(s)
    ensures LeftScan(s.keys, key) == i
    ensures Sorted(InOrder(s.children[i])) && key !in InOrder(s.children[i])
  {
    InOrderAround(s, i);
    SortedInfix(Before(s, i), InOrder(s.children[i]), After(s, i));
    forall j | 0 <= j < i ensures s.keys[j] <= key {
      if j < i - 1 {
        KeysSorted(s, j, i - 1);
      }
    }
    if i < |s.keys| {
      AfterNext(s, i);
      assert s.keys[i] in After(s, i);
    }
    LeftScanIsUnique(s.keys, key, i);
  }

  lemma NewKeyInLeaf<V>(t: Tree<V>, key: int, value: V)
    requires |t.keys| <= |t.values| && key !in t.keys
    ensures var r := InsertIntoLeaf(t, key, value);
            SearchLeaf(r.keys, r.values, key) == Some(value)
  {
    LeafKeepsAnswers(t.keys, t.values, RightScan(t.keys, key), (key, value), key);
  }

  /** Whatever was inserted and split before, a new key is found, with the value that it was inserted with. */
  lemma {:induction false} NewKeyIsFound<V>(t: Tree<V>, h: nat, order: nat, key: int, value: V)
    requires WellFormed(t, h, order) && HasRoom(t, h, order, key) && Sorted(InOrder(t)) && key !in InOrder(t)
    ensures Search(InsertNonFull(t, h, order, key, value), h, order, key) == Some(value)
    decreases h
  {
    if t.isLeaf {
      NewKeyInLeaf(t, key, value);
    } else {
      var (s, i) := MakeRoom(t, h, order, key);
      MakeRoomInOrder(t, h, order, key, s, i);
      NewKeyIsBelow(s, i, key);
      NewKeyIsFound(s.children[i], h - 1, order, key, value);
    }
  }

  lemma NewKeyIsFoundAbove<V>(root: Tree<V>, h: nat, order: nat, key: int, value: V)
    requires WellFormed(root, h, order) && |root.keys| == 2 * order - 1
    requires Sorted(InOrder(root)) && key !in InOrder(root)
    ensures Search(InsertAbove(root, h, order, key, value), h + 1, order, key) == Some(value)
  {
    RaiseInOrder(root, h, order);
    NewKeyIsFound(Raise(root, h, order), h + 1, order, key, value);
  }

  lemma NewKeyIsFoundFromRoot<V>(root: Tree<V>, h: nat, order: nat, key: int, value: V, r: Tree<V>, g: nat)
    requires IsRoot(root, h, order) && Sorted(InOrder(root)) && key !in InOrder(root)
    requires (r, g) == Insert(root, h, order, key, value)
    ensures Search(r, g, order, key) == Some(value)
  {
    if |root.keys| == 2 * order - 1 {
      NewKeyIsFoundAbove(root, h, order, key, value);
    } else {
      NewKeyIsFound(root, h, order, key, value);
    }
  }

  // ---------- a key that is inserted again when a split promotes it ----------

  /** The insert of the key below `t` begins with a split that promotes the key itself. */
  ghost predicate Promotes<V>(t: Tree<V>, h: nat, order: nat, key: int)
    requires WellFormed(t, h, order)
  {
    var i := RightScan(t.keys, key);
    h > 0 && !Full(t, order) && Full(t.children[i], order) && t.children[i].keys[order - 1] == key
  }

  /** Right of a key, all keys are larger. */
  lemma RightOfKey<V>(t: Tree<V>, i: nat)
    requires |t.children| == |t.keys| + 1 && i < |t.keys| && StrictlySorted(InOrder(t))
    ensures t.keys[i] !in InOrder(t.children[i + 1]) && StrictlySorted(InOrder(t.children[i + 1]))
    ensures LeftScan(t.keys, t.keys[i]) == i + 1
  {
    ChildStrict(t, i + 1);
    if t.keys[i] in InOrder(t.children[i + 1]) {
      ChildRange(t, i + 1, t.keys[i]);
    }
    forall j | 0 <= j < |t.keys| ensures if j <= i then t.keys[j] <= t.keys[i] else t.keys[i] < t.keys[j] {
      if j < i {
        KeysStrict(t, j, i);
      } else if i < j {
        KeysStrict(t, i, j);
      }
    }
    LeftScanIsUnique(t.keys, t.keys[i], i + 1);
  }

  lemma MissingKeyIsNotFound<V>(t: Tree<V>, h: nat, order: nat, key: int)
    requires WellFormed(t, h, order) && StrictlySorted(InOrder(t)) && key !in InOrder(t)
    ensures Search(t, h, order, key) == None
  {
    SearchFindsLeafKeys(t, h, order, key);
    if InLeaf(t, key) {
      LeafKeysAreKeys(t, h, order, key);
    }
  }

  /** `r` is `t` after the insert of an entry. */
  ghost predicate IsInserted<V>(t: Tree<V>, h: nat, order: nat, key: int, value: V, r: Tree<V>) {
    && WellFormed(t, h, order) && HasRoom(t, h, order, key)
    && r == InsertNonFull(t, h, order, key, value) && WellFormed(r, h, order)
  }

  /** The insert of an entry goes on below child `i` of `s`, and makes `child` of it. */
  lemma StepOfInsert<V>(t: Tree<V>, h: nat, order: nat, key: int, value: V, r: Tree<V>) returns (s: Tree<V>, i: nat, child: Tree<V>)
    requires h > 0 && IsInserted(t, h, order, key, value, r)
    ensures (s, i) == MakeRoom(t, h, order, key) && WellFormed(s, h, order) && i < |s.children|
    ensures IsInserted(s.children[i], h - 1, order, key, value, child) && r == WithChild(s, i, child)
  {
    var (s', i') := MakeRoom(t, h, order, key);
    s, i, child := s', i', InsertNonFull(s'.children[i'], h - 1, order, key, value);
  }

  lemma MissingBelow<V>(t: Tree<V>, h: nat, order: nat, key: int, j: nat)
    requires h > 0 && WellFormed(t, h, order) && j < |t.children| && LeftScan(t.keys, key) == j
    requires StrictlySorted(InOrder(t.children[j])) && key !in InOrder(t.children[j])
    ensures Search(t, h, order, key) == None
  {
    MissingKeyIsNotFound(t.children[j], h - 1, order, key);
  }

  lemma PromotedKey<V>(t: Tree<V>, h: nat, order: nat, key: int, s: Tree<V>, i: nat)
    requires WellFormed(t, h, order) && Promotes(t, h, order, key) && (s, i) == MakeRoom(t, h, order, key)
    ensures i < |s.keys| && |s.children| == |s.keys| + 1 && s.keys[i] == key && InOrder(s) == InOrder(t)
  {
    assert s == SplitChild(t, i, order);
    SplitKeepsInOrder(t, h, order, i);
  }

  lemma PromotedSplit<V>(t: Tree<V>, h: nat, order: nat, key: int, s: Tree<V>, i: nat)
    requires WellFormed(t, h, order) && StrictlySorted(InOrder(t)) && Promotes(t, h, order, key)
    requires (s, i) == MakeRoom(t, h, order, key)
    ensures i < |s.keys| && LeftScan(s.keys, key) == i + 1
    ensures key !in InOrder(s.children[i + 1]) && StrictlySorted(InOrder(s.children[i + 1]))
  {
    PromotedKey(t, h, order, key, s, i);
    RightOfKey(s, i);
  }

  /** Below the root it goes to the left of where it has moved to, and no search finds it. */
  lemma PromotedTwinIsHidden<V>(t: Tree<V>, h: nat, order: nat, key: int, value: V, r: Tree<V>)
    requires IsInserted(t, h, order, key, value, r) && StrictlySorted(InOrder(t)) && Promotes(t, h, order, key)
    ensures Search(r, h, order, key) == None
  {
    var s, i, child := StepOfInsert(t, h, order, key, value, r);
    PromotedSplit(t, h, order, key, s, i);
    assert r.children[i + 1] == s.children[i + 1];
    MissingBelow(r, h, order, key, i + 1);
  }

  lemma RaisedTwin<V>(root: Tree<V>, h: nat, order: nat, key: int, s: Tree<V>)
    requires WellFormed(root, h, order) && StrictlySorted(InOrder(root))
    requires Full(root, order) && root.keys[order - 1] == key && s == Raise(root, h, order)
    ensures s.keys == [key] && |s.children| == 2 && LeftScan(s.keys, key) == 1 && MakeRoom(s, h + 1, order, key) == (s, 1)
    ensures key !in InOrder(s.children[1]) && StrictlySorted(InOrder(s.children[1]))
  {
    RaiseInOrder(root, h, order);
    RightOfKey(s, 0);
    assert s.children[1] == SplitRight(root, order);
    assert |s.children[1].keys| == order - 1;
  }

  /** When the root is split, it goes to the right, and is found. */
  lemma PromotedTwinIsFound<V>(root: Tree<V>, h: nat, order: nat, key: int, value: V, s: Tree<V>, r: Tree<V>)
    requires WellFormed(root, h, order) && StrictlySorted(InOrder(root)) && Full(root, order) && root.keys[order - 1] == key
    requires s == Raise(root, h, order) && IsInserted(s, h + 1, order, key, value, r)
    ensures Search(r, h + 1, order, key) == Some(value)
  {
    RaisedTwin(root, h, order, key, s);
    var s', i, child := StepOfInsert(s, h + 1, order, key, value, r);
    NewKeyIsFound(s.children[1], h, order, key, value);
  }

  // ---------- runs of inserts ----------

  /** The root and the height after the inserts of `entries`, in order, into an empty index. */
  function Build<V>(order: nat, entries: seq<(int, V)>): (r: (Tree<V>, nat))
    ensures IsRoot(r.0, r.1, order)
  {
    if entries == [] then (Node(true, [], [], []), 0)
    else
      var n := |entries| - 1;
      var (t, h) := Build(order, entries[..n]);
      Insert(t, h, order, entries[n].0, entries[n].1)
  }

  function KeysOf<V>(entries: seq<(int, V)>): seq<int> {
    seq(|entries|, i requires 0 <= i < |entries| => entries[i].0)
  }

  function InsertedValues<V>(entries: seq<(int, V)>): seq<V> {
    seq(|entries|, i requires 0 <= i < |entries| => entries[i].1)
  }

  lemma LastEntry<V>(entries: seq<(int, V)>)
    requires entries != []
    ensures var n := |entries| - 1;
            && KeysOf(entries) == KeysOf(entries[..n]) + [entries[n].0]
            && InsertedValues(entries) == InsertedValues(entries[..n]) + [entries[n].1]
  {
  }

  /** What holds of every index that inserts can build, duplicates included. */
  lemma {:induction false} ReachableIndex<V>(order: nat, entries: seq<(int, V)>)
    ensures var (t, h) := Build(order, entries);
            && IsRoot(t, h, order)
            && Sorted(InOrder(t))
            && multiset(InOrder(t)) == multiset(KeysOf(entries))
            && multiset(AllValues(t)) == multiset(InsertedValues(entries))
            && (h >= 1 ==> 2 * Pow(order, h) - 1 <= |entries|)
    decreases |entries|
  {
    var (t, h) := Build(order, entries);
    if entries != [] {
      var n := |entries| - 1;
      var (t', h') := Build(order, entries[..n]);
      ReachableIndex(order, entries[..n]);
      LastEntry(entries);
      InsertInOrder(t', h', order, entries[n].0, entries[n].1);
      InsertValues(t', h', order, entries[n].0, entries[n].1);
      SortedInsertKeeps(InOrder(t'), entries[n].0);
      SortedInsertElements(InOrder(t'), entries[n].0);
      assert |multiset(InOrder(t))| == |multiset(KeysOf(entries))|;
      if h >= 1 {
        TreeSize(t, h, order);
      }
    }
  }

  ghost predicate DistinctKeys<V>(entries: seq<(int, V)>) {
    forall i, j | 0 <= i < j < |entries| :: entries[i].0 != entries[j].0
  }

  /** `search` gives back what was inserted under every key. */
  ghost predicate SearchIsCorrect<V>(order: nat, entries: seq<(int, V)>)
  {
    forall i | 0 <= i < |entries| ::
      Search(Build(order, entries).0, Build(order, entries).1, order, entries[i].0) == Some(entries[i].1)
  }

  lemma KeysAreTheInserted<V>(order: nat, entries: seq<(int, V)>, key: int)
    ensures key in InOrder(Build(order, entries).0) <==> key in KeysOf(entries)
  {
    ReachableIndex(order, entries);
    var keys := InOrder(Build(order, entries).0);
    assert key in keys <==> key in multiset(keys);
    assert key in KeysOf(entries) <==> key in multiset(KeysOf(entries));
  }

  lemma LastKeyIsNew<V>(order: nat, entries: seq<(int, V)>)
    requires DistinctKeys(entries) && entries != []
    ensures var n := |entries| - 1;
            DistinctKeys(entries[..n]) && entries[n].0 !in InOrder(Build(order, entries[..n]).0)
  {
    var n := |entries| - 1;
    KeysAreTheInserted(order, entries[..n], entries[n].0);
    assert forall i | 0 <= i < n :: KeysOf(entries[..n])[i] == entries[i].0;
  }

  lemma {:induction false} DistinctKeysAreStrict<V>(order: nat, entries: seq<(int, V)>)
    requires DistinctKeys(entries)
    ensures StrictlySorted(InOrder(Build(order, entries).0))
    decreases |entries|
  {
    if entries != [] {
      var n := |entries| - 1;
      var (t', h') := Build(order, entries[..n]);
      LastKeyIsNew(order, entries);
      DistinctKeysAreStrict(order, entries[..n]);
      InsertInOrder(t', h', order, entries[n].0, entries[n].1);
      SortedInsertKeeps(InOrder(t'), entries[n].0);
    }
  }

  lemma StrictIndexOf(keys: seq<int>, i: nat)
    requires StrictlySorted(keys) && i < |keys|
    ensures IndexOf(keys, keys[i]) == i
  {
  }

  lemma {:induction false} StaysLeaf<V>(order: nat, entries: seq<(int, V)>)
    requires FitsNode(order, |entries|)
    ensures var (t, h) := Build(order, entries);
            h == 0 && |t.keys| == |t.values| == |entries|
    decreases |entries|
  {
    if entries != [] {
      StaysLeaf(order, entries[..|entries| - 1]);
    }
  }

  /** The first of two answers that there is. */
  function OrElse<V>(first: Option<V>, second: Option<V>): Option<V> {
    if first.Some? then first else second
  }

  /** What an entry answers for a key. */
  function AnswerOf<V>(entry: (int, V), key: int): Option<V> {
    if entry.0 == key then Some(entry.1) else None
  }

  lemma InsertAtIndex<T>(s: seq<T>, p: nat, x: T, k: nat)
    requires p <= |s| && k <= |s|
    ensures InsertAt(s, p, x)[k] == if k < p then s[k] else if k == p then x else s[k - 1]
  {
  }

  /** Where a key is first found once another has been inserted at `p`, which is behind its equals. */
  function NextIndex(keys: seq<int>, p: nat, key: int, q: int): nat {
    var k := IndexOf(keys, q);
    if k < p then k else if k == |keys| && q == key then p else k + 1
  }

  lemma IndexAfterInsert(keys: seq<int>, p: nat, key: int, q: int)
    requires p <= |keys| && forall i | p <= i < |keys| :: key < keys[i]
    ensures IndexOf(InsertAt(keys, p, key), q) == NextIndex(keys, p, key, q)
  {
    var r, i := InsertAt(keys, p, key), NextIndex(keys, p, key, q);
    forall j | 0 <= j < i ensures r[j] != q {
      InsertAtIndex(keys, p, key, j);
    }
    if i <= |keys| {
      InsertAtIndex(keys, p, key, i);
    }
    IndexOfIsUnique(r, q, i);
  }

  /** An insert into a leaf comes behind the equal keys that are there, so they go on answering. */
  lemma LeafKeepsAnswers<V>(keys: seq<int>, values: seq<V>, p: nat, entry: (int, V), q: int)
    requires |keys| <= |values| && p <= |keys| && forall i | p <= i < |keys| :: entry.0 < keys[i]
    ensures SearchLeaf(InsertAt(keys, p, entry.0), InsertAt(values, p, entry.1), q) ==
            OrElse(SearchLeaf(keys, values, q), AnswerOf(entry, q))
  {
    IndexAfterInsert(keys, p, entry.0, q);
    var i := NextIndex(keys, p, entry.0, q);
    if i <= |keys| {
      InsertAtIndex(values, p, entry.1, i);
    }
  }

  /** The value of the first entry with the key. */
  function FirstOf<V>(entries: seq<(int, V)>, key: int): Option<V> {
    var i := IndexOf(KeysOf(entries), key);
    if i < |entries| then Some(entries[i].1) else None
  }

  lemma FirstOfLast<V>(entries: seq<(int, V)>, key: int)
    requires entries != []
    ensures var n := |entries| - 1;
            FirstOf(entries, key) == OrElse(FirstOf(entries[..n], key), AnswerOf(entries[n], key))
  {
    var n := |entries| - 1;
    LastEntry(entries);
    var k := IndexOf(KeysOf(entries[..n]), key);
    IndexOfIsUnique(KeysOf(entries), key, if k < n || entries[n].0 == key then k else n + 1);
  }

  /** Before the first split `search` answers every key, repeated or not, with what was first inserted under it. */
  lemma {:induction false} FirstInsertAnswers<V>(order: nat, entries: seq<(int, V)>, key: int)
    requires FitsNode(order, |entries|)
    ensures Search(Build(order, entries).0, Build(order, entries).1, order, key) == FirstOf(entries, key)
    decreases |entries|
  {
    StaysLeaf(order, entries);
    if entries != [] {
      var n := |entries| - 1;
      StaysLeaf(order, entries[..n]);
      FirstInsertAnswers(order, entries[..n], key);
      var t := Build(order, entries[..n]).0;
      LeafKeepsAnswers(t.keys, t.values, RightScan(t.keys, entries[n].0), entries[n], key);
      FirstOfLast(entries, key);
    }
  }

  lemma LeafPhase<V>(order: nat, entries: seq<(int, V)>)
    requires DistinctKeys(entries) && FitsNode(order, |entries|)
    ensures SearchIsCorrect(order, entries)
  {
    forall i | 0 <= i < |entries|
      ensures Search(Build(order, entries).0, Build(order, entries).1, order, entries[i].0) == Some(entries[i].1)
    {
      FirstInsertAnswers(order, entries, entries[i].0);
      IndexOfIsUnique(KeysOf(entries), entries[i].0, i);
    }
  }

  /** In every index that inserts can build, a key that has not been inserted before is found right after its insert. */
  lemma LastInsertIsFound<V>(order: nat, entries: seq<(int, V)>)
    requires entries != [] && entries[|entries| - 1].0 !in KeysOf(entries[..|entries| - 1])
    ensures var last := entries[|entries| - 1];
            Search(Build(order, entries).0, Build(order, entries).1, order, last.0) == Some(last.1)
  {
    var n := |entries| - 1;
    var (t, h) := Build(order, entries[..n]);
    var (r, g) := Build(order, entries);
    ReachableIndex(order, entries[..n]);
    KeysAreTheInserted(order, entries[..n], entries[n].0);
    NewKeyIsFoundFromRoot(t, h, order, entries[n].0, entries[n].1, r, g);
  }

  /** From the first split on, the first key of the root is not found. */
  lemma RootKeyIsNotFound<V>(order: nat, entries: seq<(int, V)>) returns (i: nat)
    requires DistinctKeys(entries) && !FitsNode(order, |entries|)
    ensures i < |entries|
    ensures Search(Build(order, entries).0, Build(order, entries).1, order, entries[i].0) == None
  {
    var (t, h) := Build(order, entries);
    ReachableIndex(order, entries);
    DistinctKeysAreStrict(order, entries);
    assert |multiset(InOrder(t))| == |multiset(KeysOf(entries))| == |entries|;
    assert h > 0;
    var k := t.keys[0];
    InnerKeysAreKeys(t, h, order, k);
    InnerKeysAreNotInLeaves(t, h, order, k);
    SearchFindsLeafKeys(t, h, order, k);
    assert k in multiset(KeysOf(entries));
    i :| 0 <= i < |entries| && KeysOf(entries)[i] == k;
  }

  /**
   The documented purpose of the index, that `search` gives back what was inserted, is met exactly
   until the first split: the key that a split promotes leaves the leaves and is not found again.
   */
  lemma SearchIsCorrectUntilFirstSplit<V>(order: nat, entries: seq<(int, V)>)
    requires DistinctKeys(entries)
    ensures SearchIsCorrect(order, entries) <==> FitsNode(order, |entries|)
  {
    if FitsNode(order, |entries|) {
      LeafPhase(order, entries);
    } else {
      var i := RootKeyIsNotFound(order, entries);
    }
  }
}
