/**
 What `search` of BPlusTreeDatabaseIndex.ts answers once leaves have been split: a split moves a key out of a
 leaf but not its value, so the values of the right half stand one place behind their keys.
 */
module BTreeAnswers {

  import opened Options
  import opened BTree

  /** What was inserted under each key. */
  type Owner<V> = map<int, V>

  ghost predicate Owns<V>(own: Owner<V>, key: int, v: V) {
    key in own && own[key] == v
  }

  /** None of the first `n` values of a leaf belongs to its key `i`. */
  ghost predicate LateAt<V>(t: Tree<V>, own: Owner<V>, i: nat, n: nat)
    requires i < |t.keys| && n <= |t.values|
  {
    forall j | 0 <= j < n :: !Owns(own, t.keys[i], t.values[j])
  }

  /** The key stands before its value, or has lost it. */
  ghost predicate IsLate<V>(t: Tree<V>, own: Owner<V>, i: nat)
    requires i < |t.keys| <= |t.values|
  {
    LateAt(t, own, i, i + 1)
  }

  /** In no leaf does a value stand before its key. */
  ghost predicate NoneEarly<V>(t: Tree<V>, h: nat, order: nat, own: Owner<V>)
    requires WellFormed(t, h, order)
    decreases h
  {
    if h == 0 then forall i | 0 <= i < |t.keys| :: LateAt(t, own, i, i)
    else forall i | 0 <= i < |t.children| :: NoneEarly(t.children[i], h - 1, order, own)
  }

  /** In some leaf a key stands before its value, or has lost it. */
  ghost predicate SomeLate<V>(t: Tree<V>, h: nat, order: nat, own: Owner<V>)
    requires WellFormed(t, h, order)
    decreases h
  {
    if h == 0 then exists i | 0 <= i < |t.keys| :: IsLate(t, own, i)
    else exists i | 0 <= i < |t.children| :: SomeLate(t.children[i], h - 1, order, own)
  }

  // ---------- a split ----------

  lemma HalvesWellFormed<V>(c: Tree<V>, h: nat, order: nat)
    requires WellFormed(c, h, order) && Full(c, order)
    ensures WellFormed(SplitLeft(c, order), h, order) && WellFormed(SplitRight(c, order), h, order)
  {
  }

  /** The keys of the right half of a leaf are all late. */
  lemma RightHalfIsLate<V>(c: Tree<V>, order: nat, own: Owner<V>)
    requires order >= 2 && WellFormed(c, 0, order) && Full(c, order) && NoneEarly(c, 0, order, own)
    ensures var r := SplitRight(c, order);
            && WellFormed(r, 0, order) && NoneEarly(r, 0, order, own) && SomeLate(r, 0, order, own)
            && forall i | 0 <= i < |r.keys| :: IsLate(r, own, i)
  {
    var r := SplitRight(c, order);
    forall i | 0 <= i < |r.keys| ensures IsLate(r, own, i) {
      assert LateAt(c, own, order + i, order + i);
      forall j | 0 <= j < i + 1 ensures !Owns(own, r.keys[i], r.values[j]) {
        assert r.values[j] == c.values[order - 1 + j];
      }
    }
    forall i | 0 <= i < |r.keys| ensures LateAt(r, own, i, i) {
      assert IsLate(r, own, i);
    }
    assert IsLate(r, own, 0);
  }

  lemma LeftHalfIsNotEarly<V>(c: Tree<V>, order: nat, own: Owner<V>)
    requires order >= 2 && WellFormed(c, 0, order) && Full(c, order) && NoneEarly(c, 0, order, own)
    ensures WellFormed(SplitLeft(c, order), 0, order) && NoneEarly(SplitLeft(c, order), 0, order, own)
  {
    var l := SplitLeft(c, order);
    forall i | 0 <= i < |l.keys| ensures LateAt(l, own, i, i) {
      assert LateAt(c, own, i, i);
    }
  }

  lemma HalvesNotEarly<V>(c: Tree<V>, h: nat, order: nat, own: Owner<V>)
    requires order >= 2 && WellFormed(c, h, order) && Full(c, order) && NoneEarly(c, h, order, own)
    ensures var l, r := SplitLeft(c, order), SplitRight(c, order);
            && WellFormed(l, h, order) && WellFormed(r, h, order)
            && NoneEarly(l, h, order, own) && NoneEarly(r, h, order, own)
  {
    HalvesWellFormed(c, h, order);
    if h == 0 {
      LeftHalfIsNotEarly(c, order, own);
      RightHalfIsLate(c, order, own);
    }
  }

  lemma HalvesLate<V>(c: Tree<V>, h: nat, order: nat, own: Owner<V>)
    requires order >= 2 && WellFormed(c, h, order) && Full(c, order) && NoneEarly(c, h, order, own)
    requires h == 0 || SomeLate(c, h, order, own)
    ensures var l, r := SplitLeft(c, order), SplitRight(c, order);
            && WellFormed(l, h, order) && WellFormed(r, h, order)
            && (SomeLate(l, h, order, own) || SomeLate(r, h, order, own))
  {
    HalvesWellFormed(c, h, order);
    if h == 0 {
      RightHalfIsLate(c, order, own);
    } else {
      var j :| 0 <= j < |c.children| && SomeLate(c.children[j], h - 1, order, own);
      if j < order {
        assert SplitLeft(c, order).children[j] == c.children[j];
      } else {
        assert SplitRight(c, order).children[j - order] == c.children[j];
      }
    }
  }

  /** Which child of a split node is which. */
  lemma SplitChildren<V>(t: Tree<V>, i: nat, order: nat)
    requires i < |t.children| && i <= |t.keys| && 1 <= order <= |t.children[i].keys|
    ensures var r := SplitChild(t, i, order);
            && r.children[i] == SplitLeft(t.children[i], order) && r.children[i + 1] == SplitRight(t.children[i], order)
            && |r.children| == |t.children| + 1
            && (forall j | 0 <= j < i :: r.children[j] == t.children[j])
            && (forall j | i + 1 < j < |r.children| :: r.children[j] == t.children[j - 1])
  {
  }

  lemma SplitKeepsNoneEarly<V>(t: Tree<V>, h: nat, order: nat, i: nat, own: Owner<V>)
    requires order >= 2 && h > 0 && WellFormed(t, h, order) && i < |t.children| && Full(t.children[i], order)
    requires WellFormed(SplitChild(t, i, order), h, order) && NoneEarly(t, h, order, own)
    ensures NoneEarly(SplitChild(t, i, order), h, order, own)
  {
    var r := SplitChild(t, i, order);
    SplitChildren(t, i, order);
    HalvesNotEarly(t.children[i], h - 1, order, own);
    forall j | 0 <= j < |r.children| ensures NoneEarly(r.children[j], h - 1, order, own) {
      if j < i {
        assert NoneEarly(t.children[j], h - 1, order, own);
      } else if j > i + 1 {
        assert NoneEarly(t.children[j - 1], h - 1, order, own);
      }
    }
  }

  lemma SplitLateChild<V>(t: Tree<V>, h: nat, order: nat, i: nat, own: Owner<V>)
    requires order >= 2 && h > 0 && WellFormed(t, h, order) && i < |t.children| && Full(t.children[i], order)
    requires WellFormed(SplitChild(t, i, order), h, order) && NoneEarly(t.children[i], h - 1, order, own)
    requires h == 1 || SomeLate(t.children[i], h - 1, order, own)
    ensures SomeLate(SplitChild(t, i, order), h, order, own)
  {
    var r := SplitChild(t, i, order);
    SplitChildren(t, i, order);
    HalvesLate(t.children[i], h - 1, order, own);
    assert SomeLate(r.children[i], h - 1, order, own) || SomeLate(r.children[i + 1], h - 1, order, own);
  }

  lemma SplitBesideLateChild<V>(t: Tree<V>, h: nat, order: nat, i: nat, k: nat, own: Owner<V>)
    requires order >= 2 && h > 0 && WellFormed(t, h, order) && i < |t.children| && Full(t.children[i], order)
    requires WellFormed(SplitChild(t, i, order), h, order)
    requires k < |t.children| && k != i && SomeLate(t.children[k], h - 1, order, own)
    ensures SomeLate(SplitChild(t, i, order), h, order, own)
  {
    SplitChildren(t, i, order);
    assert SomeLate(SplitChild(t, i, order).children[if k < i then k else k + 1], h - 1, order, own);
  }

  /** A split keeps some late key, and the split of a leaf makes some. */
  lemma SplitKeepsSomeLate<V>(t: Tree<V>, h: nat, order: nat, i: nat, own: Owner<V>)
    requires order >= 2 && h > 0 && WellFormed(t, h, order) && i < |t.children| && Full(t.children[i], order)
    requires WellFormed(SplitChild(t, i, order), h, order) && NoneEarly(t, h, order, own)
    requires h == 1 || SomeLate(t, h, order, own)
    ensures SomeLate(SplitChild(t, i, order), h, order, own)
  {
    assert NoneEarly(t.children[i], h - 1, order, own);
    if h == 1 {
      SplitLateChild(t, h, order, i, own);
    } else {
      var k :| 0 <= k < |t.children| && SomeLate(t.children[k], h - 1, order, own);
      if k == i {
        SplitLateChild(t, h, order, i, own);
      } else {
        SplitBesideLateChild(t, h, order, i, k, own);
      }
    }
  }

  // ---------- an insert ----------

  /** The key and the value are new to the tree, and the value is the key's. */
  ghost predicate IsNew<V>(t: Tree<V>, own: Owner<V>, key: int, value: V) {
    && key !in InOrder(t)
    && (forall k :: Owns(own, k, value) ==> k == key)
    && (forall v | v in AllValues(t) :: !Owns(own, key, v))
  }

  lemma LateAfterInsert<V>(t: Tree<V>, order: nat, own: Owner<V>, key: int, value: V, i: nat, n: nat)
    requires WellFormed(t, 0, order) && IsNew(t, own, key, value)
    requires i < |t.keys| && n <= |t.values| && i <= n && LateAt(t, own, i, n)
    ensures var p, r := RightScan(t.keys, key), InsertIntoLeaf(t, key, value);
            if i < p then n <= p ==> LateAt(r, own, i, n) else LateAt(r, own, i + 1, n + 1)
  {
    var p, r := RightScan(t.keys, key), InsertIntoLeaf(t, key, value);
    InsertAtIndex(t.keys, p, key, if i < p then i else i + 1);
    assert t.keys[i] in InOrder(t);
    if i >= p {
      forall j | 0 <= j < n + 1 ensures !Owns(own, r.keys[i + 1], r.values[j]) {
        InsertAtIndex(t.values, p, value, j);
      }
    } else if n <= p {
      forall j | 0 <= j < n ensures !Owns(own, r.keys[i], r.values[j]) {
        InsertAtIndex(t.values, p, value, j);
      }
    }
  }

  lemma LeafStaysNotEarly<V>(t: Tree<V>, order: nat, own: Owner<V>, key: int, value: V)
    requires WellFormed(t, 0, order) && !Full(t, order) && NoneEarly(t, 0, order, own) && IsNew(t, own, key, value)
    ensures WellFormed(InsertIntoLeaf(t, key, value), 0, order) && NoneEarly(InsertIntoLeaf(t, key, value), 0, order, own)
  {
    var p, r := RightScan(t.keys, key), InsertIntoLeaf(t, key, value);
    forall i | 0 <= i < |r.keys| ensures LateAt(r, own, i, i) {
      if i < p {
        LateAfterInsert(t, order, own, key, value, i, i);
      } else if i > p {
        LateAfterInsert(t, order, own, key, value, i - 1, i - 1);
      } else {
        InsertAtIndex(t.keys, p, key, p);
        forall j | 0 <= j < p ensures !Owns(own, r.keys[p], r.values[j]) {
          InsertAtIndex(t.values, p, value, j);
          assert t.values[j] in AllValues(t);
        }
      }
    }
  }

  lemma LeafStaysLate<V>(t: Tree<V>, order: nat, own: Owner<V>, key: int, value: V)
    requires WellFormed(t, 0, order) && !Full(t, order) && SomeLate(t, 0, order, own) && IsNew(t, own, key, value)
    ensures WellFormed(InsertIntoLeaf(t, key, value), 0, order) && SomeLate(InsertIntoLeaf(t, key, value), 0, order, own)
  {
    var p, r := RightScan(t.keys, key), InsertIntoLeaf(t, key, value);
    var i :| 0 <= i < |t.keys| && IsLate(t, own, i);
    LateAfterInsert(t, order, own, key, value, i, i + 1);
    assert IsLate(r, own, if i < p then i else i + 1);
  }

  lemma NewToChild<V>(t: Tree<V>, i: nat, own: Owner<V>, key: int, value: V)
    requires |t.children| == |t.keys| + 1 && !t.isLeaf && i < |t.children| && IsNew(t, own, key, value)
    ensures IsNew(t.children[i], own, key, value)
  {
    InOrderAround(t, i);
    ValuesAround(t.children, i);
  }

  /** Making room neither moves a value before its key nor brings all late keys and values together. */
  lemma MakeRoomKeepsLate<V>(t: Tree<V>, h: nat, order: nat, own: Owner<V>, key: int, value: V)
    requires order >= 2 && h > 0 && WellFormed(t, h, order) && !Full(t, order)
    requires NoneEarly(t, h, order, own) && IsNew(t, own, key, value)
    ensures var s := MakeRoom(t, h, order, key).0;
            && NoneEarly(s, h, order, own) && (SomeLate(t, h, order, own) ==> SomeLate(s, h, order, own))
            && IsNew(s, own, key, value)
  {
    var i := RightScan(t.keys, key);
    if |t.children[i].keys| == 2 * order - 1 {
      SplitChildWellFormed(t, h, order, i);
      SplitKeepsNoneEarly(t, h, order, i, own);
      SplitKeepsInOrder(t, h, order, i);
      SplitKeepsValues(t, h, order, i);
      if SomeLate(t, h, order, own) {
        SplitKeepsSomeLate(t, h, order, i, own);
      }
    }
  }

  lemma WithChildKeepsLate<V>(s: Tree<V>, h: nat, order: nat, own: Owner<V>, i: nat, child: Tree<V>)
    requires h > 0 && WellFormed(s, h, order) && i < |s.children| && NoneEarly(s, h, order, own)
    requires WellFormed(child, h - 1, order) && NoneEarly(child, h - 1, order, own)
    requires SomeLate(s.children[i], h - 1, order, own) ==> SomeLate(child, h - 1, order, own)
    requires WellFormed(WithChild(s, i, child), h, order)
    ensures NoneEarly(WithChild(s, i, child), h, order, own)
    ensures SomeLate(s, h, order, own) ==> SomeLate(WithChild(s, i, child), h, order, own)
  {
    var r := WithChild(s, i, child);
    forall j | 0 <= j < |r.children| ensures NoneEarly(r.children[j], h - 1, order, own) {
      assert j != i ==> r.children[j] == s.children[j];
    }
    if SomeLate(s, h, order, own) {
      var j :| 0 <= j < |s.children| && SomeLate(s.children[j], h - 1, order, own);
      assert SomeLate(r.children[j], h - 1, order, own);
    }
  }

  /** What an insert into the subtree has to keep. */
  ghost predicate KeepsLate<V>(t: Tree<V>, h: nat, r: Tree<V>, g: nat, order: nat, own: Owner<V>)
    requires WellFormed(t, h, order)
  {
    WellFormed(r, g, order) && NoneEarly(r, g, order, own) && (SomeLate(t, h, order, own) ==> SomeLate(r, g, order, own))
  }

  /** The insert can go on in the child that has room. */
  lemma ChildIsReady<V>(t: Tree<V>, h: nat, order: nat, own: Owner<V>, key: int, value: V, s: Tree<V>, i: nat)
    requires order >= 2 && h > 0 && WellFormed(t, h, order) && !Full(t, order)
    requires NoneEarly(t, h, order, own) && IsNew(t, own, key, value) && (s, i) == MakeRoom(t, h, order, key)
    ensures i < |s.children| && WellFormed(s.children[i], h - 1, order)
    ensures NoneEarly(s.children[i], h - 1, order, own) && IsNew(s.children[i], own, key, value)
  {
    MakeRoomKeepsLate(t, h, order, own, key, value);
    NewToChild(s, i, own, key, value);
  }

  lemma StepKeepsLate<V>(t: Tree<V>, h: nat, order: nat, own: Owner<V>, key: int, value: V, s: Tree<V>, i: nat, child: Tree<V>)
    requires order >= 2 && h > 0 && WellFormed(t, h, order) && !Full(t, order)
    requires NoneEarly(t, h, order, own) && IsNew(t, own, key, value) && (s, i) == MakeRoom(t, h, order, key)
    requires KeepsLate(s.children[i], h - 1, child, h - 1, order, own) && WellFormed(WithChild(s, i, child), h, order)
    ensures KeepsLate(t, h, WithChild(s, i, child), h, order, own)
  {
    MakeRoomKeepsLate(t, h, order, own, key, value);
    WithChildKeepsLate(s, h, order, own, i, child);
  }

  lemma {:induction false} InnerKeepsLate<V>(t: Tree<V>, h: nat, order: nat, own: Owner<V>, key: int, value: V, r: Tree<V>)
    requires order >= 2 && h > 0 && WellFormed(t, h, order) && !Full(t, order)
    requires NoneEarly(t, h, order, own) && IsNew(t, own, key, value) && r == InsertNonFull(t, h, order, key, value)
    ensures KeepsLate(t, h, r, h, order, own)
    decreases h, 0
  {
    var (s, i) := MakeRoom(t, h, order, key);
    ChildIsReady(t, h, order, own, key, value, s, i);
    var child := InsertNonFull(s.children[i], h - 1, order, key, value);
    InsertKeepsLate(s.children[i], h - 1, order, own, key, value, child);
    StepKeepsLate(t, h, order, own, key, value, s, i, child);
  }

  lemma LeafKeepsLate<V>(t: Tree<V>, order: nat, own: Owner<V>, key: int, value: V)
    requires WellFormed(t, 0, order) && !Full(t, order) && NoneEarly(t, 0, order, own) && IsNew(t, own, key, value)
    ensures KeepsLate(t, 0, InsertIntoLeaf(t, key, value), 0, order, own)
  {
    LeafStaysNotEarly(t, order, own, key, value);
    if SomeLate(t, 0, order, own) {
      LeafStaysLate(t, order, own, key, value);
    }
  }

  lemma {:induction false} InsertKeepsLate<V>(t: Tree<V>, h: nat, order: nat, own: Owner<V>, key: int, value: V, r: Tree<V>)
    requires order >= 2 && WellFormed(t, h, order) && !Full(t, order)
    requires NoneEarly(t, h, order, own) && IsNew(t, own, key, value) && r == InsertNonFull(t, h, order, key, value)
    ensures KeepsLate(t, h, r, h, order, own)
    decreases h, 1
  {
    if h == 0 {
      LeafKeepsLate(t, order, own, key, value);
    } else {
      InnerKeepsLate(t, h, order, own, key, value, r);
    }
  }

  lemma OnlyChild<V>(root: Tree<V>, h: nat, order: nat, own: Owner<V>) returns (s: Tree<V>)
    requires order >= 2 && WellFormed(root, h, order) && Full(root, order) && NoneEarly(root, h, order, own)
    ensures s == Node(false, [], [], [root]) && WellFormed(s, h + 1, order)
    ensures NoneEarly(s, h + 1, order, own) && (SomeLate(root, h, order, own) ==> SomeLate(s, h + 1, order, own))
    ensures Raise(root, h, order) == SplitChild(s, 0, order)
  {
    s := Node(false, [], [], [root]);
    assert WellFormed(s, h + 1, order);
    assert s.children[0] == root;
  }

  lemma RaiseNotEarly<V>(root: Tree<V>, h: nat, order: nat, own: Owner<V>)
    requires order >= 2 && WellFormed(root, h, order) && Full(root, order) && NoneEarly(root, h, order, own)
    ensures NoneEarly(Raise(root, h, order), h + 1, order, own)
  {
    var s := OnlyChild(root, h, order, own);
    SplitKeepsNoneEarly(s, h + 1, order, 0, own);
  }

  lemma RaiseIsLate<V>(root: Tree<V>, h: nat, order: nat, own: Owner<V>)
    requires order >= 2 && WellFormed(root, h, order) && Full(root, order) && NoneEarly(root, h, order, own)
    requires h == 0 || SomeLate(root, h, order, own)
    ensures SomeLate(Raise(root, h, order), h + 1, order, own)
  {
    var s := OnlyChild(root, h, order, own);
    SplitKeepsSomeLate(s, h + 1, order, 0, own);
  }

  lemma RaiseKeepsNew<V>(root: Tree<V>, h: nat, order: nat, own: Owner<V>, key: int, value: V)
    requires order >= 2 && WellFormed(root, h, order) && Full(root, order) && IsNew(root, own, key, value)
    ensures IsNew(Raise(root, h, order), own, key, value)
  {
    RaiseInOrder(root, h, order);
    RaiseValues(root, h, order);
  }

  lemma RaiseKeepsLate<V>(root: Tree<V>, h: nat, order: nat, own: Owner<V>, key: int, value: V) returns (raised: Tree<V>)
    requires order >= 2 && WellFormed(root, h, order) && Full(root, order)
    requires NoneEarly(root, h, order, own) && IsNew(root, own, key, value)
    ensures raised == Raise(root, h, order) && !Full(raised, order)
    ensures KeepsLate(root, h, raised, h + 1, order, own) && IsNew(raised, own, key, value)
    ensures h == 0 ==> SomeLate(raised, h + 1, order, own)
  {
    raised := Raise(root, h, order);
    RaiseNotEarly(root, h, order, own);
    if h == 0 || SomeLate(root, h, order, own) {
      RaiseIsLate(root, h, order, own);
    }
    RaiseKeepsNew(root, h, order, own, key, value);
  }

  lemma FullRootKeepsLate<V>(root: Tree<V>, h: nat, order: nat, own: Owner<V>, key: int, value: V, r: Tree<V>)
    requires order >= 2 && WellFormed(root, h, order) && Full(root, order)
    requires NoneEarly(root, h, order, own) && IsNew(root, own, key, value) && r == InsertAbove(root, h, order, key, value)
    ensures KeepsLate(root, h, r, h + 1, order, own) && (h == 0 ==> SomeLate(r, h + 1, order, own))
  {
    var raised := RaiseKeepsLate(root, h, order, own, key, value);
    InsertKeepsLate(raised, h + 1, order, own, key, value, r);
  }

  /** An insert keeps late keys, and the one that splits the root for the first time makes some. */
  lemma RootKeepsLate<V>(root: Tree<V>, h: nat, order: nat, own: Owner<V>, key: int, value: V, r: Tree<V>, g: nat)
    requires order >= 2 && IsRoot(root, h, order) && (r, g) == Insert(root, h, order, key, value)
    requires NoneEarly(root, h, order, own) && IsNew(root, own, key, value)
    ensures KeepsLate(root, h, r, g, order, own)
    ensures h == 0 && Full(root, order) ==> SomeLate(r, g, order, own)
  {
    if Full(root, order) {
      FullRootKeepsLate(root, h, order, own, key, value, r);
    } else {
      InsertKeepsLate(root, h, order, own, key, value, r);
    }
  }

  // ---------- runs of inserts ----------

  ghost predicate DistinctValues<V>(entries: seq<(int, V)>) {
    forall i, j | 0 <= i < j < |entries| :: entries[i].1 != entries[j].1
  }

  /** Every entry is in `own`, and no other key has its value. */
  ghost predicate IsOwner<V>(own: Owner<V>, entries: seq<(int, V)>) {
    forall i | 0 <= i < |entries| ::
      Owns(own, entries[i].0, entries[i].1) && forall k :: Owns(own, k, entries[i].1) ==> k == entries[i].0
  }

  lemma OwnerExists<V>(entries: seq<(int, V)>) returns (own: Owner<V>)
    requires DistinctKeys(entries) && DistinctValues(entries)
    ensures IsOwner(own, entries)
  {
    var keys := KeysOf(entries);
    own := map k | k in keys :: entries[IndexOf(keys, k)].1;
    forall i | 0 <= i < |entries|
      ensures Owns(own, entries[i].0, entries[i].1) && forall k :: Owns(own, k, entries[i].1) ==> k == entries[i].0
    {
      assert keys[i] == entries[i].0;
      assert keys[i] in keys;
    }
  }

  lemma LastEntryIsNew<V>(order: nat, entries: seq<(int, V)>, own: Owner<V>)
    requires DistinctKeys(entries) && DistinctValues(entries) && entries != [] && IsOwner(own, entries)
    ensures var n := |entries| - 1;
            IsNew(Build(order, entries[..n]).0, own, entries[n].0, entries[n].1)
  {
    var n := |entries| - 1;
    var t := Build(order, entries[..n]).0;
    LastKeyIsNew(order, entries);
    ReachableIndex(order, entries[..n]);
    assert Owns(own, entries[n].0, entries[n].1);
    forall v | v in AllValues(t) ensures !Owns(own, entries[n].0, v) {
      assert v in multiset(InsertedValues(entries[..n]));
      var m :| 0 <= m < n && InsertedValues(entries[..n])[m] == v;
      assert v == entries[m].1;
    }
  }

  ghost predicate LateAfter<V>(t: Tree<V>, h: nat, order: nat, own: Owner<V>, inserts: nat) {
    WellFormed(t, h, order) && NoneEarly(t, h, order, own) && (inserts >= 2 * order ==> SomeLate(t, h, order, own))
  }

  lemma FirstLeafIsFull<V>(order: nat, entries: seq<(int, V)>)
    requires |entries| == 2 * order - 1
    ensures Build(order, entries).1 == 0 && Full(Build(order, entries).0, order)
  {
    StaysLeaf(order, entries);
  }

  lemma LastInsertIsLate<V>(order: nat, entries: seq<(int, V)>, own: Owner<V>, t: Tree<V>, h: nat, r: Tree<V>, g: nat)
    requires order >= 2 && DistinctKeys(entries) && DistinctValues(entries) && entries != [] && IsOwner(own, entries)
    requires (t, h) == Build(order, entries[..|entries| - 1]) && LateAfter(t, h, order, own, |entries| - 1)
    requires (r, g) == Insert(t, h, order, entries[|entries| - 1].0, entries[|entries| - 1].1)
    ensures LateAfter(r, g, order, own, |entries|)
  {
    var n := |entries| - 1;
    LastEntryIsNew(order, entries, own);
    if n == 2 * order - 1 {
      FirstLeafIsFull(order, entries[..n]);
    }
    RootKeepsLate(t, h, order, own, entries[n].0, entries[n].1, r, g);
  }

  /** From the first split on some key is late. */
  lemma {:induction false} BuildIsLate<V>(order: nat, entries: seq<(int, V)>, own: Owner<V>)
    requires order >= 2 && DistinctKeys(entries) && DistinctValues(entries) && IsOwner(own, entries)
    ensures LateAfter(Build(order, entries).0, Build(order, entries).1, order, own, |entries|)
    decreases |entries|
  {
    if entries != [] {
      var n := |entries| - 1;
      BuildIsLate(order, entries[..n], own);
      var (t, h) := Build(order, entries[..n]);
      var (r, g) := Build(order, entries);
      LastInsertIsLate(order, entries, own, t, h, r, g);
    }
  }

  // ---------- order 1 ----------

  /** In every leaf the key, of which order 1 allows one, stands before its own value. */
  ghost predicate AllOwn<V>(t: Tree<V>, h: nat, own: Owner<V>)
    requires WellFormed(t, h, 1)
    decreases h
  {
    if h == 0 then t.keys != [] ==> Owns(own, t.keys[0], t.values[0])
    else forall i | 0 <= i < |t.children| :: AllOwn(t.children[i], h - 1, own)
  }

  /** A split of a leaf of one key leaves none in either half. */
  lemma HalvesOwn<V>(c: Tree<V>, h: nat, own: Owner<V>)
    requires WellFormed(c, h, 1) && Full(c, 1) && AllOwn(c, h, own)
    ensures WellFormed(SplitLeft(c, 1), h, 1) && AllOwn(SplitLeft(c, 1), h, own)
    ensures WellFormed(SplitRight(c, 1), h, 1) && AllOwn(SplitRight(c, 1), h, own)
  {
    HalvesWellFormed(c, h, 1);
  }

  /** With order 1 only an only child has room beside it for its other half. */
  lemma SplitKeepsOwn<V>(t: Tree<V>, h: nat, own: Owner<V>)
    requires h > 0 && WellFormed(t, h, 1) && t.keys == [] && Full(t.children[0], 1) && AllOwn(t, h, own)
    requires WellFormed(SplitChild(t, 0, 1), h, 1)
    ensures AllOwn(SplitChild(t, 0, 1), h, own)
  {
    HalvesOwn(t.children[0], h - 1, own);
    assert SplitChild(t, 0, 1).children == [SplitLeft(t.children[0], 1), SplitRight(t.children[0], 1)];
  }

  lemma MakeRoomKeepsOwn<V>(t: Tree<V>, h: nat, own: Owner<V>, key: int)
    requires h > 0 && WellFormed(t, h, 1) && HasRoom(t, h, 1, key) && AllOwn(t, h, own)
    ensures AllOwn(MakeRoom(t, h, 1, key).0, h, own)
  {
    var i := RightScan(t.keys, key);
    if |t.children[i].keys| == 1 {
      SplitChildWellFormed(t, h, 1, i);
      SplitKeepsOwn(t, h, own);
    }
  }

  lemma {:induction false} InsertKeepsOwn<V>(t: Tree<V>, h: nat, own: Owner<V>, key: int, value: V)
    requires WellFormed(t, h, 1) && HasRoom(t, h, 1, key) && AllOwn(t, h, own) && Owns(own, key, value)
    ensures AllOwn(InsertNonFull(t, h, 1, key, value), h, own)
    decreases h
  {
    if h > 0 {
      var (s, i) := MakeRoom(t, h, 1, key);
      MakeRoomKeepsOwn(t, h, own, key);
      var child := InsertNonFull(s.children[i], h - 1, 1, key, value);
      InsertKeepsOwn(s.children[i], h - 1, own, key, value);
      assert InsertNonFull(t, h, 1, key, value) == WithChild(s, i, child);
    }
  }

  lemma RaiseKeepsOwn<V>(root: Tree<V>, h: nat, own: Owner<V>)
    requires WellFormed(root, h, 1) && Full(root, 1) && AllOwn(root, h, own)
    ensures AllOwn(Raise(root, h, 1), h + 1, own)
  {
    var s := Node(false, [], [], [root]);
    assert WellFormed(s, h + 1, 1) && s.children[0] == root;
    SplitKeepsOwn(s, h + 1, own);
  }

  lemma FullRootKeepsOwn<V>(root: Tree<V>, h: nat, own: Owner<V>, key: int, value: V)
    requires WellFormed(root, h, 1) && Full(root, 1) && AllOwn(root, h, own) && Owns(own, key, value)
    ensures AllOwn(InsertAbove(root, h, 1, key, value), h + 1, own)
  {
    RaiseKeepsOwn(root, h, own);
    InsertKeepsOwn(Raise(root, h, 1), h + 1, own, key, value);
  }

  lemma RootKeepsOwn<V>(root: Tree<V>, h: nat, own: Owner<V>, key: int, value: V, r: Tree<V>, g: nat)
    requires IsRoot(root, h, 1) && (r, g) == Insert(root, h, 1, key, value) && AllOwn(root, h, own) && Owns(own, key, value)
    ensures WellFormed(r, g, 1) && AllOwn(r, g, own)
  {
    if Full(root, 1) {
      FullRootKeepsOwn(root, h, own, key, value);
    } else {
      InsertKeepsOwn(root, h, own, key, value);
    }
  }

  lemma {:induction false} BuildKeepsOwn<V>(entries: seq<(int, V)>, own: Owner<V>)
    requires IsOwner(own, entries)
    ensures AllOwn(Build(1, entries).0, Build(1, entries).1, own)
    decreases |entries|
  {
    if entries != [] {
      var n := |entries| - 1;
      BuildKeepsOwn(entries[..n], own);
      var (t, h) := Build(1, entries[..n]);
      var (r, g) := Build(1, entries);
      RootKeepsOwn(t, h, own, entries[n].0, entries[n].1, r, g);
    }
  }

  lemma {:induction false} OwnIsRead<V>(t: Tree<V>, h: nat, own: Owner<V>, key: int)
    requires WellFormed(t, h, 1) && AllOwn(t, h, own)
    ensures var r := Search(t, h, 1, key); r.Some? ==> Owns(own, key, r.value)
    decreases h
  {
    if h > 0 {
      OwnIsRead(t.children[LeftScan(t.keys, key)], h - 1, own, key);
    }
  }

  /** With order 1 `search` loses keys, but never mistakes one for another. */
  lemma OrderOneIsTruthful<V>(entries: seq<(int, V)>)
    requires DistinctKeys(entries) && DistinctValues(entries)
    ensures SearchIsTruthful(1, entries)
  {
    var own := OwnerExists(entries);
    BuildKeepsOwn(entries, own);
    forall i | 0 <= i < |entries|
      ensures var r := Search(Build(1, entries).0, Build(1, entries).1, 1, entries[i].0); r.Some? ==> r.value == entries[i].1
    {
      assert Owns(own, entries[i].0, entries[i].1);
      OwnIsRead(Build(1, entries).0, Build(1, entries).1, own, entries[i].0);
    }
  }

  // ---------- what is read under a late key ----------

  /** A search for a late key gives a value that is not its own. */
  lemma {:induction false} LateKeyIsMisread<V>(t: Tree<V>, h: nat, order: nat, own: Owner<V>) returns (key: int)
    requires WellFormed(t, h, order) && StrictlySorted(InOrder(t)) && SomeLate(t, h, order, own)
    ensures key in InOrder(t) && Search(t, h, order, key).Some?
    ensures var v := Search(t, h, order, key).value; v in AllValues(t) && !Owns(own, key, v)
    decreases h
  {
    if h == 0 {
      var i :| 0 <= i < |t.keys| && IsLate(t, own, i);
      key := t.keys[i];
      StrictIndexOf(t.keys, i);
    } else {
      var j :| 0 <= j < |t.children| && SomeLate(t.children[j], h - 1, order, own);
      ChildStrict(t, j);
      key := LateKeyIsMisread(t.children[j], h - 1, order, own);
      ChildRange(t, j, key);
      LeftScanIsUnique(t.keys, key, j);
      InOrderAround(t, j);
      ValuesAround(t.children, j);
    }
  }

  /** Whatever `search` finds for an inserted key was inserted under it. */
  ghost predicate SearchIsTruthful<V>(order: nat, entries: seq<(int, V)>) {
    forall i | 0 <= i < |entries| ::
      var r := Search(Build(order, entries).0, Build(order, entries).1, order, entries[i].0);
      r.Some? ==> r.value == entries[i].1
  }

  /** From the first split on, `search` answers for some key with what was inserted under another. */
  lemma SomeKeyReadsAnother<V>(order: nat, entries: seq<(int, V)>) returns (i: nat, j: nat)
    requires order >= 2 && DistinctKeys(entries) && DistinctValues(entries) && |entries| >= 2 * order
    ensures i < |entries| && j < |entries| && entries[i].0 != entries[j].0 && entries[i].1 != entries[j].1
    ensures Search(Build(order, entries).0, Build(order, entries).1, order, entries[i].0) == Some(entries[j].1)
  {
    var (t, h) := Build(order, entries);
    var own := OwnerExists(entries);
    BuildIsLate(order, entries, own);
    DistinctKeysAreStrict(order, entries);
    ReachableIndex(order, entries);
    var key := LateKeyIsMisread(t, h, order, own);
    var v := Search(t, h, order, key).value;
    assert key in multiset(KeysOf(entries)) && v in multiset(InsertedValues(entries));
    i :| 0 <= i < |entries| && KeysOf(entries)[i] == key;
    j :| 0 <= j < |entries| && InsertedValues(entries)[j] == v;
    assert Owns(own, entries[i].0, entries[i].1);
  }

  /**
   With distinct keys and values, `search` never gives one key the value of another exactly until the first split,
   or for ever if the order is 1.
   */
  lemma SearchIsTruthfulUntilFirstSplit<V>(order: nat, entries: seq<(int, V)>)
    requires DistinctKeys(entries) && DistinctValues(entries)
    ensures SearchIsTruthful(order, entries) <==> order == 1 || FitsNode(order, |entries|)
  {
    if order == 1 {
      OrderOneIsTruthful(entries);
    } else if FitsNode(order, |entries|) {
      LeafPhase(order, entries);
    } else {
      var i, j := SomeKeyReadsAnother(order, entries);
    }
  }
}
