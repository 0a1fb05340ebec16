/**
 RadixTrieRoutingIndex.ts: the linked, mutable trie. `insert` rewrites nodes in place while it walks
 down; `lookup` walks with an updated node and an updated rest of the key. Both are proved against
 the functions of RadixTree and, through them, against a finite map.
 */
module RadixTrieIndex {
  import opened Options
  import opened RadixTree

  class RadixNode<T> {
    var prefix: string
    var isLeaf: bool
    var value: Option<T>
    var children: map<char, RadixNode<T>>

    constructor (prefix: string, isLeaf: bool, value: Option<T>, children: map<char, RadixNode<T>>)
      ensures this.prefix == prefix && this.isLeaf == isLeaf && this.value == value && this.children == children
    {
      this.prefix, this.isLeaf, this.value, this.children := prefix, isLeaf, value, children;
    }
  }

  // ---------- the trees that linked nodes stand for ----------

  type Shapes<T> = map<RadixNode<T>, Tree<T>>
  type Parents<T> = map<RadixNode<T>, (RadixNode<T>, char)>

  /** `t` is the tree that the fields of `n` and the trees of its children make up. */
  ghost predicate MakesUp<T>(n: RadixNode<T>, t: Tree<T>, shape: Shapes<T>)
    reads n
  {
    && t.prefix == n.prefix && t.isLeaf == n.isLeaf && t.value == n.value
    && t.children.Keys == n.children.Keys
    && forall c | c in n.children :: n.children[c] in shape && t.children[c] == shape[n.children[c]]
  }

  ghost predicate Mirrors<T>(n: RadixNode<T>, shape: Shapes<T>)
    reads n
  {
    n in shape && MakesUp(n, shape[n], shape)
  }

  /** Every child of `n` has `n` for its only parent. */
  ghost predicate OwnsChildren<T>(n: RadixNode<T>, parent: Parents<T>)
    reads n
  {
    forall c | c in n.children :: n.children[c] in parent && parent[n.children[c]] == (n, c)
  }

  lemma {:induction false} NotOwnChild<T>(t: Tree<T>, c: char)
    requires c in t.children
    ensures t.children[c] != t
    decreases t
  {
    if t.children[c] == t {
      NotOwnChild(t.children[c], c);
    }
  }

  lemma FullPrefix(key: string, p: string)
    requires p <= key
    ensures CommonPrefixLength(key, p) == |p|
  {
    assert forall i | 0 <= i < |p| :: key[i] == p[i];
  }

  ghost predicate AllMirror<T>(shape: Shapes<T>, exempt: set<RadixNode<T>>)
    reads shape.Keys - exempt
  {
    forall n {:trigger Mirrors(n, shape)} | n in shape && n !in exempt :: Mirrors(n, shape)
  }

  ghost predicate AllOwn<T>(nodes: set<RadixNode<T>>, parent: Parents<T>, exempt: set<RadixNode<T>>)
    reads nodes - exempt
  {
    forall n {:trigger OwnsChildren(n, parent)} | n in nodes && n !in exempt :: OwnsChildren(n, parent)
  }

  /** Every node that is not exempt mirrors its fields and owns its children. */
  ghost predicate Settled<T>(shape: Shapes<T>, parent: Parents<T>, exempt: set<RadixNode<T>>)
    reads shape.Keys - exempt
  {
    AllMirror(shape, exempt) && AllOwn(shape.Keys, parent, exempt)
  }

  /** The nodes of `added`, none of them a root, have joined the trie. */
  ghost predicate Grows<T>(shape: Shapes<T>, parent: Parents<T>, shape': Shapes<T>, parent': Parents<T>, added: set<RadixNode<T>>) {
    shape'.Keys == shape.Keys + added && parent'.Keys == parent.Keys + added
  }

  lemma SettleLast<T>(n: RadixNode<T>, shape: Shapes<T>, parent: Parents<T>)
    requires Settled(shape, parent, {n}) && Mirrors(n, shape) && OwnsChildren(n, parent)
    ensures Settled(shape, parent, {})
  {
  }

  /**
   The walk has come to `curr`, whose fields still make up `t` but which has been given the tree it
   will have after the insertion; every other node mirrors its fields.
   */
  ghost predicate Walking<T>(curr: RadixNode<T>, t: Tree<T>, remaining: string, value: T,
                             shape: Shapes<T>, before: Shapes<T>, parent: Parents<T>)
    reads shape.Keys, before.Keys, curr
  {
    && curr in shape && before.Keys == shape.Keys
    && t == before[curr] && Canonical(t) && MakesUp(curr, t, shape)
    && shape[curr] == Insert(t, remaining, value)
    && AllMirror(before, {}) && AllMirror(shape, {curr}) && AllOwn(shape.Keys, parent, {})
  }

  /** A new tree for one node, and nodes that are new, concern only that node and its parent. */
  lemma MirrorsElsewhere<T>(n: RadixNode<T>, shape: Shapes<T>, m: RadixNode<T>, shape': Shapes<T>)
    requires Mirrors(n, shape) && n != m
    requires forall c | c in n.children :: n.children[c] != m
    requires shape.Keys <= shape'.Keys && forall x | x in shape && x != m :: shape'[x] == shape[x]
    ensures Mirrors(n, shape')
  {
  }

  lemma InsertDescends<T>(t: Tree<T>, key: string, value: T)
    requires key != "" && key[0] in t.children && t.children[key[0]].prefix <= key
    ensures var child := t.children[key[0]];
            Insert(t, key, value) == WithChild(t, key[0], Insert(child, key[|child.prefix|..], value))
  {
    FullPrefix(key, t.children[key[0]].prefix);
  }

  lemma OwnTreeChanges<T>(n: RadixNode<T>, t: Tree<T>, shape: Shapes<T>, s: Tree<T>)
    requires n in shape && shape[n] == t && MakesUp(n, t, shape)
    ensures MakesUp(n, t, shape[n := s])
  {
    forall d | d in t.children ensures n.children[d] != n {
      NotOwnChild(t, d);
    }
  }

  /** The walk starts at the root, with the whole key. */
  lemma StartWalk<T>(root: RadixNode<T>, key: string, value: T, shape: Shapes<T>, parent: Parents<T>)
    returns (r: Shapes<T>)
    requires root in shape && root !in parent && Settled(shape, parent, {}) && Canonical(shape[root])
    ensures r == shape[root := Insert(shape[root], key, value)]
    ensures Walking(root, shape[root], key, value, r, shape, parent)
  {
    var s := Insert(shape[root], key, value);
    r := shape[root := s];
    assert Mirrors(root, shape);
    forall n {:trigger Mirrors(n, r)} | n in shape && n != root ensures Mirrors(n, r) {
      assert Mirrors(n, shape) && OwnsChildren(n, parent);
      MirrorsElsewhere(n, shape, root, r);
    }
    OwnTreeChanges(root, shape[root], shape, s);
  }

  /** The parent of `child` has anticipated the new tree `s` of `child`; now it mirrors its fields. */
  lemma TreeChanged<T>(curr: RadixNode<T>, child: RadixNode<T>, c: char, t: Tree<T>, s: Tree<T>,
                       shape: Shapes<T>, parent: Parents<T>)
    requires AllMirror(shape, {curr}) && AllOwn(shape.Keys, parent, {})
    requires curr in shape && child in shape && child != curr && MakesUp(curr, t, shape)
    requires c in curr.children && child == curr.children[c] && shape[curr] == WithChild(t, c, s)
    ensures AllMirror(shape[child := s], {child})
  {
    var r := shape[child := s];
    assert OwnsChildren(curr, parent);
    forall m {:trigger Mirrors(m, r)} | m in r && m != child ensures Mirrors(m, r) {
      if m != curr {
        assert Mirrors(m, shape) && OwnsChildren(m, parent);
        MirrorsElsewhere(m, shape, child, r);
      }
    }
  }

  /** One step down keeps the invariant of the walk. */
  lemma StepDown<T>(curr: RadixNode<T>, t: Tree<T>, remaining: string, value: T,
                    shape: Shapes<T>, before: Shapes<T>, parent: Parents<T>, root: RadixNode<T>)
    returns (r: Shapes<T>)
    requires Walking(curr, t, remaining, value, shape, before, parent)
    requires root in shape && root !in parent
    requires remaining != "" && remaining[0] in curr.children
    requires curr.children[remaining[0]].prefix <= remaining
    ensures root in r && r[root] == shape[root]
    ensures var child := curr.children[remaining[0]];
            var rest := remaining[|child.prefix|..];
            && remaining[0] in t.children && t.children[remaining[0]].prefix == child.prefix
            && Walking(child, t.children[remaining[0]], rest, value, r, before, parent)
  {
    var c := remaining[0];
    var child := curr.children[c];
    var t' := t.children[c];
    assert Mirrors(curr, before) && OwnsChildren(curr, parent);
    NotOwnChild(t, c);
    assert child != curr;
    assert Mirrors(child, shape);
    var s := Insert(t', remaining[|child.prefix|..], value);
    r := shape[child := s];
    InsertDescends(t, remaining, value);
    OwnTreeChanges(child, t', shape, s);
    TreeChanged(curr, child, c, t, s, shape, parent);
  }

  lemma FiledChildren<T>(curr: RadixNode<T>, t: Tree<T>, shape: Shapes<T>, before: Shapes<T>, parent: Parents<T>,
                         remaining: string, value: T)
    requires Walking(curr, t, remaining, value, shape, before, parent)
    ensures forall c | c in curr.children :: FiledUnder(c, t.children[c]) && curr.children[c].prefix == t.children[c].prefix
  {
    assert Mirrors(curr, before);
    forall c | c in curr.children ensures FiledUnder(c, t.children[c]) && curr.children[c].prefix == t.children[c].prefix {
      assert Mirrors(curr.children[c], before);
    }
  }

  /** A new node without children disturbs no other node. */
  lemma AddFresh<T>(x: RadixNode<T>, s: Tree<T>, place: (RadixNode<T>, char), shape: Shapes<T>, parent: Parents<T>,
                    exempt: set<RadixNode<T>>, orphaned: set<RadixNode<T>>)
    requires AllMirror(shape, exempt) && AllOwn(shape.Keys, parent, orphaned)
    requires x !in shape && x !in parent && x.children == map[] && MakesUp(x, s, shape)
    ensures AllMirror(shape[x := s], exempt) && AllOwn(shape[x := s].Keys, parent[x := place], orphaned)
  {
    var shape', parent' := shape[x := s], parent[x := place];
    forall n {:trigger Mirrors(n, shape')} | n in shape' && n !in exempt ensures Mirrors(n, shape') {
      if n != x {
        assert Mirrors(n, shape);
        MirrorsElsewhere(n, shape, x, shape');
      }
    }
    forall n {:trigger OwnsChildren(n, parent')} | n in shape' && n !in orphaned ensures OwnsChildren(n, parent') {
      if n != x {
        assert OwnsChildren(n, parent);
      }
    }
  }

  /** `below` are the children of `child`, with the trees that `t` has for them. */
  ghost predicate Below<T>(child: RadixNode<T>, below: map<char, RadixNode<T>>, t: Tree<T>, shape: Shapes<T>, parent: Parents<T>) {
    && below.Keys == t.children.Keys
    && forall c | c in below ::
         && below[c] in shape && shape[below[c]] == t.children[c]
         && below[c] in parent && parent[below[c]] == (child, c)
  }

  /** Before `child` is cut: with its new tree, everything but `child` itself is settled. */
  lemma PrepareCut<T>(curr: RadixNode<T>, child: RadixNode<T>, n: nat, t: Tree<T>, remaining: string, value: T,
                      shape: Shapes<T>, before: Shapes<T>, parent: Parents<T>)
    returns (r: Shapes<T>)
    requires Walking(curr, t, remaining, value, shape, before, parent)
    requires remaining != "" && remaining[0] in curr.children && child == curr.children[remaining[0]]
    requires n == CommonPrefixLength(remaining, child.prefix) < |child.prefix|
    ensures child in shape && child in parent && Mirrors(child, before)
    ensures r == shape[child := SplitNode(before[child], n, remaining, value)]
    ensures Settled(r, parent, {child}) && Below(child, child.children, before[child], r, parent)
  {
    assert Mirrors(curr, before) && OwnsChildren(curr, parent);
    NotOwnChild(t, remaining[0]);
    assert Mirrors(child, shape) && Mirrors(child, before) && OwnsChildren(child, parent);
    var s := SplitNode(before[child], n, remaining, value);
    assert InsertVia(before[child], remaining, value) == s;
    r := shape[child := s];
    OwnTreeChanges(child, before[child], shape, s);
    TreeChanged(curr, child, remaining[0], t, s, shape, parent);
  }

  /** The trees and parents once `splitNode` has taken over `below` from the exempt node `child`. */
  lemma HandOver<T>(child: RadixNode<T>, below: map<char, RadixNode<T>>, splitNode: RadixNode<T>, place: (RadixNode<T>, char),
                    t: Tree<T>, lower: Tree<T>, shape: Shapes<T>, parent: Parents<T>)
    returns (shape': Shapes<T>, parent': Parents<T>)
    requires Settled(shape, parent, {child}) && Below(child, below, t, shape, parent)
    requires splitNode !in shape && splitNode !in parent && splitNode.children == below
    requires lower.children == t.children && MakesUp(splitNode, lower, shape)
    ensures shape' == shape[splitNode := lower]
    ensures parent'.Keys == parent.Keys + {splitNode} && parent'[splitNode] == place
    ensures Settled(shape', parent', {child})
  {
    shape' := shape[splitNode := lower];
    var moved := map x | x in below.Values :: (splitNode, parent[x].1);
    parent' := (parent + moved)[splitNode := place];
    forall m {:trigger Mirrors(m, shape')} | m in shape' && m != child ensures Mirrors(m, shape') {
      if m != splitNode {
        assert Mirrors(m, shape);
        MirrorsElsewhere(m, shape, splitNode, shape');
      }
    }
    forall m {:trigger OwnsChildren(m, parent')} | m in shape' && m != child ensures OwnsChildren(m, parent') {
      if m != splitNode {
        assert OwnsChildren(m, parent);
      }
    }
  }

  /** The trees and parents once `curr` has been given the new child `x` beside those in `below`. */
  lemma FinishAdd<T>(curr: RadixNode<T>, below: map<char, RadixNode<T>>, x: RadixNode<T>, key: string, value: T,
                     t: Tree<T>, shape: Shapes<T>, parent: Parents<T>)
    requires Settled(shape, parent, {curr}) && curr in shape && x !in shape && x !in parent
    requires key != "" && key[0] !in t.children && shape[curr] == Insert(t, key, value)
    requires x.prefix == key && x.isLeaf && x.value == Some(value) && x.children == map[]
    requires curr.prefix == t.prefix && curr.isLeaf == t.isLeaf && curr.value == t.value
    requires Below(curr, below, t, shape, parent) && curr.children == below[key[0] := x]
    ensures Settled(shape[x := NewLeaf(key, value)], parent[x := (curr, key[0])], {})
  {
    var shape', parent' := shape[x := NewLeaf(key, value)], parent[x := (curr, key[0])];
    AddFresh(x, NewLeaf(key, value), (curr, key[0]), shape, parent, {curr}, {curr});
    assert Mirrors(curr, shape') && OwnsChildren(curr, parent');
    SettleLast(curr, shape', parent');
  }

  /** The nodes that a cut makes. */
  ghost function CutNodes<T>(splitNode: RadixNode<T>, x: RadixNode?<T>): set<RadixNode<T>> {
    if x == null then {splitNode} else {splitNode, x}
  }

  /** The trees and parents once `child` has been cut where `key` ends. */
  lemma FinishCutAtEnd<T>(child: RadixNode<T>, below: map<char, RadixNode<T>>, splitNode: RadixNode<T>,
                          t: Tree<T>, n: nat, key: string, value: T, shape: Shapes<T>, parent: Parents<T>)
    returns (shape': Shapes<T>, parent': Parents<T>)
    requires Settled(shape, parent, {child}) && child in shape && Below(child, below, t, shape, parent)
    requires n < |t.prefix| && n == |key| && shape[child] == SplitNode(t, n, key, value)
    requires splitNode !in shape && splitNode !in parent && splitNode.children == below
    requires splitNode.prefix == t.prefix[n..] && splitNode.isLeaf == t.isLeaf && splitNode.value == t.value
    requires child.prefix == t.prefix[..n] && child.isLeaf && child.value == Some(value)
    requires child.children == map[t.prefix[n] := splitNode]
    ensures Settled(shape', parent', {}) && Grows(shape, parent, shape', parent', {splitNode})
    ensures forall m | m in shape :: shape'[m] == shape[m]
  {
    shape', parent' := HandOver(child, below, splitNode, (child, t.prefix[n]), t, Lower(t, n), shape, parent);
    SettleLast(child, shape', parent');
  }

  lemma UpperMakesUp<T>(child: RadixNode<T>, splitNode: RadixNode<T>, x: RadixNode<T>,
                        t: Tree<T>, n: nat, key: string, value: T, shape: Shapes<T>)
    requires n < |t.prefix| && n < |key| && key[n] != t.prefix[n]
    requires child.prefix == t.prefix[..n] && !child.isLeaf && child.value == None
    requires child.children == map[t.prefix[n] := splitNode, key[n] := x]
    requires splitNode in shape && shape[splitNode] == Lower(t, n) && x in shape && shape[x] == NewLeaf(key[n..], value)
    ensures MakesUp(child, SplitNode(t, n, key, value), shape)
  {
  }

  /** The new child `x` of a node that has been cut. */
  lemma HangLeaf<T>(child: RadixNode<T>, splitNode: RadixNode<T>, x: RadixNode<T>,
                    t: Tree<T>, n: nat, key: string, value: T, shape: Shapes<T>, parent: Parents<T>)
    requires Settled(shape, parent, {child}) && child in shape && child != x
    requires n < |t.prefix| && n < |key| && key[n] != t.prefix[n] && shape[child] == SplitNode(t, n, key, value)
    requires child.prefix == t.prefix[..n] && !child.isLeaf && child.value == None
    requires child.children == map[t.prefix[n] := splitNode, key[n] := x]
    requires splitNode in shape && shape[splitNode] == Lower(t, n)
    requires splitNode in parent && parent[splitNode] == (child, t.prefix[n])
    requires x !in shape && x !in parent
    requires x.prefix == key[n..] && x.isLeaf && x.value == Some(value) && x.children == map[]
    ensures Settled(shape[x := NewLeaf(key[n..], value)], parent[x := (child, key[n])], {})
  {
    var shape', parent' := shape[x := NewLeaf(key[n..], value)], parent[x := (child, key[n])];
    AddFresh(x, NewLeaf(key[n..], value), (child, key[n]), shape, parent, {child}, {child});
    UpperMakesUp(child, splitNode, x, t, n, key, value, shape');
    SettleLast(child, shape', parent');
  }

  /** The trees and parents once `child` has been cut and has been given the new child `x` for the rest of `key`. */
  lemma FinishCutWithLeaf<T>(child: RadixNode<T>, below: map<char, RadixNode<T>>, splitNode: RadixNode<T>, x: RadixNode<T>,
                             t: Tree<T>, n: nat, key: string, value: T, shape: Shapes<T>, parent: Parents<T>)
    returns (shape': Shapes<T>, parent': Parents<T>)
    requires Settled(shape, parent, {child}) && child in shape && Below(child, below, t, shape, parent)
    requires n < |t.prefix| && n < |key| && key[n] != t.prefix[n] && shape[child] == SplitNode(t, n, key, value)
    requires splitNode !in shape && splitNode !in parent && splitNode.children == below
    requires splitNode.prefix == t.prefix[n..] && splitNode.isLeaf == t.isLeaf && splitNode.value == t.value
    requires child.prefix == t.prefix[..n] && !child.isLeaf && child.value == None
    requires child.children == map[t.prefix[n] := splitNode, key[n] := x]
    requires x !in shape && x !in parent && x != splitNode
    requires x.prefix == key[n..] && x.isLeaf && x.value == Some(value) && x.children == map[]
    ensures Settled(shape', parent', {}) && Grows(shape, parent, shape', parent', {splitNode, x})
    ensures forall m | m in shape :: shape'[m] == shape[m]
  {
    var shape1, parent1 := HandOver(child, below, splitNode, (child, t.prefix[n]), t, Lower(t, n), shape, parent);
    HangLeaf(child, splitNode, x, t, n, key, value, shape1, parent1);
    shape', parent' := shape1[x := NewLeaf(key[n..], value)], parent1[x := (child, key[n])];
  }

  /** The fields of the nodes after a cut, of which `x` is there if `key` goes on behind it. */
  ghost predicate IsCut<T>(child: RadixNode<T>, below: map<char, RadixNode<T>>, splitNode: RadixNode<T>, x: RadixNode?<T>,
                           t: Tree<T>, n: nat, key: string, value: T)
    requires n < |t.prefix| && n <= |key|
    reads child, splitNode, if x == null then {} else {x}
  {
    && splitNode.prefix == t.prefix[n..] && splitNode.isLeaf == t.isLeaf && splitNode.value == t.value
    && splitNode.children == below && child.prefix == t.prefix[..n]
    && (x == null <==> n == |key|)
    && (x == null ==> child.isLeaf && child.value == Some(value) && child.children == map[t.prefix[n] := splitNode])
    && (x != null ==>
          && x != splitNode && x.prefix == key[n..] && x.isLeaf && x.value == Some(value) && x.children == map[]
          && !child.isLeaf && child.value == None && child.children == map[t.prefix[n] := splitNode, key[n] := x])
  }

  lemma FinishCut<T>(child: RadixNode<T>, below: map<char, RadixNode<T>>, splitNode: RadixNode<T>, x: RadixNode?<T>,
                     t: Tree<T>, n: nat, key: string, value: T, shape: Shapes<T>, parent: Parents<T>)
    returns (shape': Shapes<T>, parent': Parents<T>)
    requires Settled(shape, parent, {child}) && child in shape && Below(child, below, t, shape, parent)
    requires n < |t.prefix| && n <= |key| && (n < |key| ==> key[n] != t.prefix[n])
    requires shape[child] == SplitNode(t, n, key, value)
    requires IsCut(child, below, splitNode, x, t, n, key, value)
    requires splitNode !in shape && splitNode !in parent && x !in shape && x !in parent
    ensures Settled(shape', parent', {}) && Grows(shape, parent, shape', parent', CutNodes(splitNode, x))
    ensures forall m | m in shape :: shape'[m] == shape[m]
  {
    if x == null {
      shape', parent' := FinishCutAtEnd(child, below, splitNode, t, n, key, value, shape, parent);
    } else {
      shape', parent' := FinishCutWithLeaf(child, below, splitNode, x, t, n, key, value, shape, parent);
    }
  }

  class RadixTrieRoutingIndex<T> {
    const root: RadixNode<T>
    ghost var shape: Shapes<T>
    ghost var parent: Parents<T>

    ghost predicate Valid()
      reads this, shape.Keys
    {
      && root in shape && root !in parent && parent.Keys <= shape.Keys
      && Settled(shape, parent, {})
      && CanonicalRoot(shape[root])
    }

    /** The tree that the linked nodes stand for. */
    ghost function Model(): Tree<T>
      reads this, shape.Keys
      requires Valid()
    {
      shape[root]
    }

    constructor ()
      ensures Valid() && fresh(shape.Keys)
      ensures Model() == EmptyTree()
    {
      var node := new RadixNode<T>("", false, None, map[]);
      root := node;
      shape := map[node := EmptyTree()];
      parent := map[];
      new;
      EmptyContents<T>();
    }

    static method GetCommonPrefixLength(a: string, b: string) returns (len: nat)
      ensures len == CommonPrefixLength(a, b)
    {
      len := 0;
      var min := if |a| < |b| then |a| else |b|;
      while len < min && a[len] == b[len]
        invariant len <= min && a[..len] == b[..len]
      {
        len := len + 1;
      }
      CommonPrefixIsUnique(a, b, len);
    }

    method Lookup(key: string) returns (r: Option<T>)
      requires Valid()
      ensures r == if key in Contents(Model()) then Some(Contents(Model())[key]) else None
    {
      var curr := root;
      var remaining := key;
      LookupRefinesMap(Model(), key);
      while remaining != ""
        invariant curr in shape
        invariant RadixTree.Lookup(shape[curr], remaining) == RadixTree.Lookup(Model(), key)
        decreases shape[curr]
      {
        assert Mirrors(curr, shape);
        if remaining[0] !in curr.children {
          return None;
        }
        var child := curr.children[remaining[0]];
        assert Mirrors(child, shape);
        if !(child.prefix <= remaining) {
          return None;
        }
        remaining := remaining[|child.prefix|..];
        curr := child;
      }
      assert Mirrors(curr, shape);
      r := if curr.isLeaf then curr.value else None;
    }

    /** The scan over the entries of `curr.children`, in whatever order they come. */
    static method FindMatch(curr: RadixNode<T>, remaining: string) returns (child: RadixNode?<T>, commonLen: nat)
      requires remaining != ""
      requires forall c | c in curr.children :: curr.children[c].prefix != "" && curr.children[c].prefix[0] == c
      ensures child == null <==> remaining[0] !in curr.children
      ensures child != null ==> child == curr.children[remaining[0]]
      ensures child != null ==> commonLen == CommonPrefixLength(remaining, child.prefix) > 0
      ensures child != null && commonLen == |child.prefix| ==> child.prefix <= remaining
    {
      child, commonLen := null, 0;
      var pending := curr.children.Keys;
      while pending != {}
        invariant pending <= curr.children.Keys
        invariant remaining[0] in curr.children ==> remaining[0] in pending
        decreases pending
      {
        var childKey :| childKey in pending;
        var childNode := curr.children[childKey];
        commonLen := GetCommonPrefixLength(remaining, childNode.prefix);
        if commonLen > 0 {
          assert remaining[..commonLen][0] == childNode.prefix[..commonLen][0];
          assert commonLen == |childNode.prefix| ==> childNode.prefix[..commonLen] == childNode.prefix;
          child := childNode;
          return;
        }
        pending := pending - {childKey};
      }
    }

    /** The whole key has been consumed: `curr` is marked. */
    static method MarkLeaf(curr: RadixNode<T>, value: T, ghost t: Tree<T>, ghost shape: Shapes<T>, ghost parent: Parents<T>)
      requires curr in shape && AllMirror(shape, {curr}) && AllOwn(shape.Keys, parent, {})
      requires MakesUp(curr, t, shape) && shape[curr] == RadixTree.Insert(t, "", value)
      modifies curr
      ensures Settled(shape, parent, {})
    {
      assert OwnsChildren(curr, parent) && AllOwn(shape.Keys, parent, {curr});
      curr.isLeaf := true;
      curr.value := Some(value);
      SettleLast(curr, shape, parent);
    }

    /** No child shares a first character with `remaining`: it becomes a new leaf. */
    static method AddChild(curr: RadixNode<T>, remaining: string, value: T, ghost t: Tree<T>,
                           ghost shape: Shapes<T>, ghost parent: Parents<T>, ghost root: RadixNode<T>)
      returns (ghost shape': Shapes<T>, ghost parent': Parents<T>, ghost added: set<RadixNode<T>>)
      requires curr in shape && AllMirror(shape, {curr}) && AllOwn(shape.Keys, parent, {}) && parent.Keys <= shape.Keys
      requires root in shape
      requires MakesUp(curr, t, shape) && shape[curr] == RadixTree.Insert(t, remaining, value)
      requires remaining != "" && remaining[0] !in curr.children
      modifies curr
      ensures Settled(shape', parent', {}) && Grows(shape, parent, shape', parent', added) && fresh(added)
      ensures shape'[root] == shape[root]
    {
      assert OwnsChildren(curr, parent) && AllOwn(shape.Keys, parent, {curr});
      ghost var below := curr.children;
      assert Below(curr, below, t, shape, parent);
      var newNode := new RadixNode(remaining, true, Some(value), map[]);
      curr.children := curr.children[newNode.prefix[0] := newNode];
      FinishAdd(curr, below, newNode, remaining, value, t, shape, parent);
      shape' := shape[newNode := NewLeaf(remaining, value)];
      parent' := parent[newNode := (curr, remaining[0])];
      added := {newNode};
    }

    /** The assignments that cut a node in two and hang the rest of the key below the cut. */
    static method CutNode(child: RadixNode<T>, commonLen: nat, remaining: string, value: T, ghost t: Tree<T>)
      returns (splitNode: RadixNode<T>, newNode: RadixNode?<T>)
      requires commonLen < |child.prefix| && commonLen <= |remaining|
      requires t.prefix == child.prefix && t.isLeaf == child.isLeaf && t.value == child.value
      modifies child
      ensures fresh(CutNodes(splitNode, newNode))
      ensures IsCut(child, old(child.children), splitNode, newNode, t, commonLen, remaining, value)
    {
      newNode := null;
      splitNode := new RadixNode(child.prefix[commonLen..], child.isLeaf, child.value, child.children);
      child.prefix := child.prefix[..commonLen];
      child.isLeaf := false;
      child.value := None;
      child.children := map[];
      child.children := child.children[splitNode.prefix[0] := splitNode];
      if commonLen == |remaining| {
        child.isLeaf := true;
        child.value := Some(value);
      } else {
        newNode := new RadixNode(remaining[commonLen..], true, Some(value), map[]);
        child.children := child.children[newNode.prefix[0] := newNode];
      }
    }

    /** The cut of a node that alone is not settled yet. */
    static method CutSettled(child: RadixNode<T>, commonLen: nat, remaining: string, value: T,
                             ghost t: Tree<T>, ghost shape: Shapes<T>, ghost parent: Parents<T>)
      returns (ghost shape': Shapes<T>, ghost parent': Parents<T>, ghost added: set<RadixNode<T>>)
      requires Settled(shape, parent, {child}) && child in shape && parent.Keys <= shape.Keys
      requires Below(child, child.children, t, shape, parent)
      requires commonLen < |child.prefix| && commonLen <= |remaining|
      requires commonLen < |remaining| ==> remaining[commonLen] != child.prefix[commonLen]
      requires t.prefix == child.prefix && t.isLeaf == child.isLeaf && t.value == child.value
      requires shape[child] == SplitNode(t, commonLen, remaining, value)
      modifies child
      ensures Settled(shape', parent', {}) && Grows(shape, parent, shape', parent', added) && fresh(added)
      ensures forall m | m in shape :: shape'[m] == shape[m]
    {
      ghost var below := child.children;
      var splitNode, newNode := CutNode(child, commonLen, remaining, value, t);
      added := CutNodes(splitNode, newNode);
      shape', parent' := FinishCut(child, below, splitNode, newNode, t, commonLen, remaining, value, shape, parent);
    }

    /** The key leaves the child's prefix after `commonLen` characters: the child is cut there. */
    static method SplitChild(curr: RadixNode<T>, child: RadixNode<T>, commonLen: nat, remaining: string, value: T,
                             ghost t: Tree<T>, ghost shape: Shapes<T>, ghost before: Shapes<T>, ghost parent: Parents<T>,
                             ghost root: RadixNode<T>)
      returns (ghost shape': Shapes<T>, ghost parent': Parents<T>, ghost added: set<RadixNode<T>>)
      requires Walking(curr, t, remaining, value, shape, before, parent) && parent.Keys <= shape.Keys
      requires root in shape && root !in parent
      requires remaining != "" && remaining[0] in curr.children && child == curr.children[remaining[0]]
      requires commonLen == CommonPrefixLength(remaining, child.prefix) < |child.prefix|
      modifies child
      ensures Settled(shape', parent', {}) && Grows(shape, parent, shape', parent', added) && fresh(added)
      ensures shape'[root] == shape[root]
    {
      ghost var cut := PrepareCut(curr, child, commonLen, t, remaining, value, shape, before, parent);
      shape', parent', added := CutSettled(child, commonLen, remaining, value, before[child], cut, parent);
    }

    /** The rest of the key branches off, at `curr` or within the prefix of `child`. */
    static method Branch(curr: RadixNode<T>, child: RadixNode?<T>, commonLen: nat, remaining: string, value: T,
                         ghost t: Tree<T>, ghost shape: Shapes<T>, ghost before: Shapes<T>, ghost parent: Parents<T>,
                         ghost root: RadixNode<T>)
      returns (ghost shape': Shapes<T>, ghost parent': Parents<T>, ghost added: set<RadixNode<T>>)
      requires Walking(curr, t, remaining, value, shape, before, parent) && parent.Keys <= shape.Keys
      requires root in shape && root !in parent && remaining != ""
      requires child == null ==> remaining[0] !in curr.children
      requires child != null ==>
                 && remaining[0] in curr.children && child == curr.children[remaining[0]]
                 && commonLen == CommonPrefixLength(remaining, child.prefix) < |child.prefix|
      modifies curr, child
      ensures Settled(shape', parent', {}) && Grows(before, parent, shape', parent', added) && fresh(added)
      ensures shape'[root] == shape[root]
    {
      if child == null {
        shape', parent', added := AddChild(curr, remaining, value, t, shape, parent, root);
      } else {
        shape', parent', added := SplitChild(curr, child, commonLen, remaining, value, t, shape, before, parent, root);
      }
    }

    /** The walk of `insert`, from the root to the node where the key ends or leaves the trie. */
    static method InsertFrom(root: RadixNode<T>, key: string, value: T,
                             ghost goal: Shapes<T>, ghost shape: Shapes<T>, ghost parent: Parents<T>)
      returns (ghost shape': Shapes<T>, ghost parent': Parents<T>, ghost added: set<RadixNode<T>>)
      requires root in shape && root !in parent && parent.Keys <= shape.Keys
      requires Walking(root, shape[root], key, value, goal, shape, parent)
      modifies shape.Keys
      ensures Settled(shape', parent', {}) && Grows(shape, parent, shape', parent', added) && fresh(added)
      ensures shape'[root] == goal[root]
    {
      var curr: RadixNode<T> := root;
      var remaining := key;
      ghost var t := shape[root];
      ghost var after: Shapes<T> := goal;
      while remaining != ""
        invariant Walking(curr, t, remaining, value, after, shape, parent)
        invariant after[root] == goal[root]
        decreases |remaining|
      {
        FiledChildren(curr, t, after, shape, parent, remaining, value);
        var child, commonLen := FindMatch(curr, remaining);
        if child == null || commonLen < |child.prefix| {
          shape', parent', added := Branch(curr, child, commonLen, remaining, value, t, after, shape, parent, root);
          return;
        }
        after := StepDown(curr, t, remaining, value, after, shape, parent, root);
        t := t.children[remaining[0]];
        curr, remaining := child, remaining[commonLen..];
      }
      MarkLeaf(curr, value, t, after, parent);
      shape', parent', added := after, parent, {};
    }

    /** The walk, with the trees and parents that it leaves; `goal` is the tree of the root then. */
    static method InsertKey(root: RadixNode<T>, key: string, value: T, ghost shape: Shapes<T>, ghost parent: Parents<T>,
                            ghost goal: Tree<T>)
      returns (ghost shape': Shapes<T>, ghost parent': Parents<T>)
      requires root in shape && root !in parent && parent.Keys <= shape.Keys
      requires Settled(shape, parent, {}) && Canonical(shape[root])
      requires goal == RadixTree.Insert(shape[root], key, value)
      modifies shape.Keys
      ensures Settled(shape', parent', {}) && root in shape' && root !in parent' && parent'.Keys <= shape'.Keys
      ensures fresh(shape'.Keys - shape.Keys) && shape'[root] == goal
    {
      ghost var after := StartWalk(root, key, value, shape, parent);
      ghost var added;
      shape', parent', added := InsertFrom(root, key, value, after, shape, parent);
    }

    method Insert(key: string, value: T)
      requires Valid()
      modifies this`shape, this`parent, shape.Keys
      ensures Valid() && fresh(shape.Keys - old(shape.Keys))
      ensures Model() == old(RadixTree.Insert(Model(), key, value))
      ensures Contents(Model()) == old(Contents(Model()))[key := value]
    {
      InsertRefinesMap(shape[root], key, value);
      InsertCanonical(shape[root], key, value);
      shape, parent := InsertKey(root, key, value, shape, parent, RadixTree.Insert(shape[root], key, value));
    }
  }
}
