/**
 BPlusTreeDatabaseIndex.ts: the linked, mutable index. `splitChild` and `insertNonFull` rewrite nodes
 in place and relink the leaves; each is proved against the function of BTree that says what it does
 to the abstract tree, and the leaf links are proved to run through the leaves from left to right.
 */
module BPlusTreeIndex {
  import opened Options
  import B = BTree

  class BPlusTreeNode<V> {
    var isLeaf: bool
    var keys: seq<int>
    var values: seq<V>
    var children: seq<BPlusTreeNode<V>>
    var next: BPlusTreeNode?<V>

    constructor (isLeaf: bool)
      ensures this.isLeaf == isLeaf && keys == [] && values == [] && children == [] && next == null
    {
      this.isLeaf := isLeaf;
      keys, values, children, next := [], [], [], null;
    }
  }

  // ---------- shapes: trees that remember their nodes ----------

  datatype Shape<V> = Shape(node: BPlusTreeNode<V>, isLeaf: bool, keys: seq<int>, values: seq<V>, kids: seq<Shape<V>>)

  ghost function TreeOf<V>(s: Shape<V>): B.Tree<V>
    decreases s, 1
  {
    B.Node(s.isLeaf, s.keys, s.values, TreesOf(s.kids))
  }

  ghost function TreesOf<V>(kids: seq<Shape<V>>): (r: seq<B.Tree<V>>)
    ensures |r| == |kids| && forall i | 0 <= i < |r| :: r[i] == TreeOf(kids[i])
    decreases kids, 0
  {
    if kids == [] then [] else [TreeOf(kids[0])] + TreesOf(kids[1..])
  }

  ghost function Nodes<V>(s: Shape<V>): set<BPlusTreeNode<V>>
    decreases s, 1
  {
    {s.node} + NodesOf(s.kids)
  }

  ghost function NodesOf<V>(kids: seq<Shape<V>>): set<BPlusTreeNode<V>>
    decreases kids, 0
  {
    if kids == [] then {} else Nodes(kids[0]) + NodesOf(kids[1..])
  }

  /** No node occurs twice. */
  ghost predicate Separate<V>(s: Shape<V>)
    decreases s, 1
  {
    s.node !in NodesOf(s.kids) && SeparateAll(s.kids)
  }

  ghost predicate SeparateAll<V>(kids: seq<Shape<V>>)
    decreases kids, 0
  {
    kids != [] ==> Separate(kids[0]) && SeparateAll(kids[1..]) && Nodes(kids[0]) !! NodesOf(kids[1..])
  }

  ghost function Roots<V>(kids: seq<Shape<V>>): seq<BPlusTreeNode<V>> {
    seq(|kids|, i requires 0 <= i < |kids| => kids[i].node)
  }

  /** The fields of the nodes are as the shape says. */
  ghost predicate Matches<V>(s: Shape<V>)
    reads Nodes(s)
    decreases s, 1
  {
    && s.node.isLeaf == s.isLeaf && s.node.keys == s.keys && s.node.values == s.values
    && s.node.children == Roots(s.kids)
    && AllMatch(s.kids)
  }

  ghost predicate AllMatch<V>(kids: seq<Shape<V>>)
    reads NodesOf(kids)
    decreases kids, 0
  {
    kids != [] ==> Matches(kids[0]) && AllMatch(kids[1..])
  }

  /** The leaves from left to right. */
  ghost function Leaves<V>(s: Shape<V>): (r: seq<BPlusTreeNode<V>>)
    ensures forall n | n in r :: n in Nodes(s)
    decreases s, 1
  {
    if s.isLeaf then [s.node] else LeavesOf(s.kids)
  }

  ghost function LeavesOf<V>(kids: seq<Shape<V>>): (r: seq<BPlusTreeNode<V>>)
    ensures forall n | n in r :: n in NodesOf(kids)
    decreases kids, 0
  {
    if kids == [] then [] else Leaves(kids[0]) + LeavesOf(kids[1..])
  }

  // ---------- the same notions for parts of a sequence of children ----------

  lemma {:induction false} PartsOf<V>(a: seq<Shape<V>>, b: seq<Shape<V>>)
    ensures NodesOf(a + b) == NodesOf(a) + NodesOf(b)
    ensures LeavesOf(a + b) == LeavesOf(a) + LeavesOf(b)
    ensures AllMatch(a + b) <==> AllMatch(a) && AllMatch(b)
    ensures SeparateAll(a + b) <==> SeparateAll(a) && SeparateAll(b) && NodesOf(a) !! NodesOf(b)
    decreases |a|
  {
    if a == [] {
      assert a + b == b;
    } else {
      assert (a + b)[1..] == a[1..] + b;
      PartsOf(a[1..], b);
    }
  }

  lemma One<V>(s: Shape<V>)
    ensures NodesOf([s]) == Nodes(s) && LeavesOf([s]) == Leaves(s)
    ensures AllMatch([s]) <==> Matches(s)
    ensures SeparateAll([s]) <==> Separate(s)
  {
    assert [s][1..] == [];
  }

  lemma {:induction false} MatchesAt<V>(kids: seq<Shape<V>>, i: nat)
    requires AllMatch(kids) && i < |kids|
    ensures Matches(kids[i]) && Nodes(kids[i]) <= NodesOf(kids)
    decreases i
  {
    if i > 0 {
      MatchesAt(kids[1..], i - 1);
    }
  }

  lemma PartsAround<V>(a: seq<Shape<V>>, s: Shape<V>, b: seq<Shape<V>>)
    ensures NodesOf(a + [s] + b) == NodesOf(a) + Nodes(s) + NodesOf(b)
    ensures LeavesOf(a + [s] + b) == LeavesOf(a) + Leaves(s) + LeavesOf(b)
    ensures AllMatch(a + [s] + b) <==> AllMatch(a) && Matches(s) && AllMatch(b)
    ensures SeparateAll(a + [s] + b) <==>
              && SeparateAll(a) && Separate(s) && SeparateAll(b)
              && NodesOf(a) !! Nodes(s) && NodesOf(a) !! NodesOf(b) && Nodes(s) !! NodesOf(b)
  {
    PartsOf(a + [s], b);
    PartsOf(a, [s]);
    One(s);
  }

  // ---------- the links between leaves ----------

  ghost predicate LinkAt<V>(leaves: seq<BPlusTreeNode<V>>, i: nat, tail: BPlusTreeNode?<V>)
    requires i < |leaves|
    reads leaves
  {
    leaves[i].next == if i + 1 < |leaves| then leaves[i + 1] else tail
  }

  /** The `next` links run through `leaves` and then to `tail`. */
  ghost predicate Linked<V>(leaves: seq<BPlusTreeNode<V>>, tail: BPlusTreeNode?<V>)
    reads leaves
  {
    forall i | 0 <= i < |leaves| :: LinkAt(leaves, i, tail)
  }

  /** Where the link goes that precedes `leaves`. */
  ghost function First<V>(leaves: seq<BPlusTreeNode<V>>, tail: BPlusTreeNode?<V>): BPlusTreeNode?<V> {
    if leaves == [] then tail else leaves[0]
  }

  lemma LinkedParts<V>(a: seq<BPlusTreeNode<V>>, b: seq<BPlusTreeNode<V>>, tail: BPlusTreeNode?<V>)
    ensures Linked(a + b, tail) <==> Linked(a, First(b, tail)) && Linked(b, tail)
    ensures First(a + b, tail) == First(a, First(b, tail))
  {
    var s := a + b;
    forall i | 0 <= i < |a| ensures LinkAt(s, i, tail) == LinkAt(a, i, First(b, tail)) {
    }
    forall i | 0 <= i < |b| ensures LinkAt(s, |a| + i, tail) == LinkAt(b, i, tail) {
    }
    if Linked(a, First(b, tail)) && Linked(b, tail) {
      forall i | 0 <= i < |s| ensures LinkAt(s, i, tail) {
        if i >= |a| { assert LinkAt(b, i - |a|, tail); }
      }
    }
    if Linked(s, tail) {
      forall i | 0 <= i < |b| ensures LinkAt(b, i, tail) {
        assert LinkAt(s, |a| + i, tail);
      }
    }
  }

  /** What a reader of the leaves sees, one after the other. */
  ghost function ValuesAlong<V>(leaves: seq<BPlusTreeNode<V>>): seq<V>
    reads leaves
  {
    if leaves == [] then [] else leaves[0].values + ValuesAlong(leaves[1..])
  }

  lemma {:induction false} ValuesAlongParts<V>(a: seq<BPlusTreeNode<V>>, b: seq<BPlusTreeNode<V>>)
    ensures ValuesAlong(a + b) == ValuesAlong(a) + ValuesAlong(b)
    decreases |a|
  {
    if a == [] {
      assert a + b == b;
    } else {
      assert (a + b)[1..] == a[1..] + b;
      ValuesAlongParts(a[1..], b);
    }
  }

  /** The values of the leaves are the values of the tree, in its order. */
  lemma {:induction false} LeavesHoldAllValues<V>(s: Shape<V>)
    requires Matches(s)
    ensures ValuesAlong(Leaves(s)) == B.AllValues(TreeOf(s))
    decreases s, 1
  {
    if !s.isLeaf {
      LeavesHoldAllValuesOf(s.kids);
    }
  }

  lemma {:induction false} LeavesHoldAllValuesOf<V>(kids: seq<Shape<V>>)
    requires AllMatch(kids)
    ensures ValuesAlong(LeavesOf(kids)) == B.ValuesOf(TreesOf(kids))
    decreases kids, 0
  {
    if kids != [] {
      LeavesHoldAllValues(kids[0]);
      LeavesHoldAllValuesOf(kids[1..]);
      ValuesAlongParts(Leaves(kids[0]), LeavesOf(kids[1..]));
    }
  }

  // ---------- a split, on shapes ----------

  ghost function LeftShape<V>(c: Shape<V>, order: nat): Shape<V>
    requires 1 <= order <= |c.keys|
  {
    var l := c.(keys := c.keys[..order - 1]);
    if c.isLeaf then l.(values := B.Take(c.values, order - 1)) else l.(kids := B.Take(c.kids, order))
  }

  ghost function RightShape<V>(c: Shape<V>, order: nat, z: BPlusTreeNode<V>): Shape<V>
    requires 1 <= order <= |c.keys|
  {
    if c.isLeaf then Shape(z, true, c.keys[order..], B.Drop(c.values, order - 1), [])
    else Shape(z, false, c.keys[order..], [], B.Drop(c.kids, order))
  }

  ghost predicate CanSplit<V>(p: Shape<V>, i: nat, order: nat) {
    i < |p.kids| && i <= |p.keys| && 1 <= order <= |p.kids[i].keys|
  }

  ghost function SplitShape<V>(p: Shape<V>, i: nat, order: nat, z: BPlusTreeNode<V>): Shape<V>
    requires CanSplit(p, i, order)
  {
    var c := p.kids[i];
    p.(keys := B.InsertAt(p.keys, i, c.keys[order - 1]),
       kids := p.kids[..i] + [LeftShape(c, order)] + ([RightShape(c, order, z)] + p.kids[i + 1..]))
  }

  lemma HalfShapeTrees<V>(c: Shape<V>, order: nat, z: BPlusTreeNode<V>)
    requires 1 <= order <= |c.keys|
    ensures TreeOf(LeftShape(c, order)) == B.SplitLeft(TreeOf(c), order)
    ensures TreeOf(RightShape(c, order, z)) == B.SplitRight(TreeOf(c), order)
  {
    assert TreesOf(B.Take(c.kids, order)) == B.Take(TreesOf(c.kids), order);
    assert TreesOf(B.Drop(c.kids, order)) == B.Drop(TreesOf(c.kids), order);
  }

  lemma SplitShapeTree<V>(p: Shape<V>, i: nat, order: nat, z: BPlusTreeNode<V>)
    requires CanSplit(p, i, order)
    ensures TreeOf(SplitShape(p, i, order, z)) == B.SplitChild(TreeOf(p), i, order)
  {
    HalfShapeTrees(p.kids[i], order, z);
    var r, t := TreesOf(SplitShape(p, i, order, z).kids), B.SplitChild(TreeOf(p), i, order).children;
    assert |r| == |t|;
    forall j | 0 <= j < |r| ensures r[j] == t[j] {
    }
  }

  lemma HalfShapes<V>(c: Shape<V>, order: nat, z: BPlusTreeNode<V>)
    requires 1 <= order <= |c.keys| && Separate(c) && z !in Nodes(c)
    requires c.isLeaf ==> c.kids == []
    ensures var l, r := LeftShape(c, order), RightShape(c, order, z);
            && Nodes(l) + Nodes(r) == Nodes(c) + {z} && Nodes(l) !! Nodes(r)
            && Separate(l) && Separate(r)
            && Leaves(l) + Leaves(r) == (if c.isLeaf then [c.node, z] else Leaves(c))
            && (AllMatch(c.kids) <==> AllMatch(l.kids) && AllMatch(r.kids))
  {
    if !c.isLeaf {
      var n := if order <= |c.kids| then order else |c.kids|;
      assert c.kids == c.kids[..n] + c.kids[n..];
      PartsOf(c.kids[..n], c.kids[n..]);
      assert B.Take(c.kids, order) == c.kids[..n] && B.Drop(c.kids, order) == c.kids[n..];
    }
  }

  /** Two children in the place of one. */
  lemma PartsAroundTwo<V>(a: seq<Shape<V>>, l: Shape<V>, r: Shape<V>, b: seq<Shape<V>>)
    ensures var kids := a + [l] + ([r] + b);
            && NodesOf(kids) == NodesOf(a) + (Nodes(l) + Nodes(r)) + NodesOf(b)
            && LeavesOf(kids) == LeavesOf(a) + (Leaves(l) + Leaves(r)) + LeavesOf(b)
            && (AllMatch(kids) <==> AllMatch(a) && Matches(l) && Matches(r) && AllMatch(b))
  {
    PartsAround(a, l, [r] + b);
    PartsOf([r], b);
    One(r);
    assert LeavesOf(a) + Leaves(l) + (Leaves(r) + LeavesOf(b)) == LeavesOf(a) + (Leaves(l) + Leaves(r)) + LeavesOf(b);
  }

  lemma SeparateAroundTwo<V>(a: seq<Shape<V>>, l: Shape<V>, r: Shape<V>, b: seq<Shape<V>>)
    requires SeparateAll(a) && Separate(l) && Separate(r) && SeparateAll(b)
    requires NodesOf(a) !! Nodes(l) + Nodes(r) && NodesOf(a) !! NodesOf(b) && Nodes(l) + Nodes(r) !! NodesOf(b)
    requires Nodes(l) !! Nodes(r)
    ensures SeparateAll(a + [l] + ([r] + b))
  {
    PartsAround(a, l, [r] + b);
    PartsOf([r], b);
    One(r);
  }

  lemma TwoForOneNodes<V>(a: seq<Shape<V>>, c: Shape<V>, b: seq<Shape<V>>, l: Shape<V>, r: Shape<V>, z: BPlusTreeNode<V>)
    requires Nodes(l) + Nodes(r) == Nodes(c) + {z}
    ensures NodesOf(a + [l] + ([r] + b)) == NodesOf(a + [c] + b) + {z}
  {
    PartsAround(a, c, b);
    PartsAroundTwo(a, l, r, b);
  }

  lemma TwoForOneSeparate<V>(a: seq<Shape<V>>, c: Shape<V>, b: seq<Shape<V>>, l: Shape<V>, r: Shape<V>, z: BPlusTreeNode<V>)
    requires SeparateAll(a + [c] + b) && z !in NodesOf(a + [c] + b)
    requires Nodes(l) + Nodes(r) == Nodes(c) + {z} && Nodes(l) !! Nodes(r) && Separate(l) && Separate(r)
    ensures SeparateAll(a + [l] + ([r] + b))
  {
    PartsAround(a, c, b);
    SeparateAroundTwo(a, l, r, b);
  }

  lemma SplitShapeNodes<V>(p: Shape<V>, i: nat, order: nat, z: BPlusTreeNode<V>)
    requires CanSplit(p, i, order) && Separate(p) && z !in Nodes(p)
    requires p.kids[i].isLeaf ==> p.kids[i].kids == []
    ensures Nodes(SplitShape(p, i, order, z)) == Nodes(p) + {z}
  {
    var a, c, b := p.kids[..i], p.kids[i], p.kids[i + 1..];
    assert p.kids == a + [c] + b;
    SeparateKid(a, c, b);
    HalfShapes(c, order, z);
    TwoForOneNodes(a, c, b, LeftShape(c, order), RightShape(c, order, z), z);
  }

  lemma SplitShapeSeparate<V>(p: Shape<V>, i: nat, order: nat, z: BPlusTreeNode<V>)
    requires CanSplit(p, i, order) && Separate(p) && z !in Nodes(p)
    requires p.kids[i].isLeaf ==> p.kids[i].kids == []
    ensures Separate(SplitShape(p, i, order, z))
  {
    var a, c, b := p.kids[..i], p.kids[i], p.kids[i + 1..];
    assert p.kids == a + [c] + b;
    SeparateKid(a, c, b);
    HalfShapes(c, order, z);
    TwoForOneSeparate(a, c, b, LeftShape(c, order), RightShape(c, order, z), z);
    TwoForOneNodes(a, c, b, LeftShape(c, order), RightShape(c, order, z), z);
  }

  lemma SeparateKid<V>(a: seq<Shape<V>>, c: Shape<V>, b: seq<Shape<V>>)
    requires SeparateAll(a + [c] + b)
    ensures Separate(c) && Nodes(c) <= NodesOf(a + [c] + b)
  {
    PartsAround(a, c, b);
  }

  lemma SplitShapeLeaves<V>(p: Shape<V>, i: nat, order: nat, z: BPlusTreeNode<V>)
    requires CanSplit(p, i, order) && Separate(p) && z !in Nodes(p)
    requires p.kids[i].isLeaf ==> p.kids[i].kids == []
    ensures LeavesOf(SplitShape(p, i, order, z).kids) ==
            LeavesOf(p.kids[..i])
            + (if p.kids[i].isLeaf then [p.kids[i].node, z] else Leaves(p.kids[i]))
            + LeavesOf(p.kids[i + 1..])
  {
    var a, c, b := p.kids[..i], p.kids[i], p.kids[i + 1..];
    assert p.kids == a + [c] + b;
    SeparateKid(a, c, b);
    HalfShapes(c, order, z);
    PartsAroundTwo(a, LeftShape(c, order), RightShape(c, order, z), b);
  }

  /** The fields after a split, told in terms of the shape before it. */
  ghost predicate SplitFields<V>(p: Shape<V>, i: nat, order: nat, z: BPlusTreeNode<V>)
    requires CanSplit(p, i, order)
    reads p.node, p.kids[i].node, z
  {
    var c := p.kids[i];
    && p.node.isLeaf == p.isLeaf && p.node.values == p.values
    && p.node.keys == B.InsertAt(p.keys, i, c.keys[order - 1])
    && p.node.children == Roots(p.kids)[..i + 1] + [z] + Roots(p.kids)[i + 1..]
    && c.node.isLeaf == c.isLeaf && c.node.keys == c.keys[..order - 1]
    && c.node.values == (if c.isLeaf then B.Take(c.values, order - 1) else c.values)
    && c.node.children == (if c.isLeaf then Roots(c.kids) else B.Take(Roots(c.kids), order))
    && z.isLeaf == c.isLeaf && z.keys == c.keys[order..]
    && z.values == (if c.isLeaf then B.Drop(c.values, order - 1) else [])
    && z.children == (if c.isLeaf then [] else B.Drop(Roots(c.kids), order))
  }

  lemma HalfKidsMatch<V>(c: Shape<V>, order: nat)
    requires AllMatch(c.kids)
    ensures AllMatch(B.Take(c.kids, order)) && AllMatch(B.Drop(c.kids, order))
  {
    if order <= |c.kids| {
      assert c.kids == c.kids[..order] + c.kids[order..];
      PartsOf(c.kids[..order], c.kids[order..]);
    }
  }

  lemma HalfShapesMatch<V>(p: Shape<V>, i: nat, order: nat, z: BPlusTreeNode<V>)
    requires CanSplit(p, i, order)
    requires p.kids[i].isLeaf ==> p.kids[i].kids == []
    requires SplitFields(p, i, order, z) && AllMatch(p.kids[i].kids)
    ensures Matches(LeftShape(p.kids[i], order)) && Matches(RightShape(p.kids[i], order, z))
  {
    var c := p.kids[i];
    HalfKidsMatch(c, order);
    assert Roots(LeftShape(c, order).kids) == c.node.children;
    assert Roots(RightShape(c, order, z).kids) == z.children;
  }

  lemma SplitShapeRoots<V>(p: Shape<V>, i: nat, order: nat, z: BPlusTreeNode<V>)
    requires CanSplit(p, i, order)
    ensures Roots(SplitShape(p, i, order, z).kids) == Roots(p.kids)[..i + 1] + [z] + Roots(p.kids)[i + 1..]
  {
  }

  lemma SplitShapeMatches<V>(p: Shape<V>, i: nat, order: nat, z: BPlusTreeNode<V>)
    requires CanSplit(p, i, order) && Separate(p.kids[i]) && z !in Nodes(p.kids[i])
    requires p.kids[i].isLeaf ==> p.kids[i].kids == []
    requires SplitFields(p, i, order, z)
    requires AllMatch(p.kids[..i]) && AllMatch(p.kids[i].kids) && AllMatch(p.kids[i + 1..])
    ensures Matches(SplitShape(p, i, order, z))
  {
    HalfShapesMatch(p, i, order, z);
    PartsAroundTwo(p.kids[..i], LeftShape(p.kids[i], order), RightShape(p.kids[i], order, z), p.kids[i + 1..]);
    SplitShapeRoots(p, i, order, z);
  }

  /** A shape that a call on `node`, at height `h` and with leaves linked on to `tail`, can rely on. */
  ghost predicate Fits<V>(s: Shape<V>, node: BPlusTreeNode<V>, h: nat, order: nat, tail: BPlusTreeNode?<V>)
    reads Nodes(s)
  {
    && s.node == node && Matches(s) && Separate(s) && B.WellFormed(TreeOf(s), h, order)
    && Linked(Leaves(s), tail)
  }

  /** The links before a split, part by part. */
  lemma SplitLinksBefore<V>(s: Shape<V>, i: nat, tail: BPlusTreeNode?<V>)
    requires i < |s.kids| && !s.isLeaf && Linked(Leaves(s), tail)
    ensures var la, lc, lb := LeavesOf(s.kids[..i]), Leaves(s.kids[i]), LeavesOf(s.kids[i + 1..]);
            && Linked(la, First(lc, First(lb, tail))) && Linked(lc, First(lb, tail)) && Linked(lb, tail)
            && (s.kids[i].isLeaf ==> s.kids[i].node.next == First(lb, tail))
            && First(Leaves(s), tail) == First(la, First(lc, First(lb, tail)))
  {
    var la, lc, lb := LeavesOf(s.kids[..i]), Leaves(s.kids[i]), LeavesOf(s.kids[i + 1..]);
    assert s.kids == s.kids[..i] + [s.kids[i]] + s.kids[i + 1..];
    PartsAround(s.kids[..i], s.kids[i], s.kids[i + 1..]);
    LinkedParts(la + lc, lb, tail);
    LinkedParts(la, lc, First(lb, tail));
    assert lc != [] ==> LinkAt(lc, |lc| - 1, First(lb, tail));
  }

  lemma SplitLinksAfter<V>(s: Shape<V>, i: nat, order: nat, z: BPlusTreeNode<V>, tail: BPlusTreeNode?<V>)
    requires CanSplit(s, i, order) && !s.isLeaf && Separate(s) && z !in Nodes(s)
    requires s.kids[i].isLeaf ==> s.kids[i].kids == []
    requires var la, lc, lb := LeavesOf(s.kids[..i]), Leaves(s.kids[i]), LeavesOf(s.kids[i + 1..]);
             && Linked(la, First(lc, First(lb, tail))) && Linked(lb, tail)
             && if s.kids[i].isLeaf then s.kids[i].node.next == z && z.next == First(lb, tail) else Linked(lc, First(lb, tail))
    ensures var la, lc, lb := LeavesOf(s.kids[..i]), Leaves(s.kids[i]), LeavesOf(s.kids[i + 1..]);
            var r := SplitShape(s, i, order, z);
            Linked(Leaves(r), tail) && First(Leaves(r), tail) == First(la, First(lc, First(lb, tail)))
  {
    var la, lb := LeavesOf(s.kids[..i]), LeavesOf(s.kids[i + 1..]);
    var lc := if s.kids[i].isLeaf then [s.kids[i].node, z] else Leaves(s.kids[i]);
    SplitShapeLeaves(s, i, order, z);
    LinkedParts(la + lc, lb, tail);
    LinkedParts(la, lc, First(lb, tail));
  }

  /** What a split of child `i` relies on and leaves alone. */
  lemma BeforeSplit<V>(s: Shape<V>, i: nat, h: nat, order: nat, node: BPlusTreeNode<V>, tail: BPlusTreeNode?<V>)
    requires h > 0 && Fits(s, node, h, order, tail)
    requires i < |s.kids| && B.Full(TreeOf(s.kids[i]), order)
    ensures var a, c, b := s.kids[..i], s.kids[i], s.kids[i + 1..];
            && CanSplit(s, i, order) && Matches(c) && AllMatch(a) && AllMatch(b)
            && (c.isLeaf ==> c.kids == []) && !s.isLeaf && c.node != node
            && node !in NodesOf(a) && node !in NodesOf(c.kids) && node !in NodesOf(b)
            && c.node !in NodesOf(a) && c.node !in NodesOf(c.kids) && c.node !in NodesOf(b)
  {
    assert B.WellFormed(TreeOf(s).children[i], h - 1, order);
    assert s.kids == s.kids[..i] + [s.kids[i]] + s.kids[i + 1..];
    PartsAround(s.kids[..i], s.kids[i], s.kids[i + 1..]);
  }

  lemma AfterSplitShape<V>(s: Shape<V>, i: nat, order: nat, z: BPlusTreeNode<V>)
    requires CanSplit(s, i, order) && Separate(s) && z !in Nodes(s)
    requires s.kids[i].isLeaf ==> s.kids[i].kids == []
    requires SplitFields(s, i, order, z)
    requires AllMatch(s.kids[..i]) && AllMatch(s.kids[i].kids) && AllMatch(s.kids[i + 1..])
    ensures var r := SplitShape(s, i, order, z);
            Matches(r) && Separate(r) && Nodes(r) == Nodes(s) + {z}
  {
    assert s.kids == s.kids[..i] + [s.kids[i]] + s.kids[i + 1..];
    PartsAround(s.kids[..i], s.kids[i], s.kids[i + 1..]);
    SplitShapeNodes(s, i, order, z);
    SplitShapeSeparate(s, i, order, z);
    SplitShapeMatches(s, i, order, z);
  }

  lemma AfterSplitTree<V>(s: Shape<V>, i: nat, h: nat, order: nat, z: BPlusTreeNode<V>)
    requires h > 0 && B.WellFormed(TreeOf(s), h, order) && !B.Full(TreeOf(s), order)
    requires i < |s.kids| && B.Full(TreeOf(s.kids[i]), order) && CanSplit(s, i, order)
    ensures var r := TreeOf(SplitShape(s, i, order, z));
            r == B.SplitChild(TreeOf(s), i, order) && B.WellFormed(r, h, order)
  {
    SplitShapeTree(s, i, order, z);
    B.SplitChildWellFormed(TreeOf(s), h, order, i);
  }

  /** All that a split of child `i` leaves. */
  lemma AfterSplit<V>(s: Shape<V>, i: nat, h: nat, order: nat, z: BPlusTreeNode<V>, tail: BPlusTreeNode?<V>)
    requires h > 0 && B.WellFormed(TreeOf(s), h, order) && !B.Full(TreeOf(s), order) && Separate(s)
    requires CanSplit(s, i, order) && B.Full(TreeOf(s.kids[i]), order) && z !in Nodes(s)
    requires s.kids[i].isLeaf ==> s.kids[i].kids == []
    requires SplitFields(s, i, order, z)
    requires AllMatch(s.kids[..i]) && AllMatch(s.kids[i].kids) && AllMatch(s.kids[i + 1..])
    requires var la, lc, lb := LeavesOf(s.kids[..i]), Leaves(s.kids[i]), LeavesOf(s.kids[i + 1..]);
             && Linked(la, First(lc, First(lb, tail))) && Linked(lb, tail)
             && if s.kids[i].isLeaf then s.kids[i].node.next == z && z.next == First(lb, tail) else Linked(lc, First(lb, tail))
    ensures var r := SplitShape(s, i, order, z);
            && Fits(r, s.node, h, order, tail) && TreeOf(r) == B.SplitChild(TreeOf(s), i, order) && Nodes(r) == Nodes(s) + {z}
            && First(Leaves(r), tail) ==
               First(LeavesOf(s.kids[..i]), First(Leaves(s.kids[i]), First(LeavesOf(s.kids[i + 1..]), tail)))
  {
    AfterSplitShape(s, i, order, z);
    AfterSplitTree(s, i, h, order, z);
    SplitLinksAfter(s, i, order, z, tail);
  }

  // ---------- a change below one child, on shapes ----------

  /** What a call on child `i` relies on. */
  lemma KidFits<V>(s: Shape<V>, i: nat, h: nat, order: nat, node: BPlusTreeNode<V>, tail: BPlusTreeNode?<V>)
    requires h > 0 && Fits(s, node, h, order, tail) && i < |s.kids|
    ensures node.children[i] == s.kids[i].node && order - 1 <= |s.kids[i].keys|
    ensures Fits(s.kids[i], s.kids[i].node, h - 1, order, First(LeavesOf(s.kids[i + 1..]), tail))
  {
    assert TreeOf(s).children[i] == TreeOf(s.kids[i]);
    assert s.kids == s.kids[..i] + [s.kids[i]] + s.kids[i + 1..];
    PartsAround(s.kids[..i], s.kids[i], s.kids[i + 1..]);
    SplitLinksBefore(s, i, tail);
  }

  /** What a call on child `i` leaves alone. */
  lemma BesideKid<V>(s: Shape<V>, i: nat, tail: BPlusTreeNode?<V>)
    requires i < |s.kids| && !s.isLeaf && Matches(s) && Separate(s) && Linked(Leaves(s), tail)
    ensures var a, c, b := s.kids[..i], s.kids[i], s.kids[i + 1..];
            var la, lb := LeavesOf(a), LeavesOf(b);
            && AllMatch(a) && AllMatch(b)
            && Linked(la, First(Leaves(c), First(lb, tail))) && Linked(lb, tail)
            && Nodes(c) !! {s.node} + NodesOf(a) + NodesOf(b)
            && Nodes(c) <= Nodes(s)
            && First(Leaves(s), tail) == First(la, First(Leaves(c), First(lb, tail)))
  {
    assert s.kids == s.kids[..i] + [s.kids[i]] + s.kids[i + 1..];
    PartsAround(s.kids[..i], s.kids[i], s.kids[i + 1..]);
    SplitLinksBefore(s, i, tail);
  }

  ghost function WithKid<V>(s: Shape<V>, i: nat, c: Shape<V>): Shape<V>
    requires i < |s.kids|
  {
    s.(kids := s.kids[i := c])
  }

  lemma WithKidParts<V>(s: Shape<V>, i: nat, c: Shape<V>)
    requires i < |s.kids|
    ensures WithKid(s, i, c).kids == s.kids[..i] + [c] + s.kids[i + 1..]
  {
  }

  lemma WithKidTree<V>(s: Shape<V>, i: nat, c: Shape<V>)
    requires i < |s.kids| && c.node == s.kids[i].node
    ensures TreeOf(WithKid(s, i, c)) == B.WithChild(TreeOf(s), i, TreeOf(c))
    ensures Roots(WithKid(s, i, c).kids) == Roots(s.kids)
  {
    assert TreesOf(WithKid(s, i, c).kids) == TreesOf(s.kids)[i := TreeOf(c)];
  }

  lemma WithKidMatches<V>(s: Shape<V>, i: nat, c: Shape<V>)
    requires i < |s.kids| && c.node == s.kids[i].node
    requires s.node.isLeaf == s.isLeaf && s.node.keys == s.keys && s.node.values == s.values && s.node.children == Roots(s.kids)
    requires AllMatch(s.kids[..i]) && Matches(c) && AllMatch(s.kids[i + 1..])
    ensures Matches(WithKid(s, i, c))
  {
    WithKidParts(s, i, c);
    PartsAround(s.kids[..i], c, s.kids[i + 1..]);
    WithKidTree(s, i, c);
  }

  lemma WithKidSeparate<V>(s: Shape<V>, i: nat, c: Shape<V>)
    requires i < |s.kids| && Separate(s) && Separate(c)
    requires Nodes(s.kids[i]) <= Nodes(c) && (Nodes(c) - Nodes(s.kids[i])) !! Nodes(s)
    ensures Separate(WithKid(s, i, c)) && Nodes(WithKid(s, i, c)) == Nodes(s) + Nodes(c)
  {
    assert s.kids == s.kids[..i] + [s.kids[i]] + s.kids[i + 1..];
    PartsAround(s.kids[..i], s.kids[i], s.kids[i + 1..]);
    WithKidParts(s, i, c);
    PartsAround(s.kids[..i], c, s.kids[i + 1..]);
  }

  lemma WithKidLinks<V>(s: Shape<V>, i: nat, c: Shape<V>, tail: BPlusTreeNode?<V>)
    requires i < |s.kids| && !s.isLeaf
    requires var la, lb := LeavesOf(s.kids[..i]), LeavesOf(s.kids[i + 1..]);
             Linked(la, First(Leaves(c), First(lb, tail))) && Linked(Leaves(c), First(lb, tail)) && Linked(lb, tail)
    ensures Linked(Leaves(WithKid(s, i, c)), tail)
    ensures First(Leaves(WithKid(s, i, c)), tail)
            == First(LeavesOf(s.kids[..i]), First(Leaves(c), First(LeavesOf(s.kids[i + 1..]), tail)))
  {
    var la, lb := LeavesOf(s.kids[..i]), LeavesOf(s.kids[i + 1..]);
    WithKidParts(s, i, c);
    PartsAround(s.kids[..i], c, s.kids[i + 1..]);
    LinkedParts(la + Leaves(c), lb, tail);
    LinkedParts(la, Leaves(c), First(lb, tail));
  }

  /** All that a change below child `i` leaves; `la` and `lb` are the leaves beside that child. */
  lemma AfterKid<V>(s: Shape<V>, i: nat, h: nat, order: nat, c: Shape<V>, tail: BPlusTreeNode?<V>,
                    la: seq<BPlusTreeNode<V>>, lb: seq<BPlusTreeNode<V>>, added: set<BPlusTreeNode<V>>)
    requires h > 0 && i < |s.kids| && Separate(s) && B.WellFormed(TreeOf(s), h, order)
    requires s.node.isLeaf == s.isLeaf && s.node.keys == s.keys && s.node.values == s.values && s.node.children == Roots(s.kids)
    requires la == LeavesOf(s.kids[..i]) && lb == LeavesOf(s.kids[i + 1..])
    requires AllMatch(s.kids[..i]) && AllMatch(s.kids[i + 1..])
    requires Fits(c, s.kids[i].node, h - 1, order, First(lb, tail)) && order - 1 <= |c.keys|
    requires Nodes(c) == Nodes(s.kids[i]) + added && added !! Nodes(s) && Nodes(s.kids[i]) <= Nodes(s)
    requires Linked(la, First(Leaves(c), First(lb, tail))) && Linked(lb, tail)
    ensures var r := WithKid(s, i, c);
            && Fits(r, s.node, h, order, tail) && TreeOf(r) == B.WithChild(TreeOf(s), i, TreeOf(c))
            && Nodes(r) == Nodes(s) + added
            && First(Leaves(r), tail) == First(la, First(Leaves(c), First(lb, tail)))
  {
    WithKidTree(s, i, c);
    WithKidMatches(s, i, c);
    WithKidSeparate(s, i, c);
    WithKidLinks(s, i, c, tail);
    B.WithChildWellFormed(TreeOf(s), h, order, i, TreeOf(c));
  }

  /** The tree that an insert has to make. */
  ghost function WithInsert<V>(s: Shape<V>, h: nat, order: nat, key: int, value: V): B.Tree<V>
    requires B.WellFormed(TreeOf(s), h, order) && B.HasRoom(TreeOf(s), h, order, key)
  {
    B.InsertNonFull(TreeOf(s), h, order, key, value)
  }

  /** The tree that an insert below child `i` has to make. */
  ghost function WithInsertBelow<V>(s: Shape<V>, i: nat, h: nat, order: nat, key: int, value: V): B.Tree<V>
    requires h > 0 && B.WellFormed(TreeOf(s), h, order)
    requires i < |s.kids| && !B.Full(TreeOf(s.kids[i]), order)
  {
    assert TreeOf(s).children[i] == TreeOf(s.kids[i]);
    B.WithChild(TreeOf(s), i, WithInsert(s.kids[i], h - 1, order, key, value))
  }

  /** The answer of `search`. */
  ghost function Found<V>(s: Shape<V>, h: nat, order: nat, key: int): Option<V>
    requires B.WellFormed(TreeOf(s), h, order)
  {
    B.Search(TreeOf(s), h, order, key)
  }

  /** A step of `search`, on shapes. */
  lemma SearchDescends<V>(s: Shape<V>, h: nat, order: nat, key: int, idx: nat)
    requires Matches(s) && B.WellFormed(TreeOf(s), h, order) && !s.isLeaf && idx == B.LeftScan(s.keys, key)
    ensures h > 0 && idx < |s.kids| && s.node.children[idx] == s.kids[idx].node && Matches(s.kids[idx])
    ensures B.WellFormed(TreeOf(s.kids[idx]), h - 1, order)
    ensures Found(s, h, order, key) == Found(s.kids[idx], h - 1, order, key)
    ensures Nodes(s.kids[idx]) <= Nodes(s)
  {
    MatchesAt(s.kids, idx);
    assert TreeOf(s).children[idx] == TreeOf(s.kids[idx]);
  }

  /** A node above the root. */
  ghost function Above<V>(node: BPlusTreeNode<V>, s: Shape<V>): Shape<V> {
    Shape(node, false, [], [], [s])
  }

  lemma AboveFits<V>(node: BPlusTreeNode<V>, s: Shape<V>, h: nat, order: nat)
    requires Fits(s, s.node, h, order, null) && B.Full(TreeOf(s), order) && node !in Nodes(s)
    requires !node.isLeaf && node.keys == [] && node.values == [] && node.children == [s.node]
    ensures Fits(Above(node, s), node, h + 1, order, null) && Nodes(Above(node, s)) == Nodes(s) + {node}
    ensures TreeOf(Above(node, s)) == B.Node(false, [], [], [TreeOf(s)])
  {
    One(s);
    assert Roots([s]) == [s.node] && TreesOf([s]) == [TreeOf(s)];
    assert B.WellFormed(TreeOf(Above(node, s)), h + 1, order);
  }

  // ---------- the index ----------

  class BPlusTreeDatabaseIndex<V> {
    var root: BPlusTreeNode<V>
    const order: nat
    ghost var shape: Shape<V>
    ghost var height: nat

    ghost predicate Valid()
      reads this, Nodes(shape)
    {
      Fits(shape, root, height, order, null) && B.IsRoot(TreeOf(shape), height, order)
    }

    /** The abstract tree that the linked nodes stand for. */
    ghost function Model(): B.Tree<V>
      reads this
    {
      TreeOf(shape)
    }

    constructor (order: nat)
      ensures fresh(Nodes(shape)) && this.order == order
      ensures Valid() && (Model(), height) == B.Build<V>(order, [])
    {
      var leaf := new BPlusTreeNode<V>(true);
      this.order := order;
      root := leaf;
      shape := Shape(leaf, true, [], [], []);
      height := 0;
      new;
      assert TreeOf(shape).children == [];
    }

    method Search(key: int) returns (r: Option<V>)
      requires Valid()
      ensures r == B.Search(Model(), height, order, key)
    {
      var curr := root;
      ghost var s, h := shape, height;
      while !curr.isLeaf
        invariant curr == s.node && Matches(s) && B.WellFormed(TreeOf(s), h, order)
        invariant Found(s, h, order, key) == Found(shape, height, order, key)
        decreases h
      {
        assert allocated(Nodes(s));
        var idx := ScanFromLeft(curr.keys, key);
        SearchDescends(s, h, order, key, idx);
        curr := curr.children[idx];
        s, h := s.kids[idx], h - 1;
      }
      assert allocated(Nodes(s));
      var i := IndexIn(curr.keys, key);
      r := if i < |curr.keys| then Some(curr.values[i]) else None;
    }

    /** The scan of `search` through the keys of an inner node. */
    static method ScanFromLeft(keys: seq<int>, key: int) returns (idx: nat)
      ensures idx == B.LeftScan(keys, key)
    {
      idx := 0;
      while idx < |keys| && key >= keys[idx]
        invariant idx <= |keys|
        invariant forall j | 0 <= j < idx :: keys[j] <= key
      {
        idx := idx + 1;
      }
      B.LeftScanIsUnique(keys, key, idx);
    }

    /** The scan of `search` through the keys of a leaf. */
    static method IndexIn(keys: seq<int>, key: int) returns (i: nat)
      ensures i == B.IndexOf(keys, key)
    {
      i := 0;
      while i < |keys| && keys[i] != key
        invariant i <= |keys| && forall j | 0 <= j < i :: keys[j] != key
      {
        i := i + 1;
      }
      B.IndexOfIsUnique(keys, key, i);
    }

    /** The assignments of a split. */
    static method SplitChild(parent: BPlusTreeNode<V>, idx: nat, child: BPlusTreeNode<V>, order: nat, ghost p: Shape<V>)
      returns (z: BPlusTreeNode<V>)
      requires CanSplit(p, idx, order) && Separate(p) && Matches(p)
      requires parent == p.node && child == p.kids[idx].node && parent != child
      requires child.keys == p.kids[idx].keys && child.isLeaf == p.kids[idx].isLeaf
      requires child.values == p.kids[idx].values && child.children == Roots(p.kids[idx].kids)
      modifies parent, child
      ensures fresh(z) && SplitFields(p, idx, order, z)
      ensures parent.next == old(parent.next)
      ensures child.isLeaf ==> child.next == z && z.next == old(child.next)
      ensures !child.isLeaf ==> child.next == old(child.next)
    {
      z := new BPlusTreeNode(child.isLeaf);
      parent.children := parent.children[..idx + 1] + [z] + parent.children[idx + 1..];
      parent.keys := parent.keys[..idx] + [child.keys[order - 1]] + parent.keys[idx..];
      z.keys := child.keys[order..];
      child.keys := child.keys[..order];
      if child.isLeaf {
        z.values := B.Drop(child.values, order - 1);
        child.values := B.Take(child.values, order - 1);
        z.next := child.next;
        child.next := z;
      } else {
        z.children := B.Drop(child.children, order);
        child.children := B.Take(child.children, order);
      }
      child.keys := child.keys[..|child.keys| - 1];
    }

    static method SplitBeside(parent: BPlusTreeNode<V>, idx: nat, child: BPlusTreeNode<V>, order: nat, ghost p: Shape<V>,
                              ghost a: seq<Shape<V>>, ghost m: seq<Shape<V>>, ghost b: seq<Shape<V>>,
                              ghost la: seq<BPlusTreeNode<V>>, ghost lm: seq<BPlusTreeNode<V>>, ghost lb: seq<BPlusTreeNode<V>>,
                              ghost tail: BPlusTreeNode?<V>, ghost tailA: BPlusTreeNode?<V>)
      returns (z: BPlusTreeNode<V>)
      requires CanSplit(p, idx, order) && Separate(p) && Matches(p)
      requires parent == p.node && child == p.kids[idx].node && parent != child
      requires child.keys == p.kids[idx].keys && child.isLeaf == p.kids[idx].isLeaf
      requires child.values == p.kids[idx].values && child.children == Roots(p.kids[idx].kids)
      requires parent !in NodesOf(a) && child !in NodesOf(a) && AllMatch(a)
      requires parent !in NodesOf(m) && child !in NodesOf(m) && AllMatch(m)
      requires parent !in NodesOf(b) && child !in NodesOf(b) && AllMatch(b)
      requires parent !in la && child !in la && Linked(la, tailA)
      requires parent !in lm && child !in lm && Linked(lm, First(lb, tail))
      requires parent !in lb && child !in lb && Linked(lb, tail)
      modifies parent, child
      ensures fresh(z) && SplitFields(p, idx, order, z)
      ensures parent.next == old(parent.next)
      ensures child.isLeaf ==> child.next == z && z.next == old(child.next)
      ensures !child.isLeaf ==> child.next == old(child.next)
      ensures AllMatch(a) && AllMatch(m) && AllMatch(b)
      ensures Linked(la, tailA) && Linked(lm, First(lb, tail)) && Linked(lb, tail)
    {
      assert allocated(NodesOf(a)) && allocated(NodesOf(m)) && allocated(NodesOf(b));
      z := SplitChild(parent, idx, child, order, p);
    }

    /** A split of child `i` of `node`, with the shape and the leaf links that it leaves. */
    static method SplitKid(node: BPlusTreeNode<V>, i: nat, order: nat, ghost s: Shape<V>, ghost h: nat,
                           ghost tail: BPlusTreeNode?<V>)
      returns (ghost s': Shape<V>, ghost added: set<BPlusTreeNode<V>>)
      requires h > 0 && Fits(s, node, h, order, tail) && !B.Full(TreeOf(s), order)
      requires i < |s.kids| && B.Full(TreeOf(s.kids[i]), order)
      modifies node, s.kids[i].node
      ensures Fits(s', node, h, order, tail) && First(Leaves(s'), tail) == First(Leaves(s), tail)
      ensures TreeOf(s') == B.SplitChild(TreeOf(s), i, order)
      ensures fresh(added) && Nodes(s') == Nodes(s) + added
    {
      BeforeSplit(s, i, h, order, node, tail);
      SplitLinksBefore(s, i, tail);
      ghost var a, c, b := s.kids[..i], s.kids[i], s.kids[i + 1..];
      ghost var la, lc, lb := LeavesOf(a), Leaves(c), LeavesOf(b);
      assert allocated(Nodes(s));
      var z := SplitBeside(node, i, node.children[i], order, s, a, c.kids, b,
                           la, if c.isLeaf then [] else lc, lb, tail, First(lc, First(lb, tail)));
      added := {z};
      assert fresh(added);
      s' := SplitShape(s, i, order, z);
      AfterSplit(s, i, h, order, z, tail);
    }

    /** The scan of `insertNonFull`. */
    static method ScanFromRight(keys: seq<int>, key: int) returns (i: nat)
      ensures i == B.RightScan(keys, key)
    {
      i := |keys|;
      while i > 0 && key < keys[i - 1]
        invariant i <= |keys| && forall j | i <= j < |keys| :: key < keys[j]
      {
        i := i - 1;
      }
      B.RightScanIsUnique(keys, key, i);
    }

    static method InsertNonFull(node: BPlusTreeNode<V>, key: int, value: V, order: nat, ghost s: Shape<V>, ghost h: nat,
                                ghost tail: BPlusTreeNode?<V>)
      returns (ghost s': Shape<V>, ghost added: set<BPlusTreeNode<V>>)
      requires Fits(s, node, h, order, tail) && B.HasRoom(TreeOf(s), h, order, key)
      modifies Nodes(s)
      ensures Fits(s', node, h, order, tail) && First(Leaves(s'), tail) == First(Leaves(s), tail)
      ensures TreeOf(s') == WithInsert(s, h, order, key, value)
      ensures fresh(added) && Nodes(s') == Nodes(s) + added
      decreases h, 3
    {
      if node.isLeaf {
        s' := InsertIntoLeaf(node, key, value, order, s, tail);
        added := {};
      } else {
        s', added := InsertIntoInner(node, key, value, order, s, h, tail);
      }
    }

    static method InsertIntoInner(node: BPlusTreeNode<V>, key: int, value: V, order: nat, ghost s: Shape<V>, ghost h: nat,
                                  ghost tail: BPlusTreeNode?<V>)
      returns (ghost s': Shape<V>, ghost added: set<BPlusTreeNode<V>>)
      requires h > 0 && Fits(s, node, h, order, tail) && B.HasRoom(TreeOf(s), h, order, key)
      modifies Nodes(s)
      ensures Fits(s', node, h, order, tail) && First(Leaves(s'), tail) == First(Leaves(s), tail)
      ensures TreeOf(s') == WithInsert(s, h, order, key, value)
      ensures fresh(added) && Nodes(s') == Nodes(s) + added
      decreases h, 2
    {
      ghost var s1, split;
      var i;
      i, s1, split := MakeRoom(node, key, order, s, h, tail);
      s', added := InsertBelow(node, i, key, value, order, s1, h, tail);
      added := added + split;
    }

    static method InsertIntoLeaf(node: BPlusTreeNode<V>, key: int, value: V, order: nat, ghost s: Shape<V>,
                                 ghost tail: BPlusTreeNode?<V>)
      returns (ghost s': Shape<V>)
      requires Fits(s, node, 0, order, tail) && B.FitsNode(order, |s.keys| + 1)
      modifies node
      ensures Fits(s', node, 0, order, tail) && Leaves(s') == Leaves(s)
      ensures TreeOf(s') == B.InsertIntoLeaf(TreeOf(s), key, value)
      ensures Nodes(s') == Nodes(s)
    {
      assert LinkAt(Leaves(s), 0, tail) && s.kids == [] && Leaves(s) == [node];
      var i := ScanFromRight(node.keys, key);
      node.keys := node.keys[..i] + [key] + node.keys[i..];
      node.values := node.values[..i] + [value] + node.values[i..];
      s' := s.(keys := node.keys, values := node.values);
    }

    /** The scan for the child to go on with, and its split when it is full. */
    static method MakeRoom(node: BPlusTreeNode<V>, key: int, order: nat, ghost s: Shape<V>, ghost h: nat,
                           ghost tail: BPlusTreeNode?<V>)
      returns (i: nat, ghost s': Shape<V>, ghost added: set<BPlusTreeNode<V>>)
      requires h > 0 && Fits(s, node, h, order, tail) && B.HasRoom(TreeOf(s), h, order, key)
      modifies Nodes(s)
      ensures Fits(s', node, h, order, tail) && First(Leaves(s'), tail) == First(Leaves(s), tail)
      ensures B.MakeRoom(TreeOf(s), h, order, key) == (TreeOf(s'), i)
      ensures fresh(added) && Nodes(s') == Nodes(s) + added
    {
      s', added := s, {};
      assert allocated(Nodes(s)) && allocated(Leaves(s));
      i := ScanFromRight(node.keys, key);
      MatchesAt(s.kids, i);
      assert TreeOf(s).children[i] == TreeOf(s.kids[i]);
      if |node.children[i].keys| == 2 * order - 1 {
        s', added := SplitKid(node, i, order, s, h, tail);
        if key > node.keys[i] {
          i := i + 1;
        }
      }
    }

    /** The recursive call of `insertNonFull`, and what it leaves alone beside the child. */
    static method InsertBeside(node: BPlusTreeNode<V>, child: BPlusTreeNode<V>, key: int, value: V, order: nat,
                               ghost c: Shape<V>, ghost h: nat, ghost tail: BPlusTreeNode?<V>,
                               ghost a: seq<Shape<V>>, ghost b: seq<Shape<V>>,
                               ghost la: seq<BPlusTreeNode<V>>, ghost tailA: BPlusTreeNode?<V>,
                               ghost lb: seq<BPlusTreeNode<V>>, ghost tailB: BPlusTreeNode?<V>)
      returns (ghost c': Shape<V>, ghost added: set<BPlusTreeNode<V>>)
      requires Fits(c, child, h, order, tail) && B.HasRoom(TreeOf(c), h, order, key)
      requires AllMatch(a) && AllMatch(b) && Linked(la, tailA) && Linked(lb, tailB)
      requires node !in Nodes(c) && Nodes(c) !! NodesOf(a) && Nodes(c) !! NodesOf(b)
      requires (forall n | n in la :: n in NodesOf(a)) && (forall n | n in lb :: n in NodesOf(b))
      modifies Nodes(c)
      ensures Fits(c', child, h, order, tail) && First(Leaves(c'), tail) == First(Leaves(c), tail)
      ensures TreeOf(c') == WithInsert(c, h, order, key, value)
      ensures fresh(added) && Nodes(c') == Nodes(c) + added
      ensures AllMatch(a) && AllMatch(b) && Linked(la, tailA) && Linked(lb, tailB)
      ensures unchanged(node)
      decreases h, 4
    {
      assert allocated(NodesOf(a)) && allocated(NodesOf(b));
      c', added := InsertNonFull(child, key, value, order, c, h, tail);
    }

    /** The insertion below child `i`. */
    static method InsertBelow(node: BPlusTreeNode<V>, i: nat, key: int, value: V, order: nat, ghost s: Shape<V>, ghost h: nat,
                              ghost tail: BPlusTreeNode?<V>)
      returns (ghost s': Shape<V>, ghost added: set<BPlusTreeNode<V>>)
      requires h > 0 && Fits(s, node, h, order, tail)
      requires i < |s.kids| && !B.Full(TreeOf(s.kids[i]), order)
      modifies Nodes(s)
      ensures Fits(s', node, h, order, tail) && First(Leaves(s'), tail) == First(Leaves(s), tail)
      ensures TreeOf(s') == WithInsertBelow(s, i, h, order, key, value)
      ensures fresh(added) && Nodes(s') == Nodes(s) + added
      decreases h, 1
    {
      KidFits(s, i, h, order, node, tail);
      BesideKid(s, i, tail);
      ghost var a, c, b := s.kids[..i], s.kids[i], s.kids[i + 1..];
      ghost var la, lb := LeavesOf(a), LeavesOf(b);
      assert allocated(Nodes(s));
      ghost var c';
      c', added := InsertBeside(node, node.children[i], key, value, order, c, h - 1, First(lb, tail),
                                a, b, la, First(Leaves(c), First(lb, tail)), lb, tail);
      s' := WithKid(s, i, c');
      AfterKid(s, i, h, order, c', tail, la, lb, added);
    }

    /** A new root above the old one. */
    static method NewRoot(root: BPlusTreeNode<V>, order: nat, ghost s: Shape<V>, ghost h: nat) returns (node: BPlusTreeNode<V>)
      requires Fits(s, root, h, order, null) && B.Full(TreeOf(s), order)
      ensures fresh(node) && Fits(Above(node, s), node, h + 1, order, null)
      ensures Nodes(Above(node, s)) == Nodes(s) + {node}
    {
      assert allocated(Nodes(s)) && allocated(Leaves(s));
      node := new BPlusTreeNode(false);
      node.children := [root];
      assert Fits(s, root, h, order, null);
      AboveFits(node, s, h, order);
    }

    /** A new root above a full one, which is split. */
    static method Raise(root: BPlusTreeNode<V>, order: nat, ghost s: Shape<V>, ghost h: nat)
      returns (node: BPlusTreeNode<V>, ghost s': Shape<V>, ghost added: set<BPlusTreeNode<V>>)
      requires Fits(s, root, h, order, null) && |root.keys| == 2 * order - 1
      modifies root
      ensures Fits(s', node, h + 1, order, null)
      ensures TreeOf(s') == B.Raise(TreeOf(s), h, order)
      ensures fresh(added) && Nodes(s') == Nodes(s) + added
    {
      node := NewRoot(root, order, s, h);
      s', added := SplitKid(node, 0, order, Above(node, s), h + 1, null);
      added := added + {node};
    }

    /** An insert through a root with room. */
    static method InsertThrough(root: BPlusTreeNode<V>, key: int, value: V, order: nat, ghost s: Shape<V>, ghost h: nat)
      returns (ghost s': Shape<V>, ghost added: set<BPlusTreeNode<V>>)
      requires Fits(s, root, h, order, null) && B.HasRoom(TreeOf(s), h, order, key)
      modifies Nodes(s)
      ensures Fits(s', root, h, order, null) && TreeOf(s') == WithInsert(s, h, order, key, value)
      ensures fresh(added) && Nodes(s') == Nodes(s) + added
    {
      s', added := InsertNonFull(root, key, value, order, s, h, null);
    }

    /** An insert through a full root, which is split below a new one. */
    static method InsertAbove(root: BPlusTreeNode<V>, key: int, value: V, order: nat, ghost s: Shape<V>, ghost h: nat)
      returns (node: BPlusTreeNode<V>, ghost s': Shape<V>, ghost added: set<BPlusTreeNode<V>>)
      requires Fits(s, root, h, order, null) && |root.keys| == 2 * order - 1
      modifies Nodes(s)
      ensures Fits(s', node, h + 1, order, null) && TreeOf(s') == B.InsertAbove(TreeOf(s), h, order, key, value)
      ensures fresh(added) && Nodes(s') == Nodes(s) + added
    {
      ghost var top, grown;
      node, top, grown := Raise(root, order, s, h);
      s', added := InsertThrough(node, key, value, order, top, h + 1);
      added := grown + added;
    }

    static method InsertFromRoot(root: BPlusTreeNode<V>, key: int, value: V, order: nat, ghost s: Shape<V>, ghost h: nat,
                                 ghost goal: B.Tree<V>, ghost g: nat)
      returns (node: BPlusTreeNode<V>, ghost s': Shape<V>, ghost added: set<BPlusTreeNode<V>>)
      requires Fits(s, root, h, order, null) && B.IsRoot(TreeOf(s), h, order)
      requires (goal, g) == B.Insert(TreeOf(s), h, order, key, value)
      modifies Nodes(s)
      ensures Fits(s', node, g, order, null) && TreeOf(s') == goal
      ensures fresh(added) && Nodes(s') == Nodes(s) + added
    {
      if |root.keys| == 2 * order - 1 {
        node, s', added := InsertAbove(root, key, value, order, s, h);
      } else {
        node := root;
        s', added := InsertThrough(root, key, value, order, s, h);
      }
    }

    /** The index takes over the nodes of an insert. */
    method Adopt(node: BPlusTreeNode<V>, ghost s: Shape<V>, ghost h: nat)
      requires Fits(s, node, h, order, null) && B.IsRoot(TreeOf(s), h, order)
      modifies this
      ensures Valid() && shape == s && height == h
    {
      assert allocated(Nodes(s));
      root, shape, height := node, s, h;
      assert Fits(s, node, h, order, null);
    }

    method Insert(key: int, value: V) returns (ghost added: set<BPlusTreeNode<V>>)
      requires Valid()
      modifies this, Nodes(shape)
      ensures Valid() && fresh(added) && Nodes(shape) == old(Nodes(shape)) + added
      ensures (Model(), height) == B.Insert(old(Model()), old(height), order, key, value)
    {
      ghost var (goal, g) := B.Insert(Model(), height, order, key, value);
      var node;
      ghost var grown;
      node, grown, added := InsertFromRoot(root, key, value, order, shape, height, goal, g);
      Adopt(node, grown, g);
    }
  }

  // ---------- walking along the links ----------

  /** The nodes that are met by following the `next` links from `n`, at most `fuel` of them. */
  ghost function Walk<V>(n: BPlusTreeNode?<V>, nodes: set<BPlusTreeNode<V>>, fuel: nat): seq<BPlusTreeNode<V>>
    reads nodes
  {
    if n == null || n !in nodes || fuel == 0 then [] else [n] + Walk(n.next, nodes, fuel - 1)
  }

  /** The node that is reached by going to the first child until there is none. */
  ghost function Leftmost<V>(n: BPlusTreeNode<V>, nodes: set<BPlusTreeNode<V>>, h: nat): BPlusTreeNode<V>
    reads nodes
  {
    if n !in nodes || h == 0 || n.children == [] then n else Leftmost(n.children[0], nodes, h - 1)
  }

  lemma {:induction false} WalkIsLeaves<V>(leaves: seq<BPlusTreeNode<V>>, nodes: set<BPlusTreeNode<V>>, k: nat, fuel: nat)
    requires Linked(leaves, null) && k <= |leaves| && fuel >= |leaves| - k
    requires forall n | n in leaves :: n in nodes
    ensures Walk(First(leaves[k..], null), nodes, fuel) == leaves[k..]
    decreases |leaves| - k
  {
    if k < |leaves| {
      assert LinkAt(leaves, k, null);
      WalkIsLeaves(leaves, nodes, k + 1, fuel - 1);
      assert leaves[k..] == [leaves[k]] + leaves[k + 1..];
    }
  }

  lemma {:induction false} LeftmostIsFirstLeaf<V>(s: Shape<V>, nodes: set<BPlusTreeNode<V>>, h: nat, order: nat)
    requires Matches(s) && B.WellFormed(TreeOf(s), h, order) && Nodes(s) <= nodes
    ensures Leaves(s) != [] && Leftmost(s.node, nodes, h) == Leaves(s)[0]
    decreases h
  {
    if h > 0 {
      assert TreesOf(s.kids)[0] == TreeOf(s.kids[0]);
      LeftmostIsFirstLeaf(s.kids[0], nodes, h - 1, order);
    }
  }

  lemma {:induction false} LeavesAreLeafNodes<V>(s: Shape<V>, h: nat, order: nat, n: BPlusTreeNode<V>)
    requires Matches(s) && B.WellFormed(TreeOf(s), h, order) && n in Nodes(s)
    ensures n.isLeaf <==> n in Leaves(s)
    decreases h, 1
  {
    if h > 0 {
      if n in LeavesOf(s.kids) {
        var j := KidWithLeaf(s.kids, n);
        LeavesOfKidAreLeafNodes(s, h, order, j, n);
      } else if n.isLeaf {
        var i := KidWith(s.kids, n);
        LeavesOfKidAreLeafNodes(s, h, order, i, n);
        LeafOfKid(s.kids, i, n);
      }
    }
  }

  lemma {:induction false} LeavesOfKidAreLeafNodes<V>(s: Shape<V>, h: nat, order: nat, i: nat, n: BPlusTreeNode<V>)
    requires h > 0 && Matches(s) && B.WellFormed(TreeOf(s), h, order) && i < |s.kids| && n in Nodes(s.kids[i])
    ensures n.isLeaf <==> n in Leaves(s.kids[i])
    decreases h, 0
  {
    MatchesAt(s.kids, i);
    assert TreesOf(s.kids)[i] == TreeOf(s.kids[i]);
    LeavesAreLeafNodes(s.kids[i], h - 1, order, n);
  }

  lemma {:induction false} KidWith<V>(kids: seq<Shape<V>>, n: BPlusTreeNode<V>) returns (i: nat)
    requires n in NodesOf(kids)
    ensures i < |kids| && n in Nodes(kids[i])
    decreases |kids|
  {
    if n in Nodes(kids[0]) {
      i := 0;
    } else {
      i := KidWith(kids[1..], n);
      i := i + 1;
    }
  }

  lemma {:induction false} KidWithLeaf<V>(kids: seq<Shape<V>>, n: BPlusTreeNode<V>) returns (i: nat)
    requires n in LeavesOf(kids)
    ensures i < |kids| && n in Leaves(kids[i])
    decreases |kids|
  {
    if n in Leaves(kids[0]) {
      i := 0;
    } else {
      i := KidWithLeaf(kids[1..], n);
      i := i + 1;
    }
  }

  lemma {:induction false} LeafOfKid<V>(kids: seq<Shape<V>>, i: nat, n: BPlusTreeNode<V>)
    requires i < |kids| && n in Leaves(kids[i])
    ensures n in LeavesOf(kids)
    decreases i
  {
    if i > 0 {
      LeafOfKid(kids[1..], i - 1, n);
    }
  }

  /** Links that end cannot come back. */
  lemma {:induction false} LinkedAreDistinct<V>(leaves: seq<BPlusTreeNode<V>>, i: nat, j: nat)
    requires Linked(leaves, null) && i < j < |leaves|
    ensures leaves[i] != leaves[j]
    decreases |leaves| - j
  {
    assert LinkAt(leaves, i, null) && LinkAt(leaves, j, null);
    if j + 1 < |leaves| {
      LinkedAreDistinct(leaves, i + 1, j + 1);
    }
  }

  /**
   The `next` links lead from the leftmost leaf through exactly the leaf nodes of the index and then end, and
   what is read on the way are the values of the tree from left to right.
   */
  lemma WalkVisitsAllLeaves<V>(index: BPlusTreeDatabaseIndex<V>, fuel: nat)
    requires index.Valid() && fuel >= |Leaves(index.shape)|
    ensures var nodes := Nodes(index.shape);
            var walk := Walk(Leftmost(index.root, nodes, index.height), nodes, fuel);
            && walk == Leaves(index.shape) && walk != [] && walk[|walk| - 1].next == null
            && (forall n | n in nodes :: n.isLeaf <==> n in walk)
            && (forall i, j | 0 <= i < j < |walk| :: walk[i] != walk[j])
            && ValuesAlong(walk) == B.AllValues(index.Model())
  {
    var s, h := index.shape, index.height;
    var leaves := Leaves(s);
    LeftmostIsFirstLeaf(s, Nodes(s), h, index.order);
    WalkIsLeaves(leaves, Nodes(s), 0, fuel);
    assert leaves[0..] == leaves;
    assert LinkAt(leaves, |leaves| - 1, null);
    forall i, j | 0 <= i < j < |leaves| ensures leaves[i] != leaves[j] {
      LinkedAreDistinct(leaves, i, j);
    }
    forall n | n in Nodes(s) ensures n.isLeaf <==> n in leaves {
      LeavesAreLeafNodes(s, h, index.order, n);
    }
    LeavesHoldAllValues(s);
  }
}
