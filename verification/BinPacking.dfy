/**
 First-fit-decreasing packing of mathOptimization.ts (`pack3DBins`), in exact real arithmetic: what is
 packed, which rules hold, and how far the number of bins can be from that of any other packing.
 */
module BinPacking {

  datatype Item = Item(id: string, length: real, width: real, height: real, weight: real)

  datatype BinSpecs = BinSpecs(length: real, width: real, height: real, maxWeight: real)

  function Volume(x: Item): real {
    x.length * x.width * x.height
  }

  /** How the volume of an item is measured, and how much of it and of weight a bin may hold. */
  datatype Rules = Rules(volumeOf: Item -> real, volume: real, weight: real)

  /** Packing may use 85% of the volume of a bin, and its whole weight allowance. */
  function RulesOf(specs: BinSpecs): Rules {
    var binVolume := specs.length * specs.width * specs.height;
    Rules(Volume, binVolume * 0.85, specs.maxWeight)
  }

  /** An item takes up a box, and items may share 85% of the box that a bin is. */
  lemma RulesOfBoxes(specs: BinSpecs, x: Item)
    ensures RulesOf(specs).volumeOf(x) == x.length * x.width * x.height && RulesOf(specs).weight == specs.maxWeight
    ensures RulesOf(specs).volume == specs.length * specs.width * specs.height * 0.85
  {
  }

  datatype Bin = Bin(binIndex: nat, items: seq<Item>, usedVolume: real, totalWeight: real)

  datatype Measure = ByVolume | ByWeight

  function Amount(m: Measure, x: Item, rules: Rules): real {
    if m.ByVolume? then rules.volumeOf(x) else x.weight
  }

  ghost predicate NonNegative(items: seq<Item>, rules: Rules) {
    forall x, m | x in items :: Amount(m, x, rules) >= 0.0
  }

  function Limit(m: Measure, rules: Rules): real {
    if m.ByVolume? then rules.volume else rules.weight
  }

  function Used(m: Measure, bin: Bin): real {
    if m.ByVolume? then bin.usedVolume else bin.totalWeight
  }

  function Amounts(m: Measure, rules: Rules): Item -> real {
    x => Amount(m, x, rules)
  }

  /** The sum of `f` over `items`. */
  function Total<T>(f: T -> real, items: seq<T>): real {
    if items == [] then 0.0 else Total(f, items[..|items| - 1]) + f(items[|items| - 1])
  }

  function AllItems(bins: seq<Bin>): seq<Item> {
    if bins == [] then [] else AllItems(bins[..|bins| - 1]) + bins[|bins| - 1].items
  }

  // ---------- the order of packing ----------

  ghost predicate Descending(items: seq<Item>, rules: Rules) {
    forall i, j | 0 <= i < j < |items| :: rules.volumeOf(items[i]) >= rules.volumeOf(items[j])
  }

  /** Insertion behind all items that are at least as large, as a stable sort places it. */
  function InsertDescending(items: seq<Item>, x: Item, rules: Rules): seq<Item> {
    if items != [] && rules.volumeOf(items[|items| - 1]) < rules.volumeOf(x)
    then InsertDescending(items[..|items| - 1], x, rules) + [items[|items| - 1]]
    else items + [x]
  }

  function SortDescending(items: seq<Item>, rules: Rules): seq<Item> {
    if items == [] then [] else InsertDescending(SortDescending(items[..|items| - 1], rules), items[|items| - 1], rules)
  }

  lemma {:induction false} InsertDescendingAdds(items: seq<Item>, x: Item, rules: Rules)
    ensures multiset(InsertDescending(items, x, rules)) == multiset(items) + multiset{x}
    decreases |items|
  {
    if items != [] {
      var n := |items| - 1;
      InsertDescendingAdds(items[..n], x, rules);
      assert items == items[..n] + [items[n]];
    }
  }

  lemma {:induction false} InsertDescendingSorts(items: seq<Item>, x: Item, rules: Rules)
    requires Descending(items, rules)
    ensures Descending(InsertDescending(items, x, rules), rules)
    decreases |items|
  {
    var n := |items| - 1;
    if items != [] && rules.volumeOf(items[n]) < rules.volumeOf(x) {
      InsertDescendingSorts(items[..n], x, rules);
      var r := InsertDescending(items[..n], x, rules);
      forall i | 0 <= i < |r| ensures rules.volumeOf(r[i]) >= rules.volumeOf(items[n]) {
        InsertDescendingAdds(items[..n], x, rules);
        assert r[i] in multiset(r);
      }
    }
  }

  lemma {:induction false} SortDescendingSorts(items: seq<Item>, rules: Rules)
    ensures Descending(SortDescending(items, rules), rules) && multiset(SortDescending(items, rules)) == multiset(items)
    decreases |items|
  {
    if items != [] {
      var n := |items| - 1;
      SortDescendingSorts(items[..n], rules);
      InsertDescendingSorts(SortDescending(items[..n], rules), items[n], rules);
      InsertDescendingAdds(SortDescending(items[..n], rules), items[n], rules);
      assert items == items[..n] + [items[n]];
    }
  }

  /** The items of one volume, in order. */
  function OfVolume(v: real, items: seq<Item>, rules: Rules): seq<Item> {
    if items == [] then []
    else
      var n := |items| - 1;
      OfVolume(v, items[..n], rules) + if rules.volumeOf(items[n]) == v then [items[n]] else []
  }

  lemma {:induction false} InsertDescendingIsStable(v: real, items: seq<Item>, x: Item, rules: Rules)
    ensures OfVolume(v, InsertDescending(items, x, rules), rules) == OfVolume(v, items, rules) + OfVolume(v, [x], rules)
    decreases |items|
  {
    var n := |items| - 1;
    if items != [] && rules.volumeOf(items[n]) < rules.volumeOf(x) {
      InsertDescendingIsStable(v, items[..n], x, rules);
      var r := InsertDescending(items[..n], x, rules);
      assert (r + [items[n]])[..|r|] == r;
    } else {
      assert (items + [x])[..|items|] == items;
    }
  }

  /** Items of equal volume keep their order. */
  lemma {:induction false} SortDescendingIsStable(v: real, items: seq<Item>, rules: Rules)
    ensures OfVolume(v, SortDescending(items, rules), rules) == OfVolume(v, items, rules)
    decreases |items|
  {
    if items != [] {
      var n := |items| - 1;
      SortDescendingIsStable(v, items[..n], rules);
      InsertDescendingIsStable(v, SortDescending(items[..n], rules), items[n], rules);
    }
  }

  // ---------- packing ----------

  predicate Fits(bin: Bin, item: Item, rules: Rules) {
    bin.usedVolume + rules.volumeOf(item) <= rules.volume && bin.totalWeight + item.weight <= rules.weight
  }

  function Added(bin: Bin, item: Item, rules: Rules): Bin {
    bin.(items := bin.items + [item],
         usedVolume := bin.usedVolume + rules.volumeOf(item),
         totalWeight := bin.totalWeight + item.weight)
  }

  /** The first bin with room, or the number of bins. */
  function FirstFit(bins: seq<Bin>, item: Item, rules: Rules): (b: nat)
    ensures b <= |bins| && (b < |bins| ==> Fits(bins[b], item, rules))
    ensures forall i | 0 <= i < b :: !Fits(bins[i], item, rules)
  {
    if bins == [] || Fits(bins[0], item, rules) then 0 else 1 + FirstFit(bins[1..], item, rules)
  }

  function Place(bins: seq<Bin>, item: Item, rules: Rules): seq<Bin> {
    var b := FirstFit(bins, item, rules);
    if b < |bins| then bins[b := Added(bins[b], item, rules)]
    else bins + [Bin(|bins| + 1, [item], rules.volumeOf(item), item.weight)]
  }

  function PlaceAll(items: seq<Item>, rules: Rules): seq<Bin> {
    if items == [] then [] else Place(PlaceAll(items[..|items| - 1], rules), items[|items| - 1], rules)
  }

  lemma FirstFitIsUnique(bins: seq<Bin>, item: Item, rules: Rules, b: nat)
    requires b <= |bins| && (b < |bins| ==> Fits(bins[b], item, rules))
    requires forall i | 0 <= i < b :: !Fits(bins[i], item, rules)
    ensures FirstFit(bins, item, rules) == b
  {
  }

  /** A bin that is still being filled. */
  class OpenBin {
    const binIndex: nat
    var items: seq<Item>
    var usedVolume: real
    var totalWeight: real

    function Content(): Bin
      reads this
    {
      Bin(binIndex, items, usedVolume, totalWeight)
    }

    constructor (binIndex: nat, item: Item, rules: Rules)
      ensures Content() == Bin(binIndex, [item], rules.volumeOf(item), item.weight)
    {
      this.binIndex := binIndex;
      items, usedVolume, totalWeight := [item], rules.volumeOf(item), item.weight;
    }

    method Add(item: Item, rules: Rules)
      modifies this
      ensures Content() == Added(old(Content()), item, rules)
    {
      items := items + [item];
      usedVolume := usedVolume + rules.volumeOf(item);
      totalWeight := totalWeight + item.weight;
    }
  }

  ghost function Contents(bins: seq<OpenBin>): (r: seq<Bin>)
    reads bins
    ensures |r| == |bins| && forall i | 0 <= i < |bins| :: r[i] == bins[i].Content()
  {
    if bins == [] then [] else Contents(bins[..|bins| - 1]) + [bins[|bins| - 1].Content()]
  }

  ghost predicate Distinct(bins: seq<OpenBin>) {
    forall i, j | 0 <= i < j < |bins| :: bins[i] != bins[j]
  }

  method PlaceItem(bins: seq<OpenBin>, item: Item, rules: Rules) returns (bins': seq<OpenBin>)
    requires Distinct(bins)
    modifies bins
    ensures bins <= bins' && Distinct(bins') && forall i | |bins| <= i < |bins'| :: fresh(bins'[i])
    ensures Contents(bins') == Place(old(Contents(bins)), item, rules)
  {
    var b := 0;
    while b < |bins| && !Fits(bins[b].Content(), item, rules)
      invariant b <= |bins| && forall i | 0 <= i < b :: !Fits(Contents(bins)[i], item, rules)
    {
      b := b + 1;
    }
    FirstFitIsUnique(Contents(bins), item, rules, b);
    if b < |bins| {
      bins[b].Add(item, rules);
      bins' := bins;
    } else {
      var bin := new OpenBin(|bins| + 1, item, rules);
      bins' := bins + [bin];
    }
  }

  lemma PlaceNext(items: seq<Item>, rules: Rules, n: nat)
    requires n < |items|
    ensures PlaceAll(items[..n + 1], rules) == Place(PlaceAll(items[..n], rules), items[n], rules)
  {
    assert items[..n + 1][..n] == items[..n];
  }

  method PackSorted(sortedItems: seq<Item>, rules: Rules) returns (bins: seq<OpenBin>)
    ensures Distinct(bins) && forall i | 0 <= i < |bins| :: fresh(bins[i])
    ensures Contents(bins) == PlaceAll(sortedItems, rules)
  {
    bins := [];
    for n := 0 to |sortedItems|
      invariant forall i | 0 <= i < |bins| :: fresh(bins[i])
      invariant Distinct(bins) && Contents(bins) == PlaceAll(sortedItems[..n], rules)
    {
      PlaceNext(sortedItems, rules, n);
      bins := PlaceItem(bins, sortedItems[n], rules);
    }
    assert sortedItems[..|sortedItems|] == sortedItems;
  }

  method Pack3DBins(items: seq<Item>, specs: BinSpecs) returns (bins: seq<OpenBin>)
    ensures Distinct(bins) && forall i | 0 <= i < |bins| :: fresh(bins[i])
    ensures Contents(bins) == PlaceAll(SortDescending(items, RulesOf(specs)), RulesOf(specs))
    ensures IsFirstFitDecreasing(items, Contents(bins), RulesOf(specs))
    ensures multiset(AllItems(Contents(bins))) == multiset(items)
    ensures NonNegative(items, RulesOf(specs)) ==> Packed(Contents(bins), RulesOf(specs))
  {
    var rules := RulesOf(specs);
    bins := PackSorted(SortDescending(items, rules), rules);
    PackingIffFirstFitDecreasing(items, Contents(bins), rules);
    PackingKeepsItems(items, rules);
    PackingIsPacked(items, rules);
  }

  // ---------- conservation ----------

  lemma {:induction false} AddedItem(bins: seq<Bin>, b: nat, item: Item, rules: Rules)
    requires b < |bins|
    ensures multiset(AllItems(bins[b := Added(bins[b], item, rules)])) == multiset(AllItems(bins)) + multiset{item}
    decreases |bins|
  {
    var n := |bins| - 1;
    var r := bins[b := Added(bins[b], item, rules)];
    if b < n {
      AddedItem(bins[..n], b, item, rules);
      assert r[..n] == bins[..n][b := Added(bins[b], item, rules)];
    } else {
      assert r[..n] == bins[..n];
    }
  }

  lemma {:induction false} PlaceAllKeepsItems(items: seq<Item>, rules: Rules)
    ensures multiset(AllItems(PlaceAll(items, rules))) == multiset(items)
    decreases |items|
  {
    if items != [] {
      var n := |items| - 1;
      var bins := PlaceAll(items[..n], rules);
      PlaceAllKeepsItems(items[..n], rules);
      assert items == items[..n] + [items[n]];
      var b := FirstFit(bins, items[n], rules);
      if b < |bins| {
        AddedItem(bins, b, items[n], rules);
      } else {
        assert Place(bins, items[n], rules)[..|bins|] == bins;
      }
    }
  }

  /** Every item ends up in exactly one bin. */
  lemma PackingKeepsItems(items: seq<Item>, rules: Rules)
    ensures multiset(AllItems(PlaceAll(SortDescending(items, rules), rules))) == multiset(items)
  {
    SortDescendingSorts(items, rules);
    PlaceAllKeepsItems(SortDescending(items, rules), rules);
  }

  // ---------- rules ----------

  /** The sums are those of the items; a bin that holds more than one item respects both rules. */
  ghost predicate WellFilled(bin: Bin, rules: Rules) {
    && bin.items != []
    && forall m :: Used(m, bin) == Total(Amounts(m, rules), bin.items) && (|bin.items| >= 2 ==> Used(m, bin) <= Limit(m, rules))
  }

  ghost predicate Crowded(m: Measure, a: Bin, b: Bin, rules: Rules) {
    Used(m, a) + Used(m, b) > Limit(m, rules)
  }

  /** Two bins together exceed a limit. */
  ghost predicate CannotMerge(a: Bin, b: Bin, rules: Rules) {
    Crowded(ByVolume, a, b, rules) || Crowded(ByWeight, a, b, rules)
  }

  ghost predicate NoneMerge(bins: seq<Bin>, rules: Rules) {
    forall i, j | 0 <= i < j < |bins| :: CannotMerge(bins[i], bins[j], rules)
  }

  ghost predicate Packed(bins: seq<Bin>, rules: Rules) {
    && (forall i | 0 <= i < |bins| :: bins[i].binIndex == i + 1 && WellFilled(bins[i], rules))
    && NoneMerge(bins, rules)
  }

  lemma TotalSnoc<T>(f: T -> real, items: seq<T>, x: T)
    ensures Total(f, items + [x]) == Total(f, items) + f(x)
  {
    assert (items + [x])[..|items|] == items;
  }

  lemma AddedIsWellFilled(bin: Bin, item: Item, rules: Rules)
    requires WellFilled(bin, rules) && Fits(bin, item, rules)
    ensures WellFilled(Added(bin, item, rules), rules)
  {
    forall m
      ensures Total(Amounts(m, rules), bin.items + [item]) == Total(Amounts(m, rules), bin.items) + Amount(m, item, rules)
    {
      TotalSnoc(Amounts(m, rules), bin.items, item);
    }
  }

  lemma NewIsWellFilled(n: nat, item: Item, rules: Rules)
    ensures WellFilled(Bin(n, [item], rules.volumeOf(item), item.weight), rules)
  {
    forall m ensures Total(Amounts(m, rules), [item]) == Amount(m, item, rules) {
      TotalSnoc(Amounts(m, rules), [], item);
      assert [] + [item] == [item];
    }
  }

  lemma GrowingKeepsNoneMerge(bins: seq<Bin>, b: nat, grown: Bin, rules: Rules)
    requires b < |bins| && NoneMerge(bins, rules)
    requires grown.usedVolume >= bins[b].usedVolume && grown.totalWeight >= bins[b].totalWeight
    ensures NoneMerge(bins[b := grown], rules)
  {
    var r := bins[b := grown];
    forall i, j | 0 <= i < j < |bins| ensures CannotMerge(r[i], r[j], rules) {
      assert CannotMerge(bins[i], bins[j], rules);
    }
  }

  lemma OpeningKeepsNoneMerge(bins: seq<Bin>, bin: Bin, rules: Rules)
    requires NoneMerge(bins, rules) && forall i | 0 <= i < |bins| :: CannotMerge(bins[i], bin, rules)
    ensures NoneMerge(bins + [bin], rules)
  {
    var r := bins + [bin];
    forall i, j | 0 <= i < j < |r| ensures CannotMerge(r[i], r[j], rules) {
      if j < |bins| {
        assert CannotMerge(bins[i], bins[j], rules);
      }
    }
  }

  lemma PlaceKeepsPacked(bins: seq<Bin>, item: Item, rules: Rules)
    requires Packed(bins, rules) && Amount(ByVolume, item, rules) >= 0.0 && Amount(ByWeight, item, rules) >= 0.0
    ensures Packed(Place(bins, item, rules), rules)
  {
    var b := FirstFit(bins, item, rules);
    if b < |bins| {
      var grown := Added(bins[b], item, rules);
      AddedIsWellFilled(bins[b], item, rules);
      GrowingKeepsNoneMerge(bins, b, grown, rules);
    } else {
      var bin := Bin(|bins| + 1, [item], rules.volumeOf(item), item.weight);
      NewIsWellFilled(|bins| + 1, item, rules);
      OpeningKeepsNoneMerge(bins, bin, rules);
    }
  }

  lemma {:induction false} PlaceAllIsPacked(items: seq<Item>, rules: Rules)
    requires NonNegative(items, rules)
    ensures Packed(PlaceAll(items, rules), rules)
    decreases |items|
  {
    if items != [] {
      PlaceAllIsPacked(items[..|items| - 1], rules);
      PlaceKeepsPacked(PlaceAll(items[..|items| - 1], rules), items[|items| - 1], rules);
    }
  }

  /** All limits of a packing, for items of non-negative size. */
  lemma PackingIsPacked(items: seq<Item>, rules: Rules)
    ensures NonNegative(items, rules) ==> Packed(PlaceAll(SortDescending(items, rules), rules), rules)
  {
    if NonNegative(items, rules) {
      SortDescendingSorts(items, rules);
      forall x | x in SortDescending(items, rules) ensures x in items {
        assert x in multiset(SortDescending(items, rules));
      }
      PlaceAllIsPacked(SortDescending(items, rules), rules);
    }
  }

  // ---------- what first fit decreasing means ----------

  /** The items among the first `k` that go into bin `b`, in order, when item `j` goes into bin `at[j]`. */
  function Received(items: seq<Item>, at: seq<nat>, b: nat, k: nat): seq<Item>
    requires k <= |items| == |at|
  {
    if k == 0 then [] else Received(items, at, b, k - 1) + if at[k - 1] == b then [items[k - 1]] else []
  }

  /** Beside the content there is room for the item. */
  ghost predicate LeavesRoom(content: seq<Item>, item: Item, rules: Rules) {
    forall m :: Total(Amounts(m, rules), content) + Amount(m, item, rules) <= Limit(m, rules)
  }

  /** With what bin `b` has received of the items before item `k`, it has room for that item. */
  ghost predicate HadRoom(items: seq<Item>, at: seq<nat>, b: nat, k: nat, rules: Rules)
    requires k < |items| == |at|
  {
    LeavesRoom(Received(items, at, b, k), items[k], rules)
  }

  ghost predicate WasOpen(items: seq<Item>, at: seq<nat>, b: nat, k: nat)
    requires k <= |items| == |at|
  {
    Received(items, at, b, k) != []
  }

  /**
   Item `k` goes into the first bin that had been opened and had room: all bins before its own were open and had none,
   and its own had room unless the item opens it.
   */
  ghost predicate WentFirst(items: seq<Item>, at: seq<nat>, k: nat, rules: Rules)
    requires k < |items| == |at|
  {
    && (forall b | 0 <= b < at[k] :: WasOpen(items, at, b, k) && !HadRoom(items, at, b, k, rules))
    && (WasOpen(items, at, at[k], k) ==> HadRoom(items, at, at[k], k, rules))
  }

  /** The bin holds what the items say. */
  ghost predicate Holds(bin: Bin, b: nat, content: seq<Item>, rules: Rules) {
    && bin.binIndex == b + 1 && bin.items == content && content != []
    && forall m :: Used(m, bin) == Total(Amounts(m, rules), content)
  }

  /** The bins after the first `n` items, each of which has gone into the first bin with room. */
  ghost predicate FirstFitted(items: seq<Item>, at: seq<nat>, n: nat, bins: seq<Bin>, rules: Rules) {
    && n <= |items| == |at|
    && (forall k | 0 <= k < n :: at[k] < |bins| && WentFirst(items, at, k, rules))
    && (forall b | 0 <= b < |bins| :: Holds(bins[b], b, Received(items, at, b, n), rules))
  }

  lemma {:induction false} ReceivedAgrees(items: seq<Item>, at: seq<nat>, other: seq<nat>, b: nat, k: nat)
    requires k <= |items| == |at| == |other| && forall j | 0 <= j < k :: at[j] == other[j]
    ensures Received(items, at, b, k) == Received(items, other, b, k)
    decreases k
  {
    if k > 0 {
      ReceivedAgrees(items, at, other, b, k - 1);
    }
  }

  lemma {:induction false} NothingBeyond(items: seq<Item>, at: seq<nat>, b: nat, k: nat)
    requires k <= |items| == |at|
    ensures Received(items, at, b, k) == [] <==> forall j | 0 <= j < k :: at[j] != b
    decreases k
  {
    if k > 0 {
      NothingBeyond(items, at, b, k - 1);
    }
  }

  /** Whether item `k` went first is a matter of the items up to it. */
  lemma WentFirstAgrees(items: seq<Item>, at: seq<nat>, other: seq<nat>, k: nat, rules: Rules)
    requires k < |items| == |at| == |other| && forall j | 0 <= j <= k :: at[j] == other[j]
    ensures WentFirst(items, at, k, rules) <==> WentFirst(items, other, k, rules)
  {
    forall b: nat
      ensures WasOpen(items, at, b, k) <==> WasOpen(items, other, b, k)
      ensures HadRoom(items, at, b, k, rules) <==> HadRoom(items, other, b, k, rules)
    {
      ReceivedAgrees(items, at, other, b, k);
    }
  }

  lemma RoomIsFit(items: seq<Item>, at: seq<nat>, b: nat, k: nat, bin: Bin, rules: Rules)
    requires k < |items| == |at| && Holds(bin, b, Received(items, at, b, k), rules)
    ensures HadRoom(items, at, b, k, rules) <==> Fits(bin, items[k], rules)
  {
    assert Fits(bin, items[k], rules) <==> forall m :: Used(m, bin) + Amount(m, items[k], rules) <= Limit(m, rules) by {
      assert Used(ByVolume, bin) == bin.usedVolume && Used(ByWeight, bin) == bin.totalWeight;
    }
  }

  /** Placing the next item fills the first bin with room. */
  lemma NextWentFirst(items: seq<Item>, at: seq<nat>, k: nat, bins: seq<Bin>, rules: Rules) returns (at': seq<nat>)
    requires k < |items| && FirstFitted(items, at, k, bins, rules)
    ensures at' == at[k := FirstFit(bins, items[k], rules)]
    ensures forall j | 0 <= j <= k :: WentFirst(items, at', j, rules)
  {
    var b := FirstFit(bins, items[k], rules);
    at' := at[k := b];
    forall j | 0 <= j < k ensures WentFirst(items, at', j, rules) {
      WentFirstAgrees(items, at, at', j, rules);
    }
    forall c: nat | c <= b ensures WasOpen(items, at', c, k) <==> c < |bins| {
      ReceivedAgrees(items, at, at', c, k);
      NothingBeyond(items, at, c, k);
    }
    forall c: nat | c <= b && c < |bins| ensures HadRoom(items, at', c, k, rules) <==> Fits(bins[c], items[k], rules) {
      ReceivedAgrees(items, at, at', c, k);
      RoomIsFit(items, at', c, k, bins[c], rules);
    }
  }

  lemma PlacedHolds(items: seq<Item>, at: seq<nat>, k: nat, bins: seq<Bin>, rules: Rules, c: nat)
    requires k < |items| == |at| && c < |Place(bins, items[k], rules)| && at[k] == FirstFit(bins, items[k], rules)
    requires forall b | 0 <= b < |bins| :: Holds(bins[b], b, Received(items, at, b, k), rules)
    requires Received(items, at, |bins|, k) == []
    ensures Holds(Place(bins, items[k], rules)[c], c, Received(items, at, c, k + 1), rules)
  {
    var content, b := Received(items, at, c, k), at[k];
    if c == |bins| {
      HoldsFirst(c, items[k], rules);
      assert content + [items[k]] == [items[k]];
    } else if c == b {
      HoldsMore(bins[c], c, content, items[k], rules);
    } else {
      assert content + [] == content;
    }
  }

  lemma HoldsMore(bin: Bin, b: nat, content: seq<Item>, item: Item, rules: Rules)
    requires Holds(bin, b, content, rules)
    ensures Holds(Added(bin, item, rules), b, content + [item], rules)
  {
    forall m ensures Used(m, Added(bin, item, rules)) == Total(Amounts(m, rules), content + [item]) {
      assert Used(m, bin) == Total(Amounts(m, rules), content);
      TotalSnoc(Amounts(m, rules), content, item);
    }
  }

  lemma HoldsFirst(b: nat, item: Item, rules: Rules)
    ensures Holds(Bin(b + 1, [item], rules.volumeOf(item), item.weight), b, [item], rules)
  {
    NewIsWellFilled(b + 1, item, rules);
  }

  /** Every item has gone into the first bin with room, and the bins hold what they have received. */
  lemma {:induction false} PackingGoesFirst(items: seq<Item>, rules: Rules, n: nat) returns (at: seq<nat>)
    requires n <= |items|
    ensures FirstFitted(items, at, n, PlaceAll(items[..n], rules), rules)
    decreases n
  {
    if n == 0 {
      at := seq(|items|, _ => 0);
    } else {
      var before := PackingGoesFirst(items, rules, n - 1);
      var bins := PlaceAll(items[..n - 1], rules);
      at := NextWentFirst(items, before, n - 1, bins, rules);
      PlaceNext(items, rules, n - 1);
      var k := n - 1;
      forall b: nat ensures Received(items, at, b, k) == Received(items, before, b, k) {
        ReceivedAgrees(items, before, at, b, k);
      }
      NothingBeyond(items, at, |bins|, k);
      forall c | 0 <= c < |Place(bins, items[n - 1], rules)|
        ensures Holds(Place(bins, items[n - 1], rules)[c], c, Received(items, at, c, n), rules)
      {
        PlacedHolds(items, at, n - 1, bins, rules, c);
      }
    }
  }

  /** Where an item goes is determined by where those before it have gone. */
  lemma SameBin(items: seq<Item>, at: seq<nat>, other: seq<nat>, k: nat, rules: Rules)
    requires k < |items| == |at| == |other| && forall j | 0 <= j < k :: at[j] == other[j]
    requires WentFirst(items, at, k, rules) && WentFirst(items, other, k, rules)
    ensures at[k] == other[k]
  {
    ReceivedAgrees(items, at, other, at[k], k);
    ReceivedAgrees(items, at, other, other[k], k);
    assert at[k] < other[k] ==> WasOpen(items, other, at[k], k) && !HadRoom(items, other, at[k], k, rules);
    assert other[k] < at[k] ==> WasOpen(items, at, other[k], k) && !HadRoom(items, at, other[k], k, rules);
  }

  lemma {:induction false} SameBins(items: seq<Item>, at: seq<nat>, other: seq<nat>, n: nat, rules: Rules)
    requires n <= |items| == |at| == |other|
    requires forall k | 0 <= k < n :: WentFirst(items, at, k, rules) && WentFirst(items, other, k, rules)
    ensures forall k | 0 <= k < n :: at[k] == other[k]
    decreases n
  {
    if n > 0 {
      SameBins(items, at, other, n - 1, rules);
      SameBin(items, at, other, n - 1, rules);
    }
  }

  lemma SameContents(items: seq<Item>, at: seq<nat>, other: seq<nat>, bins: seq<Bin>, others: seq<Bin>, rules: Rules)
    requires FirstFitted(items, at, |items|, bins, rules) && FirstFitted(items, other, |items|, others, rules)
    requires at == other
    ensures bins == others
  {
    NothingBeyond(items, at, |bins|, |items|);
    NothingBeyond(items, at, |others|, |items|);
    assert |bins| < |others| ==> Holds(others[|bins|], |bins|, Received(items, at, |bins|, |items|), rules);
    assert |others| < |bins| ==> Holds(bins[|others|], |others|, Received(items, at, |others|, |items|), rules);
    forall b | 0 <= b < |bins| ensures bins[b] == others[b] {
      assert Used(ByVolume, bins[b]) == Used(ByVolume, others[b]) && Used(ByWeight, bins[b]) == Used(ByWeight, others[b]);
    }
  }

  /** A packing is made by placing the items in turn exactly when every item has gone into the first bin with room. */
  lemma PackingIffFirstFitted(items: seq<Item>, bins: seq<Bin>, rules: Rules)
    ensures bins == PlaceAll(items, rules) <==> exists at :: FirstFitted(items, at, |items|, bins, rules)
  {
    var at := PackingGoesFirst(items, rules, |items|);
    assert items[..|items|] == items;
    if other :| FirstFitted(items, other, |items|, bins, rules) {
      SameBins(items, at, other, |items|, rules);
      SameContents(items, at, other, PlaceAll(items, rules), bins, rules);
    }
  }

  /** The order by descending volume in which items of equal volume keep their order. */
  ghost predicate IsOrder(items: seq<Item>, ordered: seq<Item>, rules: Rules) {
    Descending(ordered, rules) && forall v :: OfVolume(v, ordered, rules) == OfVolume(v, items, rules)
  }

  lemma {:induction false} VolumeOccurs(v: real, items: seq<Item>, rules: Rules)
    ensures OfVolume(v, items, rules) != [] <==> exists x :: x in items && rules.volumeOf(x) == v
    decreases |items|
  {
    if items != [] {
      var n := |items| - 1;
      VolumeOccurs(v, items[..n], rules);
      assert items == items[..n] + [items[n]];
    }
  }

  lemma SameLast(a: seq<Item>, b: seq<Item>, rules: Rules)
    requires a != [] && b != [] && Descending(a, rules) && IsOrder(a, b, rules)
    ensures a[|a| - 1] == b[|b| - 1] && IsOrder(a[..|a| - 1], b[..|b| - 1], rules)
  {
    var x, y, front, front' := a[|a| - 1], b[|b| - 1], a[..|a| - 1], b[..|b| - 1];
    var v := rules.volumeOf(x);
    VolumeOccurs(v, a, rules);
    VolumeOccurs(v, b, rules);
    VolumeOccurs(rules.volumeOf(y), a, rules);
    VolumeOccurs(rules.volumeOf(y), b, rules);
    assert rules.volumeOf(y) == v;
    SnocIsUnique(OfVolume(v, front, rules), x, OfVolume(v, front', rules), y);
    forall w ensures OfVolume(w, front', rules) == OfVolume(w, front, rules) {
      assert OfVolume(w, b, rules) == OfVolume(w, a, rules);
      if w != v {
        assert OfVolume(w, front, rules) + [] == OfVolume(w, front, rules);
        assert OfVolume(w, front', rules) + [] == OfVolume(w, front', rules);
      }
    }
  }

  lemma SnocIsUnique<T>(a: seq<T>, x: T, b: seq<T>, y: T)
    requires a + [x] == b + [y]
    ensures a == b && x == y
  {
    assert |a + [x]| == |b + [y]| && (a + [x])[|a|] == x && (b + [y])[|b|] == y;
    assert a == (a + [x])[..|a|] && b == (b + [y])[..|b|];
  }

  lemma {:induction false} OrderIsDetermined(a: seq<Item>, b: seq<Item>, rules: Rules)
    requires Descending(a, rules) && IsOrder(a, b, rules)
    ensures a == b
    decreases |a|
  {
    if a != [] && b != [] {
      SameLast(a, b, rules);
      OrderIsDetermined(a[..|a| - 1], b[..|b| - 1], rules);
    } else if a != [] {
      VolumeOccurs(rules.volumeOf(a[0]), a, rules);
    } else if b != [] {
      VolumeOccurs(rules.volumeOf(b[0]), b, rules);
    }
  }

  /** By descending volume, every item goes into the first bin with room. */
  ghost predicate IsFirstFitDecreasing(items: seq<Item>, bins: seq<Bin>, rules: Rules) {
    exists ordered, at :: IsOrder(items, ordered, rules) && FirstFitted(ordered, at, |ordered|, bins, rules)
  }

  /** The packing is first fit decreasing, and there is no other. */
  lemma PackingIffFirstFitDecreasing(items: seq<Item>, bins: seq<Bin>, rules: Rules)
    ensures bins == PlaceAll(SortDescending(items, rules), rules) <==> IsFirstFitDecreasing(items, bins, rules)
  {
    var sorted := SortDescending(items, rules);
    SortDescendingSorts(items, rules);
    forall v ensures OfVolume(v, sorted, rules) == OfVolume(v, items, rules) {
      SortDescendingIsStable(v, items, rules);
    }
    PackingIffFirstFitted(sorted, bins, rules);
    if IsFirstFitDecreasing(items, bins, rules) {
      var ordered, at :| IsOrder(items, ordered, rules) && FirstFitted(ordered, at, |ordered|, bins, rules);
      OrderIsDetermined(sorted, ordered, rules);
    }
  }

  // ---------- comparison with any other packing ----------

  function Flatten<T>(groups: seq<seq<T>>): seq<T> {
    if groups == [] then [] else Flatten(groups[..|groups| - 1]) + groups[|groups| - 1]
  }

  /** A packing of `items` into bins that all respect the two rules. */
  ghost predicate Feasible(groups: seq<seq<Item>>, items: seq<Item>, rules: Rules) {
    && multiset(Flatten(groups)) == multiset(items)
    && forall g, m | g in groups :: Total(Amounts(m, rules), g) <= Limit(m, rules)
  }

  lemma {:induction false} TotalConcat<T>(f: T -> real, a: seq<T>, b: seq<T>)
    ensures Total(f, a + b) == Total(f, a) + Total(f, b)
    decreases |b|
  {
    if b == [] {
      assert a + b == a;
    } else {
      assert (a + b)[..|a + b| - 1] == a + b[..|b| - 1];
      TotalConcat(f, a, b[..|b| - 1]);
    }
  }

  lemma TotalWithout<T>(f: T -> real, front: seq<T>, x: T, back: seq<T>)
    ensures Total(f, front + [x] + back) == Total(f, front + back) + f(x)
  {
    TotalConcat(f, front + [x], back);
    TotalSnoc(f, front, x);
    TotalConcat(f, front, back);
  }

  lemma MultisetsWithout<T>(a: seq<T>, x: T, front: seq<T>, back: seq<T>)
    requires multiset(a + [x]) == multiset(front + [x] + back)
    ensures multiset(a) == multiset(front + back)
  {
    assert multiset(a) == multiset(a + [x]) - multiset{x};
  }

  lemma {:induction false} TotalIgnoresOrder<T>(f: T -> real, a: seq<T>, b: seq<T>)
    requires multiset(a) == multiset(b)
    ensures Total(f, a) == Total(f, b)
    decreases |a|
  {
    if a != [] {
      var n := |a| - 1;
      var x := a[n];
      assert a == a[..n] + [x];
      assert x in multiset(b);
      var j :| 0 <= j < |b| && b[j] == x;
      assert b == b[..j] + [x] + b[j + 1..];
      MultisetsWithout(a[..n], x, b[..j], b[j + 1..]);
      assert b == b[..j] + [b[j]] + b[j + 1..];
      TotalWithout(f, b[..j], x, b[j + 1..]);
      TotalIgnoresOrder(f, a[..n], b[..j] + b[j + 1..]);
    }
  }

  /** What `n` bins hold that are filled up to `limit`. */
  ghost function Multiple(n: nat, limit: real): real {
    if n == 0 then 0.0 else Multiple(n - 1, limit) + limit
  }

  lemma {:induction false} GroupsHoldLittle<T>(f: T -> real, groups: seq<seq<T>>, limit: real)
    requires forall g | g in groups :: Total(f, g) <= limit
    ensures Total(f, Flatten(groups)) <= Multiple(|groups|, limit)
    decreases |groups|
  {
    if groups != [] {
      var n := |groups| - 1;
      GroupsHoldLittle(f, groups[..n], limit);
      TotalConcat(f, Flatten(groups[..n]), groups[n]);
    }
  }

  lemma FeasibleHoldsLittle(m: Measure, items: seq<Item>, rules: Rules, groups: seq<seq<Item>>)
    requires Feasible(groups, items, rules)
    ensures Total(Amounts(m, rules), items) <= Multiple(|groups|, Limit(m, rules))
  {
    GroupsHoldLittle(Amounts(m, rules), groups, Limit(m, rules));
    TotalIgnoresOrder(Amounts(m, rules), items, Flatten(groups));
  }

  lemma {:induction false} TotalIsNonNegative(m: Measure, items: seq<Item>, rules: Rules)
    requires NonNegative(items, rules)
    ensures Total(Amounts(m, rules), items) >= 0.0
    decreases |items|
  {
    if items != [] {
      TotalIsNonNegative(m, items[..|items| - 1], rules);
    }
  }

  /** How much the bins hold. */
  function Load(m: Measure, bins: seq<Bin>): real {
    if bins == [] then 0.0 else Load(m, bins[..|bins| - 1]) + Used(m, bins[|bins| - 1])
  }

  lemma {:induction false} LoadIsTotal(m: Measure, bins: seq<Bin>, rules: Rules)
    requires forall b | b in bins :: Used(m, b) == Total(Amounts(m, rules), b.items)
    ensures Load(m, bins) == Total(Amounts(m, rules), AllItems(bins))
    decreases |bins|
  {
    if bins != [] {
      var n := |bins| - 1;
      var front, last := bins[..n], bins[n];
      LoadIsTotal(m, front, rules);
      TotalConcat(Amounts(m, rules), AllItems(front), last.items);
    }
  }

  lemma {:induction false} ItemsAreAmongAll(bins: seq<Bin>, b: nat, x: Item)
    requires b < |bins| && x in bins[b].items
    ensures x in AllItems(bins)
    decreases |bins|
  {
    if b < |bins| - 1 {
      ItemsAreAmongAll(bins[..|bins| - 1], b, x);
    }
  }

  lemma LoadsAreNonNegative(m: Measure, bins: seq<Bin>, rules: Rules)
    requires forall b | b in bins :: Used(m, b) == Total(Amounts(m, rules), b.items)
    requires NonNegative(AllItems(bins), rules)
    ensures forall b | b in bins :: Used(m, b) >= 0.0
  {
    forall i | 0 <= i < |bins| ensures Used(m, bins[i]) >= 0.0 {
      forall x | x in bins[i].items ensures x in AllItems(bins) {
        ItemsAreAmongAll(bins, i, x);
      }
      TotalIsNonNegative(m, bins[i].items, rules);
    }
  }

  // ---------- bins over their limits ----------

  ghost predicate RespectsLimits(bins: seq<Bin>, rules: Rules) {
    forall b, m | b in bins :: Used(m, b) <= Limit(m, rules)
  }

  /** The item alone is within both limits. */
  ghost predicate FitsAlone(x: Item, rules: Rules) {
    forall m :: Amount(m, x, rules) <= Limit(m, rules)
  }

  lemma {:induction false} TotalCovers(m: Measure, items: seq<Item>, x: Item, rules: Rules)
    requires NonNegative(items, rules) && x in items
    ensures Amount(m, x, rules) <= Total(Amounts(m, rules), items)
    decreases |items|
  {
    var n := |items| - 1;
    if x in items[..n] {
      TotalCovers(m, items[..n], x, rules);
    } else {
      TotalIsNonNegative(m, items[..n], rules);
    }
  }

  lemma {:induction false} BinOf(bins: seq<Bin>, x: Item) returns (b: nat)
    requires x in AllItems(bins)
    ensures b < |bins| && x in bins[b].items
    decreases |bins|
  {
    var n := |bins| - 1;
    if x in bins[n].items {
      b := n;
    } else {
      b := BinOf(bins[..n], x);
    }
  }

  lemma SingleIsItsItem(m: Measure, bin: Bin, rules: Rules)
    requires WellFilled(bin, rules) && |bin.items| == 1
    ensures Used(m, bin) == Amount(m, bin.items[0], rules)
  {
    assert bin.items[..0] == [] && Total(Amounts(m, rules), bin.items[..0]) == 0.0;
    assert Used(m, bin) == Total(Amounts(m, rules), bin.items);
  }

  lemma FittingItemsFit(bins: seq<Bin>, b: nat, rules: Rules, m: Measure)
    requires b < |bins| && WellFilled(bins[b], rules) && forall x | x in AllItems(bins) :: FitsAlone(x, rules)
    ensures Used(m, bins[b]) <= Limit(m, rules)
  {
    if |bins[b].items| == 1 {
      SingleIsItsItem(m, bins[b], rules);
      ItemsAreAmongAll(bins, b, bins[b].items[0]);
    }
  }

  lemma FullBinFitsItems(bins: seq<Bin>, x: Item, rules: Rules, m: Measure)
    requires Packed(bins, rules) && NonNegative(AllItems(bins), rules) && x in AllItems(bins) && RespectsLimits(bins, rules)
    ensures Amount(m, x, rules) <= Limit(m, rules)
  {
    var b := BinOf(bins, x);
    forall y | y in bins[b].items ensures y in AllItems(bins) {
      ItemsAreAmongAll(bins, b, y);
    }
    TotalCovers(m, bins[b].items, x, rules);
    assert WellFilled(bins[b], rules) && bins[b] in bins;
  }

  /** Every bin respects both limits exactly when every item does alone: one that does not gets a bin all the same. */
  lemma LimitsHoldIffItemsFit(items: seq<Item>, rules: Rules)
    requires NonNegative(items, rules)
    ensures RespectsLimits(PlaceAll(SortDescending(items, rules), rules), rules) <==> forall x | x in items :: FitsAlone(x, rules)
  {
    var bins := PlaceAll(SortDescending(items, rules), rules);
    PackingIsPacked(items, rules);
    PackingKeepsItems(items, rules);
    forall x ensures x in AllItems(bins) <==> x in items {
      assert x in multiset(AllItems(bins)) <==> x in multiset(items);
    }
    if forall x | x in items :: FitsAlone(x, rules) {
      forall b, m | b in bins ensures Used(m, b) <= Limit(m, rules) {
        var i :| 0 <= i < |bins| && bins[i] == b;
        FittingItemsFit(bins, i, rules, m);
      }
    }
    if RespectsLimits(bins, rules) {
      forall x, m | x in items ensures Amount(m, x, rules) <= Limit(m, rules) {
        FullBinFitsItems(bins, x, rules, m);
      }
    }
  }

  // ---------- among 3N - 1 bins, N disjoint pairs exceed one limit ----------

  function Without<T>(s: seq<T>, i: nat): (r: seq<T>)
    requires i < |s|
    ensures |r| == |s| - 1 && forall k | 0 <= k < |r| :: r[k] == if k < i then s[k] else s[k + 1]
  {
    s[..i] + s[i + 1..]
  }

  lemma {:induction false} LoadWithout(m: Measure, bins: seq<Bin>, i: nat)
    requires i < |bins|
    ensures Load(m, bins) == Load(m, Without(bins, i)) + Used(m, bins[i])
    decreases |bins|
  {
    var n := |bins| - 1;
    if i < n {
      LoadWithout(m, bins[..n], i);
      assert Without(bins, i)[..n - 1] == Without(bins[..n], i);
    } else {
      assert Without(bins, i) == bins[..n];
    }
  }

  ghost predicate NonNegativeLoads(bins: seq<Bin>) {
    forall i, m | 0 <= i < |bins| :: Used(m, bins[i]) >= 0.0
  }

  lemma {:induction false} LoadIsNonNegative(m: Measure, bins: seq<Bin>)
    requires NonNegativeLoads(bins)
    ensures Load(m, bins) >= 0.0
    decreases |bins|
  {
    if bins != [] {
      LoadIsNonNegative(m, bins[..|bins| - 1]);
    }
  }

  lemma WithoutKeepsRules(bins: seq<Bin>, i: nat, rules: Rules)
    requires i < |bins| && NoneMerge(bins, rules) && NonNegativeLoads(bins)
    ensures NoneMerge(Without(bins, i), rules) && NonNegativeLoads(Without(bins, i))
  {
    var r := Without(bins, i);
    forall a, b | 0 <= a < b < |r| ensures CannotMerge(r[a], r[b], rules) {
      assert CannotMerge(bins[if a < i then a else a + 1], bins[if b < i then b else b + 1], rules);
    }
  }

  /** The bins hold more than `n` bins could that respect the limit. */
  ghost predicate Overfull(m: Measure, bins: seq<Bin>, n: nat, rules: Rules) {
    Load(m, bins) > Multiple(n, Limit(m, rules))
  }

  ghost predicate AllCrowded(m: Measure, bins: seq<Bin>, rules: Rules) {
    forall i, j | 0 <= i < j < |bins| :: Crowded(m, bins[i], bins[j], rules)
  }

  lemma {:induction false} AllCrowdedIsOverfull(m: Measure, bins: seq<Bin>, n: nat, rules: Rules)
    requires n >= 1 && |bins| >= 2 * n && AllCrowded(m, bins, rules) && NonNegativeLoads(bins)
    ensures Overfull(m, bins, n, rules)
    decreases n
  {
    var l := |bins|;
    var rest, a, b := bins[..l - 2], bins[l - 2], bins[l - 1];
    assert bins[..l - 1][..l - 2] == rest;
    assert Load(m, bins) == Load(m, rest) + Used(m, a) + Used(m, b) && Crowded(m, a, b, rules);
    if n == 1 {
      LoadIsNonNegative(m, rest);
    } else {
      AllCrowdedIsOverfull(m, rest, n - 1, rules);
    }
  }

  /** Two of the three bins together exceed the limit. */
  ghost predicate HasPair(m: Measure, bins: seq<Bin>, x: nat, y: nat, z: nat, rules: Rules)
    requires x < |bins| && y < |bins| && z < |bins|
  {
    Crowded(m, bins[x], bins[y], rules) || Crowded(m, bins[x], bins[z], rules) || Crowded(m, bins[y], bins[z], rules)
  }

  /** Three different bins, in order, with a pair that exceeds the one limit and a pair that exceeds the other. */
  ghost predicate IsMixed(bins: seq<Bin>, x: nat, y: nat, z: nat, rules: Rules) {
    x < y < z < |bins| && HasPair(ByVolume, bins, x, y, z, rules) && HasPair(ByWeight, bins, x, y, z, rules)
  }

  lemma Ordered(bins: seq<Bin>, x: nat, y: nat, z: nat, rules: Rules) returns (i: nat, j: nat, k: nat)
    requires x < |bins| && y < |bins| && z < |bins| && x != y && x != z && y != z
    requires HasPair(ByVolume, bins, x, y, z, rules) && HasPair(ByWeight, bins, x, y, z, rules)
    ensures IsMixed(bins, i, j, k, rules)
  {
    i, j, k := x, y, z;
    if j < i {
      i, j := j, i;
    }
    if k < j {
      j, k := k, j;
    }
    if j < i {
      i, j := j, i;
    }
  }

  lemma MixedTriple(bins: seq<Bin>, rules: Rules) returns (i: nat, j: nat, k: nat)
    requires NoneMerge(bins, rules) && !AllCrowded(ByVolume, bins, rules) && !AllCrowded(ByWeight, bins, rules)
    ensures IsMixed(bins, i, j, k, rules)
  {
    var a, b :| 0 <= a < b < |bins| && !Crowded(ByVolume, bins[a], bins[b], rules);
    var c, d :| 0 <= c < d < |bins| && !Crowded(ByWeight, bins[c], bins[d], rules);
    assert CannotMerge(bins[a], bins[b], rules) && CannotMerge(bins[c], bins[d], rules);
    if c == a || c == b {
      i, j, k := Ordered(bins, a, b, d, rules);
    } else if d == a || d == b {
      i, j, k := Ordered(bins, a, b, c, rules);
    } else {
      assert CannotMerge(bins[a], bins[c], rules) || CannotMerge(bins[c], bins[a], rules);
      if Crowded(ByVolume, bins[a], bins[c], rules) {
        i, j, k := Ordered(bins, a, b, c, rules);
      } else {
        i, j, k := Ordered(bins, a, c, d, rules);
      }
    }
  }

  /** The bins that are left when three are taken out. */
  function Rest(bins: seq<Bin>, x: nat, y: nat, z: nat): (r: seq<Bin>)
    requires x < y < z < |bins|
    ensures |r| == |bins| - 3
  {
    Without(Without(Without(bins, z), y), x)
  }

  lemma RestKeepsRules(bins: seq<Bin>, x: nat, y: nat, z: nat, rules: Rules)
    requires x < y < z < |bins| && NoneMerge(bins, rules) && NonNegativeLoads(bins)
    ensures NoneMerge(Rest(bins, x, y, z), rules) && NonNegativeLoads(Rest(bins, x, y, z))
  {
    WithoutKeepsRules(bins, z, rules);
    WithoutKeepsRules(Without(bins, z), y, rules);
    WithoutKeepsRules(Without(Without(bins, z), y), x, rules);
  }

  lemma LoadOfRest(m: Measure, bins: seq<Bin>, x: nat, y: nat, z: nat)
    requires x < y < z < |bins|
    ensures Load(m, bins) == Load(m, Rest(bins, x, y, z)) + Used(m, bins[x]) + Used(m, bins[y]) + Used(m, bins[z])
  {
    LoadWithout(m, bins, z);
    LoadWithout(m, Without(bins, z), y);
    LoadWithout(m, Without(Without(bins, z), y), x);
  }

  lemma TripleAddsPair(m: Measure, bins: seq<Bin>, x: nat, y: nat, z: nat, n: nat, rules: Rules)
    requires IsMixed(bins, x, y, z, rules) && NonNegativeLoads(bins)
    requires Load(m, Rest(bins, x, y, z)) >= Multiple(n, Limit(m, rules))
    ensures Overfull(m, bins, n + 1, rules)
  {
    LoadOfRest(m, bins, x, y, z);
    assert HasPair(m, bins, x, y, z, rules) by {
      assert m == ByVolume || m == ByWeight;
    }
  }

  /** With 3N - 1 bins that cannot be merged, N disjoint pairs of them exceed the limit of one measure. */
  lemma {:induction false} OneMeasureIsOverfull(bins: seq<Bin>, n: nat, rules: Rules) returns (m: Measure)
    requires n >= 1 && |bins| >= 3 * n - 1 && NoneMerge(bins, rules) && NonNegativeLoads(bins)
    ensures Overfull(m, bins, n, rules)
    decreases n
  {
    if AllCrowded(ByVolume, bins, rules) {
      m := ByVolume;
      AllCrowdedIsOverfull(m, bins, n, rules);
    } else if AllCrowded(ByWeight, bins, rules) {
      m := ByWeight;
      AllCrowdedIsOverfull(m, bins, n, rules);
    } else {
      var x, y, z := MixedTriple(bins, rules);
      RestKeepsRules(bins, x, y, z, rules);
      if n == 1 {
        m := ByVolume;
        LoadIsNonNegative(m, Rest(bins, x, y, z));
      } else {
        m := OneMeasureIsOverfull(Rest(bins, x, y, z), n - 1, rules);
      }
      TripleAddsPair(m, bins, x, y, z, n - 1, rules);
    }
  }

  lemma FewBins(bins: seq<Bin>, n: nat, rules: Rules)
    requires n >= 1 && NoneMerge(bins, rules) && NonNegativeLoads(bins)
    requires !Overfull(ByVolume, bins, n, rules) && !Overfull(ByWeight, bins, n, rules)
    ensures |bins| <= 3 * n - 2
  {
    if |bins| >= 3 * n - 1 {
      var m := OneMeasureIsOverfull(bins, n, rules);
    }
  }

  // ---------- the ratio ----------

  lemma NonNegativeByMeasure(bins: seq<Bin>)
    requires forall b | b in bins :: Used(ByVolume, b) >= 0.0
    requires forall b | b in bins :: Used(ByWeight, b) >= 0.0
    ensures NonNegativeLoads(bins)
  {
    forall i, m | 0 <= i < |bins| ensures Used(m, bins[i]) >= 0.0 {
      assert bins[i] in bins;
    }
  }

  lemma LoadFits(m: Measure, items: seq<Item>, bins: seq<Bin>, rules: Rules, groups: seq<seq<Item>>)
    requires Packed(bins, rules)
    requires NonNegative(AllItems(bins), rules) && multiset(AllItems(bins)) == multiset(items)
    requires Feasible(groups, items, rules)
    ensures Load(m, bins) <= Multiple(|groups|, Limit(m, rules))
    ensures forall b | b in bins :: Used(m, b) >= 0.0
  {
    assert forall b | b in bins :: WellFilled(b, rules);
    LoadIsTotal(m, bins, rules);
    LoadsAreNonNegative(m, bins, rules);
    FeasibleHoldsLittle(m, items, rules, groups);
    TotalIgnoresOrder(Amounts(m, rules), AllItems(bins), items);
  }

  /** Bins that cannot be merged are at most 3N - 2, where N bins hold the same items. */
  lemma BinsAgainst(items: seq<Item>, bins: seq<Bin>, rules: Rules, groups: seq<seq<Item>>)
    requires Packed(bins, rules)
    requires NonNegative(AllItems(bins), rules) && multiset(AllItems(bins)) == multiset(items)
    requires Feasible(groups, items, rules) && groups != []
    ensures |bins| <= 3 * |groups| - 2
  {
    LoadFits(ByVolume, items, bins, rules, groups);
    LoadFits(ByWeight, items, bins, rules, groups);
    NonNegativeByMeasure(bins);
    FewBins(bins, |groups|, rules);
  }

  /** First fit decreasing never needs more than 3N - 2 bins where N bins are enough. */
  lemma PackingRatio(items: seq<Item>, rules: Rules, groups: seq<seq<Item>>)
    requires NonNegative(items, rules) && items != [] && Feasible(groups, items, rules)
    ensures |PlaceAll(SortDescending(items, rules), rules)| <= 3 * |groups| - 2
  {
    var bins := PlaceAll(SortDescending(items, rules), rules);
    PackingIsPacked(items, rules);
    PackingKeepsItems(items, rules);
    assert groups != [] by {
      assert items[0] in multiset(Flatten(groups));
    }
    forall x | x in AllItems(bins) ensures x in items {
      assert x in multiset(AllItems(bins));
    }
    BinsAgainst(items, bins, rules, groups);
  }
}
