/**
 The 2-opt route heuristic of mathOptimization.ts (`twoOptOptimization`, `twoOptSwap`,
 `computeTotalRouteDistanceKm`) over an arbitrary distance function, in exact real arithmetic.
 */
module RouteOptimization {

  type Distance<!P> = (P, P) -> real

  ghost predicate NonNegative<P(!new)>(d: Distance<P>) {
    forall x, y :: d(x, y) >= 0.0
  }

  ghost predicate Symmetric<P(!new)>(d: Distance<P>) {
    forall x, y :: d(x, y) == d(y, x)
  }

  /** The length of a route, leg by leg. */
  function RouteCost<P>(d: Distance<P>, route: seq<P>): real {
    var n := |route|;
    if n < 2 then 0.0 else RouteCost(d, route[..n - 1]) + d(route[n - 2], route[n - 1])
  }

  function Reversed<P>(s: seq<P>): seq<P> {
    if s == [] then [] else Reversed(s[1..]) + [s[0]]
  }

  /** The route with the stops `i` to `k` in the opposite order. */
  function Swapped<P>(route: seq<P>, i: nat, k: nat): seq<P>
    requires i <= k < |route|
  {
    route[..i] + Reversed(route[i..k + 1]) + route[k + 1..]
  }

  /** No reversal of inner stops shortens the route by more than the threshold. */
  ghost predicate LocallyOptimal<P>(d: Distance<P>, route: seq<P>) {
    forall i, j | 1 <= i < j < |route| - 1 :: RouteCost(d, Swapped(route, i, j)) >= RouteCost(d, route) - 0.001
  }

  ghost predicate Improves<P>(d: Distance<P>, route: seq<P>, i: nat, j: nat)
    requires i <= j < |route|
  {
    RouteCost(d, Swapped(route, i, j)) < RouteCost(d, route) - 0.001
  }

  /** The first pair of inner stops, by `i` and then by `j`, whose reversal shortens the route enough. */
  ghost predicate IsFirstImprovement<P>(d: Distance<P>, route: seq<P>, i: nat, j: nat) {
    && 1 <= i < j < |route| - 1 && Improves(d, route, i, j)
    && forall a, b | 1 <= a < b < |route| - 1 && (a < i || (a == i && b < j)) :: !Improves(d, route, a, b)
  }

  ghost predicate IsSwap<P>(d: Distance<P>, route: seq<P>, next: seq<P>) {
    exists i, j :: IsFirstImprovement(d, route, i, j) && next == Swapped(route, i, j)
  }

  /** Routes each of which comes from the one before it by the first improvement. */
  ghost predicate IsSearch<P>(d: Distance<P>, routes: seq<seq<P>>) {
    routes != [] && forall k | 0 <= k < |routes| - 1 :: IsSwap(d, routes[k], routes[k + 1])
  }

  lemma {:induction false} ReversedParts<P>(s: seq<P>)
    ensures |Reversed(s)| == |s| && multiset(Reversed(s)) == multiset(s)
    ensures forall c | 0 <= c < |s| :: Reversed(s)[c] == s[|s| - 1 - c]
    decreases |s|
  {
    if s != [] {
      ReversedParts(s[1..]);
      assert s == [s[0]] + s[1..];
    }
  }

  /** A reversal of inner stops is a permutation that keeps both ends. */
  lemma SwappedIsPermutation<P>(route: seq<P>, i: nat, k: nat)
    requires 1 <= i <= k < |route| - 1
    ensures multiset(Swapped(route, i, k)) == multiset(route) && |Swapped(route, i, k)| == |route|
    ensures Swapped(route, i, k)[0] == route[0] && Swapped(route, i, k)[|route| - 1] == route[|route| - 1]
  {
    ReversedParts(route[i..k + 1]);
    CutAt(route, i, k);
  }

  // ---------- what a reversal changes ----------

  lemma {:induction false} CostOfJoin<P>(d: Distance<P>, a: seq<P>, b: seq<P>)
    requires a != [] && b != []
    ensures RouteCost(d, a + b) == RouteCost(d, a) + d(a[|a| - 1], b[0]) + RouteCost(d, b)
    decreases |b|
  {
    var s := a + b;
    assert s[..|s| - 1] == a + b[..|b| - 1];
    if |b| > 1 {
      CostOfJoin(d, a, b[..|b| - 1]);
    } else {
      assert a + b[..0] == a;
    }
  }

  /** A stop costs nothing, and two cost their distance; joining tells the rest. */
  lemma CostOfFewStops<P>(d: Distance<P>, x: P, y: P)
    ensures RouteCost(d, []) == 0.0 && RouteCost(d, [x]) == 0.0 && RouteCost(d, [x, y]) == d(x, y)
  {
    CostOfJoin(d, [x], [y]);
    assert [x] + [y] == [x, y];
  }

  lemma {:induction false} CostOfReversed<P(!new)>(d: Distance<P>, s: seq<P>)
    requires Symmetric(d)
    ensures RouteCost(d, Reversed(s)) == RouteCost(d, s)
    decreases |s|
  {
    if |s| > 1 {
      CostOfReversed(d, s[1..]);
      ReversedParts(s[1..]);
      CostOfJoin(d, Reversed(s[1..]), [s[0]]);
      CostOfJoin(d, [s[0]], s[1..]);
      assert s == [s[0]] + s[1..];
    }
  }

  lemma CostInThree<P>(d: Distance<P>, a: seq<P>, m: seq<P>, b: seq<P>)
    requires a != [] && m != [] && b != []
    ensures RouteCost(d, a + m + b)
            == RouteCost(d, a) + d(a[|a| - 1], m[0]) + RouteCost(d, m) + d(m[|m| - 1], b[0]) + RouteCost(d, b)
  {
    var front := a + m;
    assert front[|front| - 1] == m[|m| - 1];
    CostOfJoin(d, front, b);
    CostOfJoin(d, a, m);
  }

  lemma CutAt<P>(route: seq<P>, i: nat, k: nat)
    requires i <= k < |route|
    ensures route[..i] + route[i..k + 1] + route[k + 1..] == route
    ensures route[i..k + 1][0] == route[i] && route[i..k + 1][|route[i..k + 1]| - 1] == route[k]
  {
  }

  lemma ReversedEnds<P>(s: seq<P>)
    requires s != []
    ensures Reversed(s) != [] && Reversed(s)[0] == s[|s| - 1] && Reversed(s)[|Reversed(s)| - 1] == s[0]
  {
    ReversedParts(s);
  }

  function CostChange<P>(d: Distance<P>, before: seq<P>, after: seq<P>): real {
    RouteCost(d, after) - RouteCost(d, before)
  }

  /** With a symmetric distance a reversal trades the two legs at its ends for two others. */
  lemma SwapExchangesTwoLegs<P(!new)>(d: Distance<P>, route: seq<P>, i: nat, k: nat)
    requires Symmetric(d) && 1 <= i <= k < |route| - 1
    ensures CostChange(d, route, Swapped(route, i, k))
            == d(route[i - 1], route[k]) + d(route[i], route[k + 1]) - d(route[i - 1], route[i]) - d(route[k], route[k + 1])
  {
    var a, m, b := route[..i], route[i..k + 1], route[k + 1..];
    CutAt(route, i, k);
    ReversedInTheMiddle(d, route, Swapped(route, i, k), a, m, b, route[i - 1], route[i], route[k], route[k + 1]);
  }

  /** The reversal of `m`, which goes from `q` to `r`, between a stop `p` and a stop `s`. */
  lemma ReversedInTheMiddle<P(!new)>(d: Distance<P>, before: seq<P>, after: seq<P>, a: seq<P>, m: seq<P>, b: seq<P>,
                                     p: P, q: P, r: P, s: P)
    requires before == a + m + b && after == a + Reversed(m) + b
    requires Symmetric(d) && a != [] && m != [] && b != []
    requires a[|a| - 1] == p && m[0] == q && m[|m| - 1] == r && b[0] == s
    ensures CostChange(d, before, after) == d(p, r) + d(q, s) - d(p, q) - d(r, s)
  {
    ReversedEnds(m);
    CostOfReversed(d, m);
    CostInThree(d, a, m, b);
    CostInThree(d, a, Reversed(m), b);
  }

  /** The legs into `i` and out of `j` are, up to the threshold, no longer than the two that would replace them. */
  ghost predicate LegsHold<P>(d: Distance<P>, route: seq<P>, i: nat, j: nat)
    requires 1 <= i < j < |route| - 1
  {
    d(route[i - 1], route[i]) + d(route[j], route[j + 1])
    <= d(route[i - 1], route[j]) + d(route[i], route[j + 1]) + 0.001
  }

  /** So local optimality is a condition on pairs of legs alone. */
  lemma LocallyOptimalByLegs<P(!new)>(d: Distance<P>, route: seq<P>)
    requires Symmetric(d)
    ensures LocallyOptimal(d, route) <==> forall i, j | 1 <= i < j < |route| - 1 :: LegsHold(d, route, i, j)
  {
    forall i, j | 1 <= i < j < |route| - 1
      ensures RouteCost(d, Swapped(route, i, j)) >= RouteCost(d, route) - 0.001 <==> LegsHold(d, route, i, j)
    {
      SwapExchangesTwoLegs(d, route, i, j);
    }
    if LocallyOptimal(d, route) {
      forall i, j | 1 <= i < j < |route| - 1 ensures LegsHold(d, route, i, j) {
        assert RouteCost(d, Swapped(route, i, j)) >= RouteCost(d, route) - 0.001;
      }
    }
  }

  lemma {:induction false} CostIsNonNegative<P(!new)>(d: Distance<P>, route: seq<P>)
    requires NonNegative(d)
    ensures RouteCost(d, route) >= 0.0
    decreases |route|
  {
    if |route| >= 2 {
      CostIsNonNegative(d, route[..|route| - 1]);
    }
  }

  lemma OneMoreSwap<P>(d: Distance<P>, routes: seq<seq<P>>, next: seq<P>)
    requires IsSearch(d, routes) && IsSwap(d, routes[|routes| - 1], next)
    ensures IsSearch(d, routes + [next])
  {
  }

  /** The same stops, and the same first and last one. */
  ghost predicate SameStops<P>(a: seq<P>, b: seq<P>) {
    multiset(a) == multiset(b) && |a| == |b| && (a != [] ==> a[0] == b[0] && a[|a| - 1] == b[|b| - 1])
  }

  lemma SwapKeepsStops<P>(d: Distance<P>, route: seq<P>, next: seq<P>)
    requires IsSwap(d, route, next)
    ensures SameStops(route, next)
  {
    var i, j :| IsFirstImprovement(d, route, i, j) && next == Swapped(route, i, j);
    SwappedIsPermutation(route, i, j);
  }

  /** Swaps permute the inner stops of a route. */
  lemma {:induction false} SwapsPermute<P>(d: Distance<P>, routes: seq<seq<P>>)
    requires IsSearch(d, routes)
    ensures SameStops(routes[0], routes[|routes| - 1])
    decreases |routes|
  {
    var n := |routes| - 1;
    if n > 0 {
      SwapsPermute(d, routes[..n]);
      assert IsSwap(d, routes[n - 1], routes[n - 1 + 1]);
      SwapKeepsStops(d, routes[n - 1], routes[n]);
    }
  }

  /** The threshold of `n` swaps. */
  function Threshold(n: nat): real {
    n as real * 0.001
  }

  /** Each swap saves more than the threshold. */
  lemma {:induction false} SwapsSave<P>(d: Distance<P>, routes: seq<seq<P>>)
    requires IsSearch(d, routes)
    ensures var saved := RouteCost(d, routes[0]) - RouteCost(d, routes[|routes| - 1]);
            saved >= Threshold(|routes| - 1) && (|routes| > 1 ==> saved > Threshold(|routes| - 1))
    decreases |routes|
  {
    var n := |routes| - 1;
    if n > 0 {
      SwapsSave(d, routes[..n]);
      assert IsSwap(d, routes[n - 1], routes[n - 1 + 1]);
      var i, j :| IsFirstImprovement(d, routes[n - 1], i, j) && routes[n] == Swapped(routes[n - 1], i, j);
      assert Improves(d, routes[n - 1], i, j);
    }
  }

  /** A cap that pays for the whole cost of a route never stops the search too early. */
  lemma CapSuffices<P(!new)>(d: Distance<P>, routes: seq<seq<P>>)
    requires NonNegative(d) && IsSearch(d, routes) && RouteCost(d, routes[0]) <= Threshold(|routes| - 1)
    ensures LocallyOptimal(d, routes[|routes| - 1])
  {
    SwapsSave(d, routes);
    CostIsNonNegative(d, routes[|routes| - 1]);
    ShortRouteIsOptimal(d, routes[|routes| - 1]);
  }

  lemma ShortRouteIsOptimal<P(!new)>(d: Distance<P>, route: seq<P>)
    requires NonNegative(d) && RouteCost(d, route) <= 0.001
    ensures LocallyOptimal(d, route)
  {
    forall i, j | 1 <= i < j < |route| - 1 ensures RouteCost(d, Swapped(route, i, j)) >= RouteCost(d, route) - 0.001 {
      CostIsNonNegative(d, Swapped(route, i, j));
    }
  }

  // ---------- the methods ----------

  method ComputeTotalRouteDistance<P>(d: Distance<P>, route: seq<P>) returns (total: real)
    ensures total == RouteCost(d, route)
  {
    total := 0.0;
    var i := 0;
    while i < |route| - 1
      invariant 0 <= i && (route == [] || i <= |route| - 1)
      invariant route != [] ==> total == RouteCost(d, route[..i + 1])
      invariant route == [] ==> i == 0 && total == 0.0
    {
      total := total + d(route[i], route[i + 1]);
      assert route[..i + 2][..i + 1] == route[..i + 1];
      i := i + 1;
    }
    assert route != [] ==> route[..i + 1] == route;
  }

  method TwoOptSwap<P>(route: seq<P>, i: nat, k: nat) returns (newRoute: seq<P>)
    requires i <= k < |route|
    ensures newRoute == Swapped(route, i, k)
  {
    newRoute := [];
    for c := 0 to i
      invariant newRoute == route[..c]
    {
      newRoute := newRoute + [route[c]];
    }
    for c := k + 1 downto i
      invariant newRoute == route[..i] + Reversed(route[c..k + 1])
    {
      assert route[c..k + 1][1..] == route[c + 1..k + 1];
      newRoute := newRoute + [route[c]];
    }
    ghost var m := newRoute;
    for c := k + 1 to |route|
      invariant newRoute == m + route[k + 1..c]
    {
      newRoute := newRoute + [route[c]];
    }
  }

  /** One pass: the first reversal that shortens the route by more than the threshold. */
  method FirstImprovement<P>(d: Distance<P>, bestRoute: seq<P>, bestDistance: real)
    returns (improved: bool, newRoute: seq<P>, newDistance: real)
    requires |bestRoute| > 3 && bestDistance == RouteCost(d, bestRoute)
    ensures newDistance == RouteCost(d, newRoute) && |newRoute| == |bestRoute|
    ensures improved ==> IsSwap(d, bestRoute, newRoute)
    ensures !improved ==> newRoute == bestRoute && LocallyOptimal(d, bestRoute)
  {
    improved, newRoute, newDistance := false, bestRoute, bestDistance;
    var i := 1;
    while i < |bestRoute| - 2
      invariant 1 <= i <= |bestRoute| - 2
      invariant forall a, b | 1 <= a < b < |bestRoute| - 1 && a < i :: !Improves(d, bestRoute, a, b)
    {
      var j := i + 1;
      while j < |bestRoute| - 1
        invariant i + 1 <= j <= |bestRoute| - 1
        invariant forall b | i < b < j :: !Improves(d, bestRoute, i, b)
      {
        var candidate := TwoOptSwap(bestRoute, i, j);
        var distance := ComputeTotalRouteDistance(d, candidate);
        if distance < bestDistance - 0.001 {
          SwappedIsPermutation(bestRoute, i, j);
          assert IsFirstImprovement(d, bestRoute, i, j);
          return true, candidate, distance;
        }
        j := j + 1;
      }
      i := i + 1;
    }
    forall a, b | 1 <= a < b < |bestRoute| - 1
      ensures RouteCost(d, Swapped(bestRoute, a, b)) >= RouteCost(d, bestRoute) - 0.001
    {
      assert !Improves(d, bestRoute, a, b);
    }
  }

  method SearchRoute<P>(d: Distance<P>, route: seq<P>, maxIterations: int)
    returns (bestRoute: seq<P>, bestDistance: real, ghost routes: seq<seq<P>>)
    ensures bestDistance == RouteCost(d, bestRoute)
    ensures |route| <= 3 ==> bestRoute == route
    ensures IsSearch(d, routes) && routes[0] == route && routes[|routes| - 1] == bestRoute
    ensures |routes| - 1 <= if maxIterations < 0 then 0 else maxIterations
    ensures |routes| - 1 < maxIterations ==> LocallyOptimal(d, bestRoute)
  {
    routes := [route];
    bestRoute := route;
    bestDistance := ComputeTotalRouteDistance(d, bestRoute);
    if |route| <= 3 {
      return;
    }
    var iterations := 0;
    var improved := true;
    while improved && iterations < maxIterations
      invariant bestDistance == RouteCost(d, bestRoute) && |bestRoute| == |route|
      invariant IsSearch(d, routes) && routes[0] == route && routes[|routes| - 1] == bestRoute
      invariant iterations == 0 || iterations <= maxIterations
      invariant if improved then |routes| - 1 == iterations else |routes| == iterations && LocallyOptimal(d, bestRoute)
      decreases maxIterations - iterations
    {
      iterations := iterations + 1;
      improved, bestRoute, bestDistance := FirstImprovement(d, bestRoute, bestDistance);
      if improved {
        OneMoreSwap(d, routes, bestRoute);
        routes := routes + [bestRoute];
      }
    }
  }

  /**
   The search goes from the route to the result by first improvements; the result is a permutation with the
   same ends and its own length; every swap saves more than the threshold; and unless the iteration cap
   stopped the search no reversal improves the result.
   */
  method TwoOptOptimization<P(!new)>(d: Distance<P>, route: seq<P>, maxIterations: int)
    returns (optimizedRoute: seq<P>, totalDistance: real, ghost routes: seq<seq<P>>)
    ensures totalDistance == RouteCost(d, optimizedRoute)
    ensures |route| <= 3 ==> optimizedRoute == route
    ensures IsSearch(d, routes) && routes[0] == route && routes[|routes| - 1] == optimizedRoute
    ensures SameStops(route, optimizedRoute)
    ensures totalDistance <= RouteCost(d, route) - Threshold(|routes| - 1)
    ensures |routes| - 1 < maxIterations ==> LocallyOptimal(d, optimizedRoute)
    ensures NonNegative(d) && maxIterations >= 0 && RouteCost(d, route) <= Threshold(maxIterations) ==>
              LocallyOptimal(d, optimizedRoute)
  {
    optimizedRoute, totalDistance, routes := SearchRoute(d, route, maxIterations);
    SwapsPermute(d, routes);
    SwapsSave(d, routes);
    if NonNegative(d) && |routes| - 1 >= maxIterations >= 0 && RouteCost(d, route) <= Threshold(maxIterations) {
      CapSuffices(d, routes);
    }
  }
}
