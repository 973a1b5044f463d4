/** The 0/1 knapsack and the unlimited (repetition allowed) knapsack, in the versions of
    the source: plain recursion, recursion that also reports the chosen items, bottom-up
    tabulation with backtracking, and a memoised solver. Items are 1-indexed: `items[0]`
    is an unused slot. */
module Knapsack {

  datatype Item = Item(weight: int, value: int)

  /** The vector has its unused slot 0, and every real item has a positive weight and a
      non-negative value. */
  predicate ValidItems(items: seq<Item>) {
    |items| >= 1 && forall i :: 1 <= i < |items| ==> items[i].weight > 0 && items[i].value >= 0
  }

  function Max(a: int, b: int): int {
    if a >= b then a else b
  }

  // ---------------------------------------------------------------------------
  // Lists of chosen item indices.

  predicate InRange(s: seq<int>, lo: int, hi: int) {
    forall k :: 0 <= k < |s| ==> lo <= s[k] <= hi
  }

  predicate StrictlyIncreasing(s: seq<int>) {
    forall i, j :: 0 <= i < j < |s| ==> s[i] < s[j]
  }

  function TotalWeight(items: seq<Item>, s: seq<int>): int
    requires InRange(s, 0, |items| - 1)
  {
    if s == [] then 0 else TotalWeight(items, s[..|s| - 1]) + items[s[|s| - 1]].weight
  }

  function TotalValue(items: seq<Item>, s: seq<int>): int
    requires InRange(s, 0, |items| - 1)
  {
    if s == [] then 0 else TotalValue(items, s[..|s| - 1]) + items[s[|s| - 1]].value
  }

  lemma TotalsAppend(items: seq<Item>, s: seq<int>, i: int)
    requires InRange(s, 0, |items| - 1) && 0 <= i < |items|
    ensures InRange(s + [i], 0, |items| - 1)
    ensures TotalWeight(items, s + [i]) == TotalWeight(items, s) + items[i].weight
    ensures TotalValue(items, s + [i]) == TotalValue(items, s) + items[i].value
  {
    assert (s + [i])[..|s|] == s;
  }

  lemma AppendLargest(s: seq<int>, lo: int, x: int)
    requires InRange(s, lo, x - 1) && StrictlyIncreasing(s) && lo <= x
    ensures InRange(s + [x], lo, x) && StrictlyIncreasing(s + [x])
  {
  }

  /** With positive weights, a list weighs at least nothing, and a non-empty one more.  */
  lemma {:induction false} WeightPositive(items: seq<Item>, s: seq<int>)
    requires ValidItems(items) && InRange(s, 1, |items| - 1)
    ensures TotalWeight(items, s) >= 0
    ensures s != [] ==> TotalWeight(items, s) > 0
  {
    if s != [] {
      WeightPositive(items, s[..|s| - 1]);
    }
  }

  // ---------------------------------------------------------------------------
  // 0/1 knapsack.

  /** The plain recursion: the best value from items 1..n within capacity `cap`. Leaving
      every item out is always an option, so it is never negative. */
  function KnapsackRecursive(items: seq<Item>, cap: int, n: int): (r: int)
    requires 0 <= n < |items|
    ensures r >= 0
    decreases n
  {
    if cap == 0 then 0
    else if n == 0 then 0
    else if cap < items[n].weight then KnapsackRecursive(items, cap, n - 1)
    else
      Max(KnapsackRecursive(items, cap - items[n].weight, n - 1) + items[n].value,
          KnapsackRecursive(items, cap, n - 1))
  }

  /** Whether the recursion reaches an include-or-exclude decision, the only place
      where it assigns the caller's `chosen` list. */
  predicate Decides(items: seq<Item>, cap: int, n: int)
    requires 0 <= n < |items|
    decreases n
  {
    cap != 0 && n != 0 && (cap < items[n].weight ==> Decides(items, cap, n - 1))
  }

  /** The list the recursion reports: include item n only when that is strictly better,
      so ties go to "exclude". Item n is appended after indices below n, so the list
      holds strictly ascending indices in 1..n. */
  function KnapsackChoice(items: seq<Item>, cap: int, n: int): (r: seq<int>)
    requires 0 <= n < |items|
    ensures InRange(r, 1, n) && StrictlyIncreasing(r)
    decreases n
  {
    if cap == 0 || n == 0 then []
    else if cap < items[n].weight then KnapsackChoice(items, cap, n - 1)
    else if KnapsackRecursive(items, cap - items[n].weight, n - 1) + items[n].value
            > KnapsackRecursive(items, cap, n - 1)
    then
      AppendLargest(KnapsackChoice(items, cap - items[n].weight, n - 1), 1, n);
      KnapsackChoice(items, cap - items[n].weight, n - 1) + [n]
    else KnapsackChoice(items, cap, n - 1)
  }

  lemma {:induction false} NoDecisionChoosesNothing(items: seq<Item>, cap: int, n: int)
    requires 0 <= n < |items| && !Decides(items, cap, n)
    ensures KnapsackChoice(items, cap, n) == [] && KnapsackRecursive(items, cap, n) == 0
    decreases n
  {
    if cap != 0 && n != 0 {
      NoDecisionChoosesNothing(items, cap, n - 1);
    }
  }

  lemma {:induction false} KnapsackChoiceTotals(items: seq<Item>, cap: int, n: int)
    requires 0 <= n < |items| && cap >= 0
    ensures InRange(KnapsackChoice(items, cap, n), 1, n)
    ensures TotalWeight(items, KnapsackChoice(items, cap, n)) <= cap
    ensures TotalValue(items, KnapsackChoice(items, cap, n)) == KnapsackRecursive(items, cap, n)
    decreases n
  {
    if cap == 0 || n == 0 {
      assert KnapsackChoice(items, cap, n) == [] && KnapsackRecursive(items, cap, n) == 0;
    } else {
      var w, v := items[n].weight, items[n].value;
      if cap < w {
        assert KnapsackChoice(items, cap, n) == KnapsackChoice(items, cap, n - 1);
        assert KnapsackRecursive(items, cap, n) == KnapsackRecursive(items, cap, n - 1);
        KnapsackChoiceTotals(items, cap, n - 1);
      } else {
        var inc, exc := KnapsackRecursive(items, cap - w, n - 1) + v, KnapsackRecursive(items, cap, n - 1);
        if inc > exc {
          var c := KnapsackChoice(items, cap - w, n - 1);
          assert KnapsackChoice(items, cap, n) == c + [n] && KnapsackRecursive(items, cap, n) == inc;
          KnapsackChoiceTotals(items, cap - w, n - 1);
          TotalsAppend(items, c, n);
          assert TotalValue(items, c + [n]) == inc;
        } else {
          assert KnapsackChoice(items, cap, n) == KnapsackChoice(items, cap, n - 1);
          assert KnapsackRecursive(items, cap, n) == exc;
          KnapsackChoiceTotals(items, cap, n - 1);
        }
      }
    }
  }

  /** The reported list is feasible: ascending indices in 1..n, total weight at most the
      capacity, and its values add up to the best value. */
  lemma KnapsackChoiceSound(items: seq<Item>, cap: int, n: int)
    requires 0 <= n < |items| && cap >= 0
    ensures var c := KnapsackChoice(items, cap, n);
      && InRange(c, 1, n) && StrictlyIncreasing(c)
      && TotalWeight(items, c) <= cap
      && TotalValue(items, c) == KnapsackRecursive(items, cap, n)
  {
    KnapsackChoiceTotals(items, cap, n);
  }

  /** No feasible selection of distinct items from 1..n beats the recursion's value. */
  lemma {:induction false} KnapsackUpperBound(items: seq<Item>, cap: int, n: int, s: seq<int>)
    requires ValidItems(items) && 0 <= n < |items|
    requires InRange(s, 1, n) && StrictlyIncreasing(s) && TotalWeight(items, s) <= cap
    ensures TotalValue(items, s) <= KnapsackRecursive(items, cap, n)
    decreases n
  {
    WeightPositive(items, s);
    if s != [] && cap != 0 && n != 0 {
      var init, last := s[..|s| - 1], s[|s| - 1];
      assert InRange(init, 1, n) && StrictlyIncreasing(init);
      WeightPositive(items, init);
      if last == n {
        assert InRange(init, 1, n - 1) by {
          forall k | 0 <= k < |init| ensures init[k] <= n - 1 { assert s[k] < s[|s| - 1]; }
        }
        KnapsackUpperBound(items, cap - items[n].weight, n - 1, init);
      } else {
        assert InRange(s, 1, n - 1) by {
          forall k | 0 <= k < |s| ensures s[k] <= n - 1 { assert k == |s| - 1 || s[k] < s[|s| - 1]; }
        }
        KnapsackUpperBound(items, cap, n - 1, s);
      }
    }
  }

  /** The recursion computes the optimum: its value is reached by a feasible selection
      of distinct items and bounds the value of every feasible selection. */
  lemma KnapsackOptimal(items: seq<Item>, cap: int, n: int)
    requires ValidItems(items) && 0 <= n < |items| && cap >= 0
    ensures var c := KnapsackChoice(items, cap, n);
      InRange(c, 1, n) && StrictlyIncreasing(c) && TotalWeight(items, c) <= cap
      && TotalValue(items, c) == KnapsackRecursive(items, cap, n)
    ensures forall s :: InRange(s, 1, n) && StrictlyIncreasing(s) && TotalWeight(items, s) <= cap ==>
                          TotalValue(items, s) <= KnapsackRecursive(items, cap, n)
  {
    KnapsackChoiceSound(items, cap, n);
    forall s | InRange(s, 1, n) && StrictlyIncreasing(s) && TotalWeight(items, s) <= cap
      ensures TotalValue(items, s) <= KnapsackRecursive(items, cap, n)
    {
      KnapsackUpperBound(items, cap, n, s);
    }
  }

  /** The recursion that also reports the chosen items. `chosen0` is the caller's list on
      entry; it is replaced only when the recursion reaches an include-or-exclude decision
      (the recursive calls there get fresh empty lists). */
  method KnapsackRecursiveFull(items: seq<Item>, cap: int, n: int, chosen0: seq<int>)
    returns (best: int, chosen: seq<int>)
    requires 0 <= n < |items|
    ensures best == KnapsackRecursive(items, cap, n)
    ensures chosen == if Decides(items, cap, n) then KnapsackChoice(items, cap, n) else chosen0
    ensures chosen0 == [] ==> chosen == KnapsackChoice(items, cap, n)
    decreases n
  {
    if cap == 0 || n == 0 {
      return 0, chosen0;
    }
    var wn, vn := items[n].weight, items[n].value;
    if cap < wn {
      best, chosen := KnapsackRecursiveFull(items, cap, n - 1, chosen0);
      if !Decides(items, cap, n) {
        NoDecisionChoosesNothing(items, cap, n);
      }
      return;
    }
    var incChosen, excChosen;
    var inc, exc;
    inc, incChosen := KnapsackRecursiveFull(items, cap - wn, n - 1, []);
    inc := inc + vn;
    exc, excChosen := KnapsackRecursiveFull(items, cap, n - 1, []);
    if inc > exc {
      chosen := incChosen;
      chosen := chosen + [n];
      best := inc;
    } else {
      chosen := excChosen;
      best := exc;
    }
  }

  /** The recurrence the table fills in, for one cell of row i >= 1. */
  lemma TableCell(items: seq<Item>, w: int, i: int)
    requires ValidItems(items) && 1 <= i < |items| && w >= 0
    ensures items[i].weight > w ==> KnapsackRecursive(items, w, i) == KnapsackRecursive(items, w, i - 1)
    ensures items[i].weight <= w ==>
      KnapsackRecursive(items, w, i) ==
      Max(KnapsackRecursive(items, w, i - 1), KnapsackRecursive(items, w - items[i].weight, i - 1) + items[i].value)
  {
  }

  /** The bottom-up table shared by both tabulation versions:
      dp[i, w] is the best value from items 1..i within capacity w. */
  method FillTable(items: seq<Item>, cap: int) returns (dp: array2<int>)
    requires ValidItems(items) && cap >= 0
    ensures dp.Length0 == |items| && dp.Length1 == cap + 1
    ensures forall i, w :: 0 <= i < |items| && 0 <= w <= cap ==>
      dp[i, w] == KnapsackRecursive(items, w, i)
  {
    var n := |items| - 1;
    dp := new int[n + 1, cap + 1]((i, w) => 0);
    for i := 1 to n + 1
      invariant forall i', w :: 0 <= i' < i && 0 <= w <= cap ==>
        dp[i', w] == KnapsackRecursive(items, w, i')
    {
      for w := 0 to cap + 1
        invariant forall i', w' :: 0 <= i' < i && 0 <= w' <= cap ==>
          dp[i', w'] == KnapsackRecursive(items, w', i')
        invariant forall w' :: 0 <= w' < w ==> dp[i, w'] == KnapsackRecursive(items, w', i)
      {
        var itemWeight, itemValue := items[i].weight, items[i].value;
        TableCell(items, w, i);
        if itemWeight > w {
          dp[i, w] := dp[i - 1, w];
        } else {
          dp[i, w] := Max(dp[i - 1, w], dp[i - 1, w - itemWeight] + itemValue);
        }
      }
    }
  }

  /** Tabulation: the table's last cell, which is the recursion's value for all items. */
  method KnapsackTabulation(items: seq<Item>, cap: int) returns (best: int)
    requires ValidItems(items) && cap >= 0
    ensures best == KnapsackRecursive(items, cap, |items| - 1)
  {
    var n := |items| - 1;
    var dp := FillTable(items, cap);
    assert 0 <= n < |items| && 0 <= cap <= cap;
    best := dp[n, cap];
  }

  /** One step of the backtracking: item i is in the reported list for capacity `rem`
      exactly when it fits and the best value with it differs from the best without it. */
  lemma BacktrackStep(items: seq<Item>, rem: int, i: int)
    requires ValidItems(items) && 1 <= i < |items| && rem >= 0
    ensures rem >= items[i].weight && KnapsackRecursive(items, rem, i) != KnapsackRecursive(items, rem, i - 1)
      ==> KnapsackChoice(items, rem, i) == KnapsackChoice(items, rem - items[i].weight, i - 1) + [i]
    ensures !(rem >= items[i].weight && KnapsackRecursive(items, rem, i) != KnapsackRecursive(items, rem, i - 1))
      ==> KnapsackChoice(items, rem, i) == KnapsackChoice(items, rem, i - 1)
  {
  }

  /** The backtracking loop's invariant survives one step, taken or not. */
  lemma BacktrackKeeps(items: seq<Item>, whole: seq<int>, rem: int, i: int, taken: seq<int>)
    requires ValidItems(items) && 1 <= i < |items| && rem >= 0
    requires whole == KnapsackChoice(items, rem, i) + taken
    ensures rem >= items[i].weight && KnapsackRecursive(items, rem, i) != KnapsackRecursive(items, rem, i - 1)
      ==> whole == KnapsackChoice(items, rem - items[i].weight, i - 1) + ([i] + taken)
    ensures !(rem >= items[i].weight && KnapsackRecursive(items, rem, i) != KnapsackRecursive(items, rem, i - 1))
      ==> whole == KnapsackChoice(items, rem, i - 1) + taken
  {
    BacktrackStep(items, rem, i);
    if rem >= items[i].weight && KnapsackRecursive(items, rem, i) != KnapsackRecursive(items, rem, i - 1) {
      var rest := KnapsackChoice(items, rem - items[i].weight, i - 1);
      assert rest + [i] + taken == rest + ([i] + taken);
    }
  }

  /** `std::reverse` on the chosen list. */
  function Reversed(s: seq<int>): seq<int> {
    if s == [] then [] else [s[|s| - 1]] + Reversed(s[..|s| - 1])
  }

  /** Tabulation with backtracking. The caller's list is cleared first, so only the
      returned list matters. Going down from item n, an item is taken when it fits the
      remaining capacity and its row differs from the row above. */
  method KnapsackTabulationFull(items: seq<Item>, cap: int) returns (best: int, chosen: seq<int>)
    requires ValidItems(items) && cap >= 0
    ensures best == KnapsackRecursive(items, cap, |items| - 1)
    ensures chosen == KnapsackChoice(items, cap, |items| - 1)
    ensures InRange(chosen, 1, |items| - 1) && StrictlyIncreasing(chosen)
    ensures TotalWeight(items, chosen) <= cap && TotalValue(items, chosen) == best
  {
    var n := |items| - 1;
    chosen := [];
    var dp := FillTable(items, cap);
    var remaining := cap;
    var i := n;
    ghost var taken: seq<int> := [];
    while i > 0
      invariant 0 <= i <= n && 0 <= remaining <= cap
      invariant forall i', w :: 0 <= i' <= n && 0 <= w <= cap ==> dp[i', w] == KnapsackRecursive(items, w, i')
      invariant KnapsackChoice(items, cap, n) == KnapsackChoice(items, remaining, i) + taken
      invariant taken == Reversed(chosen)
    {
      BacktrackKeeps(items, KnapsackChoice(items, cap, n), remaining, i, taken);
      if remaining >= items[i].weight && dp[i, remaining] != dp[i - 1, remaining] {
        assert Reversed(chosen + [i]) == [i] + Reversed(chosen) by {
          assert (chosen + [i])[..|chosen|] == chosen;
        }
        chosen := chosen + [i];
        taken := [i] + taken;
        remaining := remaining - items[i].weight;
      }
      i := i - 1;
    }
    chosen := Reversed(chosen);
    best := dp[n, cap];
    KnapsackChoiceSound(items, cap, n);
  }

  // ---------------------------------------------------------------------------
  // Unlimited knapsack: every item may be taken any number of times.

  /** The best value within capacity `cap`. */
  function UnlimitedBest(items: seq<Item>, cap: int): (r: int)
    requires ValidItems(items)
    ensures r >= 0
    decreases if cap < 0 then 0 else cap, |items| + 1
  {
    if cap <= 0 then 0 else UnlimitedScan(items, cap, |items|)
  }

  /** The running maximum of the loop over the items after it has tried items 1..i-1:
      each item that fits contributes its value plus the best for what is left. */
  function UnlimitedScan(items: seq<Item>, cap: int, i: int): (r: int)
    requires ValidItems(items) && 1 <= i <= |items|
    ensures r >= 0
    decreases if cap < 0 then 0 else cap, i
  {
    if i == 1 then 0
    else if items[i - 1].weight <= cap then
      Max(UnlimitedScan(items, cap, i - 1),
          items[i - 1].value + UnlimitedBest(items, cap - items[i - 1].weight))
    else UnlimitedScan(items, cap, i - 1)
  }

  /** The list the recursion reports: an item replaces the best so far only when it is
      strictly better, so on ties the earlier item is kept. */
  function UnlimitedChoice(items: seq<Item>, cap: int): (r: seq<int>)
    requires ValidItems(items)
    ensures InRange(r, 1, |items| - 1)
    decreases if cap < 0 then 0 else cap, |items| + 1
  {
    if cap <= 0 then [] else UnlimitedChoiceScan(items, cap, |items|)
  }

  /** The list kept by the loop after trying items 1..i-1: indices of real items only. */
  function UnlimitedChoiceScan(items: seq<Item>, cap: int, i: int): (r: seq<int>)
    requires ValidItems(items) && 1 <= i <= |items|
    ensures InRange(r, 1, |items| - 1)
    decreases if cap < 0 then 0 else cap, i
  {
    if i == 1 then []
    else if items[i - 1].weight <= cap
         && items[i - 1].value + UnlimitedBest(items, cap - items[i - 1].weight)
            > UnlimitedScan(items, cap, i - 1)
    then UnlimitedChoice(items, cap - items[i - 1].weight) + [i - 1]
    else UnlimitedChoiceScan(items, cap, i - 1)
  }

  lemma {:induction false} ScanWithoutRoom(items: seq<Item>, cap: int, i: int)
    requires ValidItems(items) && 1 <= i <= |items| && cap <= 0
    ensures UnlimitedScan(items, cap, i) == 0
  {
    if i > 1 {
      ScanWithoutRoom(items, cap, i - 1);
    }
  }

  /** The loop's maximum is at least every candidate it has tried. */
  lemma {:induction false} ScanDominates(items: seq<Item>, cap: int, i: int, j: int)
    requires ValidItems(items) && 1 <= j < i <= |items| && items[j].weight <= cap
    ensures UnlimitedScan(items, cap, i) >= items[j].value + UnlimitedBest(items, cap - items[j].weight)
    decreases i
  {
    if j < i - 1 {
      ScanDominates(items, cap, i - 1, j);
    }
  }

  /** For every item that fits, the best value is at least its value plus the best for
      the remaining capacity. */
  lemma UnlimitedDominates(items: seq<Item>, cap: int, j: int)
    requires ValidItems(items) && 1 <= j < |items| && items[j].weight <= cap
    ensures UnlimitedBest(items, cap) >= items[j].value + UnlimitedBest(items, cap - items[j].weight)
  {
    ScanDominates(items, cap, |items|, j);
  }

  /** The reported list (a multiset of indices, in the order they were found) fits the
      capacity and its values add up to the best value. */
  lemma {:induction false} UnlimitedChoiceSound(items: seq<Item>, cap: int)
    requires ValidItems(items) && cap >= 0
    ensures var c := UnlimitedChoice(items, cap);
      && InRange(c, 1, |items| - 1)
      && TotalWeight(items, c) <= cap
      && TotalValue(items, c) == UnlimitedBest(items, cap)
    decreases cap, |items| + 1
  {
    if cap > 0 {
      UnlimitedChoiceScanSound(items, cap, |items|);
    }
  }

  lemma {:induction false} UnlimitedChoiceScanSound(items: seq<Item>, cap: int, i: int)
    requires ValidItems(items) && cap > 0 && 1 <= i <= |items|
    ensures var c := UnlimitedChoiceScan(items, cap, i);
      && InRange(c, 1, |items| - 1)
      && TotalWeight(items, c) <= cap
      && TotalValue(items, c) == UnlimitedScan(items, cap, i)
    decreases cap, i
  {
    if i > 1 {
      var j := i - 1;
      var w := items[j].weight;
      if w <= cap && items[j].value + UnlimitedBest(items, cap - w) > UnlimitedScan(items, cap, j) {
        var c := UnlimitedChoice(items, cap - w);
        UnlimitedChoiceSound(items, cap - w);
        TotalsAppend(items, c, j);
        assert UnlimitedChoiceScan(items, cap, i) == c + [j];
        assert UnlimitedScan(items, cap, i) == items[j].value + UnlimitedBest(items, cap - w);
        assert InRange(c + [j], 1, |items| - 1);
      } else {
        assert UnlimitedChoiceScan(items, cap, i) == UnlimitedChoiceScan(items, cap, j);
        assert UnlimitedScan(items, cap, i) == UnlimitedScan(items, cap, j);
        UnlimitedChoiceScanSound(items, cap, j);
      }
    }
  }

  /** No feasible multiset of items beats the best value. */
  lemma {:induction false} UnlimitedUpperBound(items: seq<Item>, cap: int, s: seq<int>)
    requires ValidItems(items) && InRange(s, 1, |items| - 1) && TotalWeight(items, s) <= cap
    ensures TotalValue(items, s) <= UnlimitedBest(items, cap)
    decreases |s|
  {
    if s != [] {
      var init, j := s[..|s| - 1], s[|s| - 1];
      assert InRange(init, 1, |items| - 1);
      WeightPositive(items, init);
      UnlimitedUpperBound(items, cap - items[j].weight, init);
      UnlimitedDominates(items, cap, j);
    }
  }

  /** The unlimited recursion computes the optimum over all multisets of items. */
  lemma UnlimitedOptimal(items: seq<Item>, cap: int)
    requires ValidItems(items) && cap >= 0
    ensures var c := UnlimitedChoice(items, cap);
      InRange(c, 1, |items| - 1) && TotalWeight(items, c) <= cap
      && TotalValue(items, c) == UnlimitedBest(items, cap)
    ensures forall s :: InRange(s, 1, |items| - 1) && TotalWeight(items, s) <= cap ==>
                          TotalValue(items, s) <= UnlimitedBest(items, cap)
  {
    UnlimitedChoiceSound(items, cap);
    forall s | InRange(s, 1, |items| - 1) && TotalWeight(items, s) <= cap
      ensures TotalValue(items, s) <= UnlimitedBest(items, cap)
    {
      UnlimitedUpperBound(items, cap, s);
    }
  }

  /** The plain recursion of the unlimited variant, with its loop over the items. */
  method UnlimitedKnapsackRecursive(items: seq<Item>, cap: int) returns (best: int)
    requires ValidItems(items)
    ensures best == UnlimitedBest(items, cap)
    decreases if cap < 0 then 0 else cap
  {
    if cap <= 0 {
      return 0;
    }
    best := 0;
    for i := 1 to |items|
      invariant best == UnlimitedScan(items, cap, i)
    {
      var itemWeight, itemValue := items[i].weight, items[i].value;
      if itemWeight <= cap {
        var rest := UnlimitedKnapsackRecursive(items, cap - itemWeight);
        var current := itemValue + rest;
        best := Max(best, current);
      }
    }
  }

  /** The unlimited recursion that also reports the chosen items; both of its paths
      overwrite the caller's list, so only the returned list matters. */
  method UnlimitedKnapsackRecursiveFull(items: seq<Item>, cap: int) returns (best: int, chosen: seq<int>)
    requires ValidItems(items)
    ensures best == UnlimitedBest(items, cap) && chosen == UnlimitedChoice(items, cap)
    ensures cap >= 0 ==> InRange(chosen, 1, |items| - 1) && TotalWeight(items, chosen) <= cap
    ensures cap >= 0 ==> TotalValue(items, chosen) == best
    decreases if cap < 0 then 0 else cap
  {
    if cap <= 0 {
      return 0, [];
    }
    best := 0;
    var bestChosen := [];
    for i := 1 to |items|
      invariant best == UnlimitedScan(items, cap, i)
      invariant bestChosen == UnlimitedChoiceScan(items, cap, i)
    {
      var itemWeight, itemValue := items[i].weight, items[i].value;
      if itemWeight <= cap {
        var rest, tempChosen := UnlimitedKnapsackRecursiveFull(items, cap - itemWeight);
        var current := itemValue + rest;
        if current > best {
          best := current;
          bestChosen := tempChosen + [i];
        }
      }
    }
    chosen := bestChosen;
    UnlimitedChoiceSound(items, cap);
  }

  /** Every memo entry is either -1 (not computed yet) or the best value for its capacity. */
  predicate MemoValid(items: seq<Item>, K: seq<int>)
    requires ValidItems(items)
  {
    forall w :: 0 <= w < |K| ==> K[w] == -1 || K[w] == UnlimitedBest(items, w)
  }

  /** The memoised solver: answers from the table when it can, and records what it computes. */
  method UnlimitedKnapsackMemoized(items: seq<Item>, cap: int, K: array<int>) returns (best: int)
    requires ValidItems(items) && 0 <= cap < K.Length && MemoValid(items, K[..])
    modifies K
    ensures best == UnlimitedBest(items, cap) && K[cap] == best
    ensures MemoValid(items, K[..])
    ensures forall w :: 0 <= w < K.Length && old(K[w]) != -1 ==> K[w] == old(K[w])
    decreases cap
  {
    if K[cap] != -1 {
      return K[cap];
    }
    best := 0;
    for i := 1 to |items|
      invariant best == UnlimitedScan(items, cap, i)
      invariant MemoValid(items, K[..])
      invariant forall w :: 0 <= w < K.Length && old(K[w]) != -1 ==> K[w] == old(K[w])
    {
      var itemWeight, itemValue := items[i].weight, items[i].value;
      if itemWeight <= cap {
        var rest := UnlimitedKnapsackMemoized(items, cap - itemWeight, K);
        var current := itemValue + rest;
        best := Max(best, current);
      }
    }
    if cap == 0 {
      ScanWithoutRoom(items, cap, |items|);
    }
    K[cap] := best;
  }

  /** The wrapper: a fresh table with K[0] = 0 and every other entry -1. */
  method UnlimitedKnapsackWrapper(items: seq<Item>, cap: int) returns (best: int)
    requires ValidItems(items) && cap >= 0
    ensures best == UnlimitedBest(items, cap)
  {
    var K := new int[cap + 1](_ => -1);
    K[0] := 0;
    assert MemoValid(items, K[..]);
    best := UnlimitedKnapsackMemoized(items, cap, K);
  }
}
