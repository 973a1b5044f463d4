/** Coin change by depth-first search: can the target be paid with coins
    drawn, with repetition, from a list of denominations? */
module CoinChange {

  /** Every denomination is positive; without this the search does not terminate. */
  predicate PositiveCoins(a: seq<int>) {
    forall i :: 0 <= i < |a| ==> a[i] > 0
  }

  function Sum(s: seq<int>): int {
    if s == [] then 0 else Sum(s[..|s| - 1]) + s[|s| - 1]
  }

  /** Every element of `s` is one of the denominations in `a`. */
  predicate DrawnFrom(s: seq<int>, a: seq<int>) {
    forall k :: 0 <= k < |s| ==> s[k] in a
  }

  /** The search's answer: `t` is reached exactly, or some coin leads to a reachable remainder. */
  function Makeable(t: int, a: seq<int>): bool
    requires PositiveCoins(a)
    decreases if t < 0 then 0 else t, |a| + 2
  {
    if t == 0 then true
    else if t < 0 then false
    else MakeableFrom(t, a, 0)
  }

  /** The coin at index `j` leaves a makeable remainder. */
  predicate Leads(t: int, a: seq<int>, j: int)
    requires PositiveCoins(a) && t > 0
    decreases t, 0
  {
    0 <= j < |a| && Makeable(t - a[j], a)
  }

  /** The loop over the denominations, from index `i` on: some coin at index `i` or later
      leaves a makeable remainder. */
  function MakeableFrom(t: int, a: seq<int>, i: nat): (r: bool)
    requires PositiveCoins(a) && t > 0 && i <= |a|
    ensures r <==> exists j :: i <= j && Leads(t, a, j)
    decreases t, |a| - i + 1
  {
    if i == |a| then false
    else
      assert Leads(t, a, i) == Makeable(t - a[i], a);
      var answer := Makeable(t - a[i], a) || MakeableFrom(t, a, i + 1);
      assert MakeableFrom(t, a, i + 1) <==> exists j :: i + 1 <= j && Leads(t, a, j);
      assert answer ==> exists j :: i <= j && Leads(t, a, j);
      assert (exists j :: i <= j && Leads(t, a, j)) ==> answer;
      answer
  }

  /** The coins the search pushes for `t`: the witness of the first coin that works,
      followed by that coin. */
  function Witness(t: int, a: seq<int>): (r: seq<int>)
    requires PositiveCoins(a) && Makeable(t, a)
    ensures |r| <= t && (r == [] <==> t == 0)
    decreases t, |a| + 1
  {
    if t == 0 then [] else WitnessFrom(t, a, 0)
  }

  /** The coins pushed by the loop from index `i` on: the last one is a denomination at
      index `i` or later. */
  function WitnessFrom(t: int, a: seq<int>, i: nat): (r: seq<int>)
    requires PositiveCoins(a) && t > 0 && i <= |a| && MakeableFrom(t, a, i)
    ensures 0 < |r| <= t && r[|r| - 1] in a[i..]
    decreases t, |a| - i
  {
    if Makeable(t - a[i], a) then Witness(t - a[i], a) + [a[i]]
    else WitnessFrom(t, a, i + 1)
  }

  lemma SumAppend(s: seq<int>, x: int)
    ensures Sum(s + [x]) == Sum(s) + x
  {
    assert (s + [x])[..|s|] == s;
  }

  lemma {:induction false} SumOfPositiveCoins(s: seq<int>, a: seq<int>)
    requires PositiveCoins(a) && DrawnFrom(s, a)
    ensures Sum(s) >= 0
    ensures s != [] ==> Sum(s) > 0
  {
    if s != [] {
      var init := s[..|s| - 1];
      assert DrawnFrom(init, a) by {
        forall k | 0 <= k < |init| ensures init[k] in a { assert init[k] == s[k]; }
      }
      SumOfPositiveCoins(init, a);
      var j :| 0 <= j < |a| && a[j] == s[|s| - 1];
    }
  }

  lemma {:induction false} WitnessSound(t: int, a: seq<int>)
    requires PositiveCoins(a) && Makeable(t, a)
    ensures DrawnFrom(Witness(t, a), a) && Sum(Witness(t, a)) == t
    decreases t, |a| + 1
  {
    if t != 0 {
      WitnessFromSound(t, a, 0);
    }
  }

  lemma {:induction false} WitnessFromSound(t: int, a: seq<int>, i: nat)
    requires PositiveCoins(a) && t > 0 && i <= |a| && MakeableFrom(t, a, i)
    ensures DrawnFrom(WitnessFrom(t, a, i), a) && Sum(WitnessFrom(t, a, i)) == t
    decreases t, |a| - i
  {
    if Makeable(t - a[i], a) {
      WitnessSound(t - a[i], a);
      SumAppend(Witness(t - a[i], a), a[i]);
    } else {
      WitnessFromSound(t, a, i + 1);
    }
  }

  /** Whatever sum of denominations adds up to `t`, the search answers yes. */
  lemma {:induction false} RepresentableIsMakeable(t: int, a: seq<int>, s: seq<int>)
    requires PositiveCoins(a) && DrawnFrom(s, a) && Sum(s) == t
    ensures Makeable(t, a)
    decreases |s|
  {
    if s != [] {
      var init, x := s[..|s| - 1], s[|s| - 1];
      assert DrawnFrom(init, a) by {
        forall k | 0 <= k < |init| ensures init[k] in a { assert init[k] == s[k]; }
      }
      SumOfPositiveCoins(s, a);
      RepresentableIsMakeable(t - x, a, init);
      var j :| 0 <= j < |a| && a[j] == x;
      assert Leads(t, a, j);
    }
  }

  /** With positive coins, the search answers yes exactly when `t` is a finite sum
      of denominations, repetition allowed. */
  lemma MakeableIffRepresentable(t: int, a: seq<int>)
    requires PositiveCoins(a)
    ensures Makeable(t, a) <==> exists s :: DrawnFrom(s, a) && Sum(s) == t
  {
    if Makeable(t, a) {
      WitnessSound(t, a);
    }
    forall s | DrawnFrom(s, a) && Sum(s) == t ensures Makeable(t, a) {
      RepresentableIsMakeable(t, a, s);
    }
  }

  /** The search itself. `coinsUsed` and `canMake` are the caller's vectors, passed in and
      returned with their new contents (`coins` and `made`). */
  method CoinChange(t: int, a: seq<int>, coinsUsed: seq<int>, canMake: bool)
    returns (found: bool, coins: seq<int>, made: bool)
    requires PositiveCoins(a)
    ensures found == Makeable(t, a)
    ensures found ==> coins == coinsUsed + Witness(t, a) && made
    ensures !found ==> coins == coinsUsed
    ensures t < 0 ==> made == canMake
    ensures t > 0 && !found ==> !made
    decreases if t < 0 then 0 else t
  {
    coins, made := coinsUsed, canMake;
    if t == 0 {
      made := true;
      return true, coins, made;
    } else if t < 0 {
      return false, coins, made;
    }
    var i := 0;
    while i < |a|
      invariant 0 <= i <= |a|
      invariant MakeableFrom(t, a, 0) == MakeableFrom(t, a, i)
      invariant MakeableFrom(t, a, i) ==> WitnessFrom(t, a, 0) == WitnessFrom(t, a, i)
      invariant coins == coinsUsed
    {
      var ok;
      ok, coins, made := CoinChange(t - a[i], a, coins, made);
      if ok {
        coins := coins + [a[i]];
        return true, coins, made;
      }
      i := i + 1;
    }
    made := false;
    return false, coins, made;
  }
}
