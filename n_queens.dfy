/** N-Queens by backtracking. A board is the sequence of columns (1..n) of the queens
    in rows 1..n; the search fills it row by row, tries columns in increasing order,
    records each complete board and stops once MAX_SOLUTIONS boards are recorded. */
module NQueens {

  /** The cutoff on the number of recorded solutions. */
  const MAX_SOLUTIONS: int := 4

  /** The queen of row `k + 1` in partial board `p` attacks column `col` of the next row
      (row `|p| + 1`): same column or the same diagonal. */
  predicate Conflict(p: seq<int>, k: int, col: int)
    requires 0 <= k < |p|
  {
    p[k] == col || k - |p| == p[k] - col || k - |p| == col - p[k]
  }

  /** Column `col` may hold the queen of the next row. */
  predicate Legal(p: seq<int>, col: int) {
    forall k :: 0 <= k < |p| ==> !Conflict(p, k, col)
  }

  /** No two queens of `s` share a column or a diagonal. */
  predicate NonAttacking(s: seq<int>) {
    forall a, b :: 0 <= a < b < |s| ==> s[a] != s[b] && b - a != s[b] - s[a] && b - a != s[a] - s[b]
  }

  predicate OnBoard(s: seq<int>, n: int) {
    forall k :: 0 <= k < |s| ==> 1 <= s[k] <= n
  }

  /** A full placement of n non-attacking queens on the n-by-n board. */
  predicate IsSolution(s: seq<int>, n: int) {
    |s| == n && OnBoard(s, n) && NonAttacking(s)
  }

  /** Strict lexicographic order on boards. */
  predicate LexLess(a: seq<int>, b: seq<int>) {
    |a| > 0 && |b| > 0 && (a[0] < b[0] || (a[0] == b[0] && LexLess(a[1..], b[1..])))
  }

  predicate Sorted(ss: seq<seq<int>>) {
    forall i, j :: 0 <= i < j < |ss| ==> LexLess(ss[i], ss[j])
  }

  /** The first `k` elements of `s`, or all of `s` when it is shorter. */
  function Take<T>(s: seq<T>, k: nat): (r: seq<T>)
    ensures |r| == if k < |s| then k else |s|
    ensures r == s[..|r|]
  {
    if k < |s| then s[..k] else s
  }

  // ---------------------------------------------------------------------------
  // The search without the cutoff: every completion of the partial board `p`.

  /** Every completion of `p`: each is a full-length board that extends `p`. */
  function All(n: int, p: seq<int>): (r: seq<seq<int>>)
    requires |p| <= n
    ensures forall k :: 0 <= k < |r| ==> |r[k]| == n && r[k][..|p|] == p
    decreases n - |p|, 1, 0
  {
    if |p| == n then [p] else AllFrom(n, p, 1)
  }

  /** The completions of `p` whose next queen is in column `col` or beyond. */
  function AllFrom(n: int, p: seq<int>, col: int): (r: seq<seq<int>>)
    requires |p| < n && 1 <= col <= n + 1
    ensures forall k :: 0 <= k < |r| ==> |r[k]| == n && r[k][..|p|] == p
    decreases n - |p|, 0, n + 1 - col
  {
    if col > n then []
    else if Legal(p, col) then All(n, p + [col]) + AllFrom(n, p, col + 1)
    else AllFrom(n, p, col + 1)
  }

  // ---------------------------------------------------------------------------
  // The search as written: the global counter `found` and the boards it records.

  datatype Outcome = Outcome(found: int, boards: seq<seq<int>>)

  /** One call of the search on partial board `p` with the counter at `found`. */
  function Run(n: int, p: seq<int>, found: int): Outcome
    requires |p| <= n
    decreases n - |p|, 1, 0
  {
    if |p| == n then Outcome(found + 1, [p]) else RunFrom(n, p, found, 1)
  }

  /** The loop over the columns from `col` on, with the counter at `found`. */
  function RunFrom(n: int, p: seq<int>, found: int, col: int): Outcome
    requires |p| < n && 1 <= col <= n + 1
    decreases n - |p|, 0, n + 1 - col
  {
    if col > n then Outcome(found, [])
    else if Legal(p, col) then
      var o1 := Run(n, p + [col], found);
      if o1.found >= MAX_SOLUTIONS then o1
      else
        var o2 := RunFrom(n, p, o1.found, col + 1);
        Outcome(o2.found, o1.boards + o2.boards)
    else RunFrom(n, p, found, col + 1)
  }

  /** Whatever the counter starts at, it goes up by exactly one per recorded board, and
      from below the cutoff it never passes it. */
  lemma {:induction false} RunCounter(n: int, p: seq<int>, found: int)
    requires |p| <= n
    ensures Run(n, p, found).found == found + |Run(n, p, found).boards|
    ensures found < MAX_SOLUTIONS ==> Run(n, p, found).found <= MAX_SOLUTIONS
    decreases n - |p|, 1, 0
  {
    if |p| < n {
      RunFromCounter(n, p, found, 1);
    }
  }

  lemma {:induction false} RunFromCounter(n: int, p: seq<int>, found: int, col: int)
    requires |p| < n && 1 <= col <= n + 1
    ensures RunFrom(n, p, found, col).found == found + |RunFrom(n, p, found, col).boards|
    ensures found < MAX_SOLUTIONS ==> RunFrom(n, p, found, col).found <= MAX_SOLUTIONS
    decreases n - |p|, 0, n + 1 - col
  {
    if col <= n {
      if Legal(p, col) {
        var o1 := Run(n, p + [col], found);
        RunCounter(n, p + [col], found);
        if o1.found < MAX_SOLUTIONS {
          RunFromCounter(n, p, o1.found, col + 1);
        }
      } else {
        RunFromCounter(n, p, found, col + 1);
      }
    }
  }

  // ---------------------------------------------------------------------------
  // The cutoff: the recorded boards are the first ones of the full search.

  lemma {:induction false} RunTakesFirst(n: int, p: seq<int>, found: int)
    requires |p| <= n && found < MAX_SOLUTIONS
    ensures Run(n, p, found).boards == Take(All(n, p), MAX_SOLUTIONS - found)
    ensures Run(n, p, found).found == found + |Run(n, p, found).boards|
    decreases n - |p|, 1, 0
  {
    if |p| < n {
      RunFromTakesFirst(n, p, found, 1);
    }
  }

  /** The first k elements of a1 + rest: a prefix of a1 alone when a1 is long enough,
      otherwise all of a1 followed by the first k - |a1| of rest. */
  lemma TakeConcat<T>(a1: seq<T>, rest: seq<T>, k: nat)
    ensures |a1| >= k ==> Take(a1 + rest, k) == Take(a1, k)
    ensures |a1| < k ==> Take(a1 + rest, k) == a1 + Take(rest, k - |a1|)
  {
    if |a1| >= k {
      assert (a1 + rest)[..k] == a1[..k];
    } else if k - |a1| < |rest| {
      assert (a1 + rest)[..k] == a1 + rest[..k - |a1|];
    }
  }

  lemma {:induction false} RunFromTakesFirst(n: int, p: seq<int>, found: int, col: int)
    requires |p| < n && 1 <= col <= n + 1 && found < MAX_SOLUTIONS
    ensures RunFrom(n, p, found, col).boards == Take(AllFrom(n, p, col), MAX_SOLUTIONS - found)
    ensures RunFrom(n, p, found, col).found == found + |RunFrom(n, p, found, col).boards|
    decreases n - |p|, 0, n + 1 - col
  {
    RunFromCounter(n, p, found, col);
    if col <= n {
      if Legal(p, col) {
        var a1, rest := All(n, p + [col]), AllFrom(n, p, col + 1);
        RunTakesFirst(n, p + [col], found);
        var o1 := Run(n, p + [col], found);
        if o1.found >= MAX_SOLUTIONS {
          TakeConcat(a1, rest, MAX_SOLUTIONS - found);
        } else {
          assert o1.boards == a1;
          RunFromTakesFirst(n, p, o1.found, col + 1);
          TakeConcat(a1, rest, MAX_SOLUTIONS - found);
        }
      } else {
        RunFromTakesFirst(n, p, found, col + 1);
      }
    }
  }

  // ---------------------------------------------------------------------------
  // The full search yields solutions, in increasing order, and all of them.

  /** Adding a legal queen to a non-attacking partial board keeps it non-attacking. */
  lemma LegalExtends(p: seq<int>, col: int)
    requires NonAttacking(p) && Legal(p, col)
    ensures NonAttacking(p + [col])
  {
    var s := p + [col];
    forall a, b | 0 <= a < b < |s|
      ensures s[a] != s[b] && b - a != s[b] - s[a] && b - a != s[a] - s[b]
    {
      if b == |p| {
        assert !Conflict(p, a, col);
      }
    }
  }

  /** The queen of the last row of a non-attacking board was a legal choice. */
  lemma NonAttackingIsLegal(s: seq<int>, k: nat)
    requires NonAttacking(s) && k < |s|
    ensures Legal(s[..k], s[k])
  {
    var p := s[..k];
    forall j | 0 <= j < |p| ensures !Conflict(p, j, s[k]) {
      assert p[j] == s[j];
    }
  }

  lemma {:induction false} AllSound(n: int, p: seq<int>)
    requires |p| <= n && OnBoard(p, n) && NonAttacking(p)
    ensures forall k :: 0 <= k < |All(n, p)| ==>
      IsSolution(All(n, p)[k], n) && All(n, p)[k][..|p|] == p
    decreases n - |p|, 1, 0
  {
    if |p| < n {
      AllFromSound(n, p, 1);
    }
  }

  lemma {:induction false} AllFromSound(n: int, p: seq<int>, col: int)
    requires |p| < n && 1 <= col <= n + 1 && OnBoard(p, n) && NonAttacking(p)
    ensures forall k :: 0 <= k < |AllFrom(n, p, col)| ==>
      var s := AllFrom(n, p, col)[k];
      IsSolution(s, n) && s[..|p|] == p && col <= s[|p|]
    decreases n - |p|, 0, n + 1 - col
  {
    if col <= n {
      var q := p + [col];
      AllFromSound(n, p, col + 1);
      if Legal(p, col) {
        LegalExtends(p, col);
        AllSound(n, q);
        var a1, rest := All(n, q), AllFrom(n, p, col + 1);
        forall k | 0 <= k < |a1| ensures a1[k][..|p|] == p && a1[k][|p|] == col {
          assert a1[k][..|p|] == a1[k][..|q|][..|p|];
          assert a1[k][|p|] == a1[k][..|q|][|p|];
        }
      }
    }
  }

  /** Boards that agree on a prefix are ordered by their first entry after it. */
  lemma {:induction false} LexLessAfterPrefix(p: seq<int>, a: seq<int>, b: seq<int>)
    requires |p| < |a| && |p| < |b| && a[..|p|] == p && b[..|p|] == p && a[|p|] < b[|p|]
    ensures LexLess(a, b)
  {
    if p != [] {
      assert a[1..][..|p| - 1] == p[1..] && b[1..][..|p| - 1] == p[1..];
      LexLessAfterPrefix(p[1..], a[1..], b[1..]);
    }
  }

  lemma {:induction false} AllSorted(n: int, p: seq<int>)
    requires |p| <= n
    ensures Sorted(All(n, p))
    ensures forall k :: 0 <= k < |All(n, p)| ==> |All(n, p)[k]| == n && All(n, p)[k][..|p|] == p
    decreases n - |p|, 1, 0
  {
    if |p| < n {
      AllFromSorted(n, p, 1);
    }
  }

  lemma {:induction false} AllFromSorted(n: int, p: seq<int>, col: int)
    requires |p| < n && 1 <= col <= n + 1
    ensures Sorted(AllFrom(n, p, col))
    ensures forall k :: 0 <= k < |AllFrom(n, p, col)| ==>
      var s := AllFrom(n, p, col)[k];
      |s| == n && s[..|p|] == p && col <= s[|p|]
    decreases n - |p|, 0, n + 1 - col
  {
    if col <= n {
      AllFromSorted(n, p, col + 1);
      if Legal(p, col) {
        var q := p + [col];
        AllSorted(n, q);
        var a1, rest := All(n, q), AllFrom(n, p, col + 1);
        forall k | 0 <= k < |a1| ensures a1[k][..|p|] == p && a1[k][|p|] == col {
          assert a1[k][..|p|] == a1[k][..|q|][..|p|];
          assert a1[k][|p|] == a1[k][..|q|][|p|];
        }
        var all := a1 + rest;
        forall i, j | 0 <= i < j < |all| ensures LexLess(all[i], all[j]) {
          if i < |a1| && |a1| <= j {
            LexLessAfterPrefix(p, all[i], all[j]);
          }
        }
      }
    }
  }

  lemma {:induction false} AllComplete(n: int, p: seq<int>, s: seq<int>)
    requires |p| <= n && IsSolution(s, n) && s[..|p|] == p
    ensures s in All(n, p)
    decreases n - |p|, 1, 0
  {
    if |p| == n {
      assert s == s[..|p|];
    } else {
      AllFromComplete(n, p, 1, s);
    }
  }

  lemma {:induction false} AllFromComplete(n: int, p: seq<int>, col: int, s: seq<int>)
    requires |p| < n && 1 <= col <= n + 1 && IsSolution(s, n) && s[..|p|] == p && col <= s[|p|]
    ensures s in AllFrom(n, p, col)
    decreases n - |p|, 0, n + 1 - col
  {
    if s[|p|] == col {
      NonAttackingIsLegal(s, |p|);
      assert s[..|p| + 1] == p + [col];
      AllComplete(n, p + [col], s);
    } else {
      AllFromComplete(n, p, col + 1, s);
    }
  }

  /** The full search from the empty board lists exactly the solutions, in order. */
  lemma AllSolutions(n: nat)
    ensures Sorted(All(n, []))
    ensures forall s :: s in All(n, []) <==> IsSolution(s, n)
  {
    AllSorted(n, []);
    AllSound(n, []);
    forall s | IsSolution(s, n) ensures s in All(n, []) {
      AllComplete(n, [], s);
    }
  }

  /** The recorded boards, starting from an empty record and a zero counter, are the first
      MAX_SOLUTIONS solutions in lexicographic order (all of them when there are fewer). */
  lemma RunFromEmptyBoard(n: nat)
    ensures Run(n, [], 0).boards == Take(All(n, []), MAX_SOLUTIONS)
    ensures Run(n, [], 0).found == |Run(n, [], 0).boards| <= MAX_SOLUTIONS
    ensures Sorted(Run(n, [], 0).boards)
    ensures forall k :: 0 <= k < |Run(n, [], 0).boards| ==> IsSolution(Run(n, [], 0).boards[k], n)
  {
    RunTakesFirst(n, [], 0);
    AllSolutions(n);
    var all, b := All(n, []), Run(n, [], 0).boards;
    forall k | 0 <= k < |b| ensures IsSolution(b[k], n) {
      assert b[k] == all[k];
    }
    forall i, j | 0 <= i < j < |b| ensures LexLess(b[i], b[j]) {
      assert b[i] == all[i] && b[j] == all[j];
    }
  }

  // ---------------------------------------------------------------------------
  // The imperative search.

  /** The program's global state: the solution counter and what it prints
      (each printed board as the sequence Q[1..n]). */
  class Search {
    var solutionsFound: int
    var solutions: seq<seq<int>>

    constructor ()
      ensures solutionsFound == 0 && solutions == []
    {
      solutionsFound := 0;
      solutions := [];
    }

    /** Places queens in rows r..n of `Q`, whose entries 1..r-1 hold the queens already
        placed; `Q[0]` is not used. */
    method PlaceQueens(Q: array<int>, n: int, r: int)
      requires 1 <= r <= n + 1 <= Q.Length
      modifies this, Q
      ensures Q[..r] == old(Q[..r])
      ensures solutionsFound == Run(n, old(Q[1..r]), old(solutionsFound)).found
      ensures solutions == old(solutions) + Run(n, old(Q[1..r]), old(solutionsFound)).boards
      decreases n + 1 - r, 1
    {
      if r == n + 1 {
        solutionsFound := solutionsFound + 1;
        solutions := solutions + [Q[1..n + 1]];
        return;
      }
      ghost var p := Q[1..r];
      ghost var f0 := solutionsFound;
      ghost var done: seq<seq<int>> := [];
      var col := 1;
      while col <= n
        invariant 1 <= col <= n + 1
        invariant Q[..r] == old(Q[..r]) && Q[1..r] == p
        invariant solutions == old(solutions) + done
        invariant RunFrom(n, p, f0, 1).found == RunFrom(n, p, solutionsFound, col).found
        invariant RunFrom(n, p, f0, 1).boards == done + RunFrom(n, p, solutionsFound, col).boards
      {
        var legal := CheckColumn(Q, r, col);
        if legal {
          ghost var f := solutionsFound;
          ghost var o1 := Run(n, p + [col], f);
          PlaceAndDescend(Q, n, r, col);
          done := done + o1.boards;
          if solutionsFound >= MAX_SOLUTIONS {
            return;
          }
        }
        col := col + 1;
      }
    }

    /** Puts the queen of row `r` in column `col` and searches the rows below. */
    method PlaceAndDescend(Q: array<int>, n: int, r: int, col: int)
      requires 1 <= r <= n < Q.Length
      modifies this, Q
      ensures Q[..r] == old(Q[..r])
      ensures solutionsFound == Run(n, old(Q[1..r]) + [col], old(solutionsFound)).found
      ensures solutions == old(solutions) + Run(n, old(Q[1..r]) + [col], old(solutionsFound)).boards
      decreases n + 1 - r, 0
    {
      Q[r] := col;
      assert Q[1..r + 1] == old(Q[1..r]) + [col];
      PlaceQueens(Q, n, r + 1);
      assert Q[..r] == Q[..r + 1][..r];
    }
  }

  /** The conflict check of the search: whether column `col` of row `r` is attacked by
      none of the queens in rows 1..r-1 of `Q`. */
  method CheckColumn(Q: array<int>, r: int, col: int) returns (legal: bool)
    requires 1 <= r <= Q.Length
    ensures legal == Legal(Q[1..r], col)
  {
    ghost var p := Q[1..r];
    legal := true;
    var i := 1;
    while i < r
      invariant 1 <= i <= r
      invariant legal && forall k :: 0 <= k < i - 1 ==> !Conflict(p, k, col)
    {
      if Q[i] == col || i - r == Q[i] - col || i - r == col - Q[i] {
        assert Conflict(p, i - 1, col);
        legal := false;
        break;
      }
      i := i + 1;
    }
  }

  /** The program's run, without its printing: an empty board of n rows and a zero counter. */
  method FirstSolutions(n: nat) returns (boards: seq<seq<int>>, count: int)
    ensures boards == Take(All(n, []), MAX_SOLUTIONS) && count == |boards| <= MAX_SOLUTIONS
    ensures Sorted(boards)
    ensures forall k :: 0 <= k < |boards| ==> IsSolution(boards[k], n)
  {
    var Q := new int[n + 1](_ => 0);
    var search := new Search();
    search.PlaceQueens(Q, n, 1);
    assert Q[1..1] == [];
    RunFromEmptyBoard(n);
    boards, count := search.solutions, search.solutionsFound;
  }
}
