/** A directed weighted graph stored as a bounded vertex array and a maxVertices-by-
    maxVertices weight matrix, with vertex marks for a breadth-first traversal. */
module Graph {

  /** The weight stored where there is no edge. */
  const NULL_EDGE: int := 0
  /** The capacity used by the default constructor. */
  const MAX_VERTEX: int := 50

  datatype Mark = Default | Queued | Visited

  datatype VertexType<T> = VertexType(item: T, mark: Mark)

  // ---------------------------------------------------------------------------
  // Pure helpers over the vertex list.

  function ItemsOf<T>(vs: seq<VertexType<T>>): (r: seq<T>)
    ensures |r| == |vs| && forall k :: 0 <= k < |vs| ==> r[k] == vs[k].item
  {
    seq(|vs|, k requires 0 <= k < |vs| => vs[k].item)
  }

  function MarksOf<T>(vs: seq<VertexType<T>>): (r: seq<Mark>)
    ensures |r| == |vs| && forall k :: 0 <= k < |vs| ==> r[k] == vs[k].mark
  {
    seq(|vs|, k requires 0 <= k < |vs| => vs[k].mark)
  }

  predicate Distinct<T(==)>(s: seq<T>) {
    forall i, j :: 0 <= i < j < |s| ==> s[i] != s[j]
  }

  /** The first index holding `x`, or -1 when there is none (the search of IndexIs). */
  function Position<T(==)>(s: seq<T>, x: T): (r: int)
    ensures -1 <= r < |s|
    ensures r == -1 <==> x !in s
    ensures 0 <= r ==> s[r] == x
  {
    if s == [] then -1
    else if s[0] == x then 0
    else
      var q := Position(s[1..], x);
      if q == -1 then -1 else q + 1
  }

  /** An index holding `x` with no earlier `x` is the one Position finds. */
  lemma {:induction false} PositionFirst<T>(s: seq<T>, x: T, k: int)
    requires 0 <= k < |s| && s[k] == x && x !in s[..k]
    ensures Position(s, x) == k
  {
    if k > 0 {
      assert s[0] == s[..k][0];
      assert s[1..][..k - 1] == s[..k][1..];
      PositionFirst(s[1..], x, k - 1);
    }
  }

  lemma PositionOfDistinct<T>(s: seq<T>, k: int)
    requires Distinct(s) && 0 <= k < |s|
    ensures Position(s, s[k]) == k
  {
    forall i | 0 <= i < k ensures s[..k][i] != s[k] { assert s[..k][i] == s[i]; }
    PositionFirst(s, s[k], k);
  }

  /** The old index of the entry now at `k`, once the entry at `p` is removed. */
  function Skip(k: int, p: int): int {
    if k < p then k else k + 1
  }

  /** Entry `k` of a list with the entry at `p` removed is the entry at Skip(k, p). */
  lemma RemoveIndexing<T>(s: seq<T>, p: int)
    requires 0 <= p < |s|
    ensures |s[..p] + s[p + 1..]| == |s| - 1
    ensures forall k :: 0 <= k < |s| - 1 ==> (s[..p] + s[p + 1..])[k] == s[Skip(k, p)]
  {
  }

  /** Removing a vertex moves every later vertex one place down. */
  lemma PositionAfterRemove<T>(s: seq<T>, p: int, x: T)
    requires Distinct(s) && 0 <= p < |s| && x != s[p]
    ensures var q := Position(s, x);
      Position(s[..p] + s[p + 1..], x) == if q == -1 then -1 else if q < p then q else q - 1
  {
    var t := s[..p] + s[p + 1..];
    RemoveIndexing(s, p);
    var q := Position(s, x);
    if q == -1 {
      forall k | 0 <= k < |t| ensures t[k] != x { assert s[Skip(k, p)] in s; }
    } else {
      var q' := if q < p then q else q - 1;
      assert t[q'] == x;
      forall k | 0 <= k < q' ensures t[..q'][k] != x {
        assert s[..q][Skip(k, p)] == s[Skip(k, p)];
      }
      PositionFirst(t, x, q');
    }
  }

  /** After removing the entry at `p` from a list without repetitions, every other entry is
      still present, at the index that Skip maps back to its old one. */
  lemma PositionsAfterRemove<T>(s: seq<T>, p: int)
    requires Distinct(s) && 0 <= p < |s|
    ensures forall x :: x != s[p] ==>
      && (x in s[..p] + s[p + 1..] <==> x in s)
      && (x in s ==> Skip(Position(s[..p] + s[p + 1..], x), p) == Position(s, x))
  {
    forall x | x != s[p]
      ensures (x in s[..p] + s[p + 1..] <==> x in s)
      ensures x in s ==> Skip(Position(s[..p] + s[p + 1..], x), p) == Position(s, x)
    {
      PositionAfterRemove(s, p, x);
    }
  }

  /** Removing one entry of a list without repetitions leaves a list without repetitions. */
  lemma DistinctRemove<T>(s: seq<T>, p: int)
    requires Distinct(s) && 0 <= p < |s|
    ensures Distinct(s[..p] + s[p + 1..])
  {
    var t := s[..p] + s[p + 1..];
    forall i, j | 0 <= i < j < |t| ensures t[i] != t[j] {
      assert t[i] == s[Skip(i, p)] && t[j] == s[Skip(j, p)];
    }
  }

  // ---------------------------------------------------------------------------
  // Paths in the live block of the weight matrix.

  predicate IsMatrix(E: seq<seq<int>>, n: int) {
    |E| == n && forall i :: 0 <= i < n ==> |E[i]| == n
  }

  /** A non-empty path of vertex indices along edges of `E`. */
  predicate IsPath(E: seq<seq<int>>, path: seq<int>)
    requires IsMatrix(E, |E|)
  {
    && |path| > 0
    && (forall k :: 0 <= k < |path| ==> 0 <= path[k] < |E|)
    && forall k :: 0 <= k < |path| - 1 ==> E[path[k]][path[k + 1]] != NULL_EDGE
  }

  /** Vertex `to` can be reached from vertex `from` by following edges. */
  ghost predicate Reachable(E: seq<seq<int>>, from: int, to: int)
    requires IsMatrix(E, |E|)
  {
    exists path :: IsPath(E, path) && path[0] == from && path[|path| - 1] == to
  }

  lemma ReachableStep(E: seq<seq<int>>, from: int, k: int, j: int)
    requires IsMatrix(E, |E|) && Reachable(E, from, k) && 0 <= k < |E| && 0 <= j < |E| && E[k][j] != NULL_EDGE
    ensures Reachable(E, from, j)
  {
    var path :| IsPath(E, path) && path[0] == from && path[|path| - 1] == k;
    var path' := path + [j];
    assert IsPath(E, path') && path'[0] == from && path'[|path'| - 1] == j;
  }

  // ---------------------------------------------------------------------------
  // What GetNeighbors does, over values. `items` are the live vertices' items, `ms` their
  // marks and `row` the weights of the edges out of the current vertex.

  /** The mark GetNeighbors leaves on a vertex whose edge weight from the current vertex is `w`. */
  function Enqueued(m: Mark, w: int): Mark {
    if w != NULL_EDGE && m == Default then Queued else m
  }

  /** The marks after GetNeighbors: each successor still DEFAULT becomes QUEUED. */
  function MarkQueued(ms: seq<Mark>, row: seq<int>): (r: seq<Mark>)
    requires |ms| == |row|
    ensures |r| == |ms| && forall k :: 0 <= k < |ms| ==> r[k] == Enqueued(ms[k], row[k])
  {
    seq(|ms|, k requires 0 <= k < |ms| => Enqueued(ms[k], row[k]))
  }

  /** What GetNeighbors pushes while scanning the first `j` entries of the row: the
      successors still DEFAULT, in index order, as QUEUED copies. */
  function Pushed<T>(items: seq<T>, ms: seq<Mark>, row: seq<int>, j: nat): (r: seq<VertexType<T>>)
    requires j <= |items| == |ms| == |row|
    ensures |r| <= j && forall t :: 0 <= t < |r| ==> r[t].mark == Queued
  {
    if j == 0 then []
    else
      Pushed(items, ms, row, j - 1)
        + if row[j - 1] != NULL_EDGE && ms[j - 1] == Default then [VertexType(items[j - 1], Queued)] else []
  }

  /** The number of DEFAULT marks among the first `j`. */
  function CountDefaultTo(ms: seq<Mark>, j: nat): nat
    requires j <= |ms|
  {
    if j == 0 then 0 else CountDefaultTo(ms, j - 1) + if ms[j - 1] == Default then 1 else 0
  }

  function CountDefault(ms: seq<Mark>): nat {
    CountDefaultTo(ms, |ms|)
  }

  /** Vertices that keep their items and take the marks GetNeighbors leaves. */
  lemma VerticesAfterScan<T>(vs: seq<VertexType<T>>, items: seq<T>, ms: seq<Mark>, row: seq<int>)
    requires |vs| == |items| == |ms| == |row|
    requires forall k :: 0 <= k < |vs| ==> vs[k] == VertexType(items[k], Enqueued(ms[k], row[k]))
    ensures ItemsOf(vs) == items && MarksOf(vs) == MarkQueued(ms, row)
  {
  }

  /** What is pushed is what the DEFAULT count loses. */
  lemma {:induction false} PushedCount<T>(items: seq<T>, ms: seq<Mark>, row: seq<int>, j: nat)
    requires j <= |items| == |ms| == |row|
    ensures CountDefaultTo(MarkQueued(ms, row), j) + |Pushed(items, ms, row, j)| == CountDefaultTo(ms, j)
  {
    if j > 0 {
      PushedCount(items, ms, row, j - 1);
    }
  }

  /** Every pushed copy is QUEUED and copies a successor that was DEFAULT. */
  lemma {:induction false} PushedFromDefault<T>(items: seq<T>, ms: seq<Mark>, row: seq<int>, j: nat)
    requires j <= |items| == |ms| == |row| && Distinct(items)
    ensures forall t :: 0 <= t < |Pushed(items, ms, row, j)| ==>
      var x, k := Pushed(items, ms, row, j)[t], Position(items, Pushed(items, ms, row, j)[t].item);
      x.mark == Queued && 0 <= k < j && ms[k] == Default && row[k] != NULL_EDGE
  {
    if j > 0 {
      PushedFromDefault(items, ms, row, j - 1);
      PositionOfDistinct(items, j - 1);
    }
  }

  /** Every successor that was DEFAULT is pushed. */
  lemma {:induction false} PushedCovers<T>(items: seq<T>, ms: seq<Mark>, row: seq<int>, j: nat)
    requires j <= |items| == |ms| == |row|
    ensures forall k :: 0 <= k < j && ms[k] == Default && row[k] != NULL_EDGE ==>
      items[k] in ItemsOf(Pushed(items, ms, row, j))
  {
    if j > 0 {
      PushedCovers(items, ms, row, j - 1);
      var P, Q := Pushed(items, ms, row, j - 1), Pushed(items, ms, row, j);
      assert ItemsOf(Q)[..|P|] == ItemsOf(P);
      if row[j - 1] != NULL_EDGE && ms[j - 1] == Default {
        assert ItemsOf(Q)[|P|] == items[j - 1];
      }
    }
  }

  /** The copies pushed are of distinct vertices. */
  lemma {:induction false} PushedDistinct<T>(items: seq<T>, ms: seq<Mark>, row: seq<int>, j: nat)
    requires j <= |items| == |ms| == |row| && Distinct(items)
    ensures Distinct(ItemsOf(Pushed(items, ms, row, j)))
  {
    if j > 0 {
      PushedDistinct(items, ms, row, j - 1);
      PushedFromDefault(items, ms, row, j - 1);
      PositionOfDistinct(items, j - 1);
      var P, Q := Pushed(items, ms, row, j - 1), Pushed(items, ms, row, j);
      forall a, b | 0 <= a < b < |Q| ensures ItemsOf(Q)[a] != ItemsOf(Q)[b] {
        if b < |P| {
          assert ItemsOf(P)[a] != ItemsOf(P)[b];
        } else {
          assert Q[a] == P[a];
        }
      }
    }
  }

  /** Changing a mark that is not DEFAULT to another that is not leaves the DEFAULT count alone. */
  lemma {:induction false} CountDefaultUpdate(ms: seq<Mark>, p: int, m: Mark, j: nat)
    requires 0 <= p < |ms| && j <= |ms| && ms[p] != Default && m != Default
    ensures CountDefaultTo(ms[p := m], j) == CountDefaultTo(ms, j)
  {
    if j > 0 {
      CountDefaultUpdate(ms, p, m, j - 1);
    }
  }

  // ---------------------------------------------------------------------------
  // The breadth-first traversal over values. The items and `E`, the live block of the
  // weight matrix (E[i][j] is the weight of the edge from vertex i to vertex j), do not
  // change during BFT; a traversal state holds the marks, the queue of vertex copies BFT
  // pushes, and `order`, the items visited so far.

  datatype Traversal<T> = Traversal(marks: seq<Mark>, queue: seq<VertexType<T>>, order: seq<T>)

  predicate Fits<T>(s: Traversal<T>, items: seq<T>, E: seq<seq<int>>) {
    |s.marks| == |items| && IsMatrix(E, |items|)
  }

  /** One pass of BFT's loop: the front copy is popped; unless the copy is marked VISITED,
      its vertex is marked VISITED, its item is visited, and GetNeighbors pushes its
      successors still marked DEFAULT. */
  function Step<T(==)>(s: Traversal<T>, items: seq<T>, E: seq<seq<int>>): (r: Traversal<T>)
    requires s.queue != [] && Fits(s, items, E)
    ensures Fits(r, items, E)
    ensures s.order <= r.order && |r.order| <= |s.order| + 1
  {
    var cur := s.queue[0];
    if cur.mark == Visited then Traversal(s.marks, s.queue[1..], s.order)
    else
      var q := Position(items, cur.item);
      if q == -1 then Traversal(s.marks, s.queue[1..], s.order + [cur.item])
      else VisitAt(s, items, E, q)
  }

  /** The pass that visits the front copy, whose vertex is at index `q`. */
  function VisitAt<T>(s: Traversal<T>, items: seq<T>, E: seq<seq<int>>, q: int): (r: Traversal<T>)
    requires s.queue != [] && Fits(s, items, E) && 0 <= q < |items|
    ensures Fits(r, items, E) && r.marks[q] == Visited
    ensures s.queue[1..] <= r.queue && s.order <= r.order && |r.order| == |s.order| + 1
  {
    var ms := s.marks[q := Visited];
    Traversal(MarkQueued(ms, E[q]), s.queue[1..] + Pushed(items, ms, E[q], |items|), s.order + [s.queue[0].item])
  }

  /** Every item is visited at most once and queued at most once at a time, and nothing
      queued has been visited. */
  ghost predicate Unrepeated<T>(s: Traversal<T>) {
    && Distinct(s.order) && Distinct(ItemsOf(s.queue))
    && forall t :: 0 <= t < |s.queue| ==> s.queue[t].item !in s.order
  }

  /** The start copy `v` is the first thing popped; a copy that is not of a vertex can only
      be the start copy, before anything is visited. */
  ghost predicate StartsWith<T>(s: Traversal<T>, items: seq<T>, v: VertexType<T>) {
    && (s.order == [] ==> s.queue == [v] || (s.queue == [] && v.mark == Visited))
    && (s.order != [] ==> s.order[0] == v.item && v.mark != Visited)
    && (v.item !in items ==> s.order == [] || (s.order == [v.item] && s.queue == []))
    && forall t :: 0 <= t < |s.queue| && s.queue[t].item !in items ==> s.order == []
  }

  /** While the start copy was not VISITED, no queued copy is; the vertex of a queued copy
      is QUEUED. */
  ghost predicate QueueCopies<T>(s: Traversal<T>, items: seq<T>, v: VertexType<T>)
    requires |s.marks| == |items|
  {
    && (v.mark != Visited ==> forall t :: 0 <= t < |s.queue| ==> s.queue[t].mark != Visited)
    && forall t :: 0 <= t < |s.queue| && s.queue[t].item in items ==>
         s.marks[Position(items, s.queue[t].item)] == Queued
  }

  /** A QUEUED vertex has a copy in the queue. */
  ghost predicate QueuedInQueue<T>(s: Traversal<T>, items: seq<T>, v: VertexType<T>)
    requires |s.marks| == |items|
  {
    v.mark != Visited ==> forall k :: 0 <= k < |items| && s.marks[k] == Queued ==> items[k] in ItemsOf(s.queue)
  }

  /** The VISITED marks are the visited items. */
  ghost predicate VisitedOrder<T>(s: Traversal<T>, items: seq<T>)
    requires |s.marks| == |items|
  {
    forall k :: 0 <= k < |items| ==> (s.marks[k] == Visited <==> items[k] in s.order)
  }

  /** A VISITED vertex has no DEFAULT successor. */
  ghost predicate Closed<T>(s: Traversal<T>, E: seq<seq<int>>)
    requires IsMatrix(E, |s.marks|)
  {
    forall k, j :: 0 <= k < |E| && 0 <= j < |E| && s.marks[k] == Visited && E[k][j] != NULL_EDGE ==>
      s.marks[j] != Default
  }

  /** The start vertex has left DEFAULT, and only vertices reachable from it have. */
  ghost predicate StartReached<T>(s: Traversal<T>, items: seq<T>, E: seq<seq<int>>, v: VertexType<T>)
    requires Fits(s, items, E)
  {
    var p := Position(items, v.item);
    && (p != -1 ==> s.marks[p] != Default)
    && (p != -1 && v.mark != Visited ==> forall k :: 0 <= k < |items| && s.marks[k] != Default ==> Reachable(E, p, k))
  }

  /** What holds between the passes of BFT's loop, started from the copy `v`. */
  ghost predicate TraversalInv<T>(s: Traversal<T>, items: seq<T>, E: seq<seq<int>>, v: VertexType<T>) {
    && Distinct(items) && Fits(s, items, E)
    && Unrepeated(s) && StartsWith(s, items, v)
    && QueueCopies(s, items, v) && QueuedInQueue(s, items, v)
    && VisitedOrder(s, items) && Closed(s, E) && StartReached(s, items, E, v)
  }

  /** Before the loop: all marks DEFAULT except the start vertex's, which is QUEUED, and the
      queue holds the start copy alone. */
  lemma TraversalStart<T>(ms: seq<Mark>, items: seq<T>, E: seq<seq<int>>, v: VertexType<T>)
    requires Distinct(items) && IsMatrix(E, |items|) && |ms| == |items|
    requires forall k :: 0 <= k < |ms| ==> ms[k] == if k == Position(items, v.item) then Queued else Default
    ensures TraversalInv(Traversal(ms, [v], []), items, E, v)
  {
    assert ItemsOf([v]) == [v.item];
    StartReachedAtStart(ms, items, E, v);
  }

  lemma StartReachedAtStart<T>(ms: seq<Mark>, items: seq<T>, E: seq<seq<int>>, v: VertexType<T>)
    requires IsMatrix(E, |items|) && |ms| == |items|
    requires forall k :: 0 <= k < |ms| ==> ms[k] == if k == Position(items, v.item) then Queued else Default
    ensures StartReached(Traversal(ms, [v], []), items, E, v)
  {
    var p := Position(items, v.item);
    if p != -1 {
      assert IsPath(E, [p]);
    }
  }

  /** A popped copy marked VISITED: only the start copy can be, and nothing else is queued. */
  lemma StepSkip<T>(s: Traversal<T>, items: seq<T>, E: seq<seq<int>>, v: VertexType<T>)
    requires TraversalInv(s, items, E, v) && s.queue != [] && s.queue[0].mark == Visited
    ensures TraversalInv(Step(s, items, E), items, E, v)
    ensures Step(s, items, E).marks == s.marks && |Step(s, items, E).queue| < |s.queue|
  {
    assert s.order == [] && s.queue == [v];
  }

  /** A popped copy whose item is not a vertex: only the start copy can be. */
  lemma StepAbsent<T>(s: Traversal<T>, items: seq<T>, E: seq<seq<int>>, v: VertexType<T>)
    requires TraversalInv(s, items, E, v) && s.queue != [] && s.queue[0].mark != Visited
    requires s.queue[0].item !in items
    ensures TraversalInv(Step(s, items, E), items, E, v)
    ensures Step(s, items, E).marks == s.marks && |Step(s, items, E).queue| < |s.queue|
  {
    assert s.order == [] && s.queue == [v];
    assert Step(s, items, E) == Traversal(s.marks, [], [v.item]);
  }

  /** Marks after a visit at `q`: only DEFAULT successors of q change, to QUEUED. */
  lemma VisitMarks(ms: seq<Mark>, row: seq<int>, q: int, k: int)
    requires |ms| == |row| && 0 <= q < |ms| && 0 <= k < |ms|
    ensures var m := MarkQueued(ms[q := Visited], row)[k];
      && (m == Visited <==> k == q || ms[k] == Visited)
      && (m == Queued <==> k != q && (ms[k] == Queued || (ms[k] == Default && row[k] != NULL_EDGE)))
      && (m == Default <==> k != q && ms[k] == Default && row[k] == NULL_EDGE)
  {
  }

  lemma ItemsOfConcat<T>(a: seq<VertexType<T>>, b: seq<VertexType<T>>)
    ensures ItemsOf(a + b) == ItemsOf(a) + ItemsOf(b)
  {
  }

  /** Every copy behind the front one is of a vertex other than the front's, is not marked
      VISITED, and its vertex is QUEUED. */
  ghost predicate RestQueued<T>(s: Traversal<T>, items: seq<T>)
    requires s.queue != [] && |s.marks| == |items|
  {
    forall t :: 1 <= t < |s.queue| ==>
      && s.queue[t].item in items && s.queue[t].item != s.queue[0].item
      && s.queue[t].mark != Visited
      && s.marks[Position(items, s.queue[t].item)] == Queued
  }

  /** What the invariant says about the front copy and the rest of the queue when the
      front copy is of the vertex at `q` and is not marked VISITED. */
  lemma FrontFacts<T>(s: Traversal<T>, items: seq<T>, E: seq<seq<int>>, v: VertexType<T>, q: int)
    requires TraversalInv(s, items, E, v) && s.queue != [] && s.queue[0].mark != Visited
    requires q == Position(items, s.queue[0].item) && q != -1
    ensures v.mark != Visited && s.marks[q] == Queued
    ensures s.order == [] ==> s.queue == [v]
    ensures RestQueued(s, items)
  {
    if s.order == [] {
      assert s.queue[0] == v;
    }
    forall t | 1 <= t < |s.queue| ensures s.queue[t].item != s.queue[0].item {
      assert ItemsOf(s.queue)[t] != ItemsOf(s.queue)[0];
    }
  }

  /** After a visit at `q`, the queue and the visited items are still without repetitions. */
  lemma StepUnrepeated<T>(s: Traversal<T>, items: seq<T>, E: seq<seq<int>>, q: int)
    requires Distinct(items) && Fits(s, items, E) && Unrepeated(s) && VisitedOrder(s, items)
    requires s.queue != [] && 0 <= q < |items| && s.queue[0].item == items[q] && RestQueued(s, items)
    ensures Unrepeated(VisitAt(s, items, E, q))
  {
    var cur, rest := s.queue[0], s.queue[1..];
    var ms := s.marks[q := Visited];
    var P := Pushed(items, ms, E[q], |items|);
    PushedDistinct(items, ms, E[q], |items|);
    PushedFromDefault(items, ms, E[q], |items|);
    ItemsOfConcat(rest, P);
    var R := ItemsOf(rest);
    assert R == ItemsOf(s.queue)[1..];
    // a pushed copy is of a vertex that was DEFAULT, hence neither queued nor visited
    forall t | 0 <= t < |P|
      ensures P[t].item !in R && P[t].item !in s.order && P[t].item != cur.item
    {
      var k := Position(items, P[t].item);
      assert k != q && s.marks[k] == Default;
    }
    var Q := R + ItemsOf(P);
    forall a, b | 0 <= a < b < |Q| ensures Q[a] != Q[b] {
      if b < |R| {
        assert ItemsOf(s.queue)[a + 1] != ItemsOf(s.queue)[b + 1];
      } else if a >= |R| {
        assert ItemsOf(P)[a - |R|] != ItemsOf(P)[b - |R|];
      }
    }
    forall t | 0 <= t < |rest| ensures rest[t].item !in s.order + [cur.item] {
      assert rest[t] == s.queue[t + 1];
    }
  }

  /** After a visit at `q`, the queued copies and their vertices' QUEUED marks still agree. */
  lemma StepQueueCopies<T>(s: Traversal<T>, items: seq<T>, E: seq<seq<int>>, v: VertexType<T>, q: int)
    requires Distinct(items) && Fits(s, items, E)
    requires s.queue != [] && 0 <= q < |items| && s.queue[0].item == items[q] && RestQueued(s, items)
    ensures QueueCopies(VisitAt(s, items, E, q), items, v)
  {
    var rest := s.queue[1..];
    var ms := s.marks[q := Visited];
    var P := Pushed(items, ms, E[q], |items|);
    var ms', Q := MarkQueued(ms, E[q]), rest + P;
    assert VisitAt(s, items, E, q).marks == ms' && VisitAt(s, items, E, q).queue == Q;
    PushedFromDefault(items, ms, E[q], |items|);
    forall t | 0 <= t < |Q|
      ensures Q[t].mark != Visited && Q[t].item in items && ms'[Position(items, Q[t].item)] == Queued
    {
      if t < |rest| {
        assert rest[t] == s.queue[t + 1];
        VisitMarks(s.marks, E[q], q, Position(items, rest[t].item));
      } else {
        VisitMarks(s.marks, E[q], q, Position(items, P[t - |rest|].item));
      }
    }
  }

  /** After a visit at `q`, every QUEUED vertex still has a copy in the queue. */
  lemma StepQueuedInQueue<T>(s: Traversal<T>, items: seq<T>, E: seq<seq<int>>, v: VertexType<T>, q: int)
    requires Distinct(items) && Fits(s, items, E) && QueuedInQueue(s, items, v)
    requires s.queue != [] && 0 <= q < |items| && s.queue[0].item == items[q]
    ensures QueuedInQueue(VisitAt(s, items, E, q), items, v)
  {
    var rest := s.queue[1..];
    var ms := s.marks[q := Visited];
    var P := Pushed(items, ms, E[q], |items|);
    var ms', Q := MarkQueued(ms, E[q]), rest + P;
    assert VisitAt(s, items, E, q).marks == ms' && VisitAt(s, items, E, q).queue == Q;
    if v.mark != Visited {
      PushedCovers(items, ms, E[q], |items|);
      ItemsOfConcat(rest, P);
      forall k | 0 <= k < |items| && ms'[k] == Queued ensures items[k] in ItemsOf(Q) {
        VisitMarks(s.marks, E[q], q, k);
        if s.marks[k] == Queued {
          var t :| 0 <= t < |s.queue| && ItemsOf(s.queue)[t] == items[k];
          assert t != 0;
          assert ItemsOf(Q)[t - 1] == items[k];
        }
      }
    }
  }

  /** After a visit at `q`, the VISITED marks are still the visited items. */
  lemma StepVisitedOrder<T>(s: Traversal<T>, items: seq<T>, E: seq<seq<int>>, q: int)
    requires Distinct(items) && Fits(s, items, E) && VisitedOrder(s, items)
    requires s.queue != [] && 0 <= q < |items| && s.queue[0].item == items[q]
    ensures VisitedOrder(VisitAt(s, items, E, q), items)
  {
    var ms' := VisitAt(s, items, E, q).marks;
    forall k | 0 <= k < |items| ensures (ms'[k] == Visited <==> items[k] in s.order + [items[q]]) {
      VisitMarks(s.marks, E[q], q, k);
    }
  }

  /** After a visit at `q`, VISITED vertices still have no DEFAULT successor. */
  lemma StepClosed<T>(s: Traversal<T>, items: seq<T>, E: seq<seq<int>>, q: int)
    requires Fits(s, items, E) && Closed(s, E) && s.queue != [] && 0 <= q < |items|
    ensures Closed(VisitAt(s, items, E, q), E)
  {
    var ms' := VisitAt(s, items, E, q).marks;
    forall k, j | 0 <= k < |E| && 0 <= j < |E| && ms'[k] == Visited && E[k][j] != NULL_EDGE
      ensures ms'[j] != Default
    {
      VisitMarks(s.marks, E[q], q, k);
      VisitMarks(s.marks, E[q], q, j);
    }
  }

  /** After a visit at a reachable QUEUED vertex `q`, only reachable vertices have left DEFAULT. */
  lemma StepStartReached<T>(s: Traversal<T>, items: seq<T>, E: seq<seq<int>>, v: VertexType<T>, q: int)
    requires Fits(s, items, E) && StartReached(s, items, E, v)
    requires s.queue != [] && 0 <= q < |items| && s.marks[q] == Queued
    ensures StartReached(VisitAt(s, items, E, q), items, E, v)
  {
    var p := Position(items, v.item);
    var ms' := VisitAt(s, items, E, q).marks;
    if p != -1 {
      VisitMarks(s.marks, E[q], q, p);
      if v.mark != Visited {
        forall k | 0 <= k < |items| && ms'[k] != Default ensures Reachable(E, p, k) {
          VisitMarks(s.marks, E[q], q, k);
          if s.marks[k] == Default {
            ReachableStep(E, p, q, k);
          }
        }
      }
    }
  }

  /** After a visit at `q`, the start copy is still the first item visited. */
  lemma StepStartsWith<T>(s: Traversal<T>, items: seq<T>, E: seq<seq<int>>, v: VertexType<T>, q: int)
    requires Distinct(items) && Fits(s, items, E) && StartsWith(s, items, v)
    requires s.queue != [] && 0 <= q < |items| && s.queue[0].item == items[q] && v.mark != Visited
    requires s.order == [] ==> s.queue == [v]
    requires RestQueued(s, items)
    ensures StartsWith(VisitAt(s, items, E, q), items, v)
  {
    var Q := VisitAt(s, items, E, q).queue;
    var ms := s.marks[q := Visited];
    var P := Pushed(items, ms, E[q], |items|);
    PushedFromDefault(items, ms, E[q], |items|);
    forall t | 0 <= t < |Q| ensures Q[t].item in items {
      if t < |s.queue| - 1 {
        assert Q[t] == s.queue[t + 1];
      } else {
        assert Q[t] == P[t - (|s.queue| - 1)];
      }
    }
  }

  /** A visit at `q` either turns a DEFAULT mark into another mark or shortens the queue. */
  lemma StepVisitCount<T>(s: Traversal<T>, items: seq<T>, E: seq<seq<int>>, q: int)
    requires s.queue != [] && Fits(s, items, E) && 0 <= q < |items| && s.marks[q] == Queued
    ensures CountDefault(VisitAt(s, items, E, q).marks) < CountDefault(s.marks)
      || (CountDefault(VisitAt(s, items, E, q).marks) == CountDefault(s.marks)
          && |VisitAt(s, items, E, q).queue| < |s.queue|)
  {
    var ms := s.marks[q := Visited];
    CountDefaultUpdate(s.marks, q, Visited, |items|);
    PushedCount(items, ms, E[q], |items|);
  }

  /** A visit at `q` in full: the invariant is kept. */
  lemma StepVisit<T>(s: Traversal<T>, items: seq<T>, E: seq<seq<int>>, v: VertexType<T>, q: int)
    requires TraversalInv(s, items, E, v) && s.queue != [] && s.queue[0].mark != Visited
    requires q == Position(items, s.queue[0].item) && q != -1
    ensures TraversalInv(VisitAt(s, items, E, q), items, E, v)
    ensures CountDefault(VisitAt(s, items, E, q).marks) < CountDefault(s.marks)
      || (CountDefault(VisitAt(s, items, E, q).marks) == CountDefault(s.marks)
          && |VisitAt(s, items, E, q).queue| < |s.queue|)
  {
    FrontFacts(s, items, E, v, q);
    StepUnrepeated(s, items, E, q);
    StepStartsWith(s, items, E, v, q);
    StepQueueCopies(s, items, E, v, q);
    StepQueuedInQueue(s, items, E, v, q);
    StepVisitedOrder(s, items, E, q);
    StepClosed(s, items, E, q);
    StepStartReached(s, items, E, v, q);
    StepVisitCount(s, items, E, q);
  }

  /** One pass of the loop keeps the invariant, and either turns a DEFAULT mark into another
      mark or shortens the queue. */
  lemma StepKeeps<T>(s: Traversal<T>, items: seq<T>, E: seq<seq<int>>, v: VertexType<T>)
    requires TraversalInv(s, items, E, v) && s.queue != []
    ensures TraversalInv(Step(s, items, E), items, E, v)
    ensures CountDefault(Step(s, items, E).marks) < CountDefault(s.marks)
      || (CountDefault(Step(s, items, E).marks) == CountDefault(s.marks) && |Step(s, items, E).queue| < |s.queue|)
  {
    var cur := s.queue[0];
    if cur.mark == Visited {
      StepSkip(s, items, E, v);
    } else if cur.item !in items {
      StepAbsent(s, items, E, v);
    } else {
      StepVisit(s, items, E, v, Position(items, cur.item));
    }
  }

  /** BFT's second loop run to its end: passes are taken until the queue is empty. */
  ghost function Drain<T>(s: Traversal<T>, items: seq<T>, E: seq<seq<int>>, v: VertexType<T>): (r: Traversal<T>)
    requires TraversalInv(s, items, E, v)
    ensures r.queue == [] && TraversalInv(r, items, E, v)
    ensures s.order <= r.order
    decreases CountDefault(s.marks), |s.queue|
  {
    if s.queue == [] then s
    else
      StepKeeps(s, items, E, v);
      Drain(Step(s, items, E), items, E, v)
  }

  /** One pass of the loop keeps the invariant, makes progress and leaves the end state alone. */
  lemma DrainStep<T>(s: Traversal<T>, items: seq<T>, E: seq<seq<int>>, v: VertexType<T>)
    requires TraversalInv(s, items, E, v) && s.queue != []
    ensures TraversalInv(Step(s, items, E), items, E, v)
    ensures CountDefault(Step(s, items, E).marks) < CountDefault(s.marks)
      || (CountDefault(Step(s, items, E).marks) == CountDefault(s.marks) && |Step(s, items, E).queue| < |s.queue|)
    ensures Drain(Step(s, items, E), items, E, v) == Drain(s, items, E, v)
  {
    StepKeeps(s, items, E, v);
  }

  /** The marks when BFT's second loop starts: every mark DEFAULT except the start vertex's,
      which is QUEUED. */
  function StartMarks<T(==)>(items: seq<T>, v: VertexType<T>): (ms: seq<Mark>)
    ensures |ms| == |items|
    ensures forall k :: 0 <= k < |items| ==> ms[k] == if k == Position(items, v.item) then Queued else Default
  {
    seq(|items|, k => if k == Position(items, v.item) then Queued else Default)
  }

  /** The whole traversal from the start copy `v`: the state in which BFT ends, with its
      marks and the items in the order they are visited. */
  ghost function Traverse<T>(items: seq<T>, E: seq<seq<int>>, v: VertexType<T>): (r: Traversal<T>)
    requires Distinct(items) && IsMatrix(E, |items|)
    ensures r.queue == [] && TraversalInv(r, items, E, v)
  {
    TraversalStart(StartMarks(items, v), items, E, v);
    Drain(Traversal(StartMarks(items, v), [v], []), items, E, v)
  }

  /** A start copy already VISITED is popped without a visit and the start vertex stays
      QUEUED; a start copy that is not a vertex is visited alone and every mark stays DEFAULT. */
  lemma TraverseTrivialStarts<T>(items: seq<T>, E: seq<seq<int>>, v: VertexType<T>)
    requires Distinct(items) && IsMatrix(E, |items|)
    ensures v.mark == Visited ==> Traverse(items, E, v) == Traversal(StartMarks(items, v), [], [])
    ensures v.mark != Visited && v.item !in items ==>
      && Traverse(items, E, v).order == [v.item]
      && forall k :: 0 <= k < |items| ==> Traverse(items, E, v).marks[k] == Default
  {
    var s := Traversal(StartMarks(items, v), [v], []);
    TraversalStart(StartMarks(items, v), items, E, v);
    if v.mark == Visited || v.item !in items {
      DrainStep(s, items, E, v);
      assert Step(s, items, E).queue == [];
    }
  }

  /** A graph of three vertices 10, 11 and 12 with the edges 10 -> 11 and 10 -> 12. */
  const ExampleItems: seq<int> := [10, 11, 12]
  const ExampleEdges: seq<seq<int>> := [[0, 5, 7], [0, 0, 0], [0, 0, 0]]

  /** The example's first pass visits 10 and pushes 11 and 12, in index order. */
  lemma ExampleFirstPass()
    ensures Step(Traversal([Queued, Default, Default], [VertexType(10, Default)], []), ExampleItems, ExampleEdges)
         == Traversal([Visited, Queued, Queued], [VertexType(11, Queued), VertexType(12, Queued)], [10])
  {
    var s := Traversal([Queued, Default, Default], [VertexType(10, Default)], []);
    assert Position(ExampleItems, 10) == 0;
    assert s.marks[0 := Visited] == [Visited, Default, Default];
    assert MarkQueued([Visited, Default, Default], ExampleEdges[0]) == [Visited, Queued, Queued];
    assert Pushed(ExampleItems, [Visited, Default, Default], ExampleEdges[0], 3)
        == [VertexType(11, Queued), VertexType(12, Queued)];
    assert s.queue[1..] == [];
    assert Step(s, ExampleItems, ExampleEdges) == VisitAt(s, ExampleItems, ExampleEdges, 0);
  }

  /** The example's second pass visits 11, which has no successor. */
  lemma ExampleSecondPass()
    ensures Step(Traversal([Visited, Queued, Queued], [VertexType(11, Queued), VertexType(12, Queued)], [10]),
                 ExampleItems, ExampleEdges)
         == Traversal([Visited, Visited, Queued], [VertexType(12, Queued)], [10, 11])
  {
    var s := Traversal([Visited, Queued, Queued], [VertexType(11, Queued), VertexType(12, Queued)], [10]);
    assert Position(ExampleItems, 11) == 1;
    assert s.marks[1 := Visited] == [Visited, Visited, Queued];
    assert MarkQueued([Visited, Visited, Queued], ExampleEdges[1]) == [Visited, Visited, Queued];
    assert Pushed(ExampleItems, [Visited, Visited, Queued], ExampleEdges[1], 3) == [];
    assert s.queue[1..] == [VertexType(12, Queued)];
    assert Step(s, ExampleItems, ExampleEdges) == VisitAt(s, ExampleItems, ExampleEdges, 1);
  }

  /** The example's third pass visits 12, which has no successor, and empties the queue. */
  lemma ExampleThirdPass()
    ensures Step(Traversal([Visited, Visited, Queued], [VertexType(12, Queued)], [10, 11]), ExampleItems, ExampleEdges)
         == Traversal([Visited, Visited, Visited], [], [10, 11, 12])
  {
    var s := Traversal([Visited, Visited, Queued], [VertexType(12, Queued)], [10, 11]);
    assert Position(ExampleItems, 12) == 2;
    assert s.marks[2 := Visited] == [Visited, Visited, Visited];
    assert MarkQueued([Visited, Visited, Visited], ExampleEdges[2]) == [Visited, Visited, Visited];
    assert Pushed(ExampleItems, [Visited, Visited, Visited], ExampleEdges[2], 3) == [];
    assert s.queue[1..] == [];
    assert Step(s, ExampleItems, ExampleEdges) == VisitAt(s, ExampleItems, ExampleEdges, 2);
  }

  /** The traversal of the example from 10 visits 10, then its successors in index order. */
  lemma TraverseExample()
    ensures var r := Traverse(ExampleItems, ExampleEdges, VertexType(10, Default));
      r.order == [10, 11, 12] && r.marks == [Visited, Visited, Visited]
  {
    var items, E, v := ExampleItems, ExampleEdges, VertexType(10, Default);
    assert Position(items, 10) == 0;
    var s0 := Traversal(StartMarks(items, v), [v], []);
    assert s0.marks == [Queued, Default, Default];
    TraversalStart(s0.marks, items, E, v);
    DrainStep(s0, items, E, v);
    ExampleFirstPass();
    var s1 := Step(s0, items, E);
    DrainStep(s1, items, E, v);
    ExampleSecondPass();
    var s2 := Step(s1, items, E);
    DrainStep(s2, items, E, v);
    ExampleThirdPass();
    assert Step(s2, items, E).queue == [];
  }

  /** When the queue is empty, the traversal has visited each item at most once; from a
      start copy marked VISITED it visits nothing, from one that is not a vertex only that
      item, and from a present vertex it has VISITED exactly the vertices reachable from it,
      in an order starting with it, and left none QUEUED. */
  lemma TraversalDone<T>(s: Traversal<T>, items: seq<T>, E: seq<seq<int>>, v: VertexType<T>)
    requires TraversalInv(s, items, E, v) && s.queue == []
    ensures Distinct(s.order)
    ensures v.mark == Visited ==> s.order == []
    ensures v.mark != Visited && v.item !in items ==> s.order == [v.item]
    ensures v.mark != Visited && v.item in items ==>
      var p := Position(items, v.item);
      && s.order != [] && s.order[0] == v.item
      && (forall k :: 0 <= k < |items| ==> s.marks[k] != Queued)
      && (forall k :: 0 <= k < |items| ==> (s.marks[k] == Visited <==> items[k] in s.order))
      && forall k :: 0 <= k < |items| ==> (s.marks[k] == Visited <==> Reachable(E, p, k))
  {
    if v.mark != Visited && v.item in items {
      var p := Position(items, v.item);
      assert s.marks[p] == Visited;
      forall k | 0 <= k < |items| ensures (s.marks[k] == Visited <==> Reachable(E, p, k)) {
        if Reachable(E, p, k) {
          var path :| IsPath(E, path) && path[0] == p && path[|path| - 1] == k;
          PathStaysVisited(s, items, E, v, path);
        }
      }
    }
  }

  /** Along a path out of a VISITED vertex every vertex is VISITED, once nothing is QUEUED. */
  lemma {:induction false} PathStaysVisited<T>(s: Traversal<T>, items: seq<T>, E: seq<seq<int>>, v: VertexType<T>, path: seq<int>)
    requires TraversalInv(s, items, E, v) && s.queue == [] && v.mark != Visited
    requires IsPath(E, path) && s.marks[path[0]] == Visited
    ensures s.marks[path[|path| - 1]] == Visited
  {
    if |path| > 1 {
      var init := path[..|path| - 1];
      assert IsPath(E, init);
      PathStaysVisited(s, items, E, v, init);
      var k, j := path[|path| - 2], path[|path| - 1];
      assert E[k][j] != NULL_EDGE;
      assert s.marks[j] != Default;
    }
  }

  /** The matrix both constructors allocate: every entry NULL_EDGE. */
  method NullMatrix(max: int) returns (e: array2<int>)
    requires max >= 0
    ensures fresh(e) && e.Length0 == max && e.Length1 == max
    ensures forall i, j :: 0 <= i < max && 0 <= j < max ==> e[i, j] == NULL_EDGE
  {
    e := new int[max, max];
    for i := 0 to max
      invariant forall i', j :: 0 <= i' < i && 0 <= j < max ==> e[i', j] == NULL_EDGE
    {
      for j := 0 to max
        invariant forall i', j' :: 0 <= i' < i && 0 <= j' < max ==> e[i', j'] == NULL_EDGE
        invariant forall j' :: 0 <= j' < j ==> e[i, j'] == NULL_EDGE
      {
        e[i, j] := NULL_EDGE;
      }
    }
  }

  class DirectedWeightedGraph<T(==, 0, !new)> {
    const maxVertices: int
    var numberOfVertices: int
    const vertices: array<VertexType<T>>
    const edges: array2<int>

    /** The arrays have the capacity's size and the vertex count is within it. */
    ghost predicate Shaped()
      reads this
    {
      && vertices.Length == maxVertices
      && edges.Length0 == maxVertices && edges.Length1 == maxVertices
      && 0 <= numberOfVertices <= maxVertices
    }

    /** The class invariant: the live vertices are pairwise distinct, and every matrix entry
        outside the live block is NULL_EDGE. */
    ghost predicate Valid()
      reads this, vertices, edges
    {
      && Shaped()
      && Distinct(Items())
      && forall i, j ::
           0 <= i < maxVertices && 0 <= j < maxVertices && (i >= numberOfVertices || j >= numberOfVertices) ==>
             edges[i, j] == NULL_EDGE
    }

    /** The items of the live vertices, in array order. */
    ghost function Items(): seq<T>
      reads this, vertices
      requires Shaped()
    {
      ItemsOf(vertices[..numberOfVertices])
    }

    /** The weights of the live row `p`. */
    ghost function Row(p: int): (r: seq<int>)
      reads this, edges
      requires Shaped() && 0 <= p < numberOfVertices
      ensures |r| == numberOfVertices && forall j :: 0 <= j < numberOfVertices ==> r[j] == edges[p, j]
    {
      var n := numberOfVertices;
      seq(n, j requires 0 <= j < n reads edges => edges[p, j])
    }

    /** The live block of the matrix, row by row. */
    ghost function Block(): (E: seq<seq<int>>)
      reads this, edges
      requires Shaped()
      ensures IsMatrix(E, numberOfVertices)
      ensures forall i, j :: 0 <= i < numberOfVertices && 0 <= j < numberOfVertices ==> E[i][j] == edges[i, j]
    {
      var n := numberOfVertices;
      seq(n, i requires 0 <= i < n reads edges => seq(n, j requires 0 <= j < n reads edges => edges[i, j]))
    }

    /** The weight GetWeight reports: the matrix entry when both endpoints are present. */
    ghost function Weight(a: T, b: T): int
      reads this, vertices, edges
      requires Shaped()
    {
      if a in Items() && b in Items() then edges[Position(Items(), a), Position(Items(), b)] else NULL_EDGE
    }

    /** Entry (i, j) of the matrix holds the edge from `a` to `b`. */
    ghost predicate IsEntryOf(a: T, b: T, i: int, j: int)
      reads this, vertices
      requires Shaped()
    {
      a in Items() && b in Items() && i == Position(Items(), a) && j == Position(Items(), b)
    }

    /** The default constructor: capacity MAX_VERTEX. */
    constructor ()
      ensures Valid() && fresh(vertices) && fresh(edges)
      ensures maxVertices == MAX_VERTEX && Items() == []
      ensures forall i, j :: 0 <= i < maxVertices && 0 <= j < maxVertices ==> edges[i, j] == NULL_EDGE
    {
      maxVertices := MAX_VERTEX;
      numberOfVertices := 0;
      vertices := new VertexType<T>[MAX_VERTEX];
      var e := NullMatrix(MAX_VERTEX);
      edges := e;
    }

    /** The constructor with a given capacity. */
    constructor WithCapacity(max: int)
      requires max >= 0
      ensures Valid() && fresh(vertices) && fresh(edges)
      ensures maxVertices == max && Items() == []
      ensures forall i, j :: 0 <= i < maxVertices && 0 <= j < maxVertices ==> edges[i, j] == NULL_EDGE
    {
      maxVertices := max;
      numberOfVertices := 0;
      vertices := new VertexType<T>[max];
      var e := NullMatrix(max);
      edges := e;
    }

    function IsEmpty(): (r: bool)
      reads this, vertices, edges
      requires Valid()
      ensures r <==> Items() == []
    {
      numberOfVertices == 0
    }

    function IsFull(): (r: bool)
      reads this, vertices, edges
      requires Valid()
      ensures r <==> |Items()| == maxVertices
    {
      numberOfVertices == maxVertices
    }

    function GetNumberOfVertices(): (r: int)
      reads this, vertices, edges
      requires Valid()
      ensures r == |Items()|
    {
      numberOfVertices
    }

    /** The index of the first live vertex whose item equals v's, or -1. */
    method IndexIs(v: VertexType<T>) returns (index: int)
      requires Valid()
      ensures index == Position(Items(), v.item)
      ensures -1 <= index < numberOfVertices
      ensures index == -1 <==> v.item !in Items()
      ensures index != -1 ==> vertices[index].item == v.item
    {
      var i := 0;
      while i < numberOfVertices
        invariant 0 <= i <= numberOfVertices
        invariant v.item !in Items()[..i]
      {
        if vertices[i].item == v.item {
          PositionFirst(Items(), v.item, i);
          return i;
        }
        assert Items()[..i + 1] == Items()[..i] + [vertices[i].item];
        i := i + 1;
      }
      assert Items()[..i] == Items();
      return -1;
    }

    method VertexExists(v: VertexType<T>) returns (r: bool)
      requires Valid()
      ensures r <==> v.item in Items()
    {
      var index := IndexIs(v);
      r := index != -1;
    }

    /** Appends v, marked DEFAULT, unless the graph is full or already has v's item. */
    method AddVertex(v: VertexType<T>)
      requires Valid()
      modifies this, vertices
      ensures Valid()
      ensures var added := !old(IsFull()) && v.item !in old(Items());
        && numberOfVertices == old(numberOfVertices) + (if added then 1 else 0)
        && vertices[..] == (if added then old(vertices[..])[old(numberOfVertices) := v.(mark := Default)]
                            else old(vertices[..]))
      ensures Items() == if !old(IsFull()) && v.item !in old(Items()) then old(Items()) + [v.item] else old(Items())
    {
      var present := VertexExists(v);
      if !IsFull() && !present {
        vertices[numberOfVertices] := v;
        vertices[numberOfVertices] := vertices[numberOfVertices].(mark := Default);
        numberOfVertices := numberOfVertices + 1;
        assert Items() == old(Items()) + [v.item];
      }
    }

    /** Sets the weight of the edge v1 -> v2 when both endpoints are present. */
    method AddEdge(v1: VertexType<T>, v2: VertexType<T>, w: int)
      requires Valid()
      modifies edges
      ensures Valid()
      ensures forall i, j :: 0 <= i < maxVertices && 0 <= j < maxVertices && !IsEntryOf(v1.item, v2.item, i, j) ==>
        edges[i, j] == old(edges[i, j])
      ensures v1.item in Items() && v2.item in Items() ==> Weight(v1.item, v2.item) == w
      ensures forall a, b :: (a != v1.item || b != v2.item) ==> Weight(a, b) == old(Weight(a, b))
    {
      var index1 := IndexIs(v1);
      var index2 := IndexIs(v2);
      if index1 != -1 && index2 != -1 {
        edges[index1, index2] := w;
      }
    }

    /** Resets the edge v1 -> v2 to NULL_EDGE when both endpoints are present. */
    method DeleteEdge(v1: VertexType<T>, v2: VertexType<T>)
      requires Valid()
      modifies edges
      ensures Valid()
      ensures forall i, j :: 0 <= i < maxVertices && 0 <= j < maxVertices && !IsEntryOf(v1.item, v2.item, i, j) ==>
        edges[i, j] == old(edges[i, j])
      ensures Weight(v1.item, v2.item) == NULL_EDGE
      ensures forall a, b :: (a != v1.item || b != v2.item) ==> Weight(a, b) == old(Weight(a, b))
    {
      var index1 := IndexIs(v1);
      var index2 := IndexIs(v2);
      if index1 != -1 && index2 != -1 {
        edges[index1, index2] := NULL_EDGE;
      }
    }

    method GetWeight(v1: VertexType<T>, v2: VertexType<T>) returns (r: int)
      requires Valid()
      ensures r == Weight(v1.item, v2.item)
      ensures v1.item !in Items() || v2.item !in Items() ==> r == NULL_EDGE
    {
      var index1 := IndexIs(v1);
      var index2 := IndexIs(v2);
      if index1 != -1 && index2 != -1 {
        return edges[index1, index2];
      }
      return NULL_EDGE;
    }

    method EdgeExists(v1: VertexType<T>, v2: VertexType<T>) returns (r: bool)
      requires Valid()
      ensures r <==> Weight(v1.item, v2.item) != NULL_EDGE
      ensures r ==> v1.item in Items() && v2.item in Items()
    {
      var index1 := IndexIs(v1);
      var index2 := IndexIs(v2);
      if index1 != -1 && index2 != -1 {
        return edges[index1, index2] != NULL_EDGE;
      }
      return false;
    }

    // -------------------------------------------------------------------------
    // DeleteVertex and its four passes.

    /** Removes v's vertex, its row and its column, moving later vertices, rows and
        columns down by one; nothing happens when v's item is absent. */
    method DeleteVertex(v: VertexType<T>)
      requires Valid()
      modifies this, vertices, edges
      ensures Valid()
      ensures var p, n := Position(old(Items()), v.item), old(numberOfVertices);
        if p == -1 then
          && numberOfVertices == n && vertices[..] == old(vertices[..])
          && forall i, j :: 0 <= i < maxVertices && 0 <= j < maxVertices ==> edges[i, j] == old(edges[i, j])
        else
          && numberOfVertices == n - 1
          && (forall k :: 0 <= k < n - 1 ==> vertices[k] == old(vertices[Skip(k, p)]))
          && (forall k :: n - 1 <= k < maxVertices ==> vertices[k] == old(vertices[k]))
          && forall i, j :: 0 <= i < n - 1 && 0 <= j < n - 1 ==> edges[i, j] == old(edges[Skip(i, p), Skip(j, p)])
      ensures Items() == if v.item in old(Items()) then
          old(Items())[..Position(old(Items()), v.item)] + old(Items())[Position(old(Items()), v.item) + 1..]
        else old(Items())
      ensures forall a, b :: a != v.item && b != v.item ==> Weight(a, b) == old(Weight(a, b))
    {
      var index := IndexIs(v);
      if index != -1 {
        ghost var items := Items();
        RemoveAt(index);
        PositionsAfterRemove(items, index);
      }
    }

    /** The body of DeleteVertex once v's vertex is found at `index`: the four passes and the
        decrement of the vertex count. */
    method RemoveAt(index: int)
      requires Valid() && 0 <= index < numberOfVertices
      modifies this, vertices, edges
      ensures Valid() && numberOfVertices == old(numberOfVertices) - 1
      ensures Items() == old(Items())[..index] + old(Items())[index + 1..]
      ensures forall k :: 0 <= k < numberOfVertices ==> vertices[k] == old(vertices[Skip(k, index)])
      ensures forall k :: numberOfVertices <= k < maxVertices ==> vertices[k] == old(vertices[k])
      ensures forall i, j :: 0 <= i < numberOfVertices && 0 <= j < numberOfVertices ==>
        edges[i, j] == old(edges[Skip(i, index), Skip(j, index)])
      ensures forall i, j :: 0 <= i < maxVertices && 0 <= j < maxVertices && (i >= numberOfVertices || j >= numberOfVertices) ==>
        edges[i, j] == NULL_EDGE
    {
      ghost var n, items := numberOfVertices, Items();
      ShiftVerticesDown(index);
      RemoveIndexing(items, index);
      assert ItemsOf(vertices[..n - 1]) == items[..index] + items[index + 1..];
      DistinctRemove(items, index);
      RemoveRowAndColumn(index);
      numberOfVertices := numberOfVertices - 1;
    }

    /** The three passes over the matrix: the row and the column at `index` disappear, later
        live rows and columns move up and left by one, and the freed last row and column of
        the live block become NULL_EDGE. */
    method RemoveRowAndColumn(index: int)
      requires Shaped() && 0 <= index < numberOfVertices
      requires forall i, j :: 0 <= i < maxVertices && 0 <= j < maxVertices && (i >= numberOfVertices || j >= numberOfVertices) ==>
        edges[i, j] == NULL_EDGE
      modifies edges
      ensures forall i, j :: 0 <= i < numberOfVertices - 1 && 0 <= j < numberOfVertices - 1 ==>
        edges[i, j] == old(edges[Skip(i, index), Skip(j, index)])
      ensures forall i, j :: 0 <= i < maxVertices && 0 <= j < maxVertices && (i >= numberOfVertices - 1 || j >= numberOfVertices - 1) ==>
        edges[i, j] == NULL_EDGE
    {
      ShiftRowsUp(index);
      ShiftColumnsLeft(index);
      ClearLastRowAndColumn();
    }

    /** The first pass: vertices after `index` move one place down. */
    method ShiftVerticesDown(index: int)
      requires Shaped() && 0 <= index < numberOfVertices
      modifies vertices
      ensures forall k :: 0 <= k < vertices.Length ==>
        vertices[k] == old(vertices[if index <= k < numberOfVertices - 1 then k + 1 else k])
    {
      for i := index to numberOfVertices - 1
        invariant forall k :: 0 <= k < vertices.Length ==>
          vertices[k] == old(vertices[if index <= k < i then k + 1 else k])
      {
        vertices[i] := vertices[i + 1];
      }
    }

    /** The second pass: live rows after `index` move one row up. */
    method ShiftRowsUp(index: int)
      requires Shaped() && 0 <= index < numberOfVertices
      modifies edges
      ensures forall i, j :: 0 <= i < maxVertices && 0 <= j < maxVertices ==>
        edges[i, j] == old(edges[if index <= i < numberOfVertices - 1 && j < numberOfVertices then i + 1 else i, j])
    {
      var n := numberOfVertices;
      for i := index to n - 1
        invariant forall i', j :: 0 <= i' < maxVertices && 0 <= j < maxVertices ==>
          edges[i', j] == old(edges[if index <= i' < i && j < n then i' + 1 else i', j])
      {
        for j := 0 to n
          invariant forall i', j' :: 0 <= i' < maxVertices && 0 <= j' < maxVertices ==>
            edges[i', j'] == old(edges[if (index <= i' < i && j' < n) || (i' == i && j' < j) then i' + 1 else i', j'])
        {
          edges[i, j] := edges[i + 1, j];
        }
      }
    }

    /** The third pass: live columns after `index` move one column left. */
    method ShiftColumnsLeft(index: int)
      requires Shaped() && 0 <= index < numberOfVertices
      modifies edges
      ensures forall i, j :: 0 <= i < maxVertices && 0 <= j < maxVertices ==>
        edges[i, j] == old(edges[i, if i < numberOfVertices - 1 && index <= j < numberOfVertices - 1 then j + 1 else j])
    {
      var n := numberOfVertices;
      for i := 0 to n - 1
        invariant forall i', j :: 0 <= i' < maxVertices && 0 <= j < maxVertices ==>
          edges[i', j] == old(edges[i', if i' < i && index <= j < n - 1 then j + 1 else j])
      {
        for j := index to n - 1
          invariant forall i', j' :: 0 <= i' < maxVertices && 0 <= j' < maxVertices ==>
            edges[i', j'] == old(edges[i', if (i' < i && index <= j' < n - 1) || (i' == i && index <= j' < j) then j' + 1 else j'])
        {
          edges[i, j] := edges[i, j + 1];
        }
      }
    }

    /** The last pass: the last live row and column become NULL_EDGE. */
    method ClearLastRowAndColumn()
      requires Shaped() && 0 < numberOfVertices
      modifies edges
      ensures forall i, j :: 0 <= i < maxVertices && 0 <= j < maxVertices ==>
        edges[i, j] == if (j == numberOfVertices - 1 && i < numberOfVertices) || (i == numberOfVertices - 1 && j < numberOfVertices)
                       then NULL_EDGE else old(edges[i, j])
    {
      var n := numberOfVertices;
      for i := 0 to n
        invariant forall i', j :: 0 <= i' < maxVertices && 0 <= j < maxVertices ==>
          edges[i', j] == if (j == n - 1 && i' < i) || (i' == n - 1 && j < i) then NULL_EDGE else old(edges[i', j])
      {
        edges[i, n - 1] := NULL_EDGE;
        edges[n - 1, i] := NULL_EDGE;
      }
    }

    // -------------------------------------------------------------------------
    // Counting edges.

    /** The live entries before position (i, j) in row-major order that hold an edge. */
    ghost function EdgesBefore(i: int, j: int): set<(int, int)>
      reads this, edges
      requires Shaped()
    {
      set a, b | 0 <= a < numberOfVertices && 0 <= b < numberOfVertices
                 && (a < i || (a == i && b < j)) && edges[a, b] != NULL_EDGE :: (a, b)
    }

    /** The pairs of live vertex indices joined by an edge. */
    ghost function EdgeSet(): set<(int, int)>
      reads this, edges
      requires Shaped()
    {
      set a, b | 0 <= a < numberOfVertices && 0 <= b < numberOfVertices && edges[a, b] != NULL_EDGE :: (a, b)
    }

    /** Scanning entry (i, j) adds one to the count exactly when it holds an edge. */
    lemma EdgesBeforeNext(i: int, j: int)
      requires Shaped() && 0 <= i < numberOfVertices && 0 <= j < numberOfVertices
      ensures |EdgesBefore(i, j + 1)| == |EdgesBefore(i, j)| + if edges[i, j] != NULL_EDGE then 1 else 0
    {
      var before, after := EdgesBefore(i, j), EdgesBefore(i, j + 1);
      forall a, b | 0 <= a < numberOfVertices && 0 <= b < numberOfVertices
        ensures (a, b) in after <==> (a, b) in before || ((a, b) == (i, j) && edges[i, j] != NULL_EDGE)
      {
      }
      if edges[i, j] != NULL_EDGE {
        assert (i, j) !in before && (i, j) in after;
        assert after == before + {(i, j)};
      } else {
        assert after == before;
      }
    }

    lemma EdgesBeforeNextRow(i: int)
      requires Shaped() && 0 <= i < numberOfVertices
      ensures |EdgesBefore(i + 1, 0)| == |EdgesBefore(i, numberOfVertices)|
    {
      assert EdgesBefore(i + 1, 0) == EdgesBefore(i, numberOfVertices);
    }

    lemma EdgesBeforeAll()
      requires Shaped()
      ensures |EdgeSet()| == |EdgesBefore(numberOfVertices, 0)|
    {
      assert EdgeSet() == EdgesBefore(numberOfVertices, 0);
    }

    /** The number of live matrix entries that hold an edge. */
    method GetNumberOfEdges() returns (edgeCount: int)
      requires Valid()
      ensures edgeCount == |EdgeSet()|
    {
      edgeCount := 0;
      var n := numberOfVertices;
      for i := 0 to n
        invariant edgeCount == |EdgesBefore(i, 0)|
      {
        for j := 0 to n
          invariant edgeCount == |EdgesBefore(i, j)|
        {
          EdgesBeforeNext(i, j);
          if edges[i, j] != NULL_EDGE {
            edgeCount := edgeCount + 1;
          }
        }
        EdgesBeforeNextRow(i);
      }
      EdgesBeforeAll();
    }

    // -------------------------------------------------------------------------
    // Marks and the breadth-first traversal.

    /** The marks of the live vertices, in array order. */
    ghost function Marks(): seq<Mark>
      reads this, vertices
      requires Shaped()
    {
      MarksOf(vertices[..numberOfVertices])
    }

    /** Sets the mark of the first vertex whose item equals v's. */
    method MarkVertex(v: VertexType<T>, m: Mark)
      requires Valid()
      modifies vertices
      ensures Valid() && Items() == old(Items())
      ensures var p := Position(Items(), v.item);
        Marks() == if p == -1 then old(Marks()) else old(Marks())[p := m]
      ensures forall k :: numberOfVertices <= k < vertices.Length ==> vertices[k] == old(vertices[k])
    {
      var i := 0;
      while i < numberOfVertices
        invariant 0 <= i <= numberOfVertices
        invariant v.item !in Items()[..i]
        invariant vertices[..] == old(vertices[..])
      {
        if vertices[i].item == v.item {
          PositionFirst(Items(), v.item, i);
          vertices[i] := vertices[i].(mark := m);
          assert Items() == old(Items());
          assert Marks() == old(Marks())[i := m];
          return;
        }
        assert Items()[..i + 1] == Items()[..i] + [vertices[i].item];
        i := i + 1;
      }
      assert Items()[..i] == Items();
    }

    /** Pushes onto `nq` every successor of v still marked DEFAULT, in index order, and marks
        each QUEUED. The queue is the caller's queue, returned with its new contents. */
    method GetNeighbors(v: VertexType<T>, nq: seq<VertexType<T>>) returns (queue: seq<VertexType<T>>)
      requires Valid()
      modifies vertices
      ensures Valid() && Items() == old(Items())
      ensures forall k :: numberOfVertices <= k < vertices.Length ==> vertices[k] == old(vertices[k])
      ensures var p, n := Position(Items(), v.item), numberOfVertices;
        if p == -1 then Marks() == old(Marks()) && queue == nq
        else Marks() == MarkQueued(old(Marks()), Row(p)) && queue == nq + Pushed(Items(), old(Marks()), Row(p), n)
    {
      // the same search as IndexIs
      var vIndex := IndexIs(v);
      queue := nq;
      if vIndex != -1 {
        ghost var n, items, ms := numberOfVertices, Items(), Marks();
        queue := EnqueueSuccessors(vIndex, nq);
        VerticesAfterScan(vertices[..n], items, ms, Row(vIndex));
      }
    }

    /** The second half of GetNeighbors, for the vertex at index `p`. */
    method EnqueueSuccessors(p: int, nq: seq<VertexType<T>>) returns (queue: seq<VertexType<T>>)
      requires Valid() && 0 <= p < numberOfVertices
      modifies vertices
      ensures forall k :: 0 <= k < numberOfVertices ==>
        vertices[k] == VertexType(old(Items())[k], Enqueued(old(Marks())[k], Row(p)[k]))
      ensures forall k :: numberOfVertices <= k < vertices.Length ==> vertices[k] == old(vertices[k])
      ensures queue == nq + Pushed(old(Items()), old(Marks()), Row(p), numberOfVertices)
    {
      var n := numberOfVertices;
      ghost var items, ms, row := Items(), Marks(), Row(p);
      queue := nq;
      for j := 0 to n
        invariant forall k :: 0 <= k < j ==> vertices[k] == VertexType(items[k], Enqueued(ms[k], row[k]))
        invariant forall k :: j <= k < vertices.Length ==> vertices[k] == old(vertices[k])
        invariant queue == nq + Pushed(items, ms, row, j)
      {
        if edges[p, j] != NULL_EDGE && vertices[j].mark == Default {
          vertices[j] := vertices[j].(mark := Queued);
          queue := queue + [vertices[j]];
        }
      }
    }

    /** BFT's first loop: every live mark becomes DEFAULT. */
    method ResetMarks()
      requires Valid()
      modifies vertices
      ensures Valid() && Items() == old(Items())
      ensures forall k :: 0 <= k < numberOfVertices ==> vertices[k].mark == Default
      ensures forall k :: numberOfVertices <= k < vertices.Length ==> vertices[k] == old(vertices[k])
    {
      var n := numberOfVertices;
      ghost var items := Items();
      for i := 0 to n
        invariant Valid() && Items() == items
        invariant forall k :: 0 <= k < i ==> vertices[k].mark == Default
        invariant forall k :: n <= k < vertices.Length ==> vertices[k] == old(vertices[k])
      {
        vertices[i] := vertices[i].(mark := Default);
        assert Items() == items;
      }
    }

    /** The body of BFT's second loop: pops the front copy and, unless the copy is marked
        VISITED, marks its vertex VISITED, visits its item and queues its successors. */
    method VisitFront(queue: seq<VertexType<T>>, order: seq<T>, ghost E: seq<seq<int>>) returns (queue': seq<VertexType<T>>, order': seq<T>)
      requires Valid() && queue != [] && IsMatrix(E, numberOfVertices)
      requires forall i, j :: 0 <= i < numberOfVertices && 0 <= j < numberOfVertices ==> edges[i, j] == E[i][j]
      modifies vertices
      ensures Valid() && Items() == old(Items())
      ensures forall k :: numberOfVertices <= k < vertices.Length ==> vertices[k] == old(vertices[k])
      ensures Traversal(Marks(), queue', order') == Step(Traversal(old(Marks()), queue, order), Items(), E)
    {
      var currentVertex := queue[0];
      queue' := queue[1..];
      order' := order;
      if currentVertex.mark != Visited {
        MarkVertex(currentVertex, Visited);
        order' := order + [currentVertex.item];
        ghost var q := Position(Items(), currentVertex.item);
        assert q != -1 ==> Row(q) == E[q];
        queue' := GetNeighbors(currentVertex, queue');
      }
    }

    /** BFT's second loop: pops and visits copies until the queue is empty. The traversal
        starts from the copy `v` over the fixed `items` and matrix `E`. */
    method RunQueue(queue: seq<VertexType<T>>, order: seq<T>, ghost items: seq<T>, ghost E: seq<seq<int>>,
                    ghost v: VertexType<T>) returns (order': seq<T>)
      requires Valid() && Items() == items && IsMatrix(E, numberOfVertices)
      requires forall i, j :: 0 <= i < numberOfVertices && 0 <= j < numberOfVertices ==> edges[i, j] == E[i][j]
      requires TraversalInv(Traversal(Marks(), queue, order), items, E, v)
      modifies vertices
      ensures Valid() && Items() == items
      ensures Traversal(Marks(), [], order') == Drain(Traversal(old(Marks()), queue, order), items, E, v)
    {
      var vertexQueue := queue;
      order' := order;
      ghost var s := Traversal(Marks(), vertexQueue, order');
      ghost var last := Drain(s, items, E, v);
      while vertexQueue != []
        invariant Valid() && Items() == items
        invariant forall i, j :: 0 <= i < numberOfVertices && 0 <= j < numberOfVertices ==> edges[i, j] == E[i][j]
        invariant s == Traversal(Marks(), vertexQueue, order') && TraversalInv(s, items, E, v)
        invariant Drain(s, items, E, v) == last
        decreases CountDefault(s.marks), |s.queue|
      {
        DrainStep(s, items, E, v);
        vertexQueue, order' := VisitFront(vertexQueue, order', E);
        s := Step(s, items, E);
      }
    }

    /** The breadth-first traversal from v: returns the items in the order they are visited
        (the order the source prints). The start copy keeps the mark it was passed with, so a
        copy already marked VISITED visits nothing. */
    method BFT(v: VertexType<T>) returns (order: seq<T>)
      requires Valid()
      modifies vertices
      ensures Valid() && Items() == old(Items())
      ensures Traversal(Marks(), [], order) == Traverse(Items(), old(Block()), v)
      ensures Distinct(order)
      ensures v.mark == Visited ==> order == []
      ensures v.mark != Visited && v.item !in Items() ==> order == [v.item]
      ensures v.mark != Visited && v.item in Items() ==>
        && order != [] && order[0] == v.item
        && (forall k :: 0 <= k < |Items()| ==> Marks()[k] != Queued)
        && (forall k :: 0 <= k < |Items()| ==> (Marks()[k] == Visited <==> Items()[k] in order))
        && forall k :: 0 <= k < |Items()| ==>
             (Marks()[k] == Visited <==> Reachable(old(Block()), Position(Items(), v.item), k))
    {
      ghost var items, E := Items(), Block();
      ResetMarks();
      var vertexQueue := [v];
      MarkVertex(v, Queued);
      assert Marks() == StartMarks(items, v);
      TraversalStart(Marks(), items, E, v);
      order := RunQueue(vertexQueue, [], items, E, v);
      TraversalDone(Traversal(Marks(), [], order), items, E, v);
    }
  }
}
