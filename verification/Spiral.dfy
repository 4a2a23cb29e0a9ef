/** The spiral fill of a square array, ring by ring, for any side length N. */
module Spiral {

  predicate InSquare(N: nat, i: int, j: int) {
    0 <= i < N && 0 <= j < N
  }

  /** How many rings lie outside the cell. */
  function Ring(N: nat, i: int, j: int): (r: nat)
    requires InSquare(N, i, j)
    ensures 2 * r < N && r <= i < N - r && r <= j < N - r
    ensures i == r || j == r || i == N - 1 - r || j == N - 1 - r
  {
    var a := if i < N - 1 - i then i else N - 1 - i;
    var b := if j < N - 1 - j then j else N - 1 - j;
    if a < b then a else b
  }

  /** The first value of ring `r`: each ring outside it took four times its side less one. */
  function RingStart(N: nat, r: nat): int {
    if r == 0 then 1 else RingStart(N, r - 1) + 4 * (N - 2 * r + 1)
  }

  lemma {:induction false} RingStartClosed(N: nat, r: nat)
    ensures RingStart(N, r) == 4 * r * (N - r) + 1
    ensures RingStart(N, r) == N * N - (N - 2 * r) * (N - 2 * r) + 1
  {
    if r > 0 {
      RingStartClosed(N, r - 1);
      assert 4 * r * (N - r) == 4 * (r - 1) * (N - (r - 1)) + 4 * (N - 2 * r + 1);
    }
  }

  /** A ring starts within the square exactly until the square is used up. */
  lemma RingStartGuard(N: nat, r: nat)
    requires 2 * r <= N
    ensures RingStart(N, r) <= N * N <==> 2 * r < N
    ensures 2 * r == N ==> RingStart(N, r) == N * N + 1
    ensures 2 * r + 1 == N ==> RingStart(N, r) == N * N
    ensures RingStart(N, r) >= 1
  {
    RingStartClosed(N, r);
    var d := N - 2 * r;
    assert 0 <= d * d <= N * N by {
      assert N * N - d * d == 4 * r * (N - r);
      Product(r, N - r);
    }
    assert d >= 1 ==> d * d >= 1;
  }

  lemma Product(a: nat, b: nat)
    ensures 4 * a * b >= 0
  {
  }

  /** The value the spiral puts in a cell: top row, right column, bottom row, left column of its ring. */
  function Value(N: nat, i: int, j: int): int
    requires InSquare(N, i, j)
  {
    var r := Ring(N, i, j);
    var start, hi, m := RingStart(N, r), N - 1 - r, N - 1 - 2 * r;
    if i == r then start + (j - r)
    else if j == hi then start + m + (i - r)
    else if i == hi then start + 2 * m + (hi - j)
    else start + 3 * m + (hi - i)
  }

  /** The cell of value `v`, looked for in ring `r` and inwards: walking the rings in order. */
  function CellFrom(N: nat, r: nat, v: int): (c: (int, int))
    requires 2 * r <= N && RingStart(N, r) <= v <= N * N
    ensures InSquare(N, c.0, c.1) && Ring(N, c.0, c.1) >= r
    ensures Value(N, c.0, c.1) == v
    decreases N - 2 * r
  {
    RingStartGuard(N, r);
    var hi, m, off := N - 1 - r, N - 1 - 2 * r, v - RingStart(N, r);
    if m == 0 then (r, r)
    else if off <= m then (r, r + off)
    else if off <= 2 * m then (r + off - m, hi)
    else if off <= 3 * m then (hi, hi - (off - 2 * m))
    else if off < 4 * m then (hi - (off - 3 * m), r)
    else
      assert RingStart(N, r + 1) == RingStart(N, r) + 4 * m;
      CellFrom(N, r + 1, v)
  }

  function Cell(N: nat, v: int): (c: (int, int))
    requires 1 <= v <= N * N
    ensures InSquare(N, c.0, c.1) && Value(N, c.0, c.1) == v
  {
    CellFrom(N, 0, v)
  }

  lemma {:induction false} RingStartGrows(N: nat, r: nat, s: nat)
    requires r <= s && 2 * s <= N
    ensures RingStart(N, r) <= RingStart(N, s)
    decreases s
  {
    if r < s {
      RingStartGrows(N, r, s - 1);
    }
  }

  lemma ValueInRange(N: nat, i: int, j: int)
    requires InSquare(N, i, j)
    ensures var r := Ring(N, i, j);
            RingStart(N, r) <= Value(N, i, j) <= N * N
            && (2 * r + 1 < N ==> Value(N, i, j) < RingStart(N, r + 1))
  {
    var r := Ring(N, i, j);
    RingStartGuard(N, r);
    if 2 * r + 1 < N {
      RingStartGrows(N, r + 1, N / 2);
      RingStartGuard(N, N / 2);
      assert RingStart(N, N / 2) <= N * N + 1;
    }
  }

  lemma SameRingInjective(N: nat, i: int, j: int, a: int, b: int)
    requires InSquare(N, i, j) && InSquare(N, a, b)
    requires Ring(N, i, j) == Ring(N, a, b) && Value(N, i, j) == Value(N, a, b)
    ensures i == a && j == b
  {
  }

  lemma OuterRingSmaller(N: nat, i: int, j: int, a: int, b: int)
    requires InSquare(N, i, j) && InSquare(N, a, b)
    requires Ring(N, i, j) < Ring(N, a, b)
    ensures Value(N, i, j) < Value(N, a, b)
  {
    ValueInRange(N, i, j);
    ValueInRange(N, a, b);
    RingStartGrows(N, Ring(N, i, j) + 1, Ring(N, a, b));
  }

  /** Looking up a cell's value finds that cell. */
  lemma CellOfValue(N: nat, i: int, j: int)
    requires InSquare(N, i, j)
    ensures 1 <= Value(N, i, j) <= N * N
    ensures Cell(N, Value(N, i, j)) == (i, j)
  {
    ValueInRange(N, i, j);
    RingStartGrows(N, 0, Ring(N, i, j));
    var c := Cell(N, Value(N, i, j));
    if Ring(N, i, j) < Ring(N, c.0, c.1) {
      OuterRingSmaller(N, i, j, c.0, c.1);
    } else if Ring(N, c.0, c.1) < Ring(N, i, j) {
      OuterRingSmaller(N, c.0, c.1, i, j);
    } else {
      SameRingInjective(N, i, j, c.0, c.1);
    }
  }

  /** The spiral is a bijection between the cells of the square and 1..N*N, with `Cell` as its inverse. */
  lemma SpiralIsBijection(N: nat)
    ensures forall i, j :: InSquare(N, i, j) ==> 1 <= Value(N, i, j) <= N * N && Cell(N, Value(N, i, j)) == (i, j)
    ensures forall v :: 1 <= v <= N * N ==>
                          InSquare(N, Cell(N, v).0, Cell(N, v).1) && Value(N, Cell(N, v).0, Cell(N, v).1) == v
  {
    forall i, j | InSquare(N, i, j)
      ensures 1 <= Value(N, i, j) <= N * N && Cell(N, Value(N, i, j)) == (i, j)
    {
      CellOfValue(N, i, j);
    }
  }

  predicate Adjacent(a: (int, int), b: (int, int)) {
    || (a.0 == b.0 && (a.1 - b.1 == 1 || b.1 - a.1 == 1))
    || (a.1 == b.1 && (a.0 - b.0 == 1 || b.0 - a.0 == 1))
  }

  /** One step on: right, down, left, up, or in to the next ring. */
  function Next(N: nat, i: int, j: int): (int, int)
    requires InSquare(N, i, j)
  {
    var r := Ring(N, i, j);
    var hi := N - 1 - r;
    if i == r && j < hi then (i, j + 1)
    else if j == hi && i < hi then (i + 1, j)
    else if i == hi && j > r then (i, j - 1)
    else if i > r + 1 then (i - 1, j)
    else (i, j + 1)
  }

  lemma NextIsNext(N: nat, i: int, j: int)
    requires InSquare(N, i, j) && Value(N, i, j) < N * N
    ensures var c := Next(N, i, j);
            Adjacent((i, j), c) && InSquare(N, c.0, c.1) && Value(N, c.0, c.1) == Value(N, i, j) + 1
  {
    var r := Ring(N, i, j);
    RingStartGuard(N, r);
    assert RingStart(N, r + 1) == RingStart(N, r) + 4 * (N - 1 - 2 * r);
    if 2 * r + 2 == N {
      RingStartGuard(N, r + 1);
    }
  }

  /** Consecutive values lie in neighbouring cells. */
  lemma SpiralIsConnected(N: nat, v: int)
    requires 1 <= v < N * N
    ensures Adjacent(Cell(N, v), Cell(N, v + 1))
  {
    var c := Cell(N, v);
    NextIsNext(N, c.0, c.1);
    var d := Next(N, c.0, c.1);
    CellOfValue(N, d.0, d.1);
  }

  // ----- The walk that defines a spiral

  /** The direction in which the spiral comes into a cell. */
  function Entry(N: nat, i: int, j: int): (int, int)
    requires InSquare(N, i, j)
  {
    var r := Ring(N, i, j);
    var hi := N - 1 - r;
    if i == r then (0, 1) else if j == hi then (1, 0) else if i == hi then (0, -1) else (-1, 0)
  }

  lemma EntryComesFromBefore(N: nat, b: (int, int), d: (int, int), a: (int, int))
    requires InSquare(N, b.0, b.1) && Value(N, b.0, b.1) > 1
    requires d == Entry(N, b.0, b.1) && a == (b.0 - d.0, b.1 - d.1)
    ensures InSquare(N, a.0, a.1) && Value(N, a.0, a.1) == Value(N, b.0, b.1) - 1
  {
    var r := Ring(N, b.0, b.1);
    if b == (r, r) && r > 0 {
      assert RingStart(N, r) == RingStart(N, r - 1) + 4 * (N - 2 * r + 1);
      assert Ring(N, r, r - 1) == r - 1;
    }
  }

  /** Ahead of a corner lies a ring further out, the outside, or the ring's first cell. */
  lemma StraightOrTurn(N: nat, r: nat, b: (int, int), d: (int, int), ahead: (int, int), c: (int, int))
    requires InSquare(N, b.0, b.1) && r == Ring(N, b.0, b.1) && Value(N, b.0, b.1) < N * N
    requires d == Entry(N, b.0, b.1) && ahead == (b.0 + d.0, b.1 + d.1) && c == Next(N, b.0, b.1)
    ensures ahead != b
    ensures c == ahead
            || (c == (b.0 + d.1, b.1 - d.0)
                && (InSquare(N, ahead.0, ahead.1) ==> Ring(N, ahead.0, ahead.1) < r || ahead == (r, r)))
  {
    RingStartGuard(N, r);
    if 2 * r + 2 == N {
      RingStartGuard(N, r + 1);
    }
  }

  lemma RingStartIsFirst(N: nat, r: nat, b: (int, int))
    requires InSquare(N, b.0, b.1) && r == Ring(N, b.0, b.1)
    ensures Value(N, r, r) <= Value(N, b.0, b.1)
  {
    ValueInRange(N, b.0, b.1);
  }

  /** Straight on if that cell is inside and not yet visited, otherwise a turn to the right. */
  lemma NextGoesStraight(N: nat, b: (int, int), d: (int, int), ahead: (int, int), c: (int, int))
    requires InSquare(N, b.0, b.1) && Value(N, b.0, b.1) < N * N
    requires d == Entry(N, b.0, b.1) && ahead == (b.0 + d.0, b.1 + d.1) && c == Next(N, b.0, b.1)
    ensures c == if InSquare(N, ahead.0, ahead.1) && Value(N, ahead.0, ahead.1) > Value(N, b.0, b.1)
                 then ahead else (b.0 + d.1, b.1 - d.0)
    ensures ahead != b
  {
    var r := Ring(N, b.0, b.1);
    StraightOrTurn(N, r, b, d, ahead, c);
    if c == ahead {
      NextIsNext(N, b.0, b.1);
    } else if ahead == (r, r) {
      RingStartIsFirst(N, r, b);
    } else if InSquare(N, ahead.0, ahead.1) {
      OuterRingSmaller(N, ahead.0, ahead.1, b.0, b.1);
    }
  }

  /** Consecutive cells of the spiral, with the direction of the first step. */
  lemma CellBefore(N: nat, v: int, b: (int, int), d: (int, int), a: (int, int))
    requires 1 < v <= N * N && b == Cell(N, v) && d == Entry(N, b.0, b.1) && a == (b.0 - d.0, b.1 - d.1)
    ensures Cell(N, v - 1) == a
  {
    EntryComesFromBefore(N, b, d, a);
    CellIs(N, v - 1, a);
  }

  lemma CellAfter(N: nat, v: int, b: (int, int), c: (int, int))
    requires 1 <= v < N * N && b == Cell(N, v) && c == Next(N, b.0, b.1)
    ensures Cell(N, v + 1) == c
  {
    NextIsNext(N, b.0, b.1);
    CellIs(N, v + 1, c);
  }

  lemma CellIs(N: nat, v: int, c: (int, int))
    requires InSquare(N, c.0, c.1) && Value(N, c.0, c.1) == v
    ensures 1 <= v <= N * N && Cell(N, v) == c
  {
    CellOfValue(N, c.0, c.1);
  }

  ghost predicate Unvisited(N: nat, c: (int, int), v: int)
    requires v <= N * N
  {
    InSquare(N, c.0, c.1) && forall w :: 1 <= w < v ==> Cell(N, w) != c
  }

  lemma AheadIsBlockedIff(N: nat, v: int, b: (int, int), ahead: (int, int))
    requires 1 < v < N * N && b == Cell(N, v) && ahead != b
    ensures Unvisited(N, ahead, v) <==> InSquare(N, ahead.0, ahead.1) && Value(N, ahead.0, ahead.1) > v
  {
    if InSquare(N, ahead.0, ahead.1) {
      VisitedIff(N, ahead, v);
    }
  }

  lemma TurnsWhenBlocked(N: nat, v: int, b: (int, int), d: (int, int), ahead: (int, int), c: (int, int))
    requires 1 < v < N * N && b == Cell(N, v) && d == Entry(N, b.0, b.1)
    requires ahead == (b.0 + d.0, b.1 + d.1) && c == Next(N, b.0, b.1)
    ensures c == if Unvisited(N, ahead, v) then ahead else (b.0 + d.1, b.1 - d.0)
  {
    NextGoesStraight(N, b, d, ahead, c);
    AheadIsBlockedIff(N, v, b, ahead);
  }

  lemma AheadOfBoth(a: (int, int), b: (int, int), d: (int, int), ahead: (int, int))
    requires a == (b.0 - d.0, b.1 - d.1) && ahead == (2 * b.0 - a.0, 2 * b.1 - a.1)
    ensures ahead == (b.0 + d.0, b.1 + d.1)
    ensures (b.0 + d.1, b.1 - d.0) == (b.0 + b.1 - a.1, b.1 - b.0 + a.0)
  {
  }

  /**
   The spiral as a walk over consecutive cells `a`, `b`, `c`: straight on while the cell ahead is in
   the square and was not visited, otherwise a turn to the right. `SpiralStart` gives the first step.
   */
  lemma SpiralWalk(N: nat, v: int, a: (int, int), b: (int, int), c: (int, int), ahead: (int, int))
    requires 1 < v < N * N
    requires a == Cell(N, v - 1) && b == Cell(N, v) && c == Cell(N, v + 1)
    requires ahead == (2 * b.0 - a.0, 2 * b.1 - a.1)
    ensures c == if Unvisited(N, ahead, v) then ahead else (b.0 + b.1 - a.1, b.1 - b.0 + a.0)
  {
    var d, c' := Entry(N, b.0, b.1), Next(N, b.0, b.1);
    CellBefore(N, v, b, d, (b.0 - d.0, b.1 - d.1));
    CellAfter(N, v, b, c');
    AheadOfBoth(a, b, d, ahead);
    TurnsWhenBlocked(N, v, b, d, ahead, c');
  }

  /** The walk starts in the corner, to the right. */
  lemma SpiralStart(N: nat)
    ensures N > 0 ==> Cell(N, 1) == (0, 0)
    ensures N > 1 ==> Cell(N, 2) == (0, 1)
  {
    assert RingStart(N, 0) == 1;
    if N > 0 {
      CellOfValue(N, 0, 0);
    }
    if N > 1 {
      CellOfValue(N, 0, 1);
    }
  }

  lemma VisitedIff(N: nat, c: (int, int), v: int)
    requires InSquare(N, c.0, c.1) && 1 < v < N * N && Cell(N, v) != c
    ensures (forall w :: 1 <= w < v ==> Cell(N, w) != c) <==> Value(N, c.0, c.1) > v
  {
    CellOfValue(N, c.0, c.1);
  }

  // ----- The fill loops

  /** Exactly the cells of values below `count` have been written, each with its value. */
  ghost predicate Filled(arr: array2<int>, N: nat, count: int)
    reads arr
  {
    && arr.Length0 == N && arr.Length1 == N
    && forall i, j :: InSquare(N, i, j) ==> arr[i, j] == if Value(N, i, j) < count then Value(N, i, j) else 0
  }

  /** The writes so far went to the cells of the values below `count`, in order. */
  ghost predicate InOrder(N: nat, writes: seq<(int, int)>, count: int) {
    && |writes| == count - 1 && count <= N * N + 1
    && forall v :: 1 <= v < count ==> writes[v - 1] == Cell(N, v)
  }

  /** One assignment `arr[i][j] = count`: the cell is still 0, and no other cell is due. */
  method Put(arr: array2<int>, N: nat, i: int, j: int, count: int, ghost writes: seq<(int, int)>)
    returns (ghost writes': seq<(int, int)>)
    requires Filled(arr, N, count) && InOrder(N, writes, count)
    requires InSquare(N, i, j) && Value(N, i, j) == count
    modifies arr
    ensures old(arr[i, j]) == 0
    ensures Filled(arr, N, count + 1) && InOrder(N, writes', count + 1)
  {
    arr[i, j] := count;
    writes' := writes + [(i, j)];
    CellOfValue(N, i, j);
    forall a, b | InSquare(N, a, b) && (a, b) != (i, j)
      ensures Value(N, a, b) != count
    {
      CellOfValue(N, a, b);
    }
  }

  lemma TopValue(N: nat, n: nat, j: nat)
    requires n <= j < N - n
    ensures Value(N, n, j) == RingStart(N, n) + (j - n)
  {
  }

  lemma RightValue(N: nat, n: nat, i: nat)
    requires n < i < N - n
    ensures Value(N, i, N - n - 1) == RingStart(N, n) + (N - 2 * n) + (i - n - 1)
  {
  }

  lemma BottomValue(N: nat, n: nat, j: nat)
    requires n <= j < N - n - 1
    ensures Value(N, N - n - 1, j) == RingStart(N, n) + 2 * (N - 2 * n) - 1 + (N - n - 2 - j)
  {
  }

  lemma LeftValue(N: nat, n: nat, i: nat)
    requires n < i < N - n - 1
    ensures Value(N, i, n) == RingStart(N, n) + 3 * (N - 2 * n) - 2 + (N - n - 2 - i)
  {
  }

  /** The first two inner loops: along the top row of ring `n`, then down its right column. */
  method FillTopAndRight(arr: array2<int>, N: nat, n: nat, k: int, count0: int, ghost writes: seq<(int, int)>)
    returns (count: int, ghost writes': seq<(int, int)>)
    requires k == N - n && 2 * n < N && count0 == RingStart(N, n)
    requires Filled(arr, N, count0) && InOrder(N, writes, count0)
    modifies arr
    ensures Filled(arr, N, count) && InOrder(N, writes', count)
    ensures count == count0 + 2 * (k - n) - 1
  {
    count, writes' := count0, writes;
    var j := n;
    while j < k
      invariant n <= j <= k && count == count0 + (j - n)
      invariant Filled(arr, N, count) && InOrder(N, writes', count)
    {
      TopValue(N, n, j);
      writes' := Put(arr, N, n, j, count, writes');
      count := count + 1;
      j := j + 1;
    }
    j := n + 1;
    while j < k
      invariant n + 1 <= j <= k && count == count0 + (k - n) + (j - n - 1)
      invariant Filled(arr, N, count) && InOrder(N, writes', count)
    {
      RightValue(N, n, j);
      writes' := Put(arr, N, j, k - 1, count, writes');
      count := count + 1;
      j := j + 1;
    }
  }

  /** The last two inner loops: back along the bottom row, then up the left column. */
  method FillBottomAndLeft(arr: array2<int>, N: nat, n: nat, k: int, count0: int, ghost writes: seq<(int, int)>)
    returns (count: int, ghost writes': seq<(int, int)>)
    requires k == N - n && 2 * n < N && count0 == RingStart(N, n) + 2 * (k - n) - 1
    requires Filled(arr, N, count0) && InOrder(N, writes, count0)
    modifies arr
    ensures Filled(arr, N, count) && InOrder(N, writes', count)
    ensures count == if 2 * n + 1 == N then count0 else RingStart(N, n + 1)
  {
    count, writes' := count0, writes;
    var j := k - 2;
    while j >= n
      invariant n - 1 <= j <= k - 2 && count == count0 + (k - 2 - j)
      invariant Filled(arr, N, count) && InOrder(N, writes', count)
    {
      BottomValue(N, n, j);
      writes' := Put(arr, N, k - 1, j, count, writes');
      count := count + 1;
      j := j - 1;
    }
    j := k - 2;
    while j >= n + 1
      invariant (n <= j <= k - 2) || (j == k - 2 == n - 1)
      invariant count == count0 + (k - n - 1) + (k - 2 - j)
      invariant Filled(arr, N, count) && InOrder(N, writes', count)
    {
      LeftValue(N, n, j);
      writes' := Put(arr, N, j, n, count, writes');
      count := count + 1;
      j := j - 1;
    }
  }

  /**
   The fill: `writes` lists the assigned cells in the order of the assignments, and `count` is
   the counter as the guard finds it at the end, the same for odd and even N.
   */
  method Fill(N: nat) returns (arr: array2<int>, count: int, ghost writes: seq<(int, int)>)
    ensures fresh(arr) && arr.Length0 == N && arr.Length1 == N
    ensures forall i, j :: InSquare(N, i, j) ==> arr[i, j] == Value(N, i, j)
    ensures count == N * N + 1
    ensures |writes| == N * N
    ensures forall v :: 1 <= v <= N * N ==> writes[v - 1] == Cell(N, v)
  {
    arr := new int[N, N]((i, j) => 0);
    writes := [];
    count := 1;
    var n, k := 0, N;
    forall i, j | InSquare(N, i, j)
      ensures Value(N, i, j) >= 1
    {
      CellOfValue(N, i, j);
    }
    while count <= N * N
      invariant n + k == N && 2 * n <= N + 1
      invariant 2 * n <= N ==> count == RingStart(N, n)
      invariant 2 * n == N + 1 ==> count == N * N + 1
      invariant fresh(arr) && Filled(arr, N, count) && InOrder(N, writes, count)
      decreases N + 2 - 2 * n
    {
      RingStartGuard(N, n);
      count, writes := FillTopAndRight(arr, N, n, k, count, writes);
      count, writes := FillBottomAndLeft(arr, N, n, k, count, writes);
      n := n + 1;
      k := k - 1;
    }
    if 2 * n <= N {
      RingStartGuard(N, n);
    }
    forall i, j | InSquare(N, i, j)
      ensures arr[i, j] == Value(N, i, j)
    {
      ValueInRange(N, i, j);
    }
  }
}
