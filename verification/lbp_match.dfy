/**
 * The assignment step of FaceTrackerLBP::match: the pool x candidate distance matrix is
 * flattened, its cell indices are sorted by value, and the cells are visited in that order,
 * committing a pool row and a candidate the first time both are still free, until a cell
 * above the threshold is reached.
 */
module LbpMatch {
  import opened Seqs
  import opened Pairing

  /** The first cell whose value exceeds this ends the loop. */
  const MaxMatchDist: real := 128.0

  /** How the matrix is allocated and decoded. */
  datatype Layout =
    | AsWritten  // rows of width candidates.size(), holding |cand_indices| values each
    | Corrected  // rows of width |cand_indices|, so every cell decodes to the pair it holds

  /** The result of the loop: committed cells, pool rows and candidates left free. */
  datatype Outcome = Outcome(committed: seq<Cell>, rows: set<nat>, cands: seq<nat>)

  // ---------------------------------------------------------------------------------------
  // Sorting the flat indices by value (std::sort with operator<)
  // ---------------------------------------------------------------------------------------

  ghost predicate SortedBy(order: seq<nat>, d: seq<real>) {
    && (forall i :: 0 <= i < |order| ==> order[i] < |d|)
    && (forall i, j :: 0 <= i < j < |order| ==> d[order[i]] <= d[order[j]])
  }

  /** Putting a least element in front of a sorted order keeps it sorted. */
  lemma SortedCons(h: nat, rest: seq<nat>, d: seq<real>)
    requires h < |d| && SortedBy(rest, d)
    requires forall x :: x in rest ==> d[h] <= d[x]
    ensures SortedBy([h] + rest, d)
  {
    var r := [h] + rest;
    forall i, j | 0 <= i < j < |r| ensures d[r[i]] <= d[r[j]] {
      assert r[j] == rest[j - 1];
      if i == 0 {
        assert rest[j - 1] in rest;
      } else {
        assert r[i] == rest[i - 1];
      }
    }
  }

  /** A value no greater than the head of a sorted order may go in front of it. */
  lemma SortedFront(p: nat, s: seq<nat>, d: seq<real>)
    requires p < |d| && SortedBy(s, d) && |s| > 0 && d[p] <= d[s[0]]
    ensures SortedBy([p] + s, d)
  {
    forall x | x in s ensures d[p] <= d[x] {
      var k :| 0 <= k < |s| && s[k] == x;
    }
    SortedCons(p, s, d);
  }

  /** The head of a sorted order stays in front of anything inserted behind it. */
  lemma SortedBehind(p: nat, s: seq<nat>, rest: seq<nat>, d: seq<real>)
    requires p < |d| && SortedBy(s, d) && |s| > 0 && d[s[0]] < d[p]
    requires SortedBy(rest, d) && multiset(rest) == multiset(s[1..]) + multiset{p}
    ensures SortedBy([s[0]] + rest, d)
    ensures multiset([s[0]] + rest) == multiset(s) + multiset{p}
  {
    forall x | x in rest ensures d[s[0]] <= d[x] {
      assert x in multiset(rest);
      if x != p {
        assert x in multiset(s[1..]);
        var k :| 0 <= k < |s[1..]| && s[1..][k] == x;
        assert s[k + 1] == x;
      }
    }
    SortedCons(s[0], rest, d);
    assert s == [s[0]] + s[1..];
  }

  function Insert(p: nat, s: seq<nat>, d: seq<real>): (r: seq<nat>)
    requires p < |d| && SortedBy(s, d)
    ensures SortedBy(r, d)
    ensures multiset(r) == multiset(s) + multiset{p}
  {
    if |s| == 0 then [p]
    else if d[p] <= d[s[0]] then
      SortedFront(p, s, d);
      [p] + s
    else
      var rest := Insert(p, s[1..], d);
      SortedBehind(p, s, rest, d);
      [s[0]] + rest
  }

  function SortIndices(ps: seq<nat>, d: seq<real>): (r: seq<nat>)
    requires forall i :: 0 <= i < |ps| ==> ps[i] < |d|
    ensures SortedBy(r, d)
    ensures multiset(r) == multiset(ps)
  {
    if |ps| == 0 then []
    else
      assert ps == ps[..|ps| - 1] + [ps[|ps| - 1]];
      Insert(ps[|ps| - 1], SortIndices(ps[..|ps| - 1], d), d)
  }

  /** A visiting order of all cell indices with non-decreasing values. */
  function Order(d: seq<real>): (order: seq<nat>)
    ensures SortedBy(order, d)
    ensures forall p :: 0 <= p < |d| ==> p in order
  {
    var order := SortIndices(Range(|d|), d);
    assert forall p :: 0 <= p < |d| ==> p in order by {
      forall p | 0 <= p < |d| ensures p in order {
        assert Range(|d|)[p] == p;
        assert p in multiset(Range(|d|));
      }
    }
    order
  }

  /**
   * Ties: std::sort leaves the order of equal cells open; the insertion sort here puts a
   * later index before an equal earlier one, so equal cells are visited from the highest
   * flat index down.
   */
  lemma TiesByDecreasingIndex()
    ensures Order([0.0, 0.0]) == [1, 0]
  {
    var d := [0.0, 0.0];
    assert Range(2) == [0, 1];
    assert Range(2)[..1] == [0];
    assert SortIndices([0], d) == [0] by {
      assert [0][..0] == [];
    }
    assert Insert(1, [0], d) == [1, 0];
  }

  // ---------------------------------------------------------------------------------------
  // Matrix layout and decoding
  // ---------------------------------------------------------------------------------------

  /** The row width the matrix is decoded with. */
  function Width(layout: Layout, m: nat, cs: seq<nat>): nat {
    if layout == AsWritten then m else |cs|
  }

  /** cand_map[k]: the k-th free candidate; a missing key is default-inserted as 0. */
  function CandMap(cs: seq<nat>, k: nat): nat {
    if k < |cs| then cs[k] else 0
  }

  /**
   * The matrix data for n pool rows of width w: for each row, one value per free candidate
   * written back to back; the rest of the zero-initialised matrix stays 0.
   */
  function Flat(n: nat, w: nat, cs: seq<nat>, dist: (nat, nat) -> real): (d: seq<real>)
    requires |cs| > 0
    ensures |d| == n * w
  {
    seq(n * w, p requires 0 <= p < n * w =>
      if p < n * |cs| then dist(p / |cs|, cs[p % |cs|]) else 0.0)
  }

  /** The cell at flat index p, decoded as row p / w and candidate cand_map[p % w]. */
  function CellAt(d: seq<real>, p: nat, w: nat, cs: seq<nat>): Cell
    requires p < |d| && w > 0
  {
    Cell(d[p], p / w, CandMap(cs, p % w))
  }

  /** The cells in visiting order. */
  function Cells(layout: Layout, n: nat, m: nat, cs: seq<nat>, dist: (nat, nat) -> real): (cells: seq<Cell>)
    requires |cs| > 0 && m > 0
  {
    var w := Width(layout, m, cs);
    var d := Flat(n, w, cs, dist);
    var order := Order(d);
    seq(|order|, k requires 0 <= k < |order| => CellAt(d, order[k], w, cs))
  }

  lemma CellsSorted(layout: Layout, n: nat, m: nat, cs: seq<nat>, dist: (nat, nat) -> real)
    requires |cs| > 0 && m > 0
    ensures var cells := Cells(layout, n, m, cs, dist);
      forall i, j :: 0 <= i < j < |cells| ==> cells[i].dist <= cells[j].dist
  {
  }

  // ---------------------------------------------------------------------------------------
  // The commit loop
  // ---------------------------------------------------------------------------------------

  /**
   * The loop over the sorted cells: stop at the first value above the threshold; skip a cell
   * whose row or candidate is taken; otherwise commit it and take both.
   */
  function CommitLoop(cells: seq<Cell>, rows: set<nat>, cands: seq<nat>): (o: Outcome)
    ensures forall k :: 0 <= k < |o.committed| ==>
      o.committed[k] in cells && o.committed[k].dist <= MaxMatchDist &&
      o.committed[k].row in rows && o.committed[k].cand in cands
    ensures o.rows <= rows
    ensures forall c :: c in o.cands ==> c in cands
  {
    if |cells| == 0 || cells[0].dist > MaxMatchDist then
      Outcome([], rows, cands)
    else
      var c := cells[0];
      if c.row in rows && c.cand in cands then
        var rest := CommitLoop(cells[1..], rows - {c.row}, Without(cands, {c.cand}));
        Outcome([c] + rest.committed, rest.rows, rest.cands)
      else
        CommitLoop(cells[1..], rows, cands)
  }

  /** The loop commits each pool row and each candidate at most once. */
  lemma {:induction false} CommitLoopExclusive(cells: seq<Cell>, rows: set<nat>, cands: seq<nat>)
    ensures Exclusive(CommitLoop(cells, rows, cands).committed)
  {
    if |cells| > 0 && cells[0].dist <= MaxMatchDist {
      var c := cells[0];
      if c.row in rows && c.cand in cands {
        CommitLoopExclusive(cells[1..], rows - {c.row}, Without(cands, {c.cand}));
      } else {
        CommitLoopExclusive(cells[1..], rows, cands);
      }
    }
  }

  /** The pool rows left free are the free ones minus those committed. */
  lemma {:induction false} CommitLoopRowsLeft(cells: seq<Cell>, rows: set<nat>, cands: seq<nat>)
    ensures var o := CommitLoop(cells, rows, cands);
      o.rows == rows - RowSet(o.committed)
  {
    if |cells| > 0 && cells[0].dist <= MaxMatchDist {
      var c := cells[0];
      if c.row in rows && c.cand in cands {
        var rest := CommitLoop(cells[1..], rows - {c.row}, Without(cands, {c.cand}));
        CommitLoopRowsLeft(cells[1..], rows - {c.row}, Without(cands, {c.cand}));
        assert RowSet([c] + rest.committed) == {c.row} + RowSet(rest.committed);
      } else {
        CommitLoopRowsLeft(cells[1..], rows, cands);
      }
    } else {
      assert RowSet([]) == {};
    }
  }

  /** The candidates left free are the free ones minus those committed, in their order. */
  lemma {:induction false} CommitLoopCandsLeft(cells: seq<Cell>, rows: set<nat>, cands: seq<nat>)
    ensures var o := CommitLoop(cells, rows, cands);
      o.cands == Without(cands, CandSet(o.committed))
  {
    if |cells| > 0 && cells[0].dist <= MaxMatchDist {
      var c := cells[0];
      if c.row in rows && c.cand in cands {
        var rest := CommitLoop(cells[1..], rows - {c.row}, Without(cands, {c.cand}));
        CommitLoopCandsLeft(cells[1..], rows - {c.row}, Without(cands, {c.cand}));
        WithoutTwice(cands, c.cand, CandSet(rest.committed));
        assert CandSet([c] + rest.committed) == {c.cand} + CandSet(rest.committed);
      } else {
        CommitLoopCandsLeft(cells[1..], rows, cands);
      }
    } else {
      WithoutNothing(cands);
      assert CandSet([]) == {};
    }
  }

  /** What is left free is exactly what was free minus what was committed. */
  lemma CommitLoopRemaining(cells: seq<Cell>, rows: set<nat>, cands: seq<nat>)
    ensures var o := CommitLoop(cells, rows, cands);
      o.rows == rows - RowSet(o.committed) && o.cands == Without(cands, CandSet(o.committed))
  {
    CommitLoopRowsLeft(cells, rows, cands);
    CommitLoopCandsLeft(cells, rows, cands);
  }

  /**
   * On cells visited in non-decreasing order, every cell within the threshold has its row
   * or its candidate committed when the loop ends.
   */
  lemma {:induction false} CommitLoopMaximal(cells: seq<Cell>, rows: set<nat>, cands: seq<nat>)
    requires forall i, j :: 0 <= i < j < |cells| ==> cells[i].dist <= cells[j].dist
    ensures var o := CommitLoop(cells, rows, cands);
      forall x :: x in cells && x.dist <= MaxMatchDist ==> x.row !in o.rows || x.cand !in o.cands
  {
    if |cells| > 0 && cells[0].dist <= MaxMatchDist {
      var c := cells[0];
      var o := CommitLoop(cells, rows, cands);
      if c.row in rows && c.cand in cands {
        CommitLoopMaximal(cells[1..], rows - {c.row}, Without(cands, {c.cand}));
      } else {
        CommitLoopMaximal(cells[1..], rows, cands);
      }
      forall x | x in cells && x.dist <= MaxMatchDist
        ensures x.row !in o.rows || x.cand !in o.cands
      {
        if x != c {
          assert x in cells[1..];
        }
      }
    }
  }

  /**
   * On sorted cells, every cell within the threshold whose row and candidate were free at
   * the start has its row or its candidate among those committed.
   */
  lemma CommitLoopCovers(cells: seq<Cell>, rows: set<nat>, cands: seq<nat>)
    requires forall i, j :: 0 <= i < j < |cells| ==> cells[i].dist <= cells[j].dist
    ensures var o := CommitLoop(cells, rows, cands);
      forall x :: x in cells && x.dist <= MaxMatchDist && x.row in rows && x.cand in cands ==>
        x.row in RowSet(o.committed) || x.cand in CandSet(o.committed)
  {
    var o := CommitLoop(cells, rows, cands);
    CommitLoopMaximal(cells, rows, cands);
    CommitLoopRowsLeft(cells, rows, cands);
    CommitLoopCandsLeft(cells, rows, cands);
    forall x | x in cells && x.dist <= MaxMatchDist && x.row in rows && x.cand in cands
      ensures x.row in RowSet(o.committed) || x.cand in CandSet(o.committed)
    {
      assert x.row !in o.rows || x.cand !in o.cands;
    }
  }

  /** The loop run on the decoded matrix of n pool rows and the free candidates cs. */
  function Run(layout: Layout, n: nat, m: nat, cs: seq<nat>, dist: (nat, nat) -> real): (o: Outcome)
    requires |cs| > 0 && m > 0
    ensures Exclusive(o.committed)
    ensures forall k :: 0 <= k < |o.committed| ==>
      o.committed[k].row < n && o.committed[k].cand in cs && o.committed[k].dist <= MaxMatchDist
    ensures o.cands == Without(cs, CandSet(o.committed))
  {
    var cells := Cells(layout, n, m, cs, dist);
    CommitLoopExclusive(cells, RangeSet(n), cs);
    CommitLoopRemaining(cells, RangeSet(n), cs);
    CommitLoop(cells, RangeSet(n), cs)
  }

  // ---------------------------------------------------------------------------------------
  // The corrected layout decodes every cell to the pair whose distance it holds
  // ---------------------------------------------------------------------------------------

  lemma MulAtLeast(t: int, w: int)
    requires t >= 1 && w >= 0
    ensures t * w >= w
  {
  }

  /** Flat index r * w + k decodes to row r and column k. */
  lemma DivMod(r: nat, k: nat, w: nat)
    requires k < w
    ensures (r * w + k) / w == r && (r * w + k) % w == k
  {
    var p := r * w + k;
    var q, s := p / w, p % w;
    assert p == w * q + s;
    if q < r {
      var t := r - q;
      assert t * w == r * w - q * w;
      MulAtLeast(t, w);
    } else if q > r {
      var t := q - r;
      assert t * w == q * w - r * w;
      MulAtLeast(t, w);
    }
  }

  lemma DivBelow(p: nat, n: nat, w: nat)
    requires 0 < w && p < n * w
    ensures p / w < n
  {
    var q := p / w;
    assert q * w <= p;
  }

  lemma IndexBelow(r: nat, k: nat, n: nat, w: nat)
    requires r < n && k < w
    ensures r * w + k < n * w
  {
    assert r * w + w == (r + 1) * w;
    assert (r + 1) * w <= n * w;
  }

  /** The corrected cell at flat index p holds the distance of the pair it decodes to. */
  lemma CorrectedCellAt(n: nat, cs: seq<nat>, dist: (nat, nat) -> real, p: nat)
    requires |cs| > 0 && p < n * |cs|
    ensures var x := CellAt(Flat(n, |cs|, cs, dist), p, |cs|, cs);
      x.dist == dist(x.row, x.cand) && x.row < n && x.cand in cs
  {
    DivBelow(p, n, |cs|);
  }

  /** Each corrected cell holds the distance of the pool row and candidate it decodes to. */
  lemma CorrectedCellsExact(n: nat, m: nat, cs: seq<nat>, dist: (nat, nat) -> real)
    requires |cs| > 0 && m > 0
    ensures forall x :: x in Cells(Corrected, n, m, cs, dist) ==>
      x.dist == dist(x.row, x.cand) && x.row < n && x.cand in cs
  {
    var w := |cs|;
    var d := Flat(n, w, cs, dist);
    var order := Order(d);
    var cells := Cells(Corrected, n, m, cs, dist);
    assert cells == seq(|order|, k requires 0 <= k < |order| => CellAt(d, order[k], w, cs));
    forall x | x in cells
      ensures x.dist == dist(x.row, x.cand) && x.row < n && x.cand in cs
    {
      var i :| 0 <= i < |cells| && cells[i] == x;
      CorrectedCellAt(n, cs, dist, order[i]);
    }
  }

  lemma FlatAt(n: nat, cs: seq<nat>, dist: (nat, nat) -> real, r: nat, k: nat)
    requires |cs| > 0 && r < n && k < |cs|
    ensures r * |cs| + k < |Flat(n, |cs|, cs, dist)|
    ensures Flat(n, |cs|, cs, dist)[r * |cs| + k] == dist(r, cs[k])
  {
    IndexBelow(r, k, n, |cs|);
    DivMod(r, k, |cs|);
  }

  lemma CellAtDecode(d: seq<real>, r: nat, k: nat, cs: seq<nat>)
    requires k < |cs| && r * |cs| + k < |d|
    ensures CellAt(d, r * |cs| + k, |cs|, cs) == Cell(d[r * |cs| + k], r, cs[k])
  {
    DivMod(r, k, |cs|);
  }

  /** Every flat index appears in the visiting order, as the cell it decodes to. */
  lemma CellOfIndex(layout: Layout, n: nat, m: nat, cs: seq<nat>, dist: (nat, nat) -> real, p: nat)
    requires |cs| > 0 && m > 0 && p < |Flat(n, Width(layout, m, cs), cs, dist)|
    ensures CellAt(Flat(n, Width(layout, m, cs), cs, dist), p, Width(layout, m, cs), cs)
      in Cells(layout, n, m, cs, dist)
  {
    var w := Width(layout, m, cs);
    var d := Flat(n, w, cs, dist);
    var order := Order(d);
    assert p in order;
    var i :| 0 <= i < |order| && order[i] == p;
    var cells := Cells(layout, n, m, cs, dist);
    assert cells[i] == CellAt(d, p, w, cs);
  }

  /** Every (pool row, free candidate) pair is visited by the corrected layout. */
  lemma CorrectedCellsCover(n: nat, m: nat, cs: seq<nat>, dist: (nat, nat) -> real, r: nat, k: nat)
    requires |cs| > 0 && m > 0 && r < n && k < |cs|
    ensures Cell(dist(r, cs[k]), r, cs[k]) in Cells(Corrected, n, m, cs, dist)
  {
    var d := Flat(n, |cs|, cs, dist);
    FlatAt(n, cs, dist, r, k);
    CellAtDecode(d, r, k, cs);
    CellOfIndex(Corrected, n, m, cs, dist, r * |cs| + k);
  }

  lemma CorrectedPairVisited(n: nat, m: nat, cs: seq<nat>, dist: (nat, nat) -> real, r: nat, c: nat)
    requires |cs| > 0 && m > 0 && r < n && c in cs
    ensures Cell(dist(r, c), r, c) in Cells(Corrected, n, m, cs, dist)
  {
    var k :| 0 <= k < |cs| && cs[k] == c;
    CorrectedCellsCover(n, m, cs, dist, r, k);
  }

  /** Run is the commit loop over the decoded cells, starting with every pool row free. */
  lemma RunLoops(layout: Layout, n: nat, m: nat, cs: seq<nat>, dist: (nat, nat) -> real)
    requires |cs| > 0 && m > 0
    ensures Run(layout, n, m, cs, dist) == CommitLoop(Cells(layout, n, m, cs, dist), RangeSet(n), cs)
  {
  }

  /** With the corrected layout every committed pair is within the threshold by its true distance. */
  lemma CorrectedCommitsNear(n: nat, m: nat, cs: seq<nat>, dist: (nat, nat) -> real)
    requires |cs| > 0 && m > 0
    ensures var o := Run(Corrected, n, m, cs, dist);
      forall k :: 0 <= k < |o.committed| ==>
        dist(o.committed[k].row, o.committed[k].cand) <= MaxMatchDist
  {
    var cells := Cells(Corrected, n, m, cs, dist);
    var o := CommitLoop(cells, RangeSet(n), cs);
    assert o == Run(Corrected, n, m, cs, dist);
    CorrectedCellsExact(n, m, cs, dist);
    forall k | 0 <= k < |o.committed|
      ensures dist(o.committed[k].row, o.committed[k].cand) <= MaxMatchDist
    {
      assert o.committed[k] in cells;
    }
  }

  /**
   * With the corrected layout no pair of a free pool row and a free candidate within the
   * threshold is left when the loop ends.
   */
  lemma CorrectedLeavesNoNearPair(n: nat, m: nat, cs: seq<nat>, dist: (nat, nat) -> real)
    requires |cs| > 0 && m > 0
    ensures var o := Run(Corrected, n, m, cs, dist);
      forall r, c :: 0 <= r < n && c in cs && dist(r, c) <= MaxMatchDist ==>
        r in RowSet(o.committed) || c in CandSet(o.committed)
  {
    var cells := Cells(Corrected, n, m, cs, dist);
    RunLoops(Corrected, n, m, cs, dist);
    CellsSorted(Corrected, n, m, cs, dist);
    CommitLoopCovers(cells, RangeSet(n), cs);
    var o := CommitLoop(cells, RangeSet(n), cs);
    forall r, c | 0 <= r < n && c in cs && dist(r, c) <= MaxMatchDist
      ensures r in RowSet(o.committed) || c in CandSet(o.committed)
    {
      CorrectedPairVisited(n, m, cs, dist, r, c);
      assert r in RangeSet(n);
    }
  }

  /**
   * With the corrected layout every committed pair is within the threshold by its true
   * distance, and no pair of a free pool row and a free candidate within the threshold is
   * left when the loop ends.
   */
  lemma CorrectedRunSound(n: nat, m: nat, cs: seq<nat>, dist: (nat, nat) -> real)
    requires |cs| > 0 && m > 0
    ensures var o := Run(Corrected, n, m, cs, dist);
      && (forall k :: 0 <= k < |o.committed| ==>
            dist(o.committed[k].row, o.committed[k].cand) <= MaxMatchDist)
      && (forall r, c :: 0 <= r < n && c in cs && dist(r, c) <= MaxMatchDist ==>
            r in RowSet(o.committed) || c in CandSet(o.committed))
  {
    CorrectedCommitsNear(n, m, cs, dist);
    CorrectedLeavesNoNearPair(n, m, cs, dist);
  }

  /**
   * While every candidate is still free the matrix as written has exactly one value per
   * cell, so both layouts visit the same cells and commit the same pairs.
   */
  lemma FullLayoutsAgree(n: nat, m: nat, cs: seq<nat>, dist: (nat, nat) -> real)
    requires |cs| > 0 && m == |cs|
    ensures Run(AsWritten, n, m, cs, dist) == Run(Corrected, n, m, cs, dist)
  {
    assert Width(AsWritten, m, cs) == Width(Corrected, m, cs);
  }

  /** Soundness holds for the layout as written too while every candidate is free. */
  lemma RunSound(layout: Layout, n: nat, m: nat, cs: seq<nat>, dist: (nat, nat) -> real)
    requires |cs| > 0 && m > 0 && (layout == Corrected || m == |cs|)
    ensures var o := Run(layout, n, m, cs, dist);
      && (forall k :: 0 <= k < |o.committed| ==>
            dist(o.committed[k].row, o.committed[k].cand) <= MaxMatchDist)
      && (forall r, c :: 0 <= r < n && c in cs && dist(r, c) <= MaxMatchDist ==>
            r in RowSet(o.committed) || c in CandSet(o.committed))
  {
    if layout == AsWritten {
      FullLayoutsAgree(n, m, cs, dist);
    }
    CorrectedRunSound(n, m, cs, dist);
  }

  // ---------------------------------------------------------------------------------------
  // The layout as written commits a pair the threshold should have rejected
  // ---------------------------------------------------------------------------------------

  /** The true distances of the example below: 500 to candidate 0, 0 to any other. */
  function FarDist(r: nat, c: nat): real {
    if c == 0 then 500.0 else 0.0
  }

  /** As written, the one row is two cells wide and only its first cell is written. */
  lemma FarFlat()
    ensures Flat(1, 2, [0], FarDist) == [500.0, 0.0]
  {
    var d := Flat(1, 2, [0], FarDist);
    assert |d| == 2;
    assert 0 / 1 == 0 && 0 % 1 == 0;
    assert d[0] == FarDist(0, 0) == 500.0;
    assert d[1] == 0.0;
  }

  /** The zero cell is visited first. */
  lemma FarOrder()
    ensures Order([500.0, 0.0]) == [1, 0]
  {
    var d := [500.0, 0.0];
    assert Range(2) == [0, 1];
    assert Range(2)[..1] == [0];
    assert Range(1) == [0];
    assert SortIndices([], d) == [];
    assert SortIndices([0], d) == [0] by {
      assert [0][..0] == [];
    }
    assert Insert(1, [0], d) == [1, 0];
  }

  /** Both cells decode to row 0 and candidate 0: the zero cell comes first. */
  lemma FarCells()
    ensures Cells(AsWritten, 1, 2, [0], FarDist) == [Cell(0.0, 0, 0), Cell(500.0, 0, 0)]
  {
    FarFlat();
    FarOrder();
    var d := [500.0, 0.0];
    assert CellAt(d, 1, 2, [0]) == Cell(0.0, 0, 0);
    assert CellAt(d, 0, 2, [0]) == Cell(500.0, 0, 0);
  }

  /**
   * One pool row, two candidates of which only candidate 0 is still free, and a true
   * distance of 500 between them. The matrix as written is [500, 0]: the zero cell at flat
   * index 1 decodes to row 0 and cand_map[1], which default-inserts candidate 0, so the pair
   * is committed although its distance is far above the threshold.
   */
  lemma AsWrittenCommitsFarPair()
    ensures Cell(0.0, 0, 0) in Run(AsWritten, 1, 2, [0], FarDist).committed
    ensures FarDist(0, 0) > MaxMatchDist
  {
    FarCells();
    var cells := [Cell(0.0, 0, 0), Cell(500.0, 0, 0)];
    assert RangeSet(1) == {0};
    assert Without([0], {0}) == [];
    assert cells[1..] == [Cell(500.0, 0, 0)];
    assert CommitLoop(cells[1..], {}, []).committed == [];
    assert CommitLoop(cells, {0}, [0]).committed == [Cell(0.0, 0, 0)];
  }

  /** On the same input the corrected layout commits nothing. */
  lemma CorrectedRejectsFarPair()
    ensures Run(Corrected, 1, 2, [0], FarDist).committed == []
  {
    CorrectedRunSound(1, 2, [0], FarDist);
  }
}
