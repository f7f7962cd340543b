/** The best-first path search over a grid. The search keeps a record of
    visited points with a parallel list of parent indices; each pass
    appends the open neighbour of least cost until End is appended. */
module AStar {
  import opened Grid
  import opened Pathing

  /** The offsets tried around every recorded cell, in order. */
  const Steps: seq<Point> := [Point(0, 1), Point(1, 0), Point(0, -1), Point(-1, 0)]

  lemma StepAdjacent(p: Point, k: nat)
    requires k < 4
    ensures Adjacent(p, Add(p, Steps[k]))
  {
    if k == 0 {
    } else if k == 1 {
    } else if k == 2 {
    } else {
    }
  }

  // ---------------------------------------------------------------
  // Locating Start and End
  // ---------------------------------------------------------------

  /** Whether p lies in the grid's rows and comes before column cx, row cy
      in the scan that visits columns left to right and each column top
      to bottom. */
  predicate ScannedBefore(h: int, p: Point, cx: int, cy: int)
  {
    0 <= p.x && 0 <= p.y < h && (p.x < cx || (p.x == cx && p.y < cy))
  }

  /** Whether p comes after q in that scan. */
  predicate ScannedAfter(p: Point, q: Point)
  {
    p.x > q.x || (p.x == q.x && p.y > q.y)
  }

  /** The last cell in state k among those scanned before (cx, cy). */
  function LastScanned(m: array2<Node>, k: Node, cx: int, cy: int): Option<Point>
    reads m
    requires 0 <= cx <= m.Length0 && 0 <= cy <= m.Length1 && (cx == m.Length0 ==> cy == 0)
    decreases cx, cy
  {
    if cy > 0 then
      if m[cx, cy - 1] == k then Some(Point(cx, cy - 1)) else LastScanned(m, k, cx, cy - 1)
    else if cx > 0 then
      LastScanned(m, k, cx - 1, m.Length1)
    else
      None
  }

  /** A cell found by the partial scan was scanned, is in state k, and no
      cell scanned after it is; finding none means no scanned cell is. */
  lemma {:induction false} LastScannedFacts(m: array2<Node>, k: Node, cx: int, cy: int)
    requires 0 <= cx <= m.Length0 && 0 <= cy <= m.Length1 && (cx == m.Length0 ==> cy == 0)
    ensures var r := LastScanned(m, k, cx, cy);
      r.Some? ==> ScannedBefore(m.Length1, r.value, cx, cy) && m[r.value.x, r.value.y] == k
    ensures var r := LastScanned(m, k, cx, cy);
      r.Some? ==> forall x, y :: ScannedBefore(m.Length1, Point(x, y), cx, cy) && ScannedAfter(Point(x, y), r.value) ==> m[x, y] != k
    ensures LastScanned(m, k, cx, cy).None? ==> forall x, y :: ScannedBefore(m.Length1, Point(x, y), cx, cy) ==> m[x, y] != k
    decreases cx, cy
  {
    if cy > 0 {
      if m[cx, cy - 1] != k {
        LastScannedFacts(m, k, cx, cy - 1);
      }
    } else if cx > 0 {
      LastScannedFacts(m, k, cx - 1, m.Length1);
    }
  }

  /** The last cell of the whole grid in state k. */
  function LastCell(m: array2<Node>, k: Node): Option<Point>
    reads m
  {
    LastScanned(m, k, m.Length0, 0)
  }

  predicate HasCell(m: array2<Node>, k: Node)
    reads m
  {
    exists x, y :: 0 <= x < m.Length0 && 0 <= y < m.Length1 && m[x, y] == k
  }

  /** A cell in state k is found exactly when the grid has one; it is the
      last such cell, so with several Start (or End) cells the last in
      scan order is used. */
  lemma LastCellFound(m: array2<Node>, k: Node)
    ensures LastCell(m, k).Some? <==> HasCell(m, k)
    ensures LastCell(m, k).Some? ==>
      var p := LastCell(m, k).value;
      InBounds(m.Length0, m.Length1, p) && m[p.x, p.y] == k &&
      forall x, y :: InBounds(m.Length0, m.Length1, Point(x, y)) && ScannedAfter(Point(x, y), p) ==> m[x, y] != k
  {
    LastScannedFacts(m, k, m.Length0, 0);
    var r := LastCell(m, k);
    if r.None? {
      forall x, y | 0 <= x < m.Length0 && 0 <= y < m.Length1
        ensures m[x, y] != k
      {
        assert ScannedBefore(m.Length1, Point(x, y), m.Length0, 0);
      }
    } else {
      forall x, y | InBounds(m.Length0, m.Length1, Point(x, y)) && ScannedAfter(Point(x, y), r.value)
        ensures m[x, y] != k
      {
        assert ScannedBefore(m.Length1, Point(x, y), m.Length0, 0);
      }
    }
  }

  /** The point `find_path` records: the cell found, or (-1, -1). */
  function OrMissing(o: Option<Point>): Point
  {
    if o.Some? then o.value else Point(-1, -1)
  }

  /** The linear scan for Start and End, keeping the last of each. */
  method FindEndpoints(m: array2<Node>) returns (start: Point, end: Point)
    ensures start == OrMissing(LastCell(m, Start))
    ensures end == OrMissing(LastCell(m, End))
  {
    start, end := Point(-1, -1), Point(-1, -1);
    var x := 0;
    while x < m.Length0
      invariant 0 <= x <= m.Length0
      invariant start == OrMissing(LastScanned(m, Start, x, 0))
      invariant end == OrMissing(LastScanned(m, End, x, 0))
    {
      var y := 0;
      while y < m.Length1
        invariant 0 <= y <= m.Length1
        invariant start == OrMissing(LastScanned(m, Start, x, y))
        invariant end == OrMissing(LastScanned(m, End, x, y))
      {
        if m[x, y] == Start {
          start := Point(x, y);
        }
        if m[x, y] == End {
          end := Point(x, y);
        }
        y := y + 1;
      }
      x := x + 1;
    }
  }

  // ---------------------------------------------------------------
  // The search record and its parent chains
  // ---------------------------------------------------------------

  /** Parent links: entry 0 has parent -1 and every other entry's parent
      is an earlier entry. */
  predicate Links(parents: seq<int>)
  {
    forall i :: 0 <= i < |parents| ==> if i == 0 then parents[i] == -1 else 0 <= parents[i] < i
  }

  predicate Shaped(nodes: seq<Point>, parents: seq<int>)
  {
    |nodes| == |parents| && Links(parents)
  }

  /** Every entry after the start is one orthogonal step from its parent. */
  predicate Stepwise(nodes: seq<Point>, parents: seq<int>)
    requires Shaped(nodes, parents)
  {
    forall j :: 1 <= j < |nodes| ==> Adjacent(nodes[parents[j]], nodes[j])
  }

  /** What `calculate_h_cost` sums: floor(10 * dist) over each link of
      the parent chain from entry i back to the start. */
  function ChainCost(nodes: seq<Point>, parents: seq<int>, i: nat): nat
    requires Shaped(nodes, parents) && i < |nodes|
    decreases i
  {
    if parents[i] == -1 then 0
    else TenDist(nodes[i], nodes[parents[i]]) + ChainCost(nodes, parents, parents[i])
  }

  /** The number of links from entry i back to the start. */
  function Depth(parents: seq<int>, i: nat): (d: nat)
    requires Links(parents) && i < |parents|
    ensures d <= i
    ensures d == 0 <==> i == 0
    decreases i
  {
    if parents[i] == -1 then 0 else 1 + Depth(parents, parents[i])
  }

  /** Since every link is one orthogonal step, the chain cost of an entry
      is 10 times its depth. */
  lemma {:induction false} ChainCostIsTenDepth(nodes: seq<Point>, parents: seq<int>, i: nat)
    requires Shaped(nodes, parents) && Stepwise(nodes, parents) && i < |nodes|
    ensures ChainCost(nodes, parents, i) == 10 * Depth(parents, i)
  {
    if parents[i] != -1 {
      AdjacentTenDist(nodes[parents[i]], nodes[i]);
      DistSymmetric(nodes[parents[i]], nodes[i]);
      ChainCostIsTenDepth(nodes, parents, parents[i]);
    }
  }

  /** `calculate_h_cost`: walks the parent chain from `ind`. */
  method CalculateHCost(nodes: seq<Point>, parents: seq<int>, ind: nat) returns (accumDist: int)
    requires Shaped(nodes, parents) && ind < |nodes|
    ensures accumDist == ChainCost(nodes, parents, ind)
  {
    accumDist := 0;
    var i := ind;
    while parents[i] != -1
      invariant 0 <= i < |nodes|
      invariant accumDist + ChainCost(nodes, parents, i) == ChainCost(nodes, parents, ind)
      decreases i
    {
      accumDist := accumDist + TenDist(nodes[i], nodes[parents[i]]);
      i := parents[i];
    }
  }

  // ---------------------------------------------------------------
  // One pass: the open contender of least cost
  // ---------------------------------------------------------------

  /** A point a pass may append: not yet recorded, inside the grid and
      not an obstacle. */
  predicate Open(m: array2<Node>, nodes: seq<Point>, p: Point)
    reads m
  {
    p !in nodes && InBounds(m.Length0, m.Length1, p) && m[p.x, p.y] != Obstical
  }

  /** f for contender p of entry i: the step from entry i, the chain
      cost of entry i, and the straight-line estimate to End. */
  function Cost(nodes: seq<Point>, parents: seq<int>, end: Point, i: nat, p: Point): nat
    requires Shaped(nodes, parents) && i < |nodes|
  {
    TenDist(p, nodes[i]) + ChainCost(nodes, parents, i) + TenDist(p, end)
  }

  /** In a stepwise record the cost of an orthogonal contender is
      10 * (depth + 1) plus the estimate to End. */
  lemma CostByDepth(nodes: seq<Point>, parents: seq<int>, end: Point, i: nat, p: Point)
    requires Shaped(nodes, parents) && Stepwise(nodes, parents) && i < |nodes|
    requires Adjacent(nodes[i], p)
    ensures Cost(nodes, parents, end, i, p) == 10 * (Depth(parents, i) + 1) + TenDist(p, end)
  {
    ChainCostIsTenDepth(nodes, parents, i);
    AdjacentTenDist(nodes[i], p);
    DistSymmetric(nodes[i], p);
  }

  datatype Candidate = Candidate(point: Point, parent: nat, f: nat)

  /** The open contenders among the first k offsets of entry i, in order. */
  function EntryCandidates(m: array2<Node>, nodes: seq<Point>, parents: seq<int>, end: Point, i: nat, k: nat): seq<Candidate>
    reads m
    requires Shaped(nodes, parents) && i < |nodes| && k <= 4
    decreases k
  {
    if k == 0 then []
    else
      var p := Add(nodes[i], Steps[k - 1]);
      EntryCandidates(m, nodes, parents, end, i, k - 1) +
        (if Open(m, nodes, p) then [Candidate(p, i, Cost(nodes, parents, end, i, p))] else [])
  }

  /** The open contenders of entries 0 .. i-1, in scan order. */
  function PassCandidates(m: array2<Node>, nodes: seq<Point>, parents: seq<int>, end: Point, i: nat): seq<Candidate>
    reads m
    requires Shaped(nodes, parents) && i <= |nodes|
    decreases i
  {
    if i == 0 then []
    else PassCandidates(m, nodes, parents, end, i - 1) + EntryCandidates(m, nodes, parents, end, i - 1, 4)
  }

  /** The index of the first candidate of least cost. */
  function FirstLeast(cs: seq<Candidate>): (k: nat)
    requires cs != []
    ensures k < |cs|
    ensures forall j :: 0 <= j < |cs| ==> cs[k].f <= cs[j].f
    ensures forall j :: 0 <= j < k ==> cs[k].f < cs[j].f
  {
    if |cs| == 1 then 0
    else
      var k := FirstLeast(cs[..|cs| - 1]);
      if cs[|cs| - 1].f < cs[k].f then |cs| - 1 else k
  }

  /** The candidate a pass appends, or None when there is no open contender. */
  function Selected(m: array2<Node>, nodes: seq<Point>, parents: seq<int>, end: Point): Option<Candidate>
    reads m
    requires Shaped(nodes, parents)
  {
    var cs := PassCandidates(m, nodes, parents, end, |nodes|);
    if cs == [] then None else Some(cs[FirstLeast(cs)])
  }

  lemma {:induction false} EntryCandidateFacts(m: array2<Node>, nodes: seq<Point>, parents: seq<int>, end: Point, i: nat, k: nat, c: Candidate)
    requires Shaped(nodes, parents) && i < |nodes| && k <= 4
    requires c in EntryCandidates(m, nodes, parents, end, i, k)
    ensures c.parent == i && Open(m, nodes, c.point) && Adjacent(nodes[i], c.point)
    ensures c.f == Cost(nodes, parents, end, i, c.point)
  {
    var p := Add(nodes[i], Steps[k - 1]);
    if c in EntryCandidates(m, nodes, parents, end, i, k - 1) {
      EntryCandidateFacts(m, nodes, parents, end, i, k - 1, c);
    } else {
      StepAdjacent(nodes[i], k - 1);
    }
  }

  lemma {:induction false} PassCandidateFacts(m: array2<Node>, nodes: seq<Point>, parents: seq<int>, end: Point, i: nat, c: Candidate)
    requires Shaped(nodes, parents) && i <= |nodes|
    requires c in PassCandidates(m, nodes, parents, end, i)
    ensures c.parent < i && Open(m, nodes, c.point) && Adjacent(nodes[c.parent], c.point)
    ensures c.f == Cost(nodes, parents, end, c.parent, c.point)
  {
    if c in PassCandidates(m, nodes, parents, end, i - 1) {
      PassCandidateFacts(m, nodes, parents, end, i - 1, c);
    } else {
      EntryCandidateFacts(m, nodes, parents, end, i - 1, 4, c);
    }
  }

  lemma {:induction false} EntryCandidateComplete(m: array2<Node>, nodes: seq<Point>, parents: seq<int>, end: Point, i: nat, k: nat, s: nat)
    requires Shaped(nodes, parents) && i < |nodes| && s < k <= 4
    requires Open(m, nodes, Add(nodes[i], Steps[s]))
    ensures var p := Add(nodes[i], Steps[s]);
      Candidate(p, i, Cost(nodes, parents, end, i, p)) in EntryCandidates(m, nodes, parents, end, i, k)
  {
    if s < k - 1 {
      EntryCandidateComplete(m, nodes, parents, end, i, k - 1, s);
    }
  }

  lemma {:induction false} PassCandidateComplete(m: array2<Node>, nodes: seq<Point>, parents: seq<int>, end: Point, i: nat, j: nat, s: nat)
    requires Shaped(nodes, parents) && j < i <= |nodes| && s < 4
    requires Open(m, nodes, Add(nodes[j], Steps[s]))
    ensures var p := Add(nodes[j], Steps[s]);
      Candidate(p, j, Cost(nodes, parents, end, j, p)) in PassCandidates(m, nodes, parents, end, i)
  {
    if j < i - 1 {
      PassCandidateComplete(m, nodes, parents, end, i - 1, j, s);
    } else {
      EntryCandidateComplete(m, nodes, parents, end, j, 4, s);
    }
  }

  /** The appended point is open and one orthogonal step from its parent,
      an entry already recorded, and its f is the cost through that parent. */
  lemma SelectedIsOpenStep(m: array2<Node>, nodes: seq<Point>, parents: seq<int>, end: Point)
    requires Shaped(nodes, parents)
    requires Selected(m, nodes, parents, end).Some?
    ensures var c := Selected(m, nodes, parents, end).value;
      c.parent < |nodes| && Open(m, nodes, c.point) && Adjacent(nodes[c.parent], c.point) &&
      c.f == Cost(nodes, parents, end, c.parent, c.point)
  {
    var cs := PassCandidates(m, nodes, parents, end, |nodes|);
    PassCandidateFacts(m, nodes, parents, end, |nodes|, cs[FirstLeast(cs)]);
  }

  /** No open contender of any recorded entry costs less than the one a
      pass appends. */
  lemma SelectedIsLeast(m: array2<Node>, nodes: seq<Point>, parents: seq<int>, end: Point, j: nat, s: nat)
    requires Shaped(nodes, parents) && j < |nodes| && s < 4
    requires Open(m, nodes, Add(nodes[j], Steps[s]))
    ensures Selected(m, nodes, parents, end).Some?
    ensures Selected(m, nodes, parents, end).value.f <= Cost(nodes, parents, end, j, Add(nodes[j], Steps[s]))
  {
    PassCandidateComplete(m, nodes, parents, end, |nodes|, j, s);
    var cs := PassCandidates(m, nodes, parents, end, |nodes|);
    var p := Add(nodes[j], Steps[s]);
    var t :| 0 <= t < |cs| && cs[t] == Candidate(p, j, Cost(nodes, parents, end, j, p));
  }

  /** A pass finds nothing exactly when every orthogonal neighbour of
      every recorded entry is recorded, outside the grid or an obstacle. */
  lemma SelectedNoneIff(m: array2<Node>, nodes: seq<Point>, parents: seq<int>, end: Point)
    requires Shaped(nodes, parents)
    ensures Selected(m, nodes, parents, end).None? <==>
      forall j, s :: 0 <= j < |nodes| && 0 <= s < 4 ==> !Open(m, nodes, Add(nodes[j], Steps[s]))
  {
    if Selected(m, nodes, parents, end).None? {
      forall j, s | 0 <= j < |nodes| && 0 <= s < 4
        ensures !Open(m, nodes, Add(nodes[j], Steps[s]))
      {
        if Open(m, nodes, Add(nodes[j], Steps[s])) {
          SelectedIsLeast(m, nodes, parents, end, j, s);
        }
      }
    } else {
      SelectedIsOpenStep(m, nodes, parents, end);
      var c := Selected(m, nodes, parents, end).value;
      var s: nat :| s < 4 && c.point == Add(nodes[c.parent], Steps[s]) by {
        AdjacentIsStep(nodes[c.parent], c.point);
      }
    }
  }

  lemma AdjacentIsStep(a: Point, b: Point)
    requires Adjacent(a, b)
    ensures exists s: nat :: s < 4 && b == Add(a, Steps[s])
  {
    if b == Add(a, Steps[0]) {
    } else if b == Add(a, Steps[1]) {
    } else if b == Add(a, Steps[2]) {
    } else {
      assert b == Add(a, Steps[3]);
    }
  }

  /** What the nested loops of a pass keep: the first least-cost candidate
      of those seen so far, or cost -1 when none was seen. */
  predicate Tracks(cs: seq<Candidate>, point: Point, cost: int, parent: int)
  {
    if cs == [] then cost == -1
    else var c := cs[FirstLeast(cs)]; point == c.point && cost == c.f && parent == c.parent
  }

  lemma TracksAppend(cs: seq<Candidate>, c: Candidate, point: Point, cost: int, parent: int)
    requires Tracks(cs, point, cost, parent)
    ensures if c.f < cost || cost == -1 then Tracks(cs + [c], c.point, c.f, c.parent)
            else Tracks(cs + [c], point, cost, parent)
  {
    assert (cs + [c])[..|cs|] == cs;
  }

  /** Scanning offset k of entry i adds at most its own candidate. */
  lemma ScanStep(m: array2<Node>, nodes: seq<Point>, parents: seq<int>, end: Point, i: nat, k: nat)
    requires Shaped(nodes, parents) && i < |nodes| && k < 4
    ensures var p := Add(nodes[i], Steps[k]);
      PassCandidates(m, nodes, parents, end, i) + EntryCandidates(m, nodes, parents, end, i, k + 1) ==
      PassCandidates(m, nodes, parents, end, i) + EntryCandidates(m, nodes, parents, end, i, k) +
        (if Open(m, nodes, p) then [Candidate(p, i, Cost(nodes, parents, end, i, p))] else [])
  {
  }

  /** The body of the pass for contender k of entry i: an open contender is
      costed and replaces the best so far when strictly cheaper, or when
      there is none yet. */
  method ScanContender(m: array2<Node>, nodes: seq<Point>, parents: seq<int>, end: Point, i: nat, k: nat,
                       point: Point, cost: int, parent: int)
    returns (point': Point, cost': int, parent': int)
    requires Shaped(nodes, parents) && i < |nodes| && k < 4
    requires Tracks(PassCandidates(m, nodes, parents, end, i) + EntryCandidates(m, nodes, parents, end, i, k), point, cost, parent)
    ensures Tracks(PassCandidates(m, nodes, parents, end, i) + EntryCandidates(m, nodes, parents, end, i, k + 1), point', cost', parent')
  {
    ghost var seen := PassCandidates(m, nodes, parents, end, i) + EntryCandidates(m, nodes, parents, end, i, k);
    point', cost', parent' := point, cost, parent;
    var contender := Add(nodes[i], Steps[k]);
    ScanStep(m, nodes, parents, end, i, k);
    if contender !in nodes {
      if 0 <= contender.x < m.Length0 && 0 <= contender.y < m.Length1 && m[contender.x, contender.y] != Obstical {
        var hCostLhs := TenDist(contender, nodes[i]);
        var hCostRhs := CalculateHCost(nodes, parents, i);
        var gCost := TenDist(contender, end);
        var fCost := hCostLhs + hCostRhs + gCost;
        TracksAppend(seen, Candidate(contender, i, fCost), point, cost, parent);
        if fCost < cost || cost == -1 {
          point', parent', cost' := contender, i, fCost;
        }
      } else {
        assert seen + [] == seen;
      }
    } else {
      assert seen + [] == seen;
    }
  }

  /** One pass of the search loop: scan every recorded entry's four
      contenders and keep the open one of least f, the first on ties. */
  method LowestCostContender(m: array2<Node>, nodes: seq<Point>, parents: seq<int>, end: Point)
    returns (point: Point, cost: int, parent: int)
    requires Shaped(nodes, parents)
    ensures cost < 0 <==> Selected(m, nodes, parents, end).None?
    ensures cost >= 0 ==> parent >= 0 && Selected(m, nodes, parents, end) == Some(Candidate(point, parent, cost))
  {
    point, cost, parent := Point(0, 0), -1, -1;
    var len := |nodes|;
    var i := 0;
    while i < len
      invariant 0 <= i <= len
      invariant Tracks(PassCandidates(m, nodes, parents, end, i), point, cost, parent)
    {
      var k := 0;
      assert PassCandidates(m, nodes, parents, end, i) + EntryCandidates(m, nodes, parents, end, i, 0) == PassCandidates(m, nodes, parents, end, i);
      while k < 4
        invariant 0 <= k <= 4
        invariant Tracks(PassCandidates(m, nodes, parents, end, i) + EntryCandidates(m, nodes, parents, end, i, k), point, cost, parent)
      {
        point, cost, parent := ScanContender(m, nodes, parents, end, i, k, point, cost, parent);
        k := k + 1;
      }
      i := i + 1;
    }
  }

  // ---------------------------------------------------------------
  // The search loop
  // ---------------------------------------------------------------

  /** The invariant of the search record: well-linked, stepwise, without
      repetition, and every entry an in-grid cell that is not an obstacle. */
  predicate Record(m: array2<Node>, nodes: seq<Point>, parents: seq<int>)
    reads m
  {
    && Shaped(nodes, parents)
    && |nodes| >= 1
    && Stepwise(nodes, parents)
    && Distinct(nodes)
    && forall i :: 0 <= i < |nodes| ==> InBounds(m.Length0, m.Length1, nodes[i]) && m[nodes[i].x, nodes[i].y] != Obstical
  }

  /** A record never outgrows the grid: it has at most width * height entries. */
  lemma RecordBound(m: array2<Node>, nodes: seq<Point>, parents: seq<int>)
    requires Record(m, nodes, parents)
    ensures |nodes| <= |Cells(m.Length0, m.Length1)| == m.Length0 * m.Length1
  {
    CellsFacts(m.Length0, m.Length1);
    DistinctBound(nodes, Cells(m.Length0, m.Length1));
  }

  /** Appending the selected candidate keeps the record invariant. */
  lemma AppendSelected(m: array2<Node>, nodes: seq<Point>, parents: seq<int>, end: Point)
    requires Record(m, nodes, parents)
    requires Selected(m, nodes, parents, end).Some?
    ensures var c := Selected(m, nodes, parents, end).value;
      Record(m, nodes + [c.point], parents + [c.parent])
  {
    SelectedIsOpenStep(m, nodes, parents, end);
  }

  datatype Outcome = Reached(nodes: seq<Point>, parents: seq<int>) | Exhausted

  /** The search loop from a given record: pass after pass, until End is
      appended or a pass finds nothing. */
  function Search(m: array2<Node>, end: Point, nodes: seq<Point>, parents: seq<int>): Outcome
    reads m
    requires Record(m, nodes, parents)
    decreases |Cells(m.Length0, m.Length1)| - |nodes|
  {
    match Selected(m, nodes, parents, end)
    case None => Exhausted
    case Some(c) =>
      AppendSelected(m, nodes, parents, end);
      RecordBound(m, nodes + [c.point], parents + [c.parent]);
      if c.point == end then Reached(nodes + [c.point], parents + [c.parent])
      else Search(m, end, nodes + [c.point], parents + [c.parent])
  }

  /** A finished search extends the record it started from, keeps the
      record invariant, ends with End and contains End nowhere else among
      the new entries. */
  lemma {:induction false} SearchReached(m: array2<Node>, end: Point, nodes: seq<Point>, parents: seq<int>, rn: seq<Point>, rp: seq<int>)
    requires Record(m, nodes, parents)
    requires Search(m, end, nodes, parents) == Reached(rn, rp)
    ensures Record(m, rn, rp)
    ensures |nodes| < |rn| && rn[..|nodes|] == nodes && rp[..|nodes|] == parents
    ensures rn[|rn| - 1] == end
    ensures forall j :: |nodes| <= j < |rn| - 1 ==> rn[j] != end
    decreases |Cells(m.Length0, m.Length1)| - |nodes|
  {
    var c := Selected(m, nodes, parents, end).value;
    var nodes', parents' := nodes + [c.point], parents + [c.parent];
    AppendSelected(m, nodes, parents, end);
    RecordBound(m, nodes', parents');
    if c.point == end {
      assert rn[..|nodes|] == nodes && rp[..|nodes|] == parents;
    } else {
      SearchReached(m, end, nodes', parents', rn, rp);
      assert rn[..|nodes'|][..|nodes|] == rn[..|nodes|];
      assert rp[..|nodes'|][..|nodes|] == rp[..|nodes|];
      assert rn[|nodes|] == rn[..|nodes'|][|nodes|];
    }
  }

  /** Every entry a finished search appended is the selection of the pass
      that ran on the record before it. */
  lemma {:induction false} SearchSelects(m: array2<Node>, end: Point, nodes: seq<Point>, parents: seq<int>, rn: seq<Point>, rp: seq<int>, j: nat)
    requires Record(m, nodes, parents)
    requires Search(m, end, nodes, parents) == Reached(rn, rp)
    requires |nodes| <= j < |rn| == |rp|
    ensures Shaped(rn[..j], rp[..j])
    ensures Selected(m, rn[..j], rp[..j], end).Some?
    ensures Selected(m, rn[..j], rp[..j], end).value.point == rn[j]
    ensures Selected(m, rn[..j], rp[..j], end).value.parent == rp[j]
    decreases |Cells(m.Length0, m.Length1)| - |nodes|
  {
    var c := Selected(m, nodes, parents, end).value;
    var nodes', parents' := nodes + [c.point], parents + [c.parent];
    AppendSelected(m, nodes, parents, end);
    RecordBound(m, nodes', parents');
    SearchReached(m, end, nodes, parents, rn, rp);
    if j == |nodes| {
      if c.point == end {
        assert rn == nodes' && rp == parents';
      } else {
        SearchReached(m, end, nodes', parents', rn, rp);
        assert rn[j] == rn[..|nodes'|][j];
        assert rp[j] == rp[..|nodes'|][j];
      }
      assert rn[..j] == nodes && rp[..j] == parents;
    } else {
      SearchSelects(m, end, nodes', parents', rn, rp, j);
    }
  }

  // ---------------------------------------------------------------
  // Painting the optimal chain
  // ---------------------------------------------------------------

  /** Whether entry i is flagged by the walk from entry `from` along parent
      links, which flags every entry it meets before one whose parent is -1. */
  predicate OnChain(parents: seq<int>, from: nat, i: int)
    requires Links(parents) && from < |parents|
    decreases from
  {
    parents[from] != -1 && (i == from || OnChain(parents, parents[from], i))
  }

  /** Each flagged entry is not the start, and its parent is the start or
      flagged too: the flagged entries with entry 0 form the chain. */
  lemma {:induction false} OnChainLinks(parents: seq<int>, from: nat, i: int)
    requires Links(parents) && from < |parents| && OnChain(parents, from, i)
    ensures 0 < i <= from
    ensures parents[i] == 0 || OnChain(parents, from, parents[i])
    decreases from
  {
    if i != from {
      OnChainLinks(parents, parents[from], i);
    } else if parents[i] != 0 {
      assert OnChain(parents, parents[from], parents[from]);
    }
  }

  /** The output of `find_path` for a finished record. */
  function Annotate(nodes: seq<Point>, parents: seq<int>): seq<PathPoint>
    requires Shaped(nodes, parents) && |nodes| >= 1
  {
    seq(|nodes|, i requires 0 <= i < |nodes| => PathPoint(nodes[i], OnChain(parents, |nodes| - 1, i), None))
  }

  /** The output loop: one unflagged entry per record entry, then the
      parent walk from the last entry flags the optimal chain. */
  method BuildResult(nodes: seq<Point>, parents: seq<int>) returns (ret: seq<PathPoint>)
    requires Shaped(nodes, parents) && |nodes| >= 1
    ensures ret == Annotate(nodes, parents)
  {
    ret := [];
    var j := 0;
    while j < |nodes|
      invariant 0 <= j <= |nodes| && |ret| == j
      invariant forall t :: 0 <= t < j ==> ret[t] == PathPoint(nodes[t], false, None)
    {
      ret := ret + [PathPoint(nodes[j], false, None)];
      j := j + 1;
    }
    var i := |nodes| - 1;
    while parents[i] != -1
      invariant 0 <= i < |nodes| && |ret| == |nodes|
      invariant forall t :: 0 <= t < |nodes| ==> ret[t].point == nodes[t] && ret[t].text == None
      invariant forall t :: 0 <= t < |nodes| ==> (OnChain(parents, |nodes| - 1, t) <==> ret[t].isOptimal || OnChain(parents, i, t))
      decreases i
    {
      ret := ret[i := ret[i].(isOptimal := true)];
      i := parents[i];
    }
  }

  // ---------------------------------------------------------------
  // find_path
  // ---------------------------------------------------------------

  /** The whole of `find_path` as a function of the grid alone. */
  function FindPathSpec(m: array2<Node>): SearchResult
    reads m
  {
    var s, e := LastCell(m, Start), LastCell(m, End);
    if s.None? || e.None? then InvalidArgument
    else
      LastCellFound(m, Start);
      assert Record(m, [s.value], [-1]);
      match Search(m, e.value, [s.value], [-1])
      case Exhausted => NoPath
      case Reached(rn, rp) =>
        SearchReached(m, e.value, [s.value], [-1], rn, rp);
        Ok(Annotate(rn, rp))
  }

  /** `AStar::find_path`. The grid is only read; the result is determined
      by the grid's contents, so two calls on an unchanged grid agree. */
  method FindPath(m: array2<Node>) returns (r: SearchResult)
    ensures r == FindPathSpec(m)
  {
    var start, end := FindEndpoints(m);
    LastCellFound(m, Start);
    LastCellFound(m, End);
    if start.x < 0 || end.x < 0 {
      return InvalidArgument;
    }
    var nodes, parents := [start], [-1];
    while true
      invariant Record(m, nodes, parents)
      invariant Search(m, end, nodes, parents) == Search(m, end, [start], [-1])
      decreases |Cells(m.Length0, m.Length1)| - |nodes|
    {
      RecordBound(m, nodes, parents);
      var point, cost, parent := LowestCostContender(m, nodes, parents, end);
      if cost < 0 {
        return NoPath;
      }
      AppendSelected(m, nodes, parents, end);
      nodes, parents := nodes + [point], parents + [parent];
      RecordBound(m, nodes, parents);
      if point == end {
        break;
      }
    }
    var ret := BuildResult(nodes, parents);
    r := Ok(ret);
  }

  /** The invalid-argument outcome happens exactly when the grid lacks a
      Start or an End cell. */
  lemma FindPathInvalid(m: array2<Node>)
    ensures FindPathSpec(m) == InvalidArgument <==> !HasCell(m, Start) || !HasCell(m, End)
  {
    LastCellFound(m, Start);
    LastCellFound(m, End);
  }

  /** The flags of an annotated record: the start entry is not flagged,
      and a last entry with a parent is; every flagged entry has an earlier
      entry, the start or a flagged one, one orthogonal step away. */
  lemma AnnotateChain(nodes: seq<Point>, parents: seq<int>)
    requires Shaped(nodes, parents) && |nodes| >= 2 && Stepwise(nodes, parents)
    ensures var path := Annotate(nodes, parents);
      !path[0].isOptimal && path[|path| - 1].isOptimal &&
      forall i :: 0 <= i < |path| && path[i].isOptimal ==>
        exists j :: 0 <= j < i && (j == 0 || path[j].isOptimal) && Adjacent(path[j].point, path[i].point)
  {
    var path := Annotate(nodes, parents);
    var last := |nodes| - 1;
    if OnChain(parents, last, 0) {
      OnChainLinks(parents, last, 0);
    }
    assert OnChain(parents, last, last);
    forall i | 0 <= i < |path| && path[i].isOptimal
      ensures exists j :: 0 <= j < i && (j == 0 || path[j].isOptimal) && Adjacent(path[j].point, path[i].point)
    {
      OnChainLinks(parents, last, i);
      var j := parents[i];
      assert Adjacent(path[j].point, path[i].point);
    }
  }

  /** The record behind a successful search: it runs from the last Start
      cell to the last End cell and keeps the record invariant. */
  lemma FoundRecord(m: array2<Node>, path: seq<PathPoint>) returns (rn: seq<Point>, rp: seq<int>)
    requires FindPathSpec(m) == Ok(path)
    ensures HasCell(m, Start) && HasCell(m, End)
    ensures LastCell(m, Start).Some? && LastCell(m, End).Some?
    ensures Record(m, rn, rp) && 2 <= |rn| <= m.Length0 * m.Length1
    ensures rn[0] == LastCell(m, Start).value && rn[|rn| - 1] == LastCell(m, End).value
    ensures path == Annotate(rn, rp)
  {
    LastCellFound(m, Start);
    LastCellFound(m, End);
    var s, e := LastCell(m, Start).value, LastCell(m, End).value;
    assert Record(m, [s], [-1]);
    var o := Search(m, e, [s], [-1]);
    assert o.Reached?;
    rn, rp := o.nodes, o.parents;
    SearchReached(m, e, [s], [-1], rn, rp);
    RecordBound(m, rn, rp);
    assert rn[0] == rn[..1][0] == s;
  }

  /** What a successful search returns: the record in insertion order,
      from the (last) Start cell to the (last) End cell, every point a
      distinct non-obstacle cell of the grid, every text empty, and at most
      width * height entries. */
  lemma FoundPath(m: array2<Node>, path: seq<PathPoint>)
    requires FindPathSpec(m) == Ok(path)
    ensures HasCell(m, Start) && HasCell(m, End)
    ensures LastCell(m, Start).Some? && LastCell(m, End).Some?
    ensures 2 <= |path| <= m.Length0 * m.Length1
    ensures path[0].point == LastCell(m, Start).value
    ensures path[|path| - 1].point == LastCell(m, End).value
    ensures forall i :: 0 <= i < |path| ==>
      path[i].text == None && InBounds(m.Length0, m.Length1, path[i].point) &&
      m[path[i].point.x, path[i].point.y] != Obstical
    ensures forall i, j :: 0 <= i < j < |path| ==> path[i].point != path[j].point
  {
    var rn, rp := FoundRecord(m, path);
    assert |path| == |rn|;
    forall i | 0 <= i < |path|
      ensures path[i].point == rn[i] && path[i].text == None
    {
    }
    assert Distinct(rn);
  }

  /** The flags of a successful search: the start entry is not flagged
      and the End entry is, and the flagged entries (with entry 0) form a
      chain of orthogonal steps that reaches End. */
  lemma FoundChain(m: array2<Node>, path: seq<PathPoint>)
    requires FindPathSpec(m) == Ok(path)
    ensures 2 <= |path|
    ensures !path[0].isOptimal && path[|path| - 1].isOptimal
    ensures forall i :: 0 <= i < |path| && path[i].isOptimal ==>
      exists j :: 0 <= j < i && (j == 0 || path[j].isOptimal) && Adjacent(path[j].point, path[i].point)
  {
    var rn, rp := FoundRecord(m, path);
    AnnotateChain(rn, rp);
  }

  /** A walk over the grid: in-bounds, non-obstacle cells, each one
      orthogonal step from the one before. */
  predicate Walk(m: array2<Node>, walk: seq<Point>)
    reads m
  {
    && (forall i :: 0 <= i < |walk| ==> InBounds(m.Length0, m.Length1, walk[i]) && m[walk[i].x, walk[i].y] != Obstical)
    && (forall i :: 0 < i < |walk| ==> Adjacent(walk[i - 1], walk[i]))
  }

  /** A search that runs out of candidates from a record without End ends
      at a larger record, still without End, on which a pass selects
      nothing. */
  lemma {:induction false} ExhaustedClosed(m: array2<Node>, end: Point, nodes: seq<Point>, parents: seq<int>)
    returns (rn: seq<Point>, rp: seq<int>)
    requires Record(m, nodes, parents) && end !in nodes
    requires Search(m, end, nodes, parents) == Exhausted
    ensures Record(m, rn, rp) && end !in rn && Selected(m, rn, rp, end).None?
    ensures forall p :: p in nodes ==> p in rn
    decreases |Cells(m.Length0, m.Length1)| - |nodes|
  {
    match Selected(m, nodes, parents, end)
    case None =>
      rn, rp := nodes, parents;
    case Some(c) =>
      AppendSelected(m, nodes, parents, end);
      RecordBound(m, nodes + [c.point], parents + [c.parent]);
      rn, rp := ExhaustedClosed(m, end, nodes + [c.point], parents + [c.parent]);
  }

  /** A record on which a pass selects nothing is closed under walks: a
      walk that starts in it stays in it. */
  lemma {:induction false} ClosedContainsWalk(m: array2<Node>, rn: seq<Point>, rp: seq<int>, end: Point, walk: seq<Point>)
    requires Record(m, rn, rp) && Selected(m, rn, rp, end).None?
    requires |walk| >= 1 && walk[0] in rn && Walk(m, walk)
    ensures walk[|walk| - 1] in rn
  {
    if |walk| > 1 {
      var pre := walk[..|walk| - 1];
      ClosedContainsWalk(m, rn, rp, end, pre);
      var q, last := walk[|walk| - 2], walk[|walk| - 1];
      assert q == pre[|pre| - 1];
      var j :| 0 <= j < |rn| && rn[j] == q;
      AdjacentIsStep(q, last);
      var s: nat :| s < 4 && last == Add(q, Steps[s]);
      SelectedNoneIff(m, rn, rp, end);
      assert !Open(m, rn, Add(rn[j], Steps[s]));
    }
  }

  /** The `runtime_error` outcome means End is unreachable: no walk runs
      from the (last) Start cell to the (last) End cell. */
  lemma NoPathUnreachable(m: array2<Node>, walk: seq<Point>)
    requires FindPathSpec(m) == NoPath
    ensures LastCell(m, Start).Some? && LastCell(m, End).Some?
    ensures |walk| >= 1 && walk[0] == LastCell(m, Start).value && Walk(m, walk) ==>
      walk[|walk| - 1] != LastCell(m, End).value
  {
    LastCellFound(m, Start);
    LastCellFound(m, End);
    var s, e := LastCell(m, Start).value, LastCell(m, End).value;
    assert Record(m, [s], [-1]);
    var rn, rp := ExhaustedClosed(m, e, [s], [-1]);
    if |walk| >= 1 && walk[0] == s && Walk(m, walk) {
      ClosedContainsWalk(m, rn, rp, e, walk);
    }
  }

  /** On the application's 15 x 15 grid a result has at most 225 entries. */
  lemma StandardPathBound(m: array2<Node>, path: seq<PathPoint>)
    requires StandardSize(m) && FindPathSpec(m) == Ok(path)
    ensures |path| <= 225
  {
    FoundPath(m, path);
  }
}
