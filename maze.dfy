/** The randomised depth-first maze carver. A stack of cells with even
    coordinates grows from (0, 0); around the top cell every in-grid
    neighbour that could join two corridors is made an obstacle, and one
    of the orthogonal walls leading to an unvisited cell two steps away is
    carved open at random. */
module Maze {
  import opened Grid

  /** The eight neighbour offsets, in the order they are examined. */
  const WallOffsets: seq<Point> := [
    Point(-1, -1), Point(-1, 0), Point(-1, 1), Point(0, 1),
    Point(0, -1), Point(1, -1), Point(1, 0), Point(1, 1)
  ]

  predicate IsDiagonal(d: Point)
  {
    d.x != 0 && d.y != 0
  }

  /** Whether offset d is a direction option at cur: orthogonal, with its wall
      cell inside the grid and the cell beyond it not yet visited. */
  predicate IsOption(w: int, h: int, cur: Point, visited: set<Point>, d: Point)
  {
    InBounds(w, h, Add(cur, d)) && !IsDiagonal(d) && Add(Add(cur, d), d) !in visited
  }

  /** The direction options among the offsets ds, in order. */
  function Options(w: int, h: int, cur: Point, visited: set<Point>, ds: seq<Point>): seq<Point>
  {
    if ds == [] then []
    else (if IsOption(w, h, cur, visited, ds[0]) then [ds[0]] else []) + Options(w, h, cur, visited, ds[1..])
  }

  /** Scanning one more offset appends at most that offset to the options. */
  lemma {:induction false} OptionsSnoc(w: int, h: int, cur: Point, visited: set<Point>, ds: seq<Point>, d: Point)
    ensures Options(w, h, cur, visited, ds + [d]) ==
      Options(w, h, cur, visited, ds) + (if IsOption(w, h, cur, visited, d) then [d] else [])
  {
    if ds == [] {
      assert [] + [d] == [d];
    } else {
      assert (ds + [d])[0] == ds[0] && (ds + [d])[1..] == ds[1..] + [d];
      OptionsSnoc(w, h, cur, visited, ds[1..], d);
    }
  }

  /** An offset is among the options exactly when it is one of ds and
      satisfies the option test. */
  lemma {:induction false} OptionsMembers(w: int, h: int, cur: Point, visited: set<Point>, ds: seq<Point>, d: Point)
    ensures d in Options(w, h, cur, visited, ds) <==> d in ds && IsOption(w, h, cur, visited, d)
  {
    if ds != [] {
      OptionsMembers(w, h, cur, visited, ds[1..], d);
      assert d in ds <==> d == ds[0] || d in ds[1..];
    }
  }

  /** Whether a wall scan over the offsets ds around cur makes cell p an
      obstacle: p is cur plus one of ds, and that offset is diagonal or
      the cell beyond p is unvisited. */
  predicate MarkedBy(cur: Point, visited: set<Point>, p: Point, ds: seq<Point>)
  {
    var d := Point(p.x - cur.x, p.y - cur.y);
    d in ds && (IsDiagonal(d) || Add(p, d) !in visited)
  }

  /** Whether the wall scan of an iteration at cur makes cell p an obstacle.
      A wall whose far cell is visited is left alone. */
  predicate Walled(cur: Point, visited: set<Point>, p: Point)
  {
    MarkedBy(cur, visited, p, WallOffsets)
  }

  lemma MarkedByAppend(cur: Point, visited: set<Point>, p: Point, ds: seq<Point>, d: Point)
    ensures MarkedBy(cur, visited, p, ds + [d]) <==>
      MarkedBy(cur, visited, p, ds) || (p == Add(cur, d) && (IsDiagonal(d) || Add(p, d) !in visited))
  {
    assert forall e :: e in ds + [d] <==> e in ds || e == d;
  }

  /** The effect of a scan on the wall cell of each offset: a diagonal wall
      always becomes an obstacle, an orthogonal one exactly when the cell
      beyond it is unvisited, which is also when it is a direction option
      (if inside the grid). */
  lemma WallEffect(w: int, h: int, cur: Point, visited: set<Point>, d: Point)
    requires d in WallOffsets
    ensures IsDiagonal(d) ==> Walled(cur, visited, Add(cur, d))
    ensures !IsDiagonal(d) ==> (Walled(cur, visited, Add(cur, d)) <==> Add(Add(cur, d), d) !in visited)
    ensures d in Options(w, h, cur, visited, WallOffsets) <==>
      InBounds(w, h, Add(cur, d)) && !IsDiagonal(d) && Add(Add(cur, d), d) !in visited
  {
    var p := Add(cur, d);
    assert Point(p.x - cur.x, p.y - cur.y) == d;
    OptionsMembers(w, h, cur, visited, WallOffsets, d);
  }

  /** A scan writes only the eight neighbours of the current cell. */
  lemma WalledNear(cur: Point, visited: set<Point>, p: Point)
    requires Walled(cur, visited, p)
    ensures p != cur && -1 <= p.x - cur.x <= 1 && -1 <= p.y - cur.y <= 1
  {
    var d := Point(p.x - cur.x, p.y - cur.y);
    assert d in WallOffsets;
  }

  /** The index that `rand() % dir_opts.size()` picks for a draw. */
  function ChooseIndex(draw: nat, n: nat): (k: nat)
    requires n > 0
    ensures k < n
  {
    draw % n
  }

  /** The wall scan of one iteration: set walls to obstacles and collect
      the direction options. */
  method ScanWalls(m: array2<Node>, cur: Point, visited: set<Point>) returns (dirOpts: seq<Point>)
    modifies m
    ensures dirOpts == Options(m.Length0, m.Length1, cur, visited, WallOffsets)
    ensures forall x, y :: 0 <= x < m.Length0 && 0 <= y < m.Length1 ==>
      m[x, y] == if Walled(cur, visited, Point(x, y)) then Obstical else old(m[x, y])
  {
    dirOpts := ScanOffsets(m, cur, visited, WallOffsets);
  }

  /** The working list from position i on matches the offsets from
      position j on, before and after erasing its element i. */
  lemma Aligned(offsets: seq<Point>, i: nat, ds: seq<Point>, j: nat)
    requires i < |offsets| && j <= |ds| && offsets[i..] == ds[j..]
    ensures j < |ds| && offsets[i] == ds[j]
    ensures offsets[i + 1..] == ds[j + 1..]
    ensures (offsets[..i] + offsets[i + 1..])[i..] == ds[j + 1..]
  {
    assert offsets[i] == offsets[i..][0];
    assert offsets[i + 1..] == offsets[i..][1..];
    assert (offsets[..i] + offsets[i + 1..])[i..] == offsets[i + 1..];
  }

  /** Scanning offset ds[j] after ds[..j]: the options grow by at most
      ds[j], and the marked cells by at most the wall cell of ds[j]. */
  lemma ScanPrefix(w: int, h: int, cur: Point, visited: set<Point>, ds: seq<Point>, j: nat)
    requires j < |ds|
    ensures Options(w, h, cur, visited, ds[..j + 1]) ==
      Options(w, h, cur, visited, ds[..j]) + (if IsOption(w, h, cur, visited, ds[j]) then [ds[j]] else [])
    ensures forall p :: MarkedBy(cur, visited, p, ds[..j + 1]) <==>
      MarkedBy(cur, visited, p, ds[..j]) || (p == Add(cur, ds[j]) && (IsDiagonal(ds[j]) || Add(p, ds[j]) !in visited))
  {
    assert ds[..j + 1] == ds[..j] + [ds[j]];
    OptionsSnoc(w, h, cur, visited, ds[..j], ds[j]);
    forall p
      ensures MarkedBy(cur, visited, p, ds[..j + 1]) <==>
        MarkedBy(cur, visited, p, ds[..j]) || (p == Add(cur, ds[j]) && (IsDiagonal(ds[j]) || Add(p, ds[j]) !in visited))
    {
      MarkedByAppend(cur, visited, p, ds[..j], ds[j]);
    }
  }

  /** The body of the scan for an offset d whose wall cell is inside the
      grid: the wall becomes an obstacle when d is diagonal or the cell
      beyond it is unvisited, and d is an option when it is orthogonal and
      that cell is unvisited. */
  method MarkWall(m: array2<Node>, cur: Point, visited: set<Point>, d: Point) returns (isOption: bool)
    requires InBounds(m.Length0, m.Length1, Add(cur, d))
    modifies m
    ensures isOption == IsOption(m.Length0, m.Length1, cur, visited, d)
    ensures forall x, y :: 0 <= x < m.Length0 && 0 <= y < m.Length1 ==>
      m[x, y] == if Point(x, y) == Add(cur, d) && (IsDiagonal(d) || Add(Point(x, y), d) !in visited) then Obstical
                 else old(m[x, y])
  {
    var wall := Add(cur, d);
    var potential := Add(wall, d);
    var isIn := potential in visited;
    var isDiagonal := d.x != 0 && d.y != 0;
    isOption := !isDiagonal && !isIn;
    if isDiagonal || !isIn {
      m[wall.x, wall.y] := Obstical;
    }
  }

  /** The scanning loop over a list of offsets ds: an offset whose wall cell
      is outside the grid is erased from the working list, any other one
      marks its wall and may become a direction option. */
  method ScanOffsets(m: array2<Node>, cur: Point, visited: set<Point>, ds: seq<Point>) returns (dirOpts: seq<Point>)
    modifies m
    ensures dirOpts == Options(m.Length0, m.Length1, cur, visited, ds)
    ensures forall x, y :: 0 <= x < m.Length0 && 0 <= y < m.Length1 ==>
      m[x, y] == if MarkedBy(cur, visited, Point(x, y), ds) then Obstical else old(m[x, y])
  {
    var offsets := ds;
    dirOpts := [];
    var i := 0;
    ghost var j := 0;
    while i < |offsets|
      invariant 0 <= i <= |offsets| && 0 <= j <= |ds|
      invariant offsets[i..] == ds[j..]
      invariant dirOpts == Options(m.Length0, m.Length1, cur, visited, ds[..j])
      invariant forall x, y :: 0 <= x < m.Length0 && 0 <= y < m.Length1 ==>
        m[x, y] == if MarkedBy(cur, visited, Point(x, y), ds[..j]) then Obstical else old(m[x, y])
      decreases |offsets| - i
    {
      Aligned(offsets, i, ds, j);
      ScanPrefix(m.Length0, m.Length1, cur, visited, ds, j);
      var wall := Add(cur, offsets[i]);
      if wall.x < 0 || wall.y < 0 || wall.x >= m.Length0 || wall.y >= m.Length1 {
        offsets := offsets[..i] + offsets[i + 1..];
        j := j + 1;
      } else {
        var isOption := MarkWall(m, cur, visited, offsets[i]);
        if isOption {
          dirOpts := dirOpts + [offsets[i]];
        }
        i, j := i + 1, j + 1;
      }
    }
    assert ds[..j] == ds;
  }

  /** One iteration of the carving loop, at the top of the stack: mark it
      visited and scan its walls; with no option pop it, otherwise carve
      the chosen wall open and push the cell beyond it. */
  method Step(m: array2<Node>, stack: seq<Point>, visited: set<Point>, rand: nat -> nat, draws: nat)
    returns (stack': seq<Point>, visited': set<Point>, draws': nat)
    requires stack != []
    modifies m
    ensures visited' == visited + {stack[|stack| - 1]}
    ensures Even(stack[|stack| - 1]) ==> forall x, y :: 0 <= x < m.Length0 && 0 <= y < m.Length1 && Even(Point(x, y)) ==>
      m[x, y] == old(m[x, y])
    ensures forall x, y :: 0 <= x < m.Length0 && 0 <= y < m.Length1 ==>
      m[x, y] == old(m[x, y]) || m[x, y] == Obstical || m[x, y] == Walkable
    ensures var cur := stack[|stack| - 1];
      var opts := Options(m.Length0, m.Length1, cur, visited', WallOffsets);
      if opts == [] then
        stack' == stack[..|stack| - 1] && draws' == draws &&
        forall x, y :: 0 <= x < m.Length0 && 0 <= y < m.Length1 ==>
          m[x, y] == if Walled(cur, visited', Point(x, y)) then Obstical else old(m[x, y])
      else
        var dir := opts[ChooseIndex(rand(draws), |opts|)];
        stack' == stack + [Add(Add(cur, dir), dir)] && draws' == draws + 1 &&
        forall x, y :: 0 <= x < m.Length0 && 0 <= y < m.Length1 ==>
          m[x, y] == if Point(x, y) == Add(cur, dir) then Walkable
                     else if Walled(cur, visited', Point(x, y)) then Obstical
                     else old(m[x, y])
  {
    var cur := stack[|stack| - 1];
    visited' := visited + {cur};
    var dirOpts := ScanWalls(m, cur, visited');
    if dirOpts == [] {
      stack', draws' := stack[..|stack| - 1], draws;
    } else {
      var dir := dirOpts[ChooseIndex(rand(draws), |dirOpts|)];
      draws' := draws + 1;
      OptionsMembers(m.Length0, m.Length1, cur, visited', WallOffsets, dir);
      var wallNode := Add(cur, dir);
      stack' := stack + [Add(wallNode, dir)];
      m[wallNode.x, wallNode.y] := Walkable;
      if Even(cur) {
        OptionTarget(m.Length0, m.Length1, cur, visited', dir);
      }
    }
    if Even(cur) {
      forall x, y | 0 <= x < m.Length0 && 0 <= y < m.Length1 && Even(Point(x, y))
        ensures !Walled(cur, visited', Point(x, y))
      {
        EvenNotWalled(cur, visited', Point(x, y));
      }
    }
  }

  predicate Even(p: Point)
  {
    p.x % 2 == 0 && p.y % 2 == 0
  }

  /** The points the carver can ever push: the grid with a border of one. */
  function Box(w: nat, h: nat): set<Point>
  {
    set x: int, y: int | -1 <= x <= w && -1 <= y <= h :: Point(x, y)
  }

  /** A cell with two even coordinates is never a neighbour of an even cell. */
  lemma EvenNotWalled(cur: Point, visited: set<Point>, p: Point)
    requires Even(cur) && Even(p)
    ensures !Walled(cur, visited, p)
  {
  }

  /** The option chosen from an even cell leads to an even cell two steps
      away, still within the grid's border. */
  lemma OptionTarget(w: nat, h: nat, cur: Point, visited: set<Point>, dir: Point)
    requires Even(cur)
    requires dir in WallOffsets && IsOption(w, h, cur, visited, dir)
    ensures !Even(Add(cur, dir))
    ensures Even(Add(Add(cur, dir), dir))
    ensures Add(Add(cur, dir), dir) in Box(w, h)
  {
    var far := Add(Add(cur, dir), dir);
    assert far == Point(far.x, far.y);
  }

  /** The bookkeeping of the carving loop, on values: `pushed` lists every
      cell ever pushed, in order and without repetition. All of them are
      even cells of the grid or its border; the visited cells are pushed
      ones; every pushed cell but the last is visited, and a last one not
      yet visited is the top of the stack. */
  ghost predicate Carving(w: nat, h: nat, pushed: seq<Point>, stack: seq<Point>, visited: set<Point>)
  {
    |pushed| >= 1 && Distinct(pushed) &&
    (forall t :: 0 <= t < |pushed| ==> Even(pushed[t]) && pushed[t] in Box(w, h)) &&
    (forall t :: 0 <= t < |stack| ==> stack[t] in pushed) &&
    (forall p :: p in visited ==> p in pushed) &&
    (forall t :: 0 <= t < |pushed| - 1 ==> pushed[t] in visited) &&
    (pushed[|pushed| - 1] !in visited ==> stack != [] && stack[|stack| - 1] == pushed[|pushed| - 1])
  }

  lemma CarvingStarts(w: nat, h: nat)
    ensures Carving(w, h, [Point(0, 0)], [Point(0, 0)], {})
  {
    assert Point(0, 0) in Box(w, h);
  }

  lemma TopEven(w: nat, h: nat, pushed: seq<Point>, stack: seq<Point>, visited: set<Point>)
    requires Carving(w, h, pushed, stack, visited) && stack != []
    ensures Even(stack[|stack| - 1])
  {
    var t :| 0 <= t < |pushed| && pushed[t] == stack[|stack| - 1];
  }

  /** Popping the top, now visited, keeps the bookkeeping. */
  lemma PopKeeps(w: nat, h: nat, pushed: seq<Point>, stack: seq<Point>, visited: set<Point>)
    requires Carving(w, h, pushed, stack, visited) && stack != []
    ensures Carving(w, h, pushed, stack[..|stack| - 1], visited + {stack[|stack| - 1]})
  {
  }

  /** Pushing the target of an option keeps the bookkeeping, and the target
      is new, so the history grows within the bounded set `Box`. */
  lemma PushKeeps(w: nat, h: nat, pushed: seq<Point>, stack: seq<Point>, visited: set<Point>, dir: Point)
    requires Carving(w, h, pushed, stack, visited) && stack != []
    requires dir in WallOffsets
    requires IsOption(w, h, stack[|stack| - 1], visited + {stack[|stack| - 1]}, dir)
    ensures var far := Add(Add(stack[|stack| - 1], dir), dir);
      Carving(w, h, pushed + [far], stack + [far], visited + {stack[|stack| - 1]}) &&
      |pushed| < |Box(w, h)|
  {
    var cur := stack[|stack| - 1];
    var far := Add(Add(cur, dir), dir);
    OptionTarget(w, h, cur, visited + {cur}, dir);
    var pushed' := pushed + [far];
    assert far !in pushed;
    assert Distinct(pushed');
    DistinctBound(pushed', Box(w, h));
  }

  /** `generate_maze`: the depth-first carver, with the random source
      given as `rand`, whose i-th value is the i-th draw. Cells with two
      even coordinates are never written; every written cell holds an
      obstacle or a walkable cell afterwards. */
  method GenerateMaze(m: array2<Node>, rand: nat -> nat)
    modifies m
    ensures forall x, y :: 0 <= x < m.Length0 && 0 <= y < m.Length1 && Even(Point(x, y)) ==> m[x, y] == old(m[x, y])
    ensures forall x, y :: 0 <= x < m.Length0 && 0 <= y < m.Length1 ==>
      m[x, y] == old(m[x, y]) || m[x, y] == Obstical || m[x, y] == Walkable
  {
    var stack := [Point(0, 0)];
    var visited: set<Point> := {};
    var draws: nat := 0;
    ghost var pushed := [Point(0, 0)];
    CarvingStarts(m.Length0, m.Length1);
    while stack != []
      invariant Carving(m.Length0, m.Length1, pushed, stack, visited)
      invariant forall x, y :: 0 <= x < m.Length0 && 0 <= y < m.Length1 && Even(Point(x, y)) ==> m[x, y] == old(m[x, y])
      invariant forall x, y :: 0 <= x < m.Length0 && 0 <= y < m.Length1 ==>
        m[x, y] == old(m[x, y]) || m[x, y] == Obstical || m[x, y] == Walkable
      decreases |Box(m.Length0, m.Length1)| - |pushed|, |stack|
    {
      ghost var before, seen := stack, visited;
      ghost var cur := stack[|stack| - 1];
      TopEven(m.Length0, m.Length1, pushed, stack, visited);
      stack, visited, draws := Step(m, stack, visited, rand, draws);
      ghost var opts := Options(m.Length0, m.Length1, cur, visited, WallOffsets);
      assert visited == seen + {cur};
      if opts == [] {
        assert stack == before[..|before| - 1];
        PopKeeps(m.Length0, m.Length1, pushed, before, seen);
      } else {
        var dir := opts[ChooseIndex(rand(draws - 1), |opts|)];
        var far := Add(Add(cur, dir), dir);
        assert stack == before + [far];
        OptionsMembers(m.Length0, m.Length1, cur, visited, WallOffsets, dir);
        PushKeeps(m.Length0, m.Length1, pushed, before, seen, dir);
        OptionTarget(m.Length0, m.Length1, cur, visited, dir);
        pushed := pushed + [far];
      }
    }
  }
}
