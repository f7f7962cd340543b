/** The grid model: cell states with their edit cycle, the grid dimensions,
    integer points with component-wise addition, and the distance used by
    the path costs. */
module Grid {

  /** The four states of a cell, in declaration order. */
  datatype Node = Walkable | Obstical | Start | End

  /** Number of columns (x, the outer dimension) of the application's grid. */
  const Width: int := 15
  /** Number of rows (y, the inner dimension) of the application's grid. */
  const Height: int := 15

  /** A grid of the application's size: Width columns of Height cells each.
      An `array2` is rectangular by construction, so every column has the
      same height `m.Length1`. */
  predicate StandardSize(m: array2<Node>)
  {
    m.Length0 == Width && m.Length1 == Height
  }

  /** Position of a state in the declaration order (its underlying value). */
  function Ordinal(n: Node): (k: nat)
    ensures k < 4
  {
    match n
    case Walkable => 0
    case Obstical => 1
    case Start => 2
    case End => 3
  }

  /** Distinct states have distinct positions: there are exactly four. */
  lemma OrdinalInjective(a: Node, b: Node)
    ensures Ordinal(a) == Ordinal(b) <==> a == b
  {
  }

  /** The state that `++` moves a cell to: the next one in the cycle
      Walkable, Obstical, Start, End, Walkable. */
  function Succ(n: Node): (r: Node)
    ensures Ordinal(r) == (Ordinal(n) + 1) % 4
  {
    match n
    case Walkable => Obstical
    case Obstical => Start
    case Start => End
    case End => Walkable
  }

  /** The state that `--` moves a cell to: the previous one in the cycle. */
  function Pred(n: Node): (r: Node)
    ensures Ordinal(r) == (Ordinal(n) + 3) % 4
  {
    match n
    case Walkable => End
    case Obstical => Walkable
    case Start => Obstical
    case End => Start
  }

  lemma SuccPredInverse(n: Node)
    ensures Pred(Succ(n)) == n
    ensures Succ(Pred(n)) == n
  {
  }

  lemma CycleOfFour(n: Node)
    ensures Succ(Succ(Succ(Succ(n)))) == n
    ensures Pred(Pred(Pred(Pred(n)))) == n
  {
  }

  /** The state reached by k edits with `++`. */
  function SuccN(n: Node, k: nat): Node
  {
    if k == 0 then n else Succ(SuccN(n, k - 1))
  }

  /** k forward edits advance the position by k modulo 4. */
  lemma {:induction false} SuccNOrdinal(n: Node, k: nat)
    ensures Ordinal(SuccN(n, k)) == (Ordinal(n) + k) % 4
  {
    if k > 0 {
      SuccNOrdinal(n, k - 1);
    }
  }

  /** `++` on the cell (x, y): the cell is updated in place and its new
      state is returned; no other cell changes. */
  method Increment(m: array2<Node>, x: int, y: int) returns (r: Node)
    requires 0 <= x < m.Length0 && 0 <= y < m.Length1
    modifies m
    ensures r == m[x, y] == Succ(old(m[x, y]))
    ensures forall i, j :: 0 <= i < m.Length0 && 0 <= j < m.Length1 && (i != x || j != y) ==> m[i, j] == old(m[i, j])
  {
    match m[x, y] {
      case Walkable => m[x, y] := Obstical;
      case Obstical => m[x, y] := Start;
      case Start => m[x, y] := End;
      case End => m[x, y] := Walkable;
    }
    r := m[x, y];
  }

  /** `--` on the cell (x, y): the reverse step of the cycle, in place. */
  method Decrement(m: array2<Node>, x: int, y: int) returns (r: Node)
    requires 0 <= x < m.Length0 && 0 <= y < m.Length1
    modifies m
    ensures r == m[x, y] == Pred(old(m[x, y]))
    ensures forall i, j :: 0 <= i < m.Length0 && 0 <= j < m.Length1 && (i != x || j != y) ==> m[i, j] == old(m[i, j])
  {
    match m[x, y] {
      case Walkable => m[x, y] := End;
      case Obstical => m[x, y] := Walkable;
      case Start => m[x, y] := Obstical;
      case End => m[x, y] := Start;
    }
    r := m[x, y];
  }

  /** A point: x is the column (first), y the row (second). */
  datatype Point = Point(x: int, y: int)

  function Add(a: Point, b: Point): Point
  {
    Point(a.x + b.x, a.y + b.y)
  }

  lemma AddCommutative(a: Point, b: Point)
    ensures Add(a, b) == Add(b, a)
  {
  }

  lemma AddAssociative(a: Point, b: Point, c: Point)
    ensures Add(Add(a, b), c) == Add(a, Add(b, c))
  {
  }

  lemma AddIdentity(a: Point)
    ensures Add(a, Point(0, 0)) == a && Add(Point(0, 0), a) == a
  {
  }

  /** Whether p addresses a cell of a grid with w columns and h rows. */
  predicate InBounds(w: int, h: int, p: Point)
  {
    0 <= p.x < w && 0 <= p.y < h
  }

  /** Whether b is one orthogonal step away from a. */
  predicate Adjacent(a: Point, b: Point)
  {
    (a.x == b.x && (a.y - b.y == 1 || b.y - a.y == 1)) ||
    (a.y == b.y && (a.x - b.x == 1 || b.x - a.x == 1))
  }

  /** The square of the Euclidean distance, dx*dx + dy*dy. */
  function SquaredDist(a: Point, b: Point): nat
  {
    (a.x - b.x) * (a.x - b.x) + (a.y - b.y) * (a.y - b.y)
  }

  /** The integer square root: the largest r with r*r <= n. */
  function Isqrt(n: nat): (r: nat)
    ensures r * r <= n < (r + 1) * (r + 1)
    decreases n
  {
    if n == 0 then 0
    else
      var t := Isqrt(n / 4);
      IsqrtDouble(n, t);
      if (2 * t + 1) * (2 * t + 1) <= n then 2 * t + 1 else 2 * t
  }

  /** The root of n lies between twice the root of n / 4 and one more. */
  lemma IsqrtDouble(n: nat, t: nat)
    requires t * t <= n / 4 < (t + 1) * (t + 1)
    ensures (2 * t) * (2 * t) <= n < (2 * t + 2) * (2 * t + 2)
  {
    assert (2 * t) * (2 * t) == 4 * (t * t);
    assert (2 * t + 2) * (2 * t + 2) == 4 * ((t + 1) * (t + 1));
  }

  /** A square root is determined by its bracketing squares. */
  lemma IsqrtUnique(n: nat, r: nat)
    requires r * r <= n < (r + 1) * (r + 1)
    ensures Isqrt(n) == r
  {
    var s := Isqrt(n);
    if s < r {
      assert (s + 1) * (s + 1) <= r * r by {
        MulMonotone(s + 1, r);
      }
    } else if r < s {
      assert (r + 1) * (r + 1) <= s * s by {
        MulMonotone(r + 1, s);
      }
    }
  }

  lemma MulMonotone(a: nat, b: nat)
    requires a <= b
    ensures a * a <= b * b
  {
    assert a * a <= a * b;
  }

  /** floor(10 * dist(a, b)), computed exactly: the largest r with
      r*r <= 100 * (dx*dx + dy*dy). */
  function TenDist(a: Point, b: Point): (r: nat)
    ensures r * r <= 100 * SquaredDist(a, b) < (r + 1) * (r + 1)
  {
    Isqrt(100 * SquaredDist(a, b))
  }

  lemma DistSymmetric(a: Point, b: Point)
    ensures SquaredDist(a, b) == SquaredDist(b, a)
    ensures TenDist(a, b) == TenDist(b, a)
  {
  }

  lemma DistZeroIff(a: Point, b: Point)
    ensures SquaredDist(a, b) == 0 <==> a == b
    ensures TenDist(a, b) == 0 <==> a == b
  {
    if a != b {
      assert SquaredDist(a, b) >= 1;
      var r := TenDist(a, b);
      assert (r + 1) * (r + 1) > 100;
    }
  }

  /** One orthogonal step costs exactly 10. */
  lemma AdjacentTenDist(a: Point, b: Point)
    requires Adjacent(a, b)
    ensures SquaredDist(a, b) == 1
    ensures TenDist(a, b) == 10
  {
    var dx, dy := a.x - b.x, a.y - b.y;
    if dx == 0 {
      assert dy * dy == 1 by {
        assert dy == 1 || dy == -1;
      }
    } else {
      assert dy == 0 && (dx == 1 || dx == -1);
      assert dx * dx == 1;
    }
    assert SquaredDist(a, b) == dx * dx + dy * dy;
    IsqrtUnique(100, 10);
  }

  /** The 3-4-5 triangle: dist((0,0),(3,4)) is exactly 5. */
  lemma ThreeFourFive()
    ensures SquaredDist(Point(0, 0), Point(3, 4)) == 25
    ensures TenDist(Point(0, 0), Point(3, 4)) == 50
  {
    IsqrtUnique(2500, 50);
  }

  /** Every cell of a grid with w columns and h rows. */
  function Cells(w: nat, h: nat): set<Point>
  {
    if w == 0 then {} else Cells(w - 1, h) + Column(w - 1, h)
  }

  /** The cells of column x of such a grid. */
  function Column(x: int, h: nat): set<Point>
  {
    if h == 0 then {} else Column(x, h - 1) + {Point(x, h - 1)}
  }

  lemma {:induction false} ColumnFacts(x: int, h: nat)
    ensures forall p :: p in Column(x, h) <==> p.x == x && 0 <= p.y < h
    ensures |Column(x, h)| == h
  {
    if h > 0 {
      ColumnFacts(x, h - 1);
      var q := Point(x, h - 1);
      assert q !in Column(x, h - 1);
      assert |Column(x, h - 1) + {q}| == h;
      forall p
        ensures p in Column(x, h) <==> p.x == x && 0 <= p.y < h
      {
        assert p in Column(x, h) <==> p in Column(x, h - 1) || p == q;
      }
    }
  }

  /** The cells are exactly the in-bounds points. */
  lemma {:induction false} CellsMembers(w: nat, h: nat)
    ensures forall p :: p in Cells(w, h) <==> InBounds(w, h, p)
  {
    if w > 0 {
      CellsMembers(w - 1, h);
      ColumnFacts(w - 1, h);
    }
  }

  /** There are w*h cells. */
  lemma {:induction false} CellsFacts(w: nat, h: nat)
    ensures forall p :: p in Cells(w, h) <==> InBounds(w, h, p)
    ensures |Cells(w, h)| == w * h
  {
    CellsMembers(w, h);
    if w > 0 {
      CellsFacts(w - 1, h);
      ColumnFacts(w - 1, h);
      var a, b := Cells(w - 1, h), Column(w - 1, h);
      assert a !! b;
      assert |a + b| == |a| + |b|;
      assert (w - 1) * h + h == w * h;
    }
  }

  /** No element occurs twice. */
  predicate Distinct<T(==)>(s: seq<T>)
  {
    forall i, j :: 0 <= i < j < |s| ==> s[i] != s[j]
  }

  function Elements<T>(s: seq<T>): set<T>
  {
    set x | x in s
  }

  lemma {:induction false} DistinctElements<T>(s: seq<T>)
    requires Distinct(s)
    ensures |Elements(s)| == |s|
  {
    if s != [] {
      var t := s[..|s| - 1];
      assert Distinct(t);
      DistinctElements(t);
      assert Elements(s) == Elements(t) + {s[|s| - 1]};
      assert s[|s| - 1] !in Elements(t);
    }
  }

  /** A repetition-free sequence drawn from a set is no longer than the set. */
  lemma DistinctBound<T>(s: seq<T>, b: set<T>)
    requires Distinct(s)
    requires forall i :: 0 <= i < |s| ==> s[i] in b
    ensures |s| <= |b|
  {
    DistinctElements(s);
    assert Elements(s) <= b;
    assert |b| == |Elements(s)| + |b - Elements(s)|;
  }
}
