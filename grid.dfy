/**
 * The pure helpers of the A* engine: points, the cell enum, the closed-set key,
 * point equality, the Euclidean heuristic, the vacancy test and the neighbour filter.
 */
module Grids {

  /** State of one grid cell; the enum's numeric values are 0 (empty) and 1 (block). */
  datatype GridNode = Empty | Block

  /** A grid coordinate `[x, y]`. */
  type Point = (int, int)

  // ---------------------------------------------------------------------------
  // serialize: the "x,y" key of the closed set
  // ---------------------------------------------------------------------------

  function DigitChar(d: nat): char
    requires d < 10
  {
    ('0' as int + d) as char
  }

  function DigitValue(c: char): int
  {
    c as int - '0' as int
  }

  predicate IsDigit(c: char)
  {
    '0' <= c <= '9'
  }

  /** Decimal notation of a natural number, without leading zeros. */
  function NatToString(n: nat): string
    decreases n
  {
    if n < 10 then [DigitChar(n)] else NatToString(n / 10) + [DigitChar(n % 10)]
  }

  /** Decimal notation of an integer, with a leading '-' when negative (template-literal formatting). */
  function IntToString(i: int): string
  {
    if i < 0 then "-" + NatToString(-i) else NatToString(i)
  }

  /** serialize: the key `${x},${y}` under which a point is stored in the closed set. */
  function Serialize(p: Point): string
  {
    IntToString(p.0) + "," + IntToString(p.1)
  }

  /** Reads a string of decimal digits back as a number. */
  function ParseNat(s: string): int
    decreases |s|
  {
    if s == [] then 0 else ParseNat(s[..|s| - 1]) * 10 + DigitValue(s[|s| - 1])
  }

  function ParseInt(s: string): int
  {
    if |s| > 0 && s[0] == '-' then -ParseNat(s[1..]) else ParseNat(s)
  }

  /** Index of the first `c` in `s`, or `|s|` when there is none. */
  function IndexOf(s: string, c: char): (k: nat)
    ensures k <= |s|
    ensures k < |s| ==> s[k] == c
    ensures forall j :: 0 <= j < k ==> s[j] != c
  {
    if s == [] then 0 else if s[0] == c then 0 else 1 + IndexOf(s[1..], c)
  }

  /** Reads a key back into the point it was made from. */
  function ParsePoint(s: string): Point
  {
    var k := IndexOf(s, ',');
    if k < |s| then (ParseInt(s[..k]), ParseInt(s[k + 1..])) else (ParseInt(s), 0)
  }

  /** The decimal notation is a non-empty run of digits that reads back as the number. */
  lemma {:induction false} NatToStringRoundTrip(n: nat)
    ensures |NatToString(n)| > 0
    ensures forall j :: 0 <= j < |NatToString(n)| ==> IsDigit(NatToString(n)[j])
    ensures ParseNat(NatToString(n)) == n
    decreases n
  {
    var s := NatToString(n);
    if n < 10 {
      assert s[..|s| - 1] == [];
    } else {
      NatToStringRoundTrip(n / 10);
      assert s[..|s| - 1] == NatToString(n / 10);
    }
  }

  /** The notation of an integer contains no comma and reads back as the integer. */
  lemma IntToStringRoundTrip(i: int)
    ensures ',' !in IntToString(i)
    ensures ParseInt(IntToString(i)) == i
  {
    if i < 0 {
      NatToStringRoundTrip(-i);
      assert IntToString(i)[1..] == NatToString(-i);
      assert forall c :: c in IntToString(i)[1..] ==> IsDigit(c);
    } else {
      NatToStringRoundTrip(i);
      assert forall c :: c in IntToString(i) ==> IsDigit(c);
    }
  }

  /** Every key reads back as the point it was made from. */
  lemma SerializeRoundTrip(p: Point)
    ensures ParsePoint(Serialize(p)) == p
  {
    var a, b := IntToString(p.0), IntToString(p.1);
    var s := Serialize(p);
    IntToStringRoundTrip(p.0);
    IntToStringRoundTrip(p.1);
    assert IndexOf(s, ',') == |a| by {
      assert s[|a|] == ',';
      forall j | 0 <= j < |a| ensures s[j] != ',' {
        assert s[j] == a[j];
      }
    }
    assert s[..|a|] == a;
    assert s[|a| + 1..] == b;
  }

  /** Distinct points have distinct keys, so the string-keyed closed set is a set of points. */
  lemma SerializeInjective(p: Point, q: Point)
    ensures Serialize(p) == Serialize(q) <==> p == q
  {
    SerializeRoundTrip(p);
    SerializeRoundTrip(q);
  }

  // ---------------------------------------------------------------------------
  // equals and heuristic
  // ---------------------------------------------------------------------------

  /** equals: coordinate-wise comparison decides equality of points. */
  function Equals(a: Point, b: Point): (r: bool)
    ensures r <==> a == b
  {
    a.0 == b.0 && a.1 == b.1
  }

  /** The square of the Euclidean distance, the argument the heuristic takes the root of. */
  function SquaredDistance(a: Point, b: Point): int
  {
    (a.0 - b.0) * (a.0 - b.0) + (a.1 - b.1) * (a.1 - b.1)
  }

  /** heuristic: Euclidean distance, with the square root supplied by the caller. */
  function Heuristic(sqrt: int -> real, a: Point, b: Point): real
  {
    sqrt(SquaredDistance(a, b))
  }

  /** The heuristic is symmetric and its argument is zero exactly on equal points. */
  lemma HeuristicProperties(sqrt: int -> real, a: Point, b: Point)
    ensures Heuristic(sqrt, a, b) == Heuristic(sqrt, b, a)
    ensures SquaredDistance(a, b) >= 0
    ensures SquaredDistance(a, b) == 0 <==> a == b
  {
    var dx, dy := a.0 - b.0, a.1 - b.1;
    assert (b.0 - a.0) * (b.0 - a.0) == dx * dx;
    assert (b.1 - a.1) * (b.1 - a.1) == dy * dy;
    assert dx * dx >= 0 && dy * dy >= 0;
    if a != b {
      assert dx != 0 || dy != 0;
      assert dx * dx > 0 || dy * dy > 0;
    }
  }

  // ---------------------------------------------------------------------------
  // isvacant and neighbors
  // ---------------------------------------------------------------------------

  predicate InBounds(size: int, p: Point)
  {
    0 <= p.0 < size && 0 <= p.1 < size
  }

  /** Row-major cell index of a point. */
  function CellIndex(size: int, p: Point): int
  {
    p.0 + p.1 * size
  }

  /**
   * isvacant: in bounds and the cell holds `empty`. A read past the end of the grid yields
   * `undefined`, which is not `empty`, so such a cell is not vacant.
   */
  function IsVacant(size: int, grid: seq<GridNode>, p: Point): bool
  {
    if p.0 < 0 || size <= p.0 then false
    else if p.1 < 0 || size <= p.1 then false
    else CellIndex(size, p) < |grid| && grid[CellIndex(size, p)] == Empty
  }

  lemma MultiplyMonotone(a: int, b: int, c: int)
    requires a <= b && 0 <= c
    ensures a * c <= b * c
  {
    assert b * c - a * c == (b - a) * c;
  }

  /**
   * On a grid of `size * size` cells every in-bounds point has a cell, so vacancy is exactly
   * "in bounds and the cell is empty".
   */
  lemma IsVacantSpec(size: int, grid: seq<GridNode>, p: Point)
    requires size * size == |grid|
    ensures InBounds(size, p) ==> 0 <= CellIndex(size, p) < |grid|
    ensures IsVacant(size, grid, p) <==> InBounds(size, p) && grid[CellIndex(size, p)] == Empty
  {
    if InBounds(size, p) {
      MultiplyMonotone(p.1, size - 1, size);
      MultiplyMonotone(0, p.1, size);
      assert (size - 1) * size == size * size - size;
    }
  }

  /** The eight candidates, in the order up, up-left, left, down-left, down, down-right, right, up-right. */
  function Candidates(p: Point): seq<Point>
  {
    var (x, y) := p;
    [(x + 0, y - 1), (x - 1, y - 1), (x - 1, y + 0), (x - 1, y + 1),
     (x + 0, y + 1), (x + 1, y + 1), (x + 1, y + 0), (x + 1, y - 1)]
  }

  /** The candidates that pass the vacancy test, in candidate order. */
  function FilterVacant(size: int, grid: seq<GridNode>, ps: seq<Point>): seq<Point>
  {
    if ps == [] then []
    else (if IsVacant(size, grid, ps[0]) then [ps[0]] else []) + FilterVacant(size, grid, ps[1..])
  }

  /** neighbors: the vacant points among the eight candidates. */
  function Neighbors(size: int, grid: seq<GridNode>, p: Point): seq<Point>
  {
    FilterVacant(size, grid, Candidates(p))
  }

  /** `q` is one of the eight points around `p`. */
  predicate IsAdjacent(p: Point, q: Point)
  {
    q != p && -1 <= q.0 - p.0 <= 1 && -1 <= q.1 - p.1 <= 1
  }

  /** Position of `q` in the candidate order around `p`; 8 when `q` is not a candidate. */
  function Direction(p: Point, q: Point): nat
  {
    var dx, dy := q.0 - p.0, q.1 - p.1;
    if dx == 0 && dy == -1 then 0
    else if dx == -1 && dy == -1 then 1
    else if dx == -1 && dy == 0 then 2
    else if dx == -1 && dy == 1 then 3
    else if dx == 0 && dy == 1 then 4
    else if dx == 1 && dy == 1 then 5
    else if dx == 1 && dy == 0 then 6
    else if dx == 1 && dy == -1 then 7
    else 8
  }

  /** The candidates are exactly the adjacent points, listed in direction order. */
  lemma CandidatesSpec(p: Point)
    ensures |Candidates(p)| == 8
    ensures forall q :: q in Candidates(p) <==> IsAdjacent(p, q)
    ensures forall k :: 0 <= k < 8 ==> Direction(p, Candidates(p)[k]) == k
  {
    forall q | IsAdjacent(p, q) ensures q in Candidates(p) {
      assert q == Candidates(p)[Direction(p, q)];
    }
  }

  /** The filter keeps exactly the vacant members of its input. */
  lemma {:induction false} FilterVacantMembers(size: int, grid: seq<GridNode>, ps: seq<Point>)
    ensures forall q :: q in FilterVacant(size, grid, ps) <==> q in ps && IsVacant(size, grid, q)
    decreases |ps|
  {
    if ps != [] {
      FilterVacantMembers(size, grid, ps[1..]);
      assert forall q :: q in ps <==> q == ps[0] || q in ps[1..];
    }
  }

  /** The points of `s` appear in strictly increasing direction around `p`. */
  predicate InDirectionOrder(p: Point, s: seq<Point>)
  {
    forall i, j :: 0 <= i < j < |s| ==> Direction(p, s[i]) < Direction(p, s[j])
  }

  /** The filter keeps the relative order of what it keeps. */
  lemma {:induction false} FilterVacantKeepsOrder(size: int, grid: seq<GridNode>, p: Point, ps: seq<Point>)
    requires InDirectionOrder(p, ps)
    ensures InDirectionOrder(p, FilterVacant(size, grid, ps))
    decreases |ps|
  {
    if ps != [] {
      var r, rest := FilterVacant(size, grid, ps), FilterVacant(size, grid, ps[1..]);
      assert InDirectionOrder(p, ps[1..]);
      FilterVacantKeepsOrder(size, grid, p, ps[1..]);
      FilterVacantMembers(size, grid, ps[1..]);
      if IsVacant(size, grid, ps[0]) {
        assert r == [ps[0]] + rest;
        forall i, j | 0 <= i < j < |r| ensures Direction(p, r[i]) < Direction(p, r[j]) {
          assert r[j] == rest[j - 1] && r[j] in rest;
          var k :| 0 <= k < |ps[1..]| && ps[1..][k] == r[j];
          assert ps[k + 1] == r[j];
          if i > 0 {
            assert r[i] == rest[i - 1];
          }
        }
      } else {
        assert r == rest;
      }
    }
  }

  /**
   * neighbors(p) holds exactly the adjacent vacant points, each once, in the fixed direction order,
   * and each at squared distance 1 (straight) or 2 (diagonal).
   */
  lemma NeighborsSpec(size: int, grid: seq<GridNode>, p: Point)
    ensures forall q :: q in Neighbors(size, grid, p) <==> IsAdjacent(p, q) && IsVacant(size, grid, q)
    ensures InDirectionOrder(p, Neighbors(size, grid, p))
    ensures forall q :: q in Neighbors(size, grid, p) ==> 1 <= SquaredDistance(p, q) <= 2
  {
    CandidatesSpec(p);
    FilterVacantMembers(size, grid, Candidates(p));
    FilterVacantKeepsOrder(size, grid, p, Candidates(p));
  }

  /** No point is listed twice among the neighbours. */
  lemma NeighborsDistinct(size: int, grid: seq<GridNode>, p: Point)
    ensures var n := Neighbors(size, grid, p);
      forall i, j :: 0 <= i < j < |n| ==> n[i] != n[j]
  {
    NeighborsSpec(size, grid, p);
  }
}
