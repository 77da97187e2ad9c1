/**
 * The A* engine object: its fields are updated in place by the constructor, by `step()` and read
 * by `currentpath()`. Each method is proved to follow the state machine of module AStarSearch and
 * to keep its invariant.
 */
module AStarEngine {
  import opened Options
  import opened PriorityQueues
  import opened Grids
  import opened AStarSearch

  class AStar {
    const size: int
    const grid: seq<GridNode>
    /** Math.sqrt, which the heuristic applies to a squared distance. */
    const sqrt: int -> real
    const start: Point
    const end: Point
    var status: Status
    var lastnode: Option<SearchNode>
    const openlist: PriorityQueue<SearchNode>
    /** The closed set; the source keys it by `serialize(point)`, which is injective (Grids.SerializeInjective). */
    var closedset: set<Point>

    function Cfg(): Config
    {
      Config(size, grid, sqrt)
    }

    /** The mutable fields as one value. */
    function State(): Search
      reads this, openlist
    {
      Search(status, lastnode, openlist.root, closedset)
    }

    ghost predicate Valid()
      reads this, openlist
    {
      && openlist.comparator == CompareF
      && size * size == |grid|
      && start == Start
      && end == End(Cfg())
      && Inv(Cfg(), State())
    }

    /** The constructor's successful path; `Create` below also models the failing one. */
    constructor (size: int, grid: seq<GridNode>, sqrt: int -> real)
      requires size * size == |grid|
      ensures this.size == size && this.grid == grid && this.sqrt == sqrt
      ensures fresh(openlist)
      ensures Valid()
      ensures State() == Init(Config(size, grid, sqrt)).value
    {
      this.size := size;
      this.grid := grid;
      this.sqrt := sqrt;
      start := (0, 0);
      end := (size - 1, size - 1);
      status := Unset;
      lastnode := None;
      openlist := new PriorityQueue<SearchNode>(CompareF);
      closedset := {};
      new;
      if |grid| > 0 && grid[0] == Empty {
        var h := Heuristic(sqrt, start, end);
        openlist.Insert(SearchNode(start, h, 0.0, h, None));
      }
      InitSpec(Cfg());
    }

    /** step(): one move of the search, exactly as AStarSearch.StepSpec describes it; it keeps the invariant. */
    method Step()
      requires Valid()
      modifies this, openlist
      ensures Valid()
      ensures State() == StepSpec(Cfg(), old(State()))
    {
      StepPreservesInv(Cfg(), State());
      Advance();
    }

    /** The body of step(). */
    method Advance()
      requires openlist.comparator == CompareF && end == End(Cfg())
      modifies this, openlist
      ensures State() == StepSpec(Cfg(), old(State()))
    {
      if status == Finished || status == NoSolution {
        return;
      }
      if openlist.IsEmpty() {
        status := NoSolution;
        return;
      }
      var popped := openlist.PopMin();
      var current := popped.value;
      lastnode := Some(current);
      closedset := closedset + {current.point};
      if Equals(current.point, end) {
        status := Finished;
        return;
      }
      ExpandNeighbors(current, Neighbors(size, grid, current.point));
      status := Ongoing;
    }

    /** The neighbour loop of step(): insert each new neighbour, relax each dearer one. */
    method ExpandNeighbors(current: SearchNode, neighbors: seq<Point>)
      requires openlist.comparator == CompareF && end == End(Cfg())
      modifies openlist
      ensures openlist.root == Expand(Cfg(), current, closedset, neighbors, old(openlist.root))
    {
      for i := 0 to |neighbors|
        invariant openlist.root == Expand(Cfg(), current, closedset, neighbors[..i], old(openlist.root))
      {
        ghost var before := openlist.root;
        var point := neighbors[i];
        assert neighbors[..i + 1][..i] == neighbors[..i];
        if point in closedset {
          continue;
        }
        var g := current.g + Heuristic(sqrt, current.point, point);
        var h := Heuristic(sqrt, point, end);
        var neighbor := SearchNode(point, g + h, g, h, Some(current));
        assert neighbor == Successor(Cfg(), current, point);
        var node := openlist.Find(AtPoint(point));
        assert node == FindFrom(before, AtPoint(point));
        if node.None? {
          openlist.Insert(neighbor);
          assert openlist.root == InsertNode(before, neighbor, CompareF);
        } else if g < node.value.g {
          openlist.Replace(AtPoint(point), neighbor);
          assert openlist.root == ReplaceFirst(before, AtPoint(point), neighbor);
        }
        assert openlist.root == Visit(Cfg(), current, closedset, point, before);
      }
      assert neighbors[..|neighbors|] == neighbors;
    }

    /** currentpath(): the points of the `previous` chain from its root to `lastnode`. */
    method CurrentPath() returns (path: seq<Point>)
      ensures path == PathOf(lastnode)
    {
      path := [];
      var current := lastnode;
      while current.Some?
        invariant PathOf(lastnode) == PathOf(current) + path
        decreases current
      {
        path := [current.value.point] + path;
        current := current.value.previous;
      }
    }
  }

  /** The constructor with its failing path: a size that does not match the grid is rejected. */
  method Create(size: int, grid: seq<GridNode>, sqrt: int -> real) returns (r: Result<AStar, ConstructionError>)
    ensures r.Err? <==> size * size != |grid|
    ensures r.Ok? ==> fresh(r.value) && fresh(r.value.openlist) && r.value.Valid()
    ensures r.Ok? ==> r.value.size == size && r.value.grid == grid && r.value.sqrt == sqrt
    ensures r.Ok? ==> r.value.start == (0, 0) && r.value.end == (size - 1, size - 1)
    ensures r.Ok? ==> r.value.State() == Init(Config(size, grid, sqrt)).value
  {
    if size * size != |grid| {
      return Err(SizeMismatch);
    }
    var engine := new AStar(size, grid, sqrt);
    return Ok(engine);
  }
}
