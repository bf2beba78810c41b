/** The editing session of `main`: the grid, its pixel width, and the nodes
    chosen as start and end (Python's `None` is `Options.None`). Mouse
    buttons and keys arrive as calls; the pygame event loop that reads them
    is not modelled. */
module App {
  import opened Options
  import opened Heuristic
  import opened GridModel
  import opened Search

  class Session {
    var grid: Grid
    const width: int
    var start: Option<Pos>
    var end: Option<Pos>

    /** The chosen start and end are nodes of the grid showing the start
        and end colours, and never the same node. */
    ghost predicate Consistent()
      reads this, grid.color, grid.neighbors
    {
      && grid.Valid() && grid.rows > 0 && width / grid.rows > 0
      && (start.Some? ==> InBounds(start.value, grid.rows) && grid.color[start.value.row, start.value.col] == Start)
      && (end.Some? ==> InBounds(end.value, grid.rows) && grid.color[end.value.row, end.value.col] == End)
      && (start.Some? && end.Some? ==> start.value != end.value)
    }

    /** `grid = make_grid(ROWS, width)` with no start and no end. */
    constructor (rows: nat, width: int)
      requires rows > 0 && width / rows > 0
      ensures Consistent() && fresh(grid) && fresh(grid.color) && fresh(grid.neighbors)
      ensures this.width == width && grid.rows == rows && start == None && end == None
      ensures forall i, j {:trigger grid.color[i, j]} :: 0 <= i < rows && 0 <= j < rows ==>
                grid.color[i, j] == White && grid.neighbors[i, j] == []
    {
      grid := new Grid(rows, width);
      this.width := width;
      start, end := None, None;
    }

    /** Lines 209-220, a left click at pixel `pos`: the node under it becomes
        the start if there is none and it is not the end; otherwise the end
        if there is none and it is not the start; otherwise a barrier unless
        it is the start or the end. */
    method LeftClick(pos: (int, int))
      requires Consistent()
      requires 0 <= pos.0 < grid.rows * (width / grid.rows) && 0 <= pos.1 < grid.rows * (width / grid.rows)
      modifies this, grid.color
      ensures Consistent() && grid == old(grid)
      ensures var p := GetClickedPos(pos, grid.rows, width);
              if old(start).None? && old(end) != Some(p) then
                start == Some(p) && end == old(end) && grid.color[p.row, p.col] == Start
              else if old(end).None? && old(start) != Some(p) then
                start == old(start) && end == Some(p) && grid.color[p.row, p.col] == End
              else
                && start == old(start) && end == old(end)
                && grid.color[p.row, p.col] ==
                     if old(start) != Some(p) && old(end) != Some(p) then Barrier else old(grid.color[p.row, p.col])
      ensures var p := GetClickedPos(pos, grid.rows, width);
              forall i, j {:trigger grid.color[i, j]} :: 0 <= i < grid.rows && 0 <= j < grid.rows && Pos(i, j) != p ==>
                grid.color[i, j] == old(grid.color[i, j])
    {
      var p := GetClickedPos(pos, grid.rows, width);
      if start.None? && end != Some(p) {
        start := Some(p);
        grid.Paint(p, Start);
      } else if end.None? && start != Some(p) {
        end := Some(p);
        grid.Paint(p, End);
      } else if end != Some(p) && start != Some(p) {
        grid.Paint(p, Barrier);
      }
    }

    /** Lines 222-230, a right click at pixel `pos`: the node under it is
        reset to white, and forgotten if it was the start or the end. */
    method RightClick(pos: (int, int))
      requires Consistent()
      requires 0 <= pos.0 < grid.rows * (width / grid.rows) && 0 <= pos.1 < grid.rows * (width / grid.rows)
      modifies this, grid.color
      ensures Consistent() && grid == old(grid)
      ensures var p := GetClickedPos(pos, grid.rows, width);
              && grid.color[p.row, p.col] == White
              && start == (if old(start) == Some(p) then None else old(start))
              && end == (if old(start) != Some(p) && old(end) == Some(p) then None else old(end))
      ensures var p := GetClickedPos(pos, grid.rows, width);
              forall i, j {:trigger grid.color[i, j]} :: 0 <= i < grid.rows && 0 <= j < grid.rows && Pos(i, j) != p ==>
                grid.color[i, j] == old(grid.color[i, j])
    {
      var p := GetClickedPos(pos, grid.rows, width);
      grid.Paint(p, White);
      if start == Some(p) {
        start := None;
      } else if end == Some(p) {
        end := None;
      }
    }

    /** Lines 232-237, the space key: once both a start and an end are
        chosen, `update_neighbors` for every node and then the search. The
        start and end stay chosen and keep their colours. */
    method Space()
      requires Consistent()
      modifies grid.color, grid.neighbors
      ensures Consistent()
      ensures start.Some? && end.Some? ==>
                forall i, j {:trigger grid.neighbors[i, j]} :: 0 <= i < grid.rows && 0 <= j < grid.rows ==>
                  grid.neighbors[i, j] == old(grid.neighbors[i, j]) + old(grid.NewNeighbors(Pos(i, j)))
      ensures !(start.Some? && end.Some?) ==> unchanged(grid.color) && unchanged(grid.neighbors)
    {
      if start.Some? && end.Some? {
        grid.UpdateAllNeighbors();
        var found, path := Algorithm(grid, start.value, end.value);
      }
    }

    /** Lines 239-242, the `c` key: a fresh grid, with no start and no end. */
    method Clear()
      requires Consistent()
      modifies this
      ensures Consistent() && fresh(grid) && grid.rows == old(grid.rows)
      ensures start == None && end == None
      ensures forall i, j {:trigger grid.color[i, j]} :: 0 <= i < grid.rows && 0 <= j < grid.rows ==>
                grid.color[i, j] == White && grid.neighbors[i, j] == []
    {
      start, end := None, None;
      grid := new Grid(grid.rows, width);
    }
  }
}
