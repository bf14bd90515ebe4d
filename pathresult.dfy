// The outcome of a grid search: a status, the path found, and the frontier
// cell when the search was looking for unexplored ground.

module PathResults {
  import opened Geometry
  import opened Options

  datatype PathStatus = Found | NotFound | UnknownReached

  /**
   * `path` runs from the start (excluded) to the goal (included) when the
   * status is Found, and to the cell beside `nearestUnknown` when it is
   * UnknownReached.
   */
  datatype PathResult = PathResult(status: PathStatus, path: seq<Position>, nearestUnknown: Option<Position>)
  {
    /** True exactly for a search that reached its goal. */
    predicate IsSuccess()
      ensures IsSuccess() <==> status == Found
    {
      status.Found?
    }

    /** The number of steps of the path. */
    function Length(): (n: nat)
      ensures n == |path|
    {
      |path|
    }

    static function Success(path: seq<Position>): (r: PathResult)
      ensures r.IsSuccess() && r.path == path && r.nearestUnknown == None
    {
      PathResult(Found, path, None)
    }

    static function NotFound(): (r: PathResult)
      ensures r.status == PathStatus.NotFound && r.Length() == 0 && r.nearestUnknown == None
    {
      PathResult(PathStatus.NotFound, [], None)
    }

    static function UnknownFound(pathToUnknown: seq<Position>, unknownPosition: Position): (r: PathResult)
      ensures r.status == UnknownReached && !r.IsSuccess()
      ensures r.path == pathToUnknown && r.nearestUnknown == Some(unknownPosition)
    {
      PathResult(UnknownReached, pathToUnknown, Some(unknownPosition))
    }
  }
}
