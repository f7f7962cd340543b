/** The output types of a path search. */
module Pathing {
  import opened Grid

  datatype Option<T> = None | Some(value: T)

  /** One entry of a search's output: a visited point, whether it lies on
      the reconstructed path, and an optional annotation. */
  datatype PathPoint = PathPoint(point: Point, isOptimal: bool, text: Option<string>)

  /** What `find_path` produces: the `invalid_argument` thrown when the
      grid lacks a Start or an End cell, the `runtime_error` thrown when
      the search runs out of cells, or the annotated trace. */
  datatype SearchResult = InvalidArgument | NoPath | Ok(path: seq<PathPoint>)
}
