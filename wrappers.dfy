/** Optional values. `None` stands for Python's `None`, and for a DOM query
    whose exception the scraper swallows. */
module Wrappers {

  datatype Option<+T> = None | Some(value: T) {

    /** The value held, or `default` when there is none. */
    function GetOr(default: T): T {
      match this
      case Some(v) => v
      case None => default
    }
  }
}
