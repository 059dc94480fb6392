/**
 * Option stands in for the source's nullable values: a child or root link
 * that may be NULL, and a search result that may be "not found".
 */
module Wrappers {
  datatype Option<+T> = None | Some(value: T)
}
