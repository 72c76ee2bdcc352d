/** The Some/None datatype used for lookups that can come back empty:
    a container that is gone, a regular-expression search without a match,
    a rule-table rewrite that was abandoned. */
module Wrappers {

  datatype Option<+T> = None | Some(value: T)
}
