/** The optional value used for the provenance tags of a lineage row. */
module Wrappers {
  datatype Option<+T> = None | Some(value: T)
}
