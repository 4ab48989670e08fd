/** The optional-value datatype used across the model for absent JSON fields,
    missing session entries and failed lookups. */
module Wrappers {
  datatype Option<+T> = None | Some(value: T)
}
