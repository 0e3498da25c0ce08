/** The optional value used where the scraper's data may be absent. */
module Wrappers {
  datatype Option<+T> = None | Some(value: T)
}
