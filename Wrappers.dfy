/** The optional value used where the pages' JavaScript yields `undefined`
    (an `Array.prototype.find` with no match) or where a parser fails. */
module Wrappers {

  datatype Option<+T> = None | Some(value: T)
}
