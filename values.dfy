/** The values a tree stores, and the failure the tree reports. */
module Values {

  /** What JavaScript's `typeof` answers for a value: the tree's type tag. `symbol` is not among
      them: `<` and `>` throw a `TypeError` on symbols, so a tree of symbols cannot hold two. */
  datatype Tag = Undefined | Boolean | Number | BigInt | String | Function | Object

  /** A stored value: its `typeof` tag, and an integer that stands for its place in the
      order that `<` and `>` give to values of that tag. */
  datatype Value = Value(tag: Tag, key: int)

  /** The only error the tree raises: `new Error("Type mismatch")`. */
  datatype Error = TypeMismatch

  /** The outcome of an operation that returns nothing or throws. */
  datatype Outcome = Pass | Fail(error: Error)

  /** The outcome of an operation that returns a value or throws. */
  datatype Result<T> = Ok(value: T) | Err(error: Error)

  /** A JavaScript value that may be `undefined`. */
  datatype Option<T> = None | Some(value: T)
}
