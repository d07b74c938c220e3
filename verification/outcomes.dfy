/** Small result wrappers shared by the quadtree and the collision step. */
module Outcomes {

  /** The Rust `Option`: a node's point list and child block are each optional. */
  datatype Option<T> = None | Some(value: T)

  /** A computation bounded by a fuel budget. `OutOfFuel` stands for the
      source's unbounded recursion: the Rust code would never return. */
  datatype Fueled<R> = Finished(value: R) | OutOfFuel

  /** The boolean an insertion returns, together with the updated structure. */
  datatype Placed<S> = Placed(accepted: bool, result: S)
}
