/** What the models of all containers share. */
module Basics {

  /** Pointers are numbers, NULL is 0. */
  type Ptr = nat

  const NULL: Ptr := 0

  datatype Option<+T> = None | Some(value: T)
}
