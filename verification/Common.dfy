/** Types that several parts of the model share. */
module Common {

  datatype Option<T> = None | Some(value: T)

  /** A document of the server is known by its address. */
  type Doc = nat
}
