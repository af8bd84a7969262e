/** Types that several modules share. */
module Common {

  datatype Option<T> = None | Some(value: T)

  type byte = b: int | 0 <= b < 256
}
