/** Types shared by the modules of this project. */
module Common {

  /** Rust's `i32`: the type of every id and of the menu-type discriminant. */
  newtype i32 = x: int | -0x8000_0000 <= x < 0x8000_0000

  /** Rust's `Option<T>`. */
  datatype Option<T> = None | Some(value: T)
}
