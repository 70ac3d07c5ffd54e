/** Types that several components use. */
module Common {
  datatype Option<T> = None | Some(value: T)

  /** A NUL-terminated string, without its NUL. */
  type CString = s: string | '\0' !in s
}
