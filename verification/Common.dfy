/** What several modules share. */
module Common {
  datatype Option<T> = None | Some(value: T)

  datatype Offset = Offset(dx: real, dy: real)

  datatype Point = Point(dx: real, dy: real)

  predicate Digit(c: char) {
    '0' <= c <= '9'
  }

  /** isspace. */
  predicate Blank(c: char) {
    c == ' ' || '\t' <= c <= '\r'
  }
}
