/** What the other modules share. */
module Common {
  type Byte = b: int | 0 <= b < 256
  type Bytes = seq<Byte>
  const NEWLINE: Byte := 10

  datatype Option<+T> = None | Some(value: T) {
    /** Python's `self or fallback` for a value that is absent or truthy. */
    function Or(fallback: T): T {
      if Some? then value else fallback
    }
  }
}
