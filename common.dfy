/** Values shared by both stores: an optional value and the text form of Print. */
module Common {

  /** An optional value; `None` stands for Go's zero `time.Time` and for Redis's "no expiry". */
  datatype Option<T> = None | Some(value: T)

  /** One printed entry, `key:value`. */
  function Pair(key: string, value: string): string
  {
    key + ":" + value
  }

  /** The items separated by ", ", as `strings.Join(items, ", ")` produces them. */
  function Join(items: seq<string>): string
  {
    if |items| == 0 then ""
    else if |items| == 1 then items[0]
    else items[0] + ", " + Join(items[1..])
  }
}
