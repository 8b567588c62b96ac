/** Parser results in the style of nom 6. */
module Nom {
  import opened Basics

  /** A value with the unread rest of the input, a recoverable error, an unrecoverable failure, or
      a demand for more input. */
  datatype Read<+V> = Done(value: V, rest: seq<byte>) | Error | Failure | Incomplete
}
