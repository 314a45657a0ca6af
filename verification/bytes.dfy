/** Raw data as the program handles it: mail messages and token files are Go `[]byte`. */
module Bytes {
  /** A byte, as in Go's `[]byte`. */
  type byte = b: int | 0 <= b < 256
}
