/** The program's byte type, for field elements and identifier bytes alike. */
module Bytes {
  type byte = bv8
}
