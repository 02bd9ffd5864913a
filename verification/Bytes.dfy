/** The unit that memory, files, pipes and packets are made of. */
module Bytes {
  type byte = x: int | 0 <= x < 0x100
}
