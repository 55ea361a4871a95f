/** Selector interests and the outcomes of the non-blocking system calls. */
module Io {
  import opened Bytes

  /** An fd_interest mask over OP_READ and OP_WRITE. */
  datatype Ops = Ops(read: bool, write: bool)

  const NOOP := Ops(false, false)
  const READ_ONLY := Ops(true, false)
  const WRITE_ONLY := Ops(false, true)
  const READ_WRITE := Ops(true, true)

  /** Got([]) is a return value of 0. */
  datatype RecvResult = Got(bytes: seq<byte>) | RecvFailed

  datatype SendResult = Sent(n: nat) | SendFailed
}
