/** The process-wide counters of src/stadistics.c. */
module Statistics {

  const UINT32_MAX := 0xFFFF_FFFF

  /** stadistics_increase_bytes_sent: an increment that would reach the top is dropped. */
  function AddBytesSent(counter: nat, bytes: nat): nat {
    if counter + bytes < UINT32_MAX then counter + bytes else counter
  }
}
