/** Captured packets and their timestamps. */
module Packets {
  import opened Bytes

  /** A captured packet; the timestamp is in nanoseconds since the epoch. */
  datatype Packet = Packet(data: seq<byte>, ts: int)

  const NANOS: int := 1_000_000_000

  function FromUnix(sec: int, nsec: int): int {
    sec * NANOS + nsec
  }

  function FromUnixUsec(sec: int, usec: int): int {
    FromUnix(sec, usec * 1000)
  }

  function Seconds(ts: int): int {
    TruncDiv(ts, NANOS)
  }

  /** The sub-second part; it has the sign of the timestamp. */
  function Nanoseconds(ts: int): int {
    ts - Seconds(ts) * NANOS
  }

  function Microseconds(ts: int): int {
    TruncDiv(Nanoseconds(ts), 1000)
  }

  function TotalMicroseconds(ts: int): int {
    TruncDiv(ts, 1000)
  }
}
