/**
 * Conversion of Unix timestamps (src/shared.rs). Only the integer arithmetic
 * and the `as` casts are modelled: the arguments that reach chrono's
 * `Utc.timestamp(secs, nanos)` are kept as a `Timestamp` value.
 */
module Shared {

  const U64_LIMIT := 0x1_0000_0000_0000_0000
  const I64_LIMIT := 0x8000_0000_0000_0000
  const U32_LIMIT := 0x1_0000_0000
  const MILLIS_PER_SEC := 1_000
  const NANOS_PER_MILLI := 1_000_000
  const NANOS_PER_SEC := 1_000_000_000

  type u64 = x: int | 0 <= x < U64_LIMIT

  /** The `(secs: i64, nanos: u32)` pair handed to `Utc.timestamp`. */
  datatype Timestamp = Timestamp(secs: int, nanos: int)

  /** Rust's `x as i64` on a u64: two's-complement reinterpretation. */
  function AsI64(x: u64): (r: int)
    ensures -I64_LIMIT <= r < I64_LIMIT
    ensures r == x || r == x - U64_LIMIT
  {
    if x < I64_LIMIT then x else x - U64_LIMIT
  }

  /** Rust's `x as u32` on a u64: keeps the low 32 bits. */
  function AsU32(x: u64): (r: int)
    ensures 0 <= r < U32_LIMIT
    ensures (x - r) % U32_LIMIT == 0
  {
    x % U32_LIMIT
  }

  /**
   * `unix_time_ms`: a millisecond timestamp split into whole seconds and
   * nanoseconds. Both casts are lossless, and the nanoseconds are a whole
   * number of milliseconds below one second.
   */
  function UnixTimeMs(unix: u64): (t: Timestamp)
    ensures t.secs == unix / MILLIS_PER_SEC
    ensures t.nanos == (unix % MILLIS_PER_SEC) * NANOS_PER_MILLI
    ensures 0 <= t.nanos < NANOS_PER_SEC && t.nanos % NANOS_PER_MILLI == 0
  {
    Timestamp(AsI64(unix / MILLIS_PER_SEC), AsU32((unix % MILLIS_PER_SEC) * NANOS_PER_MILLI))
  }

  /** The two halves of `unix_time_ms` recombine to the millisecond count. */
  lemma UnixTimeMsRoundTrip(unix: u64)
    ensures UnixTimeMs(unix).secs * MILLIS_PER_SEC + UnixTimeMs(unix).nanos / NANOS_PER_MILLI == unix
  {
    var t := UnixTimeMs(unix);
    assert t.nanos / NANOS_PER_MILLI == unix % MILLIS_PER_SEC;
  }

  /** Distinct millisecond timestamps reach chrono as distinct pairs. */
  lemma UnixTimeMsInjective(a: u64, b: u64)
    requires UnixTimeMs(a) == UnixTimeMs(b)
    ensures a == b
  {
    UnixTimeMsRoundTrip(a);
    UnixTimeMsRoundTrip(b);
  }

  /**
   * `unix_time_sec`: whole seconds with no sub-second part. The `as i64`
   * cast is lossless below 2^63 and wraps to a negative value above.
   */
  function UnixTimeSec(unix: u64): (t: Timestamp)
    ensures t.nanos == 0
    ensures unix < I64_LIMIT ==> t.secs == unix
    ensures unix >= I64_LIMIT ==> t.secs == unix - U64_LIMIT < 0
  {
    Timestamp(AsI64(unix), 0)
  }
}
