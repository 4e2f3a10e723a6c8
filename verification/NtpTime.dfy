/**
 * Conversion of a Unix `struct timeval` into an NTP timestamp (section 3 of RFC 4330):
 * 32 bits of seconds since 1900-01-01 and 32 bits of binary fraction of a second.
 *
 * Both programs carry their own copy of `convertTime`. The client stores the results in
 * `unsigned int`, the server in `int`; both are modelled here.
 */
module NtpTime {
  import opened Wire

  /** Seconds from 1900-01-01T00:00:00Z (NTP era 0) to 1970-01-01T00:00:00Z. */
  const UNIX_TO_NTP: int := 0x83AA7E80
  const USEC_PER_SEC: int := 1_000_000

  /** A clock reading as `gettimeofday` returns it: seconds and microseconds since the Unix epoch. */
  datatype TimeVal = TimeVal(sec: int, usec: int)

  /** An NTP timestamp: whole seconds and the binary fraction of a second, in host order. */
  datatype Timestamp = Timestamp(seconds: uint32, fraction: uint32)

  /** A microsecond count the conversion accepts (see `LastMicrosecondOverflows`). */
  predicate ConvertibleUsec(usec: int)
  {
    0 <= usec < USEC_PER_SEC - 1
  }

  /** `(usec + 1) * 2^32 / 10^6`, rounded down, computed exactly. */
  function ScaledFraction(usec: int): (r: int)
    ensures r * USEC_PER_SEC <= (usec + 1) * WORD < (r + 1) * USEC_PER_SEC
  {
    (usec + 1) * WORD / USEC_PER_SEC
  }

  /**
   * With a full second's worth of microseconds (`tv_usec == 999999`) the product is exactly 2^32,
   * which no `uint32_t` holds: the cast in the source is then undefined.
   */
  lemma LastMicrosecondOverflows()
    ensures ScaledFraction(USEC_PER_SEC - 1) == WORD
  {
  }

  lemma {:induction false} ScaledFractionMonotone(u: int, v: int)
    requires 0 <= u <= v
    ensures ScaledFraction(u) <= ScaledFraction(v)
  {
    var a, b := (u + 1) * WORD, (v + 1) * WORD;
    assert a <= b;
    var qa, qb := a / USEC_PER_SEC, b / USEC_PER_SEC;
    assert qa * USEC_PER_SEC <= a;
    assert b < (qb + 1) * USEC_PER_SEC;
    assert qa * USEC_PER_SEC < (qb + 1) * USEC_PER_SEC;
  }

  lemma ScaledFractionFits(usec: int)
    requires ConvertibleUsec(usec)
    ensures 0 <= ScaledFraction(usec) < WORD
  {
    ScaledFractionMonotone(usec, USEC_PER_SEC - 2);
    assert ScaledFraction(USEC_PER_SEC - 2) == 4294963001;
  }

  /**
   * `convertTime` as the client has it: the seconds are shifted to the NTP epoch and wrap to 32
   * bits; the fraction is the largest 32-bit fraction not above `(usec + 1)` microseconds.
   */
  function ConvertTime(t: TimeVal): (n: Timestamp)
    requires ConvertibleUsec(t.usec)
    ensures (n.seconds - (t.sec + UNIX_TO_NTP)) % WORD == 0
    ensures n.fraction * USEC_PER_SEC <= (t.usec + 1) * WORD < (n.fraction + 1) * USEC_PER_SEC
  {
    ScaledFractionFits(t.usec);
    Timestamp(ToUint32(t.sec + UNIX_TO_NTP), ScaledFraction(t.usec))
  }

  /**
   * `convertTime` as the server has it: the same values stored through `int`. Sent through
   * `htonl`, which takes a `uint32_t`, each becomes the client's value again.
   */
  function ServerConvertTime(t: TimeVal): (r: (int32, int32))
    requires ConvertibleUsec(t.usec)
    ensures ToUint32(r.0) == ConvertTime(t).seconds
    ensures ToUint32(r.1) == ConvertTime(t).fraction
  {
    ScaledFractionFits(t.usec);
    (ToInt32(t.sec + UNIX_TO_NTP), ToInt32(ScaledFraction(t.usec)))
  }

  /** Within NTP era 0 the epoch shift is undone by subtracting it. */
  lemma EpochShiftInvertible(t: TimeVal)
    requires ConvertibleUsec(t.usec)
    requires 0 <= t.sec + UNIX_TO_NTP < WORD
    ensures ConvertTime(t).seconds - UNIX_TO_NTP == t.sec
  {
  }

  /** Lexicographic order on clock readings. */
  predicate TimeValNotAfter(a: TimeVal, b: TimeVal)
  {
    a.sec < b.sec || (a.sec == b.sec && a.usec <= b.usec)
  }

  /** Lexicographic order on timestamps, seconds first. */
  predicate NotAfter(a: Timestamp, b: Timestamp)
  {
    a.seconds < b.seconds || (a.seconds == b.seconds && a.fraction <= b.fraction)
  }

  /** A later clock reading never converts to an earlier timestamp, unless the seconds wrap. */
  lemma {:induction false} ConvertTimeMonotone(a: TimeVal, b: TimeVal)
    requires ConvertibleUsec(a.usec) && ConvertibleUsec(b.usec)
    requires TimeValNotAfter(a, b)
    requires 0 <= a.sec + UNIX_TO_NTP && b.sec + UNIX_TO_NTP < WORD
    ensures NotAfter(ConvertTime(a), ConvertTime(b))
  {
    if a.sec == b.sec {
      ScaledFractionMonotone(a.usec, b.usec);
    }
  }
}
