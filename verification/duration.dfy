/** Time arithmetic shared by the services and components. Instants are
    integer milliseconds since the epoch (what `new Date()` holds); stored hour
    figures (`totalHours`, a break's `duration`) are integer hundredths of an
    hour, the value `Math.round(hours * 100) / 100` keeps. */
module Duration {

  /** Milliseconds since 1970-01-01T00:00:00Z. */
  type Instant = int

  const MsPerMinute: int := 60 * 1000
  const MsPerHour: int := 60 * MsPerMinute
  /** One hundredth of an hour: the resolution of stored hour figures. */
  const MsPerCentiHour: int := MsPerHour / 100
  const MsPerDay: int := 24 * MsPerHour

  /** `Math.round((ms / 3 600 000) * 100)` — elapsed milliseconds as the
      nearest hundredth of an hour, halves rounding up as `Math.round` does. */
  function RoundCentiHours(ms: int): (c: int)
    ensures -MsPerCentiHour / 2 < c * MsPerCentiHour - ms <= MsPerCentiHour / 2
  {
    (ms + MsPerCentiHour / 2) / MsPerCentiHour
  }

  /** Multiplying by the length of a hundredth of an hour distributes over a sum. */
  lemma CentiHoursAdd(d: int, t: int)
    ensures (d + t) * MsPerCentiHour == d * MsPerCentiHour + t * MsPerCentiHour
  {
    assert MsPerCentiHour == 36000;
  }

  /** The rounding is exact on whole hundredths of an hour. */
  lemma RoundCentiHoursExact(c: int)
    ensures RoundCentiHours(c * MsPerCentiHour) == c
  {
    var r := RoundCentiHours(c * MsPerCentiHour);
    assert -18000 < (r - c) * 36000 <= 18000;
  }

  /** Rounding never decreases when more time has elapsed. */
  lemma RoundCentiHoursMonotone(a: int, b: int)
    requires a <= b
    ensures RoundCentiHours(a) <= RoundCentiHours(b)
  {
    var ra, rb := RoundCentiHours(a), RoundCentiHours(b);
    assert -18000 < ra * 36000 - a <= 18000;
    assert -18000 < rb * 36000 - b <= 18000;
  }

  /** `Math.trunc(a / b)` for a positive divisor: the quotient rounded
      toward zero, the one JavaScript's `%` is defined by. */
  function JsTrunc(a: int, b: int): (q: int)
    requires b > 0
    ensures a >= 0 ==> q >= 0 && q * b <= a < q * b + b
    ensures a < 0 ==> q <= 0 && q * b - b < a <= q * b
  {
    if a >= 0 then a / b else -((-a) / b)
  }

  /** JavaScript's `a % b` for a positive divisor: the remainder takes the
      sign of the dividend (truncating division), unlike Dafny's `%`. */
  function JsRem(a: int, b: int): (r: int)
    requires b > 0
    ensures a >= 0 ==> 0 <= r < b
    ensures a < 0 ==> -b < r <= 0
    ensures r == a - JsTrunc(a, b) * b
  {
    if a >= 0 then a % b else -((-a) % b)
  }

  /** `Math.floor(m / 60)` and `m % 60` as the components compute them. */
  function HoursMinutes(m: int): (hm: (int, int))
    ensures hm.0 * 60 <= m < hm.0 * 60 + 60
    ensures m >= 0 ==> hm.0 * 60 + hm.1 == m && 0 <= hm.1 < 60
    ensures m < 0 ==> -60 < hm.1 <= 0 && (m - hm.1) % 60 == 0
  {
    (m / 60, JsRem(m, 60))
  }
}
