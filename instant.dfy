/**
 * The instant a `Datetime` wraps. Go's `time.Time` always holds normalised
 * calendar fields, so each field has the range Go guarantees for it; the
 * location is carried along and never inspected.
 */
module Instants {

  /** The time zone an instant is expressed in. */
  datatype Location = Location(name: string)

  type Month = m: int | 1 <= m <= 12 witness 1
  type Day = d: int | 1 <= d <= 31 witness 1
  type Hour = h: int | 0 <= h <= 23
  type Minute = m: int | 0 <= m <= 59
  type Second = s: int | 0 <= s <= 59
  type Nanosecond = n: int | 0 <= n <= 999_999_999

  /** Calendar fields of an instant; the year is signed (year 0 exists, −1 is 2 BC). */
  datatype Instant = Instant(
    year: int,
    month: Month,
    day: Day,
    hour: Hour,
    min: Minute,
    sec: Second,
    nsec: Nanosecond,
    loc: Location)

  /** The magnitude of a year. */
  function Abs(x: int): (r: nat)
    ensures r == x || r == -x
  {
    if x < 0 then -x else x
  }

  /** `Datetime.Millisecond`: the millisecond offset within the second. */
  function Millisecond(t: Instant): (ms: int)
    ensures 0 <= ms <= 999
    ensures ms * 1_000_000 <= t.nsec < (ms + 1) * 1_000_000
  {
    t.nsec / 1_000_000
  }

  /** `Datetime.Microsecond`: the microsecond offset within the second. */
  function Microsecond(t: Instant): (us: int)
    ensures 0 <= us <= 999_999
    ensures us * 1_000 <= t.nsec < (us + 1) * 1_000
  {
    t.nsec / 1_000
  }

  /** The two accessors agree: the millisecond is the microsecond with its last three digits dropped. */
  lemma MillisecondOfMicrosecond(t: Instant)
    ensures Millisecond(t) == Microsecond(t) / 1_000
  {
    var ms, us := Millisecond(t), Microsecond(t);
    assert ms * 1_000 <= us < (ms + 1) * 1_000;
  }
}
