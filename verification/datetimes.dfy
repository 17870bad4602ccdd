/** Timestamps as a DateTimeField hands them to the booking rule: naive
    datetimes whose fields are compared in the order Python compares them. */
module DateTimes {

  /** A calendar day (counted from an arbitrary epoch) and a time of day down
      to the microsecond. */
  datatype DateTime = DateTime(day: int, hour: int, minute: int, second: int, micro: int)

  /** The ranges Python's datetime guarantees for its time-of-day fields. */
  predicate WellFormed(t: DateTime) {
    0 <= t.hour < 24 && 0 <= t.minute < 60 && 0 <= t.second < 60 && 0 <= t.micro < 1000000
  }

  /** `a <= b` on datetimes: lexicographic over date, hour, minute, second
      and microsecond. */
  predicate LessEq(a: DateTime, b: DateTime) {
    if a.day != b.day then a.day < b.day
    else if a.hour != b.hour then a.hour < b.hour
    else if a.minute != b.minute then a.minute < b.minute
    else if a.second != b.second then a.second < b.second
    else a.micro <= b.micro
  }

  /** `a < b` on datetimes. */
  predicate Less(a: DateTime, b: DateTime) {
    !LessEq(b, a)
  }

  /** The instant as one number: microseconds since the epoch. */
  function Micros(t: DateTime): (us: int) {
    Seconds(t) * 1000000 + t.micro
  }

  function Seconds(t: DateTime): (s: int) {
    Minutes(t) * 60 + t.second
  }

  function Minutes(t: DateTime): (m: int) {
    Hours(t) * 60 + t.minute
  }

  function Hours(t: DateTime): (h: int) {
    t.day * 24 + t.hour
  }

  /** The lexicographic comparison agrees with comparing absolute instants,
      so it is the usual order on points in time. */
  lemma {:induction false} LessEqMatchesMicros(a: DateTime, b: DateTime)
    requires WellFormed(a) && WellFormed(b)
    ensures LessEq(a, b) <==> Micros(a) <= Micros(b)
    ensures a == b <==> Micros(a) == Micros(b)
  {
  }
}
