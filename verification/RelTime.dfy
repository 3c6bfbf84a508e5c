/** Relative time as kept by `struct os_reltime`: seconds and microseconds. */
module RelTime {

  datatype RawTime = RawTime(sec: int, usec: int)

  /** Times delivered by the clock have their microseconds below one million. */
  type Time = t: RawTime | 0 <= t.usec < 1000000 witness RawTime(0, 0)

  /** The instant as one number of microseconds. */
  function Micros(t: Time): int {
    t.sec * 1000000 + t.usec
  }

  /** The only normalised time with the given number of microseconds. */
  function FromMicros(m: int): Time {
    RawTime(m / 1000000, m % 1000000)
  }

  predicate Before(a: Time, b: Time) {
    a.sec < b.sec || (a.sec == b.sec && a.usec < b.usec)
  }

  /** The lexicographic comparison is the comparison of instants. */
  lemma BeforeIsEarlier(a: Time, b: Time)
    ensures Before(a, b) <==> Micros(a) < Micros(b)
  {
  }

  function Sub(a: Time, b: Time): Time {
    if a.usec - b.usec < 0 then RawTime(a.sec - b.sec - 1, a.usec - b.usec + 1000000)
    else RawTime(a.sec - b.sec, a.usec - b.usec)
  }

  predicate Expired(now: Time, ts: Time, timeoutSecs: int) {
    var age := Sub(now, ts);
    age.sec > timeoutSecs || (age.sec == timeoutSecs && age.usec > 0)
  }

  /** Expiry is exact to the microsecond: strictly more than the timeout has passed. */
  lemma ExpiredIsExact(now: Time, ts: Time, timeoutSecs: int)
    ensures Expired(now, ts, timeoutSecs) <==> Micros(now) - Micros(ts) > timeoutSecs * 1000000
  {
  }

  /** The time of a scan result: the fetch time less the result's age, exactly. */
  function UpdateTime(fetch: Time, ageMs: nat): Time {
    FromMicros(Micros(fetch) - ageMs * 1000)
  }

  lemma Normalised(t: Time, m: int)
    requires t.sec * 1000000 + t.usec == m
    ensures t == FromMicros(m)
  {
  }

  lemma WholeSeconds(ageMs: nat)
    ensures ageMs * 1000 == (ageMs / 1000) * 1000000 + (ageMs % 1000) * 1000
  {
  }

  /** Computes the update time by borrowing one second where the microseconds do not suffice. */
  method CalculateUpdateTime(fetch: Time, ageMs: nat) returns (update: Time)
    ensures update == UpdateTime(fetch, ageMs)
    ensures Micros(update) + ageMs * 1000 == Micros(fetch)
  {
    WholeSeconds(ageMs);
    var sec, usec := fetch.sec - ageMs / 1000, fetch.usec;
    var delta := (ageMs % 1000) * 1000;
    if usec < delta {
      sec := sec - 1;
      usec := usec + 1000000;
    }
    update := RawTime(sec, usec - delta);
    Normalised(update, Micros(fetch) - ageMs * 1000);
  }
}
