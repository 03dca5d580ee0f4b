/** The time budget column of the condition table (src/Test.py:64-66): a
    clock time H:M:S is read and turned into seconds as
    hour * 3600 + minute * 60 + second. */
module Clock {

  /** A clock time as the %H:%M:%S format admits it. */
  datatype ClockTime = ClockTime(hour: nat, minute: nat, second: nat)

  predicate ValidTime(c: ClockTime) {
    c.hour < 24 && c.minute < 60 && c.second < 60
  }

  /** The budget in seconds of a clock time: always within one day. */
  function ClkSeconds(c: ClockTime): (n: nat)
    requires ValidTime(c)
    ensures n < 86400
    ensures n / 3600 == c.hour && (n % 3600) / 60 == c.minute && n % 60 == c.second
  {
    c.hour * 3600 + c.minute * 60 + c.second
  }

  /** The clock time of a number of seconds within one day. */
  function FromSeconds(n: nat): (c: ClockTime)
    requires n < 86400
    ensures ValidTime(c)
  {
    ClockTime(n / 3600, (n % 3600) / 60, n % 60)
  }

  /** Reading a clock time back from its seconds gives the same time. */
  lemma SecondsRoundTrip(c: ClockTime)
    requires ValidTime(c)
    ensures FromSeconds(ClkSeconds(c)) == c
  {
  }

  /** Every budget within one day is the seconds of exactly one clock
      time. */
  lemma ClockRoundTrip(n: nat)
    requires n < 86400
    ensures ClkSeconds(FromSeconds(n)) == n
  {
  }

  /** Later clock times give larger budgets. */
  lemma ClkSecondsMonotone(a: ClockTime, b: ClockTime)
    requires ValidTime(a) && ValidTime(b)
    requires a.hour < b.hour || (a.hour == b.hour && (a.minute < b.minute || (a.minute == b.minute && a.second < b.second)))
    ensures ClkSeconds(a) < ClkSeconds(b)
  {
  }
}
