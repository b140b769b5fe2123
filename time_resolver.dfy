/** The time resolver: which instant a request is about, and its conversion to
    an unsigned 32-bit unix time. An instant is held as its whole seconds since
    the epoch, the only part of it the service reads. */
module TimeResolver {
  import opened Wrappers
  import opened JavaBits

  /** The IllegalStateException thrown when the clock lies outside what a
      32-bit pixel can carry; it reports the offending second count. */
  datatype Error = UnixTimeOutOfRange(unixTime: Long)

  predicate IsUnixTime(seconds: int)
  {
    0 <= seconds <= MaxUnsignedInt
  }

  /** Main.getUnixTime: the instant's seconds, provided they fit in an
      unsigned 32-bit word; otherwise the service gives up. */
  function GetUnixTime(seconds: Long): (r: Result<Long, Error>)
    ensures r.Ok? <==> IsUnixTime(seconds)
    ensures r.Ok? ==> r.value == seconds
    ensures r.Err? ==> r.error == UnixTimeOutOfRange(seconds)
  {
    if seconds < 0 || seconds > MaxUnsignedInt then Err(UnixTimeOutOfRange(seconds))
    else Ok(seconds)
  }

  /** A later instant never yields an earlier unix time, and the accepted
      instants form one interval: anything between two accepted ones is
      accepted. */
  lemma UnixTimeMonotonic(a: Long, b: Long)
    requires a <= b
    ensures GetUnixTime(a).Ok? && GetUnixTime(b).Ok? ==> GetUnixTime(a).value <= GetUnixTime(b).value
    ensures forall c: Long :: a <= c <= b && GetUnixTime(a).Ok? && GetUnixTime(b).Ok? ==> GetUnixTime(c).Ok?
  {
  }

  /** Instant.ofEpochMilli(ms) read back in whole seconds: the seconds round
      toward negative infinity, so a time just before the epoch is second -1. */
  function FromEpochMilli(millis: Long): (seconds: Long)
    ensures seconds * 1000 <= millis < seconds * 1000 + 1000
  {
    DivShrinks(millis, 1000);
    millis / 1000
  }

  /** Main.getNowFromRequestHeader: the X-Request-Start header, a count of
      milliseconds, as an instant. */
  function GetNowFromRequestHeader(requestStartMillis: Option<Long>): (r: Option<Long>)
    ensures r.Some? <==> requestStartMillis.Some?
    ensures r.Some? ==> r.value * 1000 <= requestStartMillis.value < r.value * 1000 + 1000
  {
    match requestStartMillis
    case None => None
    case Some(millis) => Some(FromEpochMilli(millis))
  }

  /** Main.getNow: the `now` query parameter wins, then the X-Request-Start
      header, then the wall clock. The parsed parameter, the parsed header and
      the clock reading are inputs. */
  function GetNow(queryNow: Option<Long>, requestStartMillis: Option<Long>, clock: Long): (now: Long)
    ensures queryNow.Some? ==> now == queryNow.value
    ensures queryNow.None? && requestStartMillis.Some? ==>
      now * 1000 <= requestStartMillis.value < now * 1000 + 1000
    ensures queryNow.None? && requestStartMillis.None? ==> now == clock
  {
    queryNow.Or(GetNowFromRequestHeader(requestStartMillis)).OrElse(clock)
  }
}
