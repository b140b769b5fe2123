/** The value sets of the two routes and the handlers that turn a request's
    parsed inputs into an image. `/api/1/utc` encodes the unix time alone;
    `/api/1/local` encodes the unix time, the zone's current UTC offset, and
    the instant and offset of the zone's next transition (0 and 0 when there is
    none). */
module Routes {
  import opened Wrappers
  import opened JavaBits
  import opened PixelCodec
  import opened TimeResolver
  import opened BlockSize
  import opened ImageAssembler

  /** ZoneOffset.getTotalSeconds: an offset from UTC, at most 18 hours either way. */
  type OffsetSeconds = x: int | -64800 <= x <= 64800

  /** A ZoneOffsetTransition: when it happens, in epoch seconds, and the
      offset in force after it. */
  datatype Transition = Transition(instant: Long, offsetAfter: OffsetSeconds)

  /** The queries the handler puts to a zone's rules (ZoneRules.getOffset and
      ZoneRules.nextTransition); the time-zone database behind them is an input. */
  datatype ZoneRules = ZoneRules(offsetAt: Long -> OffsetSeconds, nextTransition: Long -> Option<Transition>)

  /** The rules of ZoneOffset.UTC, used when the request names no zone: offset
      zero, and no transition ever. */
  const UtcRules: ZoneRules := ZoneRules(_ => 0, _ => None)

  /** Without a `tz` parameter, the offset block of `/api/1/local` decodes to
      0 and there is no transition, so the last two blocks are 0 as well. */
  lemma UtcRulesDecodeToZero(now: Long)
    ensures DecodePixel(PixelValueFor(UtcRules.offsetAt(now))) == 0
    ensures UtcRules.nextTransition(now).None?
  {
    RoundTripSigned(0);
  }

  /** The value set of `/api/1/utc`: `{ getUnixTime(now) }`. */
  function UtcValues(now: Long): (r: Result<seq<Long>, Error>)
    ensures r.Ok? <==> IsUnixTime(now)
    ensures r.Ok? ==> r.value == [now]
    ensures r.Err? ==> r.error == UnixTimeOutOfRange(now)
  {
    match GetUnixTime(now)
    case Err(e) => Err(e)
    case Ok(unixTime) => Ok([unixTime])
  }

  /** The value set of `/api/1/local`: a zeroed `long[4]` whose slots are
      filled in turn. A transition that exists must itself be a valid unix
      time; one that does not leaves slots 2 and 3 at zero. */
  method LocalValues(now: Long, rules: ZoneRules) returns (r: Result<seq<Long>, Error>)
    ensures r.Ok? <==> (IsUnixTime(now) &&
      (rules.nextTransition(now).Some? ==> IsUnixTime(rules.nextTransition(now).value.instant)))
    ensures r.Err? && !IsUnixTime(now) ==> r.error == UnixTimeOutOfRange(now)
    ensures r.Err? && IsUnixTime(now) ==>
      rules.nextTransition(now).Some? &&
      r.error == UnixTimeOutOfRange(rules.nextTransition(now).value.instant)
    ensures r.Ok? ==> |r.value| == 4 && r.value[0] == now && r.value[1] == rules.offsetAt(now)
    ensures r.Ok? && rules.nextTransition(now).Some? ==>
      r.value[2] == rules.nextTransition(now).value.instant &&
      r.value[3] == rules.nextTransition(now).value.offsetAfter
    ensures r.Ok? && rules.nextTransition(now).None? ==> r.value[2] == 0 && r.value[3] == 0
  {
    var values := new Long[4](_ => 0);
    var unixTime := GetUnixTime(now);
    if unixTime.Err? {
      return Err(unixTime.error);
    }
    values[0] := unixTime.value;
    values[1] := rules.offsetAt(now);
    var transition := rules.nextTransition(now);
    if transition.Some? {
      var transitionTime := GetUnixTime(transition.value.instant);
      if transitionTime.Err? {
        return Err(transitionTime.error);
      }
      values[2] := transitionTime.value;
      values[3] := transition.value.offsetAfter;
    }
    r := Ok(values[..]);
  }

  /** The `/api/1/utc` handler: a size-by-size image every pixel of which a
      client decodes, as a 32-bit word, back to the unix time of `now`. */
  method UtcHandler(queryNow: Option<Long>, requestStartMillis: Option<Long>, clock: Long,
                    sizeParam: Option<Int>) returns (r: Result<Image, Error>)
    ensures r.Ok? <==> IsUnixTime(GetNow(queryNow, requestStartMillis, clock))
    ensures r.Err? ==> r.error == UnixTimeOutOfRange(GetNow(queryNow, requestStartMillis, clock))
    ensures r.Ok? ==> (r.value.Valid() &&
      r.value.width == GetSize(sizeParam) && r.value.height == GetSize(sizeParam))
    ensures r.Ok? ==> forall x, y | 0 <= x < r.value.width && 0 <= y < r.value.height ::
      IntBits(DecodePixel(r.value.PixelAt(x, y))) == GetNow(queryNow, requestStartMillis, clock)
  {
    var now := GetNow(queryNow, requestStartMillis, clock);
    var values := UtcValues(now);
    if values.Err? {
      return Err(values.error);
    }
    var image := SendValuesAsImage(values.value, sizeParam);
    RoundTripUnsigned(now);
    r := Ok(image);
  }

  /** The `/api/1/local` handler: an image of four size-by-size blocks that a
      client decodes to the unix time, the current offset, and the next
      transition's unix time and offset (0 and 0 without one). Unix times come
      back as unsigned 32-bit words, offsets as signed `int`s. Without a `tz`
      parameter the zone is UTC. */
  method LocalHandler(queryNow: Option<Long>, requestStartMillis: Option<Long>, clock: Long,
                      zone: Option<ZoneRules>, sizeParam: Option<Int>) returns (r: Result<Image, Error>)
    ensures var now := GetNow(queryNow, requestStartMillis, clock);
      var next := zone.OrElse(UtcRules).nextTransition(now);
      r.Ok? <==> IsUnixTime(now) && (next.Some? ==> IsUnixTime(next.value.instant))
    ensures r.Ok? ==> (r.value.Valid() &&
      r.value.width == 4 * GetSize(sizeParam) && r.value.height == GetSize(sizeParam))
    ensures r.Ok? ==>
      var now := GetNow(queryNow, requestStartMillis, clock);
      var rules := zone.OrElse(UtcRules);
      var next := rules.nextTransition(now);
      forall x, y | 0 <= x < r.value.width && 0 <= y < r.value.height ::
        var block := BlockOfColumn(x, GetSize(sizeParam), 4);
        var decoded := DecodePixel(r.value.PixelAt(x, y));
        (block == 0 ==> IntBits(decoded) == now) &&
        (block == 1 ==> decoded == rules.offsetAt(now)) &&
        (block == 2 ==> IntBits(decoded) == if next.Some? then next.value.instant else 0) &&
        (block == 3 ==> decoded == if next.Some? then next.value.offsetAfter else 0)
  {
    var now := GetNow(queryNow, requestStartMillis, clock);
    var rules := zone.OrElse(UtcRules);
    var values := LocalValues(now, rules);
    if values.Err? {
      return Err(values.error);
    }
    var image := SendValuesAsImage(values.value, sizeParam);
    LocalImageDecodes(image, values.value, GetSize(sizeParam), now, rules);
    r := Ok(image);
  }

  /** Every pixel of the `/api/1/local` image decodes to the value of its block. */
  lemma LocalImageDecodes(image: Image, v: seq<Long>, size: int, now: Long, rules: ZoneRules)
    requires |v| == 4 && size >= 1 && image.Valid() && image.width == size * 4 && image.height == size
    requires forall x, y | 0 <= x < image.width && 0 <= y < image.height ::
      image.PixelAt(x, y) == PixelValueFor(v[BlockOfColumn(x, size, |v|)])
    requires IsUnixTime(now) && v[0] == now && v[1] == rules.offsetAt(now)
    requires rules.nextTransition(now).Some? ==>
      IsUnixTime(rules.nextTransition(now).value.instant) &&
      v[2] == rules.nextTransition(now).value.instant &&
      v[3] == rules.nextTransition(now).value.offsetAfter
    requires rules.nextTransition(now).None? ==> v[2] == 0 && v[3] == 0
    ensures var next := rules.nextTransition(now);
      forall x, y | 0 <= x < image.width && 0 <= y < image.height ::
        var block := BlockOfColumn(x, size, 4);
        var decoded := DecodePixel(image.PixelAt(x, y));
        (block == 0 ==> IntBits(decoded) == now) &&
        (block == 1 ==> decoded == rules.offsetAt(now)) &&
        (block == 2 ==> IntBits(decoded) == if next.Some? then next.value.instant else 0) &&
        (block == 3 ==> decoded == if next.Some? then next.value.offsetAfter else 0)
  {
    LocalBlocksDecode(v, now, rules);
  }

  /** What a client reads back from each of the four values of
      `/api/1/local`: unix times as unsigned 32-bit words, offsets as signed
      `int`s, and 0 in both transition slots when there is no transition. */
  lemma LocalBlocksDecode(v: seq<Long>, now: Long, rules: ZoneRules)
    requires |v| == 4 && IsUnixTime(now) && v[0] == now && v[1] == rules.offsetAt(now)
    requires rules.nextTransition(now).Some? ==>
      IsUnixTime(rules.nextTransition(now).value.instant) &&
      v[2] == rules.nextTransition(now).value.instant &&
      v[3] == rules.nextTransition(now).value.offsetAfter
    requires rules.nextTransition(now).None? ==> v[2] == 0 && v[3] == 0
    ensures IntBits(DecodePixel(PixelValueFor(v[0]))) == now
    ensures DecodePixel(PixelValueFor(v[1])) == rules.offsetAt(now)
    ensures IntBits(DecodePixel(PixelValueFor(v[2]))) ==
      if rules.nextTransition(now).Some? then rules.nextTransition(now).value.instant else 0
    ensures DecodePixel(PixelValueFor(v[3])) ==
      if rules.nextTransition(now).Some? then rules.nextTransition(now).value.offsetAfter else 0
  {
    RoundTripUnsigned(v[0]);
    RoundTripSigned(v[1]);
    RoundTripUnsigned(v[2]);
    RoundTripSigned(v[3]);
  }
}
