/**
 * Window resolution: turning the `since`, `until` and `step` options and the
 * current time into the `{start, end, step}` triple sent to the data provider.
 * Times are milliseconds since the epoch. The duration parser is a parameter:
 * `duration(text)` is the number of milliseconds `text` denotes, or `None`
 * when the parser rejects it (it throws, and the command fails).
 */
module WindowResolver {
  import opened Outcomes
  import opened JsParseInt

  /** The range and sampling interval requested from the provider. */
  datatype TimeWindow = TimeWindow(start: int, end: int, step: real)

  /** The range option whose text the duration parser rejected. */
  datatype RangeOption = Since | Until

  datatype ParseError = ParseError(option: RangeOption, text: string)

  /** The look-back used when `since` is not given: one hour. */
  const DefaultLookbackMs: int := 3600000

  /** The smallest step ever requested. */
  const MinStep: real := 30.0

  /** The default step divides the range into this many intervals. */
  const DefaultPoints: real := 1000.0

  /** An option JavaScript treats as false: not given, or the empty string. */
  predicate Blank(o: Option<string>)
  {
    o.None? || o.value == ""
  }

  /** `text.toLowerCase() === 'now'`: only the ASCII letters of "now" lower-case to them. */
  predicate IsNow(text: string)
  {
    && |text| == 3
    && (text[0] == 'n' || text[0] == 'N')
    && (text[1] == 'o' || text[1] == 'O')
    && (text[2] == 'w' || text[2] == 'W')
  }

  /** Whether `until` leaves the end of the range at the current time. */
  predicate EndsNow(until: Option<string>)
  {
    Blank(until) || IsNow(until.value)
  }

  /** The end of the range: now, or that long before now. */
  function ResolveUntil(now: int, until: Option<string>, duration: string -> Option<int>): Result<int, ParseError>
  {
    if EndsNow(until) then Ok(now)
    else match duration(until.value)
      case None => Err(ParseError(Until, until.value))
      case Some(ms) => Ok(now - ms)
  }

  /** The start of the range: one hour, or the given duration, before its end. */
  function ResolveSince(end: int, since: Option<string>, duration: string -> Option<int>): Result<int, ParseError>
  {
    if Blank(since) then Ok(end - DefaultLookbackMs)
    else match duration(since.value)
      case None => Err(ParseError(Since, since.value))
      case Some(ms) => Ok(end - ms)
  }

  /** The step as `parseInt` reads the option; NaN, 0 and an absent option all fall back to the default. */
  function RequestedStep(step: Option<string>): Option<int>
  {
    if step.None? then None
    else match ParseInt(step.value)
      case Some(k) => if k != 0 then Some(k) else None
      case None => None
  }

  /** The step: the requested one, or a thousandth of the range, and never below the floor. */
  function ResolveStep(step: Option<string>, start: int, end: int): (r: real)
    ensures r >= MinStep
    ensures RequestedStep(step).Some? ==> r >= RequestedStep(step).value as real
    ensures RequestedStep(step).None? ==> r * DefaultPoints >= (end - start) as real
    ensures r == MinStep || r == (if RequestedStep(step).Some? then RequestedStep(step).value as real
                                  else (end - start) as real / DefaultPoints)
  {
    var candidate := match RequestedStep(step)
      case Some(k) => k as real
      case None => (end - start) as real / DefaultPoints;
    if MinStep < candidate then candidate else MinStep
  }

  /** The whole resolution, in the order the command evaluates it: `until`, then `since`, then `step`. */
  function ResolveWindow(now: int, since: Option<string>, until: Option<string>, step: Option<string>,
                         duration: string -> Option<int>): (r: Result<TimeWindow, ParseError>)
    ensures r.Ok? ==> r.value.step >= MinStep
    ensures r.Err? <==> || (!EndsNow(until) && duration(until.value).None?)
                        || (!Blank(since) && duration(since.value).None?)
    ensures r.Err? && !EndsNow(until) && duration(until.value).None? ==> r.error == ParseError(Until, until.value)
  {
    match ResolveUntil(now, until, duration)
    case Err(e) => Err(e)
    case Ok(end) =>
      match ResolveSince(end, since, duration)
      case Err(e) => Err(e)
      case Ok(start) => Ok(TimeWindow(start, end, ResolveStep(step, start, end)))
  }

  /** With no options the range is the last hour and the step a thousandth of it. */
  lemma DefaultWindow(now: int, duration: string -> Option<int>)
    ensures ResolveWindow(now, None, None, None, duration) == Ok(TimeWindow(now - 3600000, now, 3600.0))
  {
  }

  /** The end of the range: now when `until` is absent or "now" in any case; otherwise the duration back from now, even for text meant as an absolute time. */
  lemma UntilResolution(now: int, since: Option<string>, until: Option<string>, step: Option<string>,
                        duration: string -> Option<int>)
    requires ResolveWindow(now, since, until, step, duration).Ok?
    ensures var w := ResolveWindow(now, since, until, step, duration).value;
            && (EndsNow(until) ==> w.end == now)
            && (!EndsNow(until) ==> duration(until.value).Some? && w.end == now - duration(until.value).value)
  {
  }

  /** The start of the range: one hour before the end when `since` is absent, otherwise the duration back from the end. */
  lemma SinceResolution(now: int, since: Option<string>, until: Option<string>, step: Option<string>,
                        duration: string -> Option<int>)
    requires ResolveWindow(now, since, until, step, duration).Ok?
    ensures var w := ResolveWindow(now, since, until, step, duration).value;
            && (Blank(since) ==> w.start == w.end - DefaultLookbackMs)
            && (!Blank(since) ==> duration(since.value).Some? && w.start == w.end - duration(since.value).value)
  {
  }

  /** The range is non-empty exactly when the look-back is positive; a zero or negative duration for `since` is not rejected. */
  lemma StartBeforeEnd(now: int, since: Option<string>, until: Option<string>, step: Option<string>,
                       duration: string -> Option<int>)
    requires ResolveWindow(now, since, until, step, duration).Ok?
    ensures var w := ResolveWindow(now, since, until, step, duration).value;
            w.start < w.end <==> (Blank(since) || duration(since.value).value > 0)
  {
  }

  /** A nonzero integer step `k` gives `max(30, k)`; otherwise the range divided into a thousand, but at least 30. */
  lemma StepResolution(now: int, since: Option<string>, until: Option<string>, step: Option<string>,
                       duration: string -> Option<int>)
    requires ResolveWindow(now, since, until, step, duration).Ok?
    ensures var w := ResolveWindow(now, since, until, step, duration).value;
            && (RequestedStep(step).Some? ==>
                  w.step == (if RequestedStep(step).value as real < MinStep then MinStep else RequestedStep(step).value as real))
            && (RequestedStep(step).None? ==>
                  var share := (w.end - w.start) as real / DefaultPoints;
                  w.step == (if share < MinStep then MinStep else share))
  {
  }

  /** A step option of a numeral `k` (possibly with trailing text such as "60s") requests `k` itself, unless it is 0. */
  lemma StepOptionNumeral(k: int, rest: string)
    requires |rest| == 0 || !IsDigit(rest[0])
    ensures RequestedStep(Some(Decimal(k) + rest)) == if k == 0 then None else Some(k)
  {
    ParseIntOfDecimal(k, rest);
  }

  /** A ten-second range with no step requests the floor of 30, not a hundredth. */
  lemma ShortRangeStepFloor(now: int, duration: string -> Option<int>)
    requires duration("10s") == Some(10000)
    ensures ResolveWindow(now, Some("10s"), None, None, duration) == Ok(TimeWindow(now - 10000, now, 30.0))
  {
  }
}
