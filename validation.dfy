/**
 * The checks a chart form runs on its input before any query: the bounds
 * of the interval field, then the form-wide checks on the window.
 */
module Validation {
  import opened Tasks
  import opened Time

  /** The default largest window the forms accept: three days. */
  const DefaultMaxSpan: int := 3 * MicrosPerDay

  /** Bounds of the load chart's interval field, in seconds. */
  const MinInterval: int := 1
  const MaxInterval: int := 60 * 60 * 24

  /** Errors the interval field reports by itself. */
  datatype FieldError = Required | BelowMin | AboveMax

  /** Errors the form-wide check reports; only the first that applies is reported. */
  datatype FormError = StartNotBeforeEnd | RangeTooLarge | IntervalTooLong

  /** The interval field's outcome: the cleaned value or the field's error. */
  datatype FieldResult = Ok(value: int) | Err(error: FieldError)

  /**
   * The interval field: required, an integer between one second and one day.
   * A value that fails is left out of the cleaned data.
   */
  function CleanInterval(raw: Option<int>): (r: FieldResult)
    ensures r.Ok? <==> raw.Some? && MinInterval <= raw.value <= MaxInterval
    ensures r.Ok? ==> r.value == raw.value
    ensures r == Err(Required) <==> raw.None?
  {
    match raw
    case None => Err(Required)
    case Some(v) =>
      if v < MinInterval then Err(BelowMin)
      else if v > MaxInterval then Err(AboveMax)
      else Ok(v)
  }

  /** The interval takes part in the form check only when it is present and not zero. */
  predicate IntervalGiven(interval: Option<int>)
  {
    interval.Some? && interval.value != 0
  }

  /**
   * The form-wide check on the cleaned window and interval. The start must
   * come before the end, the window may span at most `maxSpan`, and it must
   * hold at least two intervals.
   */
  function Clean(start: int, end: int, interval: Option<int>, maxSpan: int): (r: Option<FormError>)
    ensures r == None <==>
      && start < end
      && end - start <= maxSpan
      && (IntervalGiven(interval) ==> end - start >= 2 * interval.value * MicrosPerSecond)
    ensures r == Some(StartNotBeforeEnd) <==> start >= end
    ensures r == Some(RangeTooLarge) <==> start < end && end - start > maxSpan
    ensures r == Some(IntervalTooLong) <==>
      && start < end
      && end - start <= maxSpan
      && IntervalGiven(interval)
      && end - start < 2 * interval.value * MicrosPerSecond
  {
    if start >= end then Some(StartNotBeforeEnd)
    else if end - start > maxSpan then Some(RangeTooLarge)
    else if IntervalGiven(interval) && end - start < interval.value * 2 * MicrosPerSecond then Some(IntervalTooLong)
    else None
  }

  /** What the load chart form reports: the interval field's error and the form-wide error. */
  datatype LoadFormErrors = LoadFormErrors(interval: Option<FieldError>, form: Option<FormError>)

  /** Validation of the load chart form; it is valid when neither error is present. */
  function ValidateLoadForm(start: int, end: int, rawInterval: Option<int>, maxSpan: int): (r: LoadFormErrors)
    ensures r == LoadFormErrors(None, None) <==>
      && rawInterval.Some?
      && MinInterval <= rawInterval.value <= MaxInterval
      && start < end
      && end - start <= maxSpan
      && end - start >= 2 * rawInterval.value * MicrosPerSecond
    ensures r.interval.Some? ==> r.form != Some(IntervalTooLong)
  {
    var field := CleanInterval(rawInterval);
    var cleaned := if field.Ok? then Some(field.value) else None;
    LoadFormErrors(if field.Err? then Some(field.error) else None, Clean(start, end, cleaned, maxSpan))
  }

  /** Validation of the timeline form, which has no interval field. */
  function ValidateTimelineForm(start: int, end: int, maxSpan: int): (r: Option<FormError>)
    ensures r == None <==> start < end && end - start <= maxSpan
    ensures r != Some(IntervalTooLong)
  {
    Clean(start, end, None, maxSpan)
  }

  /** A window of exactly the maximum span passes; one microsecond more does not. */
  lemma MaxSpanIsInclusive(start: int, interval: Option<int>)
    requires IntervalGiven(interval) ==> 0 < interval.value <= MaxInterval
    ensures Clean(start, start + DefaultMaxSpan, interval, DefaultMaxSpan) == None
    ensures Clean(start, start + DefaultMaxSpan + 1, interval, DefaultMaxSpan) == Some(RangeTooLarge)
  {
  }

  /**
   * The forms' own cases, two minutes around a moment `now`: a reversed
   * window, a four-day window, a 100 s interval and a zero interval.
   */
  lemma FormCases(now: int)
    ensures ValidateLoadForm(now + MicrosPerMinute, now - MicrosPerMinute, None, DefaultMaxSpan).form
      == Some(StartNotBeforeEnd)
    ensures ValidateLoadForm(now - 2 * MicrosPerDay, now + 2 * MicrosPerDay, None, DefaultMaxSpan).form
      == Some(RangeTooLarge)
    ensures ValidateLoadForm(now - MicrosPerMinute, now + MicrosPerMinute, Some(100), DefaultMaxSpan)
      == LoadFormErrors(None, Some(IntervalTooLong))
    ensures ValidateLoadForm(now - MicrosPerMinute, now + MicrosPerMinute, Some(0), DefaultMaxSpan)
      == LoadFormErrors(Some(BelowMin), None)
    ensures ValidateLoadForm(now - MicrosPerMinute, now + MicrosPerMinute, Some(10), DefaultMaxSpan)
      == LoadFormErrors(None, None)
    ensures ValidateTimelineForm(now, now, DefaultMaxSpan) == Some(StartNotBeforeEnd)
  {
  }
}
