/**
 * The reconnect delay of the stream client (example/src/HttpStream.js,
 * `retryAfter`): the `Retry-After` header of section 10.2.3 of RFC 9110,
 * either delay-seconds or an HTTP-date (section 5.6.7 of RFC 9110), turned
 * into whole seconds and clamped to [1, 30].
 */
module HttpStream {
  import opened Wrappers

  const MinDelay: int := 1
  const MaxDelay: int := 30

  /** The part of a `Response` that `retryAfter` reads: `headers.get('Retry-After')`, null when absent. */
  datatype Response = Response(retryAfter: Option<string>)

  predicate IsDigit(c: char) {
    '0' <= c <= '9'
  }

  /** `/^[0-9]*$/.test(s)`; the empty string matches. */
  predicate AllDigits(s: string) {
    forall i :: 0 <= i < |s| ==> IsDigit(s[i])
  }

  /** The decimal value of a string of ASCII digits; it is zero exactly for a string of zeros. */
  function DecimalValue(s: string): (r: nat)
    requires AllDigits(s)
    ensures r == 0 <==> forall i :: 0 <= i < |s| ==> s[i] == '0'
    decreases |s|
  {
    if s == [] then 0
    else DecimalValue(s[..|s| - 1]) * 10 + (s[|s| - 1] as int - '0' as int)
  }

  /** The shortest decimal numeral of `n`: the reference the parse is checked against. */
  function DecimalString(n: nat): (s: string)
    ensures |s| > 0 && AllDigits(s)
    decreases n
  {
    var last := ['0' + ((n % 10) as char)];
    if n < 10 then last else DecimalString(n / 10) + last
  }

  /** `parseInt(s, 10)` on a string of digits; None for the NaN of the empty string. */
  function ParseDigits(s: string): (r: Option<int>)
    requires AllDigits(s)
    ensures r.None? <==> s == ""
    ensures r.Some? ==> r.value >= 0
  {
    if s == "" then None else Some(DecimalValue(s))
  }

  /**
   * `Math.floor((date - now) / 1000)`: whole seconds from `now` until
   * `date`, both in milliseconds; None for the NaN of an invalid date.
   */
  function SecondsUntil(date: Option<int>, now: int): (r: Option<int>)
    ensures r.None? <==> date.None?
    ensures r.Some? ==> r.value * 1000 <= date.value - now < r.value * 1000 + 1000
  {
    match date
    case None => None
    case Some(ms) => Some((ms - now) / 1000)
  }

  /**
   * The value of `seconds` before the clamp: undefined (None) without a
   * response, the parsed digits for a delay-seconds header, and otherwise
   * the seconds until the date the header names.  `httpDate` stands for
   * `new Date(value).valueOf()`; an absent header reaches it as
   * `new Date(null)`, which is the epoch, 0.
   */
  function RawSeconds(response: Option<Response>, httpDate: string -> Option<int>, now: int): (r: Option<int>)
    // NaN (or undefined) exactly without a response, for the empty header, or for an invalid date
    ensures r.None? <==>
      || response.None?
      || response.value.retryAfter == Some("")
      || (response.value.retryAfter.Some? && !AllDigits(response.value.retryAfter.value)
          && httpDate(response.value.retryAfter.value).None?)
    // delay-seconds are never negative
    ensures r.Some? && response.value.retryAfter.Some? && AllDigits(response.value.retryAfter.value) ==> r.value >= 0
  {
    match response
    case None => None
    case Some(r) =>
      match r.retryAfter
      case Some(value) =>
        if AllDigits(value) then ParseDigits(value)
        else SecondsUntil(httpDate(value), now)
      case None => SecondsUntil(Some(0), now)
  }

  /** `isNaN(seconds) || seconds < 1` gives 1, `seconds > 30` gives 30. */
  function Clamp(seconds: Option<int>): (r: int)
    ensures MinDelay <= r <= MaxDelay
    ensures seconds.None? ==> r == MinDelay
    ensures seconds.Some? && MinDelay <= seconds.value <= MaxDelay ==> r == seconds.value
    ensures seconds.Some? && seconds.value < MinDelay ==> r == MinDelay
    ensures seconds.Some? && seconds.value > MaxDelay ==> r == MaxDelay
  {
    if seconds.None? || seconds.value < MinDelay then MinDelay
    else if seconds.value > MaxDelay then MaxDelay
    else seconds.value
  }

  /** The delay in seconds `retryAfter` waits. */
  function RetryAfterSeconds(response: Option<Response>, httpDate: string -> Option<int>, now: int): (r: int)
    ensures MinDelay <= r <= MaxDelay
    ensures response.None? ==> r == MinDelay
  {
    Clamp(RawSeconds(response, httpDate, now))
  }

  /** The milliseconds passed to `setTimeout`. */
  function TimeoutMs(response: Option<Response>, httpDate: string -> Option<int>, now: int): (ms: int)
    ensures 1000 <= ms <= 30000
    ensures ms == RetryAfterSeconds(response, httpDate, now) * 1000
  {
    RetryAfterSeconds(response, httpDate, now) * 1000
  }

  lemma {:induction false} DecimalValueAppend(s: string, c: char)
    requires AllDigits(s) && IsDigit(c)
    ensures AllDigits(s + [c]) && DecimalValue(s + [c]) == DecimalValue(s) * 10 + (c as int - '0' as int)
  {
  }

  /** Reading back the numeral of `n` gives `n`. */
  lemma {:induction false} DecimalRoundTrip(n: nat)
    ensures DecimalValue(DecimalString(n)) == n
    decreases n
  {
    var last := '0' + ((n % 10) as char);
    if n < 10 {
      assert DecimalString(n) == [] + [last];
      DecimalValueAppend([], last);
    } else {
      DecimalRoundTrip(n / 10);
      DecimalValueAppend(DecimalString(n / 10), last);
    }
  }

  /** Leading zeros do not change the value, as with `parseInt("007", 10)`. */
  lemma {:induction false} LeadingZero(s: string)
    requires AllDigits(s)
    ensures AllDigits("0" + s) && DecimalValue("0" + s) == DecimalValue(s)
    decreases |s|
  {
    if s != [] {
      var init := s[..|s| - 1];
      LeadingZero(init);
      assert ("0" + s)[..|"0" + s| - 1] == "0" + init;
    }
  }

  /** A delay-seconds header of `n` waits `n` seconds, pulled into [1, 30]. */
  lemma DelaySecondsHeader(n: nat, httpDate: string -> Option<int>, now: int)
    ensures RetryAfterSeconds(Some(Response(Some(DecimalString(n)))), httpDate, now)
            == if n < MinDelay then MinDelay else if n > MaxDelay then MaxDelay else n
  {
    DecimalRoundTrip(n);
  }

  /** Any number of leading zeros leaves the value unchanged. */
  lemma {:induction false} LeadingZeros(k: nat, s: string)
    requires AllDigits(s)
    ensures AllDigits(seq(k, _ => '0') + s) && DecimalValue(seq(k, _ => '0') + s) == DecimalValue(s)
    decreases k
  {
    if k > 0 {
      var rest := seq(k - 1, _ => '0') + s;
      LeadingZeros(k - 1, s);
      LeadingZero(rest);
      assert seq(k, _ => '0') + s == "0" + rest;
    } else {
      assert seq(k, _ => '0') + s == s;
    }
  }

  /** Any non-empty header of digits waits its decimal value, pulled into [1, 30]. */
  lemma DigitsHeader(value: string, httpDate: string -> Option<int>, now: int)
    requires value != "" && AllDigits(value)
    ensures RetryAfterSeconds(Some(Response(Some(value))), httpDate, now) == Clamp(Some(DecimalValue(value)))
  {
  }

  /** A zero-padded delay-seconds header, such as "0007", waits as long as the bare numeral. */
  lemma PaddedDelaySecondsHeader(k: nat, n: nat, httpDate: string -> Option<int>, now: int)
    ensures RetryAfterSeconds(Some(Response(Some(seq(k, _ => '0') + DecimalString(n)))), httpDate, now)
            == if n < MinDelay then MinDelay else if n > MaxDelay then MaxDelay else n
  {
    DecimalRoundTrip(n);
    LeadingZeros(k, DecimalString(n));
  }

  /** The empty header matches the digit pattern but parses to NaN: 1 second. */
  lemma EmptyHeader(httpDate: string -> Option<int>, now: int)
    ensures RetryAfterSeconds(Some(Response(Some(""))), httpDate, now) == MinDelay
  {
  }

  /**
   * A header with a non-digit is read as an HTTP-date: an invalid date, or
   * one that is not at least a second ahead of `now`, gives 1 second.
   */
  lemma DateHeader(value: string, httpDate: string -> Option<int>, now: int)
    requires !AllDigits(value)
    ensures httpDate(value).None? ==> RetryAfterSeconds(Some(Response(Some(value))), httpDate, now) == MinDelay
    ensures httpDate(value).Some? && httpDate(value).value < now + 1000 ==>
              RetryAfterSeconds(Some(Response(Some(value))), httpDate, now) == MinDelay
  {
  }

  /** A date `k` whole seconds ahead of `now` gives `k`, pulled into [1, 30]. */
  lemma DateHeaderAhead(value: string, httpDate: string -> Option<int>, now: int, k: int)
    requires !AllDigits(value)
    requires httpDate(value).Some? && now + k * 1000 <= httpDate(value).value < now + k * 1000 + 1000
    ensures RetryAfterSeconds(Some(Response(Some(value))), httpDate, now)
            == if k < MinDelay then MinDelay else if k > MaxDelay then MaxDelay else k
  {
  }

  /** Without the header the date is the epoch, so from any `now` at or after it the delay is 1 second. */
  lemma AbsentHeader(httpDate: string -> Option<int>, now: int)
    requires now >= 0
    ensures RetryAfterSeconds(Some(Response(None)), httpDate, now) == MinDelay
  {
  }
}
