/**
 How a failed Anthropic response becomes a Prism provider error: a 429 gives
 a rate-limited error carrying the rate-limit snapshot and the `retry-after`
 delay, a 529 an overloaded error, a 413 a request-too-large error.
 */
module AnthropicErrors {
  import opened Wrappers
  import opened Numerals
  import opened IsoTimestamp
  import opened RateLimits
  import opened StatusCodes

  datatype Response = Response(status: int, headers: Headers)

  datatype ProviderError =
    | RateLimitedError(rateLimits: seq<RateLimitEntry>, retryAfter: Option<nat>)
    | ProviderOverloadedError
    | RequestTooLargeError

  const RETRY_AFTER: string := "retry-after"

  function KindOf(e: ProviderError): ErrorKind {
    match e
    case RateLimitedError(_, _) => RateLimited
    case ProviderOverloadedError => ProviderOverloaded
    case RequestTooLargeError => RequestTooLarge
  }

  /** The `retry-after` delay in seconds; absent when missing or not a whole number. */
  function RetryAfter(headers: Headers): (seconds: Option<nat>)
    ensures RETRY_AFTER !in headers ==> seconds == None
    ensures seconds.Some? ==> RETRY_AFTER in headers && AllDigits(headers[RETRY_AFTER])
  {
    match Lookup(headers, RETRY_AFTER)
    case None => None
    case Some(v) => ParseNat(v)
  }

  /** The error a response turns into, or `None` when its status is not one of the three. */
  function ErrorFor(response: Response): (e: Option<ProviderError>)
    ensures e.Some? <==> Classify(response.status).Some?
    ensures e.Some? ==> KindOf(e.value) == Classify(response.status).value
    ensures e.Some? && e.value.RateLimitedError? ==>
      e.value.rateLimits == ParseRateLimits(response.headers) && e.value.retryAfter == RetryAfter(response.headers)
  {
    match Classify(response.status)
    case None => None
    case Some(RateLimited) =>
      Some(RateLimitedError(ParseRateLimits(response.headers), RetryAfter(response.headers)))
    case Some(ProviderOverloaded) => Some(ProviderOverloadedError)
    case Some(RequestTooLarge) => Some(RequestTooLargeError)
  }

  /**
   A 429 is a rate-limited error whatever its headers; with no rate-limit and
   no `retry-after` header (a bare 429) it carries no entries and no delay.
   */
  lemma RateLimitedWithoutHeaders(headers: Headers)
    ensures var e := ErrorFor(Response(429, headers));
      e.Some? && e.value.RateLimitedError?
    ensures (forall b, f :: IsField(f) ==> HeaderName(b, f) !in headers) && RETRY_AFTER !in headers
      ==> ErrorFor(Response(429, headers)) == Some(RateLimitedError([], None))
  {
    if (forall b, f :: IsField(f) ==> HeaderName(b, f) !in headers) && RETRY_AFTER !in headers {
      NoHeadersNoEntries(headers);
    }
  }

  /** A 529 is an overloaded error whatever its headers. */
  lemma OverloadedOn529(headers: Headers)
    ensures ErrorFor(Response(529, headers)) == Some(ProviderOverloadedError)
  {
  }

  /** A 413 is a request-too-large error whatever its headers. */
  lemma TooLargeOn413(headers: Headers)
    ensures ErrorFor(Response(413, headers)) == Some(RequestTooLargeError)
  {
  }

  /** The four buckets of the rate-limited response, as the response writes them. */
  function FourBucketReports(requestsReset: Instant, inputReset: Instant, outputReset: Instant, tokensReset: Instant): seq<BucketReport>
    requires Valid(requestsReset) && Valid(inputReset) && Valid(outputReset) && Valid(tokensReset)
  {
    [ BucketReport("requests", Decimal(1000), Decimal(500), ToIsoString(requestsReset)),
      BucketReport("input-tokens", Decimal(80000), Decimal(0), ToIsoString(inputReset)),
      BucketReport("output-tokens", Decimal(16000), Decimal(15000), ToIsoString(outputReset)),
      BucketReport("tokens", Decimal(96000), Decimal(15000), ToIsoString(tokensReset)) ]
  }

  /** The headers of the rate-limited response with all four buckets and `retry-after: 40`. */
  function FourBucketHeaders(requestsReset: Instant, inputReset: Instant, outputReset: Instant, tokensReset: Instant): Headers
    requires Valid(requestsReset) && Valid(inputReset) && Valid(outputReset) && Valid(tokensReset)
  {
    ReportHeaders(FourBucketReports(requestsReset, inputReset, outputReset, tokensReset)) + map[RETRY_AFTER := Decimal(40)]
  }

  /** `retry-after` is shorter than the rate-limit prefix, so it names no bucket's field. */
  lemma RetryAfterNamesNoBucketField(value: string)
    ensures forall b, f :: IsField(f) ==> HeaderName(b, f) !in map[RETRY_AFTER := value]
  {
  }

  lemma FourBucketReportsNameTheBuckets(requestsReset: Instant, inputReset: Instant, outputReset: Instant, tokensReset: Instant)
    requires Valid(requestsReset) && Valid(inputReset) && Valid(outputReset) && Valid(tokensReset)
    ensures ReportedBuckets(FourBucketReports(requestsReset, inputReset, outputReset, tokensReset)) == BUCKETS
  {
  }

  /** The four entries read back exactly the values the response wrote, in bucket order. */
  lemma FourBucketEntries(requestsReset: Instant, inputReset: Instant, outputReset: Instant, tokensReset: Instant)
    requires Valid(requestsReset) && Valid(inputReset) && Valid(outputReset) && Valid(tokensReset)
    ensures var r := ParseRateLimits(FourBucketHeaders(requestsReset, inputReset, outputReset, tokensReset));
      && |r| == 4
      && r[0] == RateLimitEntry("requests", Some(1000), Some(500), Some(requestsReset))
      && r[1] == RateLimitEntry("input-tokens", Some(80000), Some(0), Some(inputReset))
      && r[2] == RateLimitEntry("output-tokens", Some(16000), Some(15000), Some(outputReset))
      && r[3] == RateLimitEntry("tokens", Some(96000), Some(15000), Some(tokensReset))
  {
    var reports := FourBucketReports(requestsReset, inputReset, outputReset, tokensReset);
    FourBucketReportsNameTheBuckets(requestsReset, inputReset, outputReset, tokensReset);
    RetryAfterNamesNoBucketField(Decimal(40));
    AllBucketsReported(reports, map[RETRY_AFTER := Decimal(40)]);
    var r := ParseRateLimits(FourBucketHeaders(requestsReset, inputReset, outputReset, tokensReset));
    assert r[0] == ReportEntry(reports[0]) && r[1] == ReportEntry(reports[1]);
    assert r[2] == ReportEntry(reports[2]) && r[3] == ReportEntry(reports[3]);
    ReportReadsBack("requests", 1000, 500, requestsReset);
    ReportReadsBack("input-tokens", 80000, 0, inputReset);
    ReportReadsBack("output-tokens", 16000, 15000, outputReset);
    ReportReadsBack("tokens", 96000, 15000, tokensReset);
  }

  /** The rate-limited error carries `retryAfter` 40 and the four buckets in order, values verbatim. */
  lemma FourBucketRateLimitedError(requestsReset: Instant, inputReset: Instant, outputReset: Instant, tokensReset: Instant)
    requires Valid(requestsReset) && Valid(inputReset) && Valid(outputReset) && Valid(tokensReset)
    ensures var e := ErrorFor(Response(429, FourBucketHeaders(requestsReset, inputReset, outputReset, tokensReset)));
      && e.Some? && e.value.RateLimitedError?
      && e.value.retryAfter == Some(40)
      && |e.value.rateLimits| == 4
      && e.value.rateLimits[0] == RateLimitEntry("requests", Some(1000), Some(500), Some(requestsReset))
      && e.value.rateLimits[1] == RateLimitEntry("input-tokens", Some(80000), Some(0), Some(inputReset))
      && e.value.rateLimits[2] == RateLimitEntry("output-tokens", Some(16000), Some(15000), Some(outputReset))
      && e.value.rateLimits[3] == RateLimitEntry("tokens", Some(96000), Some(15000), Some(tokensReset))
  {
    var headers := FourBucketHeaders(requestsReset, inputReset, outputReset, tokensReset);
    FourBucketEntries(requestsReset, inputReset, outputReset, tokensReset);
    FourBucketRetryAfter(requestsReset, inputReset, outputReset, tokensReset);
    assert ErrorFor(Response(429, headers)) == Some(RateLimitedError(ParseRateLimits(headers), RetryAfter(headers)));
  }

  /** The response's `retry-after: 40` becomes a delay of 40 seconds. */
  lemma FourBucketRetryAfter(requestsReset: Instant, inputReset: Instant, outputReset: Instant, tokensReset: Instant)
    requires Valid(requestsReset) && Valid(inputReset) && Valid(outputReset) && Valid(tokensReset)
    ensures RetryAfter(FourBucketHeaders(requestsReset, inputReset, outputReset, tokensReset)) == Some(40)
  {
    var reports := FourBucketReports(requestsReset, inputReset, outputReset, tokensReset);
    RetryAfterReadsBack(ReportHeaders(reports), 40);
  }

  /** A `retry-after` header written as a decimal numeral reads back as that many seconds. */
  lemma RetryAfterReadsBack(headers: Headers, seconds: nat)
    ensures RetryAfter(headers + map[RETRY_AFTER := Decimal(seconds)]) == Some(seconds)
  {
    ParseDecimal(seconds);
  }
}
