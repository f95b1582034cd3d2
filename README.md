# Anthropic provider errors in Prism, modelled in Dafny

Prism is a PHP library for calling text-generation providers. When Anthropic's
API answers a request with an error status, Prism throws a typed exception.
This project models that translation as a pure function from one response
(status code and headers) to at most one provider error, and proves what the
Anthropic exception tests pin down.

- **Status classification** (`StatusCodes`). 429 means rate-limited, 529 means
  provider-overloaded and 413 means request-too-large. Any other status is
  `None`: a success, or a failure reported by Prism's generic error path,
  which is not modelled here.
- **Rate-limit snapshot** (`RateLimits`). The headers are
  `anthropic-ratelimit-<bucket>-limit`, `-remaining` and `-reset` for the
  buckets `requests`, `input-tokens`, `output-tokens` and `tokens`. Each
  bucket that sends at least one of its headers becomes a `RateLimitEntry`
  (Prism's `ProviderRateLimit`). Entries come out in that fixed bucket order.
  A missing or unreadable value makes only its own field absent; parsing
  never fails.
- **Numbers** (`Numerals`). Integer header values are decimal numerals. The
  test passes PHP integers as header values, and the HTTP layer writes them
  as decimal text, modelled by `Decimal`.
- **Reset instants** (`IsoTimestamp`). A reset header holds the UTC text that
  Carbon's `toISOString` writes, `YYYY-MM-DDTHH:MM:SS.uuuuuuZ`. An instant is
  kept as its calendar fields.
- **The error itself** (`AnthropicErrors`). `ErrorFor` builds the error. A
  rate-limited error carries the snapshot and the `retry-after` delay in
  seconds.

Headers are a `map<string, string>`. A Dafny map has no order, so the order of
the headers in a response cannot affect the result. The order comes only from
`RateLimits.BUCKETS`.

## Model

All source paths are relative to the repository root. The one source file is
the Pest test `tests/Providers/Anthropic/AnthropicExceptionsTest.php`; the
provider code it exercises is not part of this model.

| member | source | states |
|---|---|---|
| StatusCodes.Classify | tests/Providers/Anthropic/AnthropicExceptionsTest.php:11-95 | a recognised status is exactly its kind's code (429 rate-limited, 529 overloaded, 413 too large); `None` exactly when the status is no kind's code |
| StatusCodes.ClassifyInvertsStatusOf | tests/Providers/Anthropic/AnthropicExceptionsTest.php:11-95 | each kind is recognised from its own status and from no other |
| StatusCodes.OverloadIsTheOnlyServerErrorKind | tests/Providers/Anthropic/AnthropicExceptionsTest.php:69-81 | among 5xx statuses exactly 529 is recognised, and as provider-overloaded; every other 5xx is left to the generic path |
| AnthropicErrors.ErrorFor | tests/Providers/Anthropic/AnthropicExceptionsTest.php:11-95 | an error exactly when the status is classified, of the classified kind; a rate-limited error carries the parsed snapshot and `retry-after` |
| AnthropicErrors.RateLimitedWithoutHeaders | tests/Providers/Anthropic/AnthropicExceptionsTest.php:11-23 | a 429 is rate-limited whatever its headers; a bare 429 carries no entries and no delay |
| AnthropicErrors.OverloadedOn529 | tests/Providers/Anthropic/AnthropicExceptionsTest.php:69-81 | a 529 is an overloaded error whatever its headers |
| AnthropicErrors.TooLargeOn413 | tests/Providers/Anthropic/AnthropicExceptionsTest.php:83-95 | a 413 is a request-too-large error whatever its headers |
| AnthropicErrors.RetryAfter | tests/Providers/Anthropic/AnthropicExceptionsTest.php:44-55 | no `retry-after` header gives no delay; a delay only comes from an all-digit header value |
| AnthropicErrors.RetryAfterReadsBack | tests/Providers/Anthropic/AnthropicExceptionsTest.php:44-55 | a `retry-after` of `n` written in decimal reads back as `n` seconds, whatever the other headers |
| AnthropicErrors.RetryAfterNamesNoBucketField | tests/Providers/Anthropic/AnthropicExceptionsTest.php:31-44 | `retry-after` is never a bucket's rate-limit header |
| AnthropicErrors.FourBucketRetryAfter | tests/Providers/Anthropic/AnthropicExceptionsTest.php:44-55 | the four-bucket response's `retry-after: 40` gives a delay of 40 |
| AnthropicErrors.FourBucketEntries | tests/Providers/Anthropic/AnthropicExceptionsTest.php:56-65 | the four-bucket response gives exactly four entries in bucket order, with limit, remaining (including 0) and reset as written |
| AnthropicErrors.FourBucketRateLimitedError | tests/Providers/Anthropic/AnthropicExceptionsTest.php:25-67 | the whole second test: a rate-limited error with `retryAfter` 40, four entries, `requests` 1000/500 reset at the written instant, `input-tokens` 80000/0 |
| RateLimits.ParseRateLimits | tests/Providers/Anthropic/AnthropicExceptionsTest.php:56 | never more entries than buckets |
| RateLimits.HeaderName | tests/Providers/Anthropic/AnthropicExceptionsTest.php:32-43 | the name is `anthropic-ratelimit-`, then the bucket, `-` and the field, each recoverable from its position; `HeaderNameInjective` shows no two pairs collide |
| RateLimits.BucketEntry | tests/Providers/Anthropic/AnthropicExceptionsTest.php:57-65 | the entry carries the bucket's name, and a field is present only when that bucket's own header of that field is sent (a reset only as a valid instant) |
| RateLimits.SnapshotProperties | tests/Providers/Anthropic/AnthropicExceptionsTest.php:31-65 | every entry is a reporting Anthropic bucket read from its own headers; every reporting bucket has an entry; entries follow the bucket order |
| RateLimits.EntriesComeFromList | tests/Providers/Anthropic/AnthropicExceptionsTest.php:58-63 | every entry names a bucket of the list |
| RateLimits.EntriesReadOwnHeaders | tests/Providers/Anthropic/AnthropicExceptionsTest.php:58-65 | every entry belongs to a bucket that sent a header, and equals that bucket's own reading |
| RateLimits.ReportedBucketsHaveEntries | tests/Providers/Anthropic/AnthropicExceptionsTest.php:31-43 | every bucket that sends at least one header has an entry |
| RateLimits.EntriesFollowBucketOrder | tests/Providers/Anthropic/AnthropicExceptionsTest.php:58-63 | entries come out in bucket-list order, whatever the headers |
| RateLimits.OneEntryPerReportingBucket | tests/Providers/Anthropic/AnthropicExceptionsTest.php:56-65 | when every bucket reports, entry `i` is bucket `i`'s reading and there are exactly as many entries as buckets |
| RateLimits.EmptyWhenNothingReported | tests/Providers/Anthropic/AnthropicExceptionsTest.php:11-23 | the snapshot is empty exactly when no bucket sends a header |
| RateLimits.FullWhenAllReported | tests/Providers/Anthropic/AnthropicExceptionsTest.php:56 | there is an entry for every bucket exactly when every bucket sends a header |
| RateLimits.NoHeadersNoEntries | tests/Providers/Anthropic/AnthropicExceptionsTest.php:11-23 | a response with no rate-limit headers gives an empty snapshot |
| RateLimits.AllBucketsReported | tests/Providers/Anthropic/AnthropicExceptionsTest.php:31-56 | when all four buckets send their headers, whatever other headers are present that are not one of these buckets' rate-limit headers, the snapshot is the four readings in bucket order |
| RateLimits.HeaderNameInjective | tests/Providers/Anthropic/AnthropicExceptionsTest.php:32-43 | different (bucket, field) pairs never share a header name |
| RateLimits.OtherBucketsNeverLeak | tests/Providers/Anthropic/AnthropicExceptionsTest.php:59-65 | another bucket's headers change neither this bucket's entry nor whether it appears |
| RateLimits.EntryIgnoresForeignHeaders | tests/Providers/Anthropic/AnthropicExceptionsTest.php:31-44 | headers that are not one of this bucket's three leave its entry and presence unchanged |
| RateLimits.EntryOfOwnHeaders | tests/Providers/Anthropic/AnthropicExceptionsTest.php:32-34 | a bucket's limit, remaining and reset each come from its own header of that field |
| RateLimits.EntryOfReport | tests/Providers/Anthropic/AnthropicExceptionsTest.php:31-43 | in a response where each bucket reports once, each bucket is present and reads back its own report |
| RateLimits.ReportReadsBack | tests/Providers/Anthropic/AnthropicExceptionsTest.php:59-65 | limit and remaining written in decimal, and a reset written as ISO text, read back as the same values (remaining 0 stays 0, `remaining > limit` is kept as written) |
| RateLimits.MissingHeaderMeansAbsentField | tests/Providers/Anthropic/AnthropicExceptionsTest.php:11-23 | a missing header leaves its own field absent; dropping one of a bucket's three headers clears exactly that field and leaves the other two as they were |
| Numerals.ParseNat | tests/Providers/Anthropic/AnthropicExceptionsTest.php:32-44 | a value exactly for non-empty all-digit text, below 10 to the power of its length |
| Numerals.Decimal | tests/Providers/Anthropic/AnthropicExceptionsTest.php:32-44 | a PHP integer header value is written as non-empty digits with no leading zero |
| Numerals.ParseDecimal | tests/Providers/Anthropic/AnthropicExceptionsTest.php:55-65 | an integer written in decimal reads back as itself |
| Numerals.DecimalOfParse | tests/Providers/Anthropic/AnthropicExceptionsTest.php:32-44 | a numeral without leading zeros is exactly the decimal text of the value it reads as |
| IsoTimestamp.ToIsoString | tests/Providers/Anthropic/AnthropicExceptionsTest.php:34-43 | a valid instant is written as 27 characters with the year and microseconds as digits and the separators of `YYYY-MM-DDTHH:MM:SS.uuuuuuZ` in place; `ParseToIso` inverts it |
| IsoTimestamp.ParseIso | tests/Providers/Anthropic/AnthropicExceptionsTest.php:34-43 | a reset header reads only as a valid calendar instant |
| IsoTimestamp.ParseToIso | tests/Providers/Anthropic/AnthropicExceptionsTest.php:26-61 | parsing the text `toISOString` writes gives back the same instant |
| IsoTimestamp.ToIsoOfParse | tests/Providers/Anthropic/AnthropicExceptionsTest.php:34-43 | every reset value that parses is exactly the `toISOString` text of its instant |

## Left out

- The HTTP layer (`Http::fake`, `preventStrayRequests`) and the fluent `Prism::text()->using()->withPrompt()->generate()` builder are transport and orchestration. The model starts from a received status and header map.
- Exceptions are modelled as the returned `ProviderError` datatype. Whatever else Prism's exception classes hold, beyond what the tests read, is not modelled: no message, no provider name, no class hierarchy.
- The provider handler that the test exercises is not part of this model. Its behaviour is taken from the test's expectations.
- Statuses other than 429, 529 and 413 give `None`. Prism's generic error handling and the success path are not modelled, and no fallback band (4xx, 5xx) is invented.
- Header names are taken as already lower-case. Case-insensitive lookup and repeated header values are not modelled.
- Numerals.ParseNat: reads only plain digit strings. Any other value is absent, so PHP's `(int)` coercion of text like `12abc`, `-5` or ` 7` is not reproduced, and negative values cannot occur.
- Numerals.ParseNat: integer width is not modelled. Values are unbounded `nat`s, so a `limit`, `remaining` or `retry-after` numeral above PHP_INT_MAX (9223372036854775807) reads back exactly, whereas PHP's 64-bit integer conversion would saturate at PHP_INT_MAX. The handler's own conversion is not part of this model, so no saturation point is stated. The test's values are far below the bound.
- IsoTimestamp.ParseIso: accepts only the exact UTC form Carbon's `toISOString` writes, with years 0 to 9999. Other ISO-8601 forms, time-zone offsets and relative "seconds until reset" values read as absent. Equality of instants is equality of their UTC calendar fields.
- `Carbon::now()->addSeconds(...)` in the test only produces the reset instants. Wall-clock time is not modelled; the scenario lemmas hold for any valid instants.
- Other providers, and a table of providers, are not modelled; only Anthropic's bucket list and status codes are.
