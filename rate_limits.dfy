/**
 The rate-limit snapshot of an Anthropic error response. Each bucket `b`
 reports up to three headers, `anthropic-ratelimit-<b>-limit`, `-remaining`
 and `-reset`; the result holds one entry per bucket that reports at least
 one of them, in the fixed bucket order. A missing or unreadable value leaves
 its field absent and never fails the whole parse.
 */
module RateLimits {
  import opened Wrappers
  import opened Numerals
  import opened IsoTimestamp

  /** One named capacity bucket (Prism's `ProviderRateLimit`). */
  datatype RateLimitEntry = RateLimitEntry(
    name: string,
    limit: Option<nat>,
    remaining: Option<nat>,
    resetsAt: Option<Instant>)

  /** Header names are taken in lower case. */
  type Headers = map<string, string>

  const PREFIX: string := "anthropic-ratelimit-"
  const LIMIT: string := "limit"
  const REMAINING: string := "remaining"
  const RESET: string := "reset"

  /** Anthropic's buckets, in the order the entries come out. */
  const BUCKETS: seq<string> := ["requests", "input-tokens", "output-tokens", "tokens"]

  predicate IsField(f: string) {
    f == LIMIT || f == REMAINING || f == RESET
  }

  /** `anthropic-ratelimit-<bucket>-<field>`; distinct pairs give distinct names (`HeaderNameInjective`). */
  function HeaderName(bucket: string, field: string): (name: string)
    ensures |name| == |PREFIX| + |bucket| + 1 + |field|
    ensures name[..|PREFIX|] == PREFIX && name[|PREFIX|..|PREFIX| + |bucket|] == bucket
    ensures name[|PREFIX| + |bucket|] == '-' && name[|name| - |field|..] == field
  {
    PREFIX + bucket + "-" + field
  }

  function Lookup(headers: Headers, name: string): (r: Option<string>)
    ensures r.Some? <==> name in headers
    ensures r.Some? ==> r.value == headers[name]
  {
    if name in headers then Some(headers[name]) else None
  }

  function ReadCount(headers: Headers, name: string): (r: Option<nat>)
    ensures name !in headers ==> r.None?
    ensures name in headers ==> r == ParseNat(headers[name])
  {
    match Lookup(headers, name)
    case None => None
    case Some(v) => ParseNat(v)
  }

  function ReadInstant(headers: Headers, name: string): (r: Option<Instant>)
    ensures name !in headers ==> r.None?
    ensures name in headers ==> r == ParseIso(headers[name])
    ensures r.Some? ==> Valid(r.value)
  {
    match Lookup(headers, name)
    case None => None
    case Some(v) => ParseIso(v)
  }

  /** The bucket reports at least one of its three headers. */
  predicate BucketPresent(headers: Headers, bucket: string) {
    || HeaderName(bucket, LIMIT) in headers
    || HeaderName(bucket, REMAINING) in headers
    || HeaderName(bucket, RESET) in headers
  }

  /** The entry for `bucket`, each field read from that bucket's own header alone. */
  function BucketEntry(headers: Headers, bucket: string): (e: RateLimitEntry)
    ensures e.name == bucket
    ensures e.limit.Some? ==> HeaderName(bucket, LIMIT) in headers
    ensures e.remaining.Some? ==> HeaderName(bucket, REMAINING) in headers
    ensures e.resetsAt.Some? ==> HeaderName(bucket, RESET) in headers && Valid(e.resetsAt.value)
  {
    RateLimitEntry(
      bucket,
      ReadCount(headers, HeaderName(bucket, LIMIT)),
      ReadCount(headers, HeaderName(bucket, REMAINING)),
      ReadInstant(headers, HeaderName(bucket, RESET)))
  }

  /** Entries for the buckets of `buckets` that are present, in the order of `buckets`. */
  function ParseBuckets(headers: Headers, buckets: seq<string>): (r: seq<RateLimitEntry>)
    ensures |r| <= |buckets|
  {
    if |buckets| == 0 then []
    else
      (if BucketPresent(headers, buckets[0]) then [BucketEntry(headers, buckets[0])] else [])
      + ParseBuckets(headers, buckets[1..])
  }

  /** The rate-limit entries of an Anthropic error response (see `SnapshotProperties`). */
  function ParseRateLimits(headers: Headers): (r: seq<RateLimitEntry>)
    ensures |r| <= |BUCKETS|
  {
    ParseBuckets(headers, BUCKETS)
  }

  /** The bucket names of a list of entries, in order. */
  function Names(entries: seq<RateLimitEntry>): (names: seq<string>)
    ensures |names| == |entries|
    ensures forall i :: 0 <= i < |entries| ==> names[i] == entries[i].name
  {
    seq(|entries|, i requires 0 <= i < |entries| => entries[i].name)
  }

  /** Where `name` first occurs in `buckets` (`|buckets|` when it does not). */
  function Rank(buckets: seq<string>, name: string): (k: nat)
    ensures k <= |buckets|
    ensures k < |buckets| <==> name in buckets
    ensures k < |buckets| ==> buckets[k] == name
  {
    if |buckets| == 0 then 0
    else if buckets[0] == name then 0
    else 1 + Rank(buckets[1..], name)
  }

  predicate Distinct(buckets: seq<string>) {
    forall i, j :: 0 <= i < j < |buckets| ==> buckets[i] != buckets[j]
  }

  // ---------------------------------------------------------------------
  // Properties of the parser over any list of buckets
  // ---------------------------------------------------------------------

  /** Every entry names a bucket of the list. */
  lemma {:induction false} EntriesComeFromList(headers: Headers, buckets: seq<string>)
    ensures forall i :: 0 <= i < |ParseBuckets(headers, buckets)| ==> ParseBuckets(headers, buckets)[i].name in buckets
  {
    if |buckets| > 0 {
      EntriesComeFromList(headers, buckets[1..]);
      var head := if BucketPresent(headers, buckets[0]) then [BucketEntry(headers, buckets[0])] else [];
      var tail := ParseBuckets(headers, buckets[1..]);
      var r := ParseBuckets(headers, buckets);
      assert r == head + tail;
      forall i | |head| <= i < |r|
        ensures r[i].name in buckets
      {
        assert r[i] == tail[i - |head|];
        assert tail[i - |head|].name in buckets[1..];
      }
    }
  }

  /** Every entry belongs to a bucket that reported a header and is read from that bucket's headers. */
  lemma {:induction false} EntriesReadOwnHeaders(headers: Headers, buckets: seq<string>)
    ensures forall i :: 0 <= i < |ParseBuckets(headers, buckets)| ==>
      && BucketPresent(headers, ParseBuckets(headers, buckets)[i].name)
      && ParseBuckets(headers, buckets)[i] == BucketEntry(headers, ParseBuckets(headers, buckets)[i].name)
  {
    if |buckets| > 0 {
      EntriesReadOwnHeaders(headers, buckets[1..]);
      var head := if BucketPresent(headers, buckets[0]) then [BucketEntry(headers, buckets[0])] else [];
      var tail := ParseBuckets(headers, buckets[1..]);
      var r := ParseBuckets(headers, buckets);
      assert r == head + tail;
      forall i | |head| <= i < |r|
        ensures BucketPresent(headers, r[i].name) && r[i] == BucketEntry(headers, r[i].name)
      {
        assert r[i] == tail[i - |head|];
      }
    }
  }

  /** When every bucket of the list reports, there is one entry per bucket, in list order. */
  lemma {:induction false} OneEntryPerReportingBucket(headers: Headers, buckets: seq<string>)
    requires forall b :: b in buckets ==> BucketPresent(headers, b)
    ensures |ParseBuckets(headers, buckets)| == |buckets|
    ensures forall i :: 0 <= i < |buckets| ==> ParseBuckets(headers, buckets)[i] == BucketEntry(headers, buckets[i])
  {
    if |buckets| > 0 {
      var rest := buckets[1..];
      assert forall b :: b in rest ==> b in buckets;
      OneEntryPerReportingBucket(headers, rest);
      assert buckets[0] in buckets;
      var r := ParseBuckets(headers, buckets);
      assert r == [BucketEntry(headers, buckets[0])] + ParseBuckets(headers, rest);
      forall i | 1 <= i < |buckets|
        ensures r[i] == BucketEntry(headers, buckets[i])
      {
        assert r[i] == ParseBuckets(headers, rest)[i - 1];
        assert rest[i - 1] == buckets[i];
      }
    }
  }

  /** Every bucket of the list that reports a header has an entry. */
  lemma {:induction false} ReportedBucketsHaveEntries(headers: Headers, buckets: seq<string>)
    ensures forall b :: b in buckets && BucketPresent(headers, b) ==> b in Names(ParseBuckets(headers, buckets))
  {
    if |buckets| > 0 {
      ReportedBucketsHaveEntries(headers, buckets[1..]);
      var head := if BucketPresent(headers, buckets[0]) then [BucketEntry(headers, buckets[0])] else [];
      var tail := ParseBuckets(headers, buckets[1..]);
      var names := Names(ParseBuckets(headers, buckets));
      assert ParseBuckets(headers, buckets) == head + tail;
      assert names == Names(head) + Names(tail);
      forall b | b in buckets && BucketPresent(headers, b)
        ensures b in names
      {
        if b == buckets[0] {
          assert names[0] == b;
        } else {
          assert b in buckets[1..];
          assert b in Names(tail);
        }
      }
    }
  }

  /** Entries come out in the order of the bucket list, whatever the headers. */
  lemma {:induction false} EntriesFollowBucketOrder(headers: Headers, buckets: seq<string>)
    requires Distinct(buckets)
    ensures forall i :: 0 <= i < |ParseBuckets(headers, buckets)| - 1 ==>
      Rank(buckets, ParseBuckets(headers, buckets)[i].name) < Rank(buckets, ParseBuckets(headers, buckets)[i + 1].name)
  {
    if |buckets| > 0 {
      var rest := buckets[1..];
      assert Distinct(rest) by {
        forall i, j | 0 <= i < j < |rest| ensures rest[i] != rest[j] {
          assert rest[i] == buckets[i + 1] && rest[j] == buckets[j + 1];
        }
      }
      EntriesFollowBucketOrder(headers, rest);
      EntriesComeFromList(headers, rest);
      var head := if BucketPresent(headers, buckets[0]) then [BucketEntry(headers, buckets[0])] else [];
      var tail := ParseBuckets(headers, rest);
      var r := ParseBuckets(headers, buckets);
      assert r == head + tail;
      forall i | 0 <= i < |r| - 1
        ensures Rank(buckets, r[i].name) < Rank(buckets, r[i + 1].name)
      {
        var y := tail[i + 1 - |head|];
        assert r[i + 1] == y;
        RankInRest(buckets, y.name);
        if i >= |head| {
          var x := tail[i - |head|];
          assert r[i] == x;
          RankInRest(buckets, x.name);
        }
      }
    }
  }

  /** A name from the rest of a list without repeats ranks one further down in the whole list. */
  lemma RankInRest(buckets: seq<string>, name: string)
    requires |buckets| > 0 && Distinct(buckets)
    requires name in buckets[1..]
    ensures Rank(buckets, name) == 1 + Rank(buckets[1..], name)
  {
    var p := Rank(buckets[1..], name);
    assert buckets[p + 1] == name;
  }

  /** The result is empty exactly when no bucket of the list reports a header. */
  lemma {:induction false} EmptyWhenNothingReported(headers: Headers, buckets: seq<string>)
    ensures ParseBuckets(headers, buckets) == [] <==> forall b :: b in buckets ==> !BucketPresent(headers, b)
  {
    EntriesComeFromList(headers, buckets);
    EntriesReadOwnHeaders(headers, buckets);
    ReportedBucketsHaveEntries(headers, buckets);
    var r := ParseBuckets(headers, buckets);
    if r != [] {
      assert r[0].name in buckets && BucketPresent(headers, r[0].name);
    }
  }

  /** Every bucket of the list has an entry exactly when every one reports a header. */
  lemma {:induction false} FullWhenAllReported(headers: Headers, buckets: seq<string>)
    ensures |ParseBuckets(headers, buckets)| == |buckets| <==> forall b :: b in buckets ==> BucketPresent(headers, b)
  {
    if |buckets| > 0 {
      FullWhenAllReported(headers, buckets[1..]);
      var rest := ParseBuckets(headers, buckets[1..]);
      if !BucketPresent(headers, buckets[0]) {
        assert |ParseBuckets(headers, buckets)| == |rest| < |buckets|;
      } else {
        assert forall b :: b in buckets <==> b == buckets[0] || b in buckets[1..];
      }
    }
  }

  // ---------------------------------------------------------------------
  // Header names and field independence
  // ---------------------------------------------------------------------

  /** Distinct (bucket, field) pairs give distinct header names. */
  lemma HeaderNameInjective(b1: string, f1: string, b2: string, f2: string)
    requires IsField(f1) && IsField(f2)
    requires HeaderName(b1, f1) == HeaderName(b2, f2)
    ensures b1 == b2 && f1 == f2
  {
    var s := HeaderName(b1, f1);
    assert s == PREFIX + b1 + "-" + f1 == PREFIX + b2 + "-" + f2;
    if |f1| == |f2| {
      assert f1 == s[|s| - |f1|..] == f2;
      assert b1 == s[|PREFIX|..|PREFIX| + |b1|] == b2;
    } else {
      // only `remaining` is not five letters long
      MarkSixFromEnd(b1, f1);
      MarkSixFromEnd(b2, f2);
    }
  }

  /** Six characters from the end a header name has 'a' for `remaining` and '-' otherwise. */
  lemma MarkSixFromEnd(bucket: string, field: string)
    requires IsField(field)
    ensures var s := HeaderName(bucket, field);
      s[|s| - 6] == if field == REMAINING then 'a' else '-'
  {
    var s := HeaderName(bucket, field);
    var front := PREFIX + bucket + "-";
    assert s == front + field;
    if field == REMAINING {
      assert s[|s| - 6] == field[3];
    } else {
      assert s[|s| - 6] == front[|front| - 1];
    }
  }

  /** The three headers a bucket reports, with their values as written. */
  function BucketHeaders(bucket: string, limit: string, remaining: string, reset: string): Headers {
    map[HeaderName(bucket, LIMIT) := limit, HeaderName(bucket, REMAINING) := remaining, HeaderName(bucket, RESET) := reset]
  }

  /** Headers that name none of this bucket's fields change neither its entry nor its presence. */
  lemma EntryIgnoresForeignHeaders(headers: Headers, extra: Headers, bucket: string)
    requires HeaderName(bucket, LIMIT) !in extra
    requires HeaderName(bucket, REMAINING) !in extra
    requires HeaderName(bucket, RESET) !in extra
    ensures BucketEntry(headers + extra, bucket) == BucketEntry(headers, bucket)
    ensures BucketPresent(headers + extra, bucket) == BucketPresent(headers, bucket)
  {
  }

  /** Another bucket's headers never leak into this bucket's entry. */
  lemma OtherBucketsNeverLeak(headers: Headers, bucket: string, other: string, limit: string, remaining: string, reset: string)
    requires other != bucket
    ensures BucketEntry(headers + BucketHeaders(other, limit, remaining, reset), bucket) == BucketEntry(headers, bucket)
    ensures BucketPresent(headers + BucketHeaders(other, limit, remaining, reset), bucket) == BucketPresent(headers, bucket)
  {
    var extra := BucketHeaders(other, limit, remaining, reset);
    forall f | IsField(f)
      ensures HeaderName(bucket, f) !in extra
    {
      if HeaderName(bucket, f) == HeaderName(other, LIMIT) {
        HeaderNameInjective(bucket, f, other, LIMIT);
      }
      if HeaderName(bucket, f) == HeaderName(other, REMAINING) {
        HeaderNameInjective(bucket, f, other, REMAINING);
      }
      if HeaderName(bucket, f) == HeaderName(other, RESET) {
        HeaderNameInjective(bucket, f, other, RESET);
      }
    }
    EntryIgnoresForeignHeaders(headers, extra, bucket);
  }

  /** A bucket's entry reads each of its three headers into its own field. */
  lemma EntryOfOwnHeaders(headers: Headers, bucket: string, limit: string, remaining: string, reset: string)
    ensures BucketPresent(headers + BucketHeaders(bucket, limit, remaining, reset), bucket)
    ensures BucketEntry(headers + BucketHeaders(bucket, limit, remaining, reset), bucket)
      == RateLimitEntry(bucket, ParseNat(limit), ParseNat(remaining), ParseIso(reset))
  {
    var h := headers + BucketHeaders(bucket, limit, remaining, reset);
    if HeaderName(bucket, LIMIT) == HeaderName(bucket, REMAINING) {
      HeaderNameInjective(bucket, LIMIT, bucket, REMAINING);
    }
    if HeaderName(bucket, LIMIT) == HeaderName(bucket, RESET) {
      HeaderNameInjective(bucket, LIMIT, bucket, RESET);
    }
    if HeaderName(bucket, REMAINING) == HeaderName(bucket, RESET) {
      HeaderNameInjective(bucket, REMAINING, bucket, RESET);
    }
    assert h[HeaderName(bucket, LIMIT)] == limit;
    assert h[HeaderName(bucket, REMAINING)] == remaining;
  }

  /** What one bucket writes into a response: its three header values as text. */
  datatype BucketReport = BucketReport(bucket: string, limit: string, remaining: string, reset: string)

  /** The headers of a response whose buckets report as listed. */
  function ReportHeaders(reports: seq<BucketReport>): Headers {
    if |reports| == 0 then map[]
    else
      var last := reports[|reports| - 1];
      ReportHeaders(reports[..|reports| - 1]) + BucketHeaders(last.bucket, last.limit, last.remaining, last.reset)
  }

  function ReportedBuckets(reports: seq<BucketReport>): (buckets: seq<string>)
    ensures |buckets| == |reports|
    ensures forall i :: 0 <= i < |reports| ==> buckets[i] == reports[i].bucket
  {
    seq(|reports|, i requires 0 <= i < |reports| => reports[i].bucket)
  }

  /** The entry a bucket's report reads as. */
  function ReportEntry(report: BucketReport): RateLimitEntry {
    RateLimitEntry(report.bucket, ParseNat(report.limit), ParseNat(report.remaining), ParseIso(report.reset))
  }

  /** In a response where each bucket reports once, each bucket reads back its own report. */
  lemma {:induction false} EntryOfReport(reports: seq<BucketReport>, i: nat)
    requires Distinct(ReportedBuckets(reports))
    requires i < |reports|
    ensures BucketPresent(ReportHeaders(reports), reports[i].bucket)
    ensures BucketEntry(ReportHeaders(reports), reports[i].bucket) == ReportEntry(reports[i])
  {
    var n := |reports|;
    var front := reports[..n - 1];
    var last := reports[n - 1];
    assert ReportHeaders(reports) == ReportHeaders(front) + BucketHeaders(last.bucket, last.limit, last.remaining, last.reset);
    if i == n - 1 {
      EntryOfOwnHeaders(ReportHeaders(front), last.bucket, last.limit, last.remaining, last.reset);
    } else {
      assert ReportedBuckets(front) == ReportedBuckets(reports)[..n - 1];
      EntryOfReport(front, i);
      assert reports[i].bucket == ReportedBuckets(reports)[i] != ReportedBuckets(reports)[n - 1] == last.bucket;
      OtherBucketsNeverLeak(ReportHeaders(front), reports[i].bucket, last.bucket, last.limit, last.remaining, last.reset);
    }
  }

  /**
   A bucket that writes its limit and remaining count as decimal numerals and its
   reset instant as ISO text reads back exactly those values, a remaining of 0 included.
   */
  lemma ReportReadsBack(bucket: string, limit: nat, remaining: nat, resetsAt: Instant)
    requires Valid(resetsAt)
    ensures ReportEntry(BucketReport(bucket, Decimal(limit), Decimal(remaining), ToIsoString(resetsAt)))
      == RateLimitEntry(bucket, Some(limit), Some(remaining), Some(resetsAt))
  {
    ParseDecimal(limit);
    ParseDecimal(remaining);
    ParseToIso(resetsAt);
  }

  /**
   A missing header leaves only its own field absent: dropping one of a
   bucket's headers clears that field and keeps the other two as they were.
   */
  lemma MissingHeaderMeansAbsentField(headers: Headers, bucket: string)
    ensures HeaderName(bucket, LIMIT) !in headers ==> BucketEntry(headers, bucket).limit == None
    ensures HeaderName(bucket, REMAINING) !in headers ==> BucketEntry(headers, bucket).remaining == None
    ensures HeaderName(bucket, RESET) !in headers ==> BucketEntry(headers, bucket).resetsAt == None
    ensures BucketEntry(headers - {HeaderName(bucket, LIMIT)}, bucket)
      == BucketEntry(headers, bucket).(limit := None)
    ensures BucketEntry(headers - {HeaderName(bucket, REMAINING)}, bucket)
      == BucketEntry(headers, bucket).(remaining := None)
    ensures BucketEntry(headers - {HeaderName(bucket, RESET)}, bucket)
      == BucketEntry(headers, bucket).(resetsAt := None)
  {
    if HeaderName(bucket, LIMIT) == HeaderName(bucket, REMAINING) {
      HeaderNameInjective(bucket, LIMIT, bucket, REMAINING);
    }
    if HeaderName(bucket, LIMIT) == HeaderName(bucket, RESET) {
      HeaderNameInjective(bucket, LIMIT, bucket, RESET);
    }
    if HeaderName(bucket, REMAINING) == HeaderName(bucket, RESET) {
      HeaderNameInjective(bucket, REMAINING, bucket, RESET);
    }
  }

  // ---------------------------------------------------------------------
  // Anthropic's bucket list
  // ---------------------------------------------------------------------

  /** No rate-limit headers at all (a bare 429) gives no entries. */
  lemma NoHeadersNoEntries(headers: Headers)
    requires forall b, f :: IsField(f) ==> HeaderName(b, f) !in headers
    ensures ParseRateLimits(headers) == []
  {
    forall b | b in BUCKETS
      ensures !BucketPresent(headers, b)
    {
      assert IsField(LIMIT) && IsField(REMAINING) && IsField(RESET);
    }
    EmptyWhenNothingReported(headers, BUCKETS);
  }

  /**
   What the snapshot of any response holds: each entry is one of Anthropic's
   buckets that reported a header, read from that bucket's headers alone; every
   bucket that reported has an entry; and entries follow the bucket order.
   */
  lemma SnapshotProperties(headers: Headers)
    ensures var r := ParseRateLimits(headers);
      && (forall i :: 0 <= i < |r| ==>
            r[i].name in BUCKETS && BucketPresent(headers, r[i].name) && r[i] == BucketEntry(headers, r[i].name))
      && (forall b :: b in BUCKETS && BucketPresent(headers, b) ==> b in Names(r))
      && (forall i :: 0 <= i < |r| - 1 ==> Rank(BUCKETS, r[i].name) < Rank(BUCKETS, r[i + 1].name))
  {
    EntriesComeFromList(headers, BUCKETS);
    EntriesReadOwnHeaders(headers, BUCKETS);
    ReportedBucketsHaveEntries(headers, BUCKETS);
    EntriesFollowBucketOrder(headers, BUCKETS);
  }

  /**
   A response in which all four buckets report, whatever other headers it has
   that are not one of these buckets' rate-limit headers, gives exactly four entries: one per bucket, in bucket order, each read from
   that bucket's own report.
   */
  lemma AllBucketsReported(reports: seq<BucketReport>, others: Headers)
    requires ReportedBuckets(reports) == BUCKETS
    requires forall b, f :: b in BUCKETS && IsField(f) ==> HeaderName(b, f) !in others
    ensures var r := ParseRateLimits(ReportHeaders(reports) + others);
      |r| == 4 && forall i :: 0 <= i < 4 ==> r[i] == ReportEntry(reports[i])
  {
    var headers := ReportHeaders(reports) + others;
    forall i | 0 <= i < 4
      ensures BucketPresent(headers, BUCKETS[i])
      ensures BucketEntry(headers, BUCKETS[i]) == ReportEntry(reports[i])
    {
      EntryOfReport(reports, i);
      assert IsField(LIMIT) && IsField(REMAINING) && IsField(RESET);
      EntryIgnoresForeignHeaders(ReportHeaders(reports), others, BUCKETS[i]);
    }
    OneEntryPerReportingBucket(headers, BUCKETS);
  }
}
