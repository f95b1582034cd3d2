/**
 Absolute points in time as the `-reset` rate-limit headers carry them: the
 UTC form `YYYY-MM-DDTHH:MM:SS.uuuuuuZ` that Carbon's `toISOString` writes.
 An instant is kept as its calendar fields; two instants written in this UTC
 form denote the same moment exactly when their fields are equal.
 */
module IsoTimestamp {
  import opened Wrappers
  import opened Numerals

  datatype Instant = Instant(
    year: nat, month: nat, day: nat,
    hour: nat, minute: nat, second: nat, micro: nat)

  predicate IsLeapYear(year: nat) {
    year % 4 == 0 && (year % 100 != 0 || year % 400 == 0)
  }

  function DaysInMonth(year: nat, month: nat): (days: nat)
    requires 1 <= month <= 12
    ensures 28 <= days <= 31
  {
    if month == 2 then (if IsLeapYear(year) then 29 else 28)
    else if month == 4 || month == 6 || month == 9 || month == 11 then 30
    else 31
  }

  /** A real calendar moment with a four-digit year and microsecond precision. */
  predicate Valid(t: Instant) {
    && t.year < 10000
    && 1 <= t.month <= 12
    && 1 <= t.day <= DaysInMonth(t.year, t.month)
    && t.hour < 24 && t.minute < 60 && t.second < 60
    && t.micro < 1000000
  }

  /** A digit field of `width` digits followed by the separator `sep`, then `rest`. */
  function Field(n: nat, width: nat, sep: char, rest: string): (s: string)
    ensures |s| == width + 1 + |rest|
  {
    Fixed(n, width) + [sep] + rest
  }

  /** Reads a `width`-digit field and its separator from the front of `s`. */
  function ReadField(s: string, width: nat, sep: char): (r: Option<(nat, string)>)
    ensures r.Some? ==> r.value.0 < Pow10(width) && |r.value.1| == |s| - width - 1
  {
    if |s| > width && AllDigits(s[..width]) && s[width] == sep
    then Some((ValueOf(s[..width]), s[width + 1..]))
    else None
  }

  /** Carbon's `toISOString`: `YYYY-MM-DDTHH:MM:SS.uuuuuuZ`, always in UTC. */
  function ToIsoString(t: Instant): (s: string)
    requires Valid(t)
    ensures |s| == 27
    ensures s[4] == '-' && s[7] == '-' && s[10] == 'T' && s[13] == ':' && s[16] == ':'
    ensures s[19] == '.' && s[26] == 'Z'
    ensures AllDigits(s[..4]) && AllDigits(s[20..26])
  {
    Field(t.year, 4, '-',
    Field(t.month, 2, '-',
    Field(t.day, 2, 'T',
    Field(t.hour, 2, ':',
    Field(t.minute, 2, ':',
    Field(t.second, 2, '.',
    Field(t.micro, 6, 'Z', [])))))))
  }

  /** Reads a reset header; anything other than a valid instant in the form above is `None`. */
  function ParseIso(s: string): (r: Option<Instant>)
    ensures r.Some? ==> Valid(r.value)
  {
    var year :- ReadField(s, 4, '-');
    var month :- ReadField(year.1, 2, '-');
    var day :- ReadField(month.1, 2, 'T');
    var hour :- ReadField(day.1, 2, ':');
    var minute :- ReadField(hour.1, 2, ':');
    var second :- ReadField(minute.1, 2, '.');
    var micro :- ReadField(second.1, 6, 'Z');
    var t := Instant(year.0, month.0, day.0, hour.0, minute.0, second.0, micro.0);
    if micro.1 == [] && Valid(t) then Some(t) else None
  }

  lemma ReadFieldOfField(n: nat, width: nat, sep: char, rest: string)
    requires n < Pow10(width)
    ensures ReadField(Field(n, width, sep, rest), width, sep) == Some((n, rest))
  {
    var s := Field(n, width, sep, rest);
    assert s[..width] == Fixed(n, width);
    assert s[width + 1..] == rest;
    ValueOfFixed(n, width);
  }

  lemma FieldOfReadField(s: string, width: nat, sep: char)
    requires ReadField(s, width, sep).Some?
    ensures var (n, rest) := ReadField(s, width, sep).value;
      Field(n, width, sep, rest) == s
  {
    FixedOfValue(s[..width]);
    assert s == s[..width] + [s[width]] + s[width + 1..];
  }

  /** Parsing what Carbon writes gives back the same instant. */
  lemma ParseToIso(t: Instant)
    requires Valid(t)
    ensures ParseIso(ToIsoString(t)) == Some(t)
  {
    var tail6 := Field(t.micro, 6, 'Z', []);
    var tail5 := Field(t.second, 2, '.', tail6);
    var tail4 := Field(t.minute, 2, ':', tail5);
    var tail3 := Field(t.hour, 2, ':', tail4);
    var tail2 := Field(t.day, 2, 'T', tail3);
    var tail1 := Field(t.month, 2, '-', tail2);
    ReadFieldOfField(t.year, 4, '-', tail1);
    ReadFieldOfField(t.month, 2, '-', tail2);
    ReadFieldOfField(t.day, 2, 'T', tail3);
    ReadFieldOfField(t.hour, 2, ':', tail4);
    ReadFieldOfField(t.minute, 2, ':', tail5);
    ReadFieldOfField(t.second, 2, '.', tail6);
    ReadFieldOfField(t.micro, 6, 'Z', []);
  }

  /** Every header value that parses is exactly the text Carbon writes for its instant. */
  lemma ToIsoOfParse(s: string)
    requires ParseIso(s).Some?
    ensures ToIsoString(ParseIso(s).value) == s
  {
    var year := ReadField(s, 4, '-').value;
    var month := ReadField(year.1, 2, '-').value;
    var day := ReadField(month.1, 2, 'T').value;
    var hour := ReadField(day.1, 2, ':').value;
    var minute := ReadField(hour.1, 2, ':').value;
    var second := ReadField(minute.1, 2, '.').value;
    var micro := ReadField(second.1, 6, 'Z').value;
    FieldOfReadField(s, 4, '-');
    FieldOfReadField(year.1, 2, '-');
    FieldOfReadField(month.1, 2, 'T');
    FieldOfReadField(day.1, 2, ':');
    FieldOfReadField(hour.1, 2, ':');
    FieldOfReadField(minute.1, 2, '.');
    FieldOfReadField(second.1, 6, 'Z');
  }
}
