/** The bot's small pure helpers: file-name sanitising, duration rendering and
    the truncation of search-result titles. */
module Helpers {
  import opened Wrappers
  import opened Text

  // The nine characters the regular-expression class in `sanitize_filename`
  // matches: backslash, slash, star, question mark, colon, double quote,
  // less-than, greater-than and vertical bar.
  predicate Forbidden(c: char) {
    c == '\\' || c == '/' || c == '*' || c == '?' || c == ':' || c == '"'
    || c == '<' || c == '>' || c == '|'
  }

  predicate FreeOfForbidden(s: string) {
    forall i :: 0 <= i < |s| ==> !Forbidden(s[i])
  }

  /** `sanitize_filename`: every forbidden character is deleted. */
  function SanitizeFilename(name: string): (r: string)
    ensures |r| <= |name|
    ensures FreeOfForbidden(r)
    decreases |name|
  {
    if |name| == 0 then ""
    else (if Forbidden(name[0]) then "" else [name[0]]) + SanitizeFilename(name[1..])
  }

  /** Sanitising works character by character: it distributes over concatenation,
      so the kept characters stay in their original order. */
  lemma {:induction false} SanitizeConcat(a: string, b: string)
    ensures SanitizeFilename(a + b) == SanitizeFilename(a) + SanitizeFilename(b)
    decreases |a|
  {
    if |a| > 0 {
      assert (a + b)[1..] == a[1..] + b;
      SanitizeConcat(a[1..], b);
    } else {
      assert a + b == b;
    }
  }

  /** Every other character is kept exactly as often as it occurs; forbidden
      ones are all gone. */
  lemma {:induction false} SanitizeCounts(name: string, c: char)
    ensures Forbidden(c) ==> Count(SanitizeFilename(name), c) == 0
    ensures !Forbidden(c) ==> Count(SanitizeFilename(name), c) == Count(name, c)
    decreases |name|
  {
    if |name| > 0 {
      var head: string := if Forbidden(name[0]) then "" else [name[0]];
      SanitizeCounts(name[1..], c);
      CountConcat(head, SanitizeFilename(name[1..]), c);
    }
  }

  /** A name is left unchanged exactly when it has no forbidden character. */
  lemma {:induction false} SanitizeFixpoint(name: string)
    ensures (SanitizeFilename(name) == name) == FreeOfForbidden(name)
    decreases |name|
  {
    if |name| > 0 {
      SanitizeFixpoint(name[1..]);
      if Forbidden(name[0]) {
        assert |SanitizeFilename(name)| < |name|;
      } else {
        assert name == [name[0]] + name[1..];
        assert FreeOfForbidden(name) == FreeOfForbidden(name[1..]);
      }
    }
  }

  lemma SanitizeIdempotent(name: string)
    ensures SanitizeFilename(SanitizeFilename(name)) == SanitizeFilename(name)
  {
    SanitizeFixpoint(SanitizeFilename(name));
  }

  /** The three fields `format_duration` computes. Python's `//` and `%` floor;
      with the positive divisors used here Dafny's Euclidean `/` and `%` agree. */
  datatype Clock = Clock(hours: int, minutes: int, seconds: int)

  function ClockOf(total: int): (c: Clock)
    ensures 0 <= c.minutes < 60 && 0 <= c.seconds < 60
    ensures c.hours * 3600 + c.minutes * 60 + c.seconds == total
    ensures (c.hours == 0) == (0 <= total < 3600)
  {
    var rest := total % 3600;
    assert total == 3600 * (total / 3600) + rest;
    assert rest % 60 == total % 60 by {
      assert total == 60 * (60 * (total / 3600)) + rest;
    }
    Clock(total / 3600, rest / 60, total % 60)
  }

  /** `format_duration`: `HH:MM:SS` when the hour field is non-zero, else `MM:SS`. */
  function FormatDuration(total: int): string {
    var c := ClockOf(total);
    if c.hours != 0 then ZeroPad2(c.hours) + ":" + ZeroPad2(c.minutes) + ":" + ZeroPad2(c.seconds)
    else ZeroPad2(c.minutes) + ":" + ZeroPad2(c.seconds)
  }

  /** Reference reader of a rendered duration: two or three colon-separated
      decimal fields, the first of three counting hours. */
  function ParseDuration(s: string): Option<int> {
    ParseFields(SplitOn(s, ':'))
  }

  function ParseFields(f: seq<string>): Option<int> {
    if |f| == 3 then
      (match (ParseDecimal(f[0]), ParseDecimal(f[1]), ParseDecimal(f[2]))
       case (Some(h), Some(m), Some(x)) => Some(h * 3600 + m * 60 + x)
       case _ => None)
    else if |f| == 2 then
      (match (ParseDecimal(f[0]), ParseDecimal(f[1]))
       case (Some(m), Some(x)) => Some(m * 60 + x)
       case _ => None)
    else None
  }

  lemma ZeroPad2Small(i: int)
    requires 0 <= i < 60
    ensures |ZeroPad2(i)| == 2
  {
  }

  /** The fields of a rendered duration, hours first when present. */
  function DurationFields(total: int): seq<string> {
    var c := ClockOf(total);
    if c.hours != 0 then [ZeroPad2(c.hours), ZeroPad2(c.minutes), ZeroPad2(c.seconds)]
    else [ZeroPad2(c.minutes), ZeroPad2(c.seconds)]
  }

  lemma JoinTwo(a: string, b: string, sep: char)
    ensures Join([a, b], sep) == a + [sep] + b
  {
    assert [a, b][1..] == [b];
  }

  lemma JoinThree(a: string, b: string, c: string, sep: char)
    ensures Join([a, b, c], sep) == a + [sep] + b + [sep] + c
  {
    assert [a, b, c][1..] == [b, c];
    JoinTwo(b, c, sep);
  }

  lemma SplitFormatDuration(total: int)
    ensures SplitOn(FormatDuration(total), ':') == DurationFields(total)
  {
    var c := ClockOf(total);
    var fields := DurationFields(total);
    if c.hours != 0 {
      JoinThree(ZeroPad2(c.hours), ZeroPad2(c.minutes), ZeroPad2(c.seconds), ':');
    } else {
      JoinTwo(ZeroPad2(c.minutes), ZeroPad2(c.seconds), ':');
    }
    assert FormatDuration(total) == Join(fields, ':');
    SplitJoin(fields, ':');
  }

  /** The fields read back as the clock they were rendered from. */
  lemma DurationFieldsParse(total: int)
    ensures ParseFields(DurationFields(total)) == Some(total)
  {
    var c := ClockOf(total);
    ZeroPad2RoundTrip(c.minutes);
    ZeroPad2RoundTrip(c.seconds);
    if c.hours != 0 {
      ZeroPad2RoundTrip(c.hours);
    }
  }

  /** Reading the rendered duration back gives the number of seconds. */
  lemma FormatDurationParses(total: int)
    ensures ParseDuration(FormatDuration(total)) == Some(total)
  {
    SplitFormatDuration(total);
    DurationFieldsParse(total);
  }

  /** The rendering loses nothing: reading it back gives the number of seconds;
      the hour field is present exactly when the hours are non-zero (at least an
      hour, or a negative duration); every field has at least two characters and
      the minute and second fields exactly two, and each field reads back as the
      hour, minute or second component of the clock it renders. */
  lemma FormatDurationRoundTrip(total: int)
    ensures ParseDuration(FormatDuration(total)) == Some(total)
    ensures var f := SplitOn(FormatDuration(total), ':');
      && |f| == (if total >= 3600 || total < 0 then 3 else 2)
      && (forall i :: 0 <= i < |f| ==> 2 <= |f[i]|)
      && |f[|f| - 1]| == 2 && |f[|f| - 2]| == 2
    ensures var f := SplitOn(FormatDuration(total), ':');
      && ParseDecimal(f[|f| - 1]) == Some(ClockOf(total).seconds)
      && ParseDecimal(f[|f| - 2]) == Some(ClockOf(total).minutes)
      && (|f| == 3 ==> ParseDecimal(f[0]) == Some(ClockOf(total).hours))
  {
    var c := ClockOf(total);
    FormatDurationParses(total);
    SplitFormatDuration(total);
    ZeroPad2Small(c.minutes);
    ZeroPad2Small(c.seconds);
    ZeroPad2RoundTrip(c.hours);
    ZeroPad2RoundTrip(c.minutes);
    ZeroPad2RoundTrip(c.seconds);
  }

  /** Search results show at most this many characters of a title. */
  const SearchTitleLimit: nat := 40

  /** A long title keeps its first 40 characters followed by `...`. */
  function TruncateTitle(title: string): (r: string)
    ensures |r| <= SearchTitleLimit + 3
    ensures |title| <= SearchTitleLimit ==> r == title
    ensures |title| > SearchTitleLimit ==> IsPrefix(title[..SearchTitleLimit], r) && r[SearchTitleLimit..] == "..."
  {
    if |title| > SearchTitleLimit then title[..SearchTitleLimit] + "..." else title
  }

  /** Truncating an already truncated title changes nothing. */
  lemma TruncateTitleIdempotent(title: string)
    ensures TruncateTitle(TruncateTitle(title)) == TruncateTitle(title)
  {
  }
}
