/** Release dates in the feed builder: the "Month Day, Year" pattern found
    in a title, its conversion to an ISO `YYYY-MM-DD` string with the
    `2024-01-01` fallback, the `YYYY-MM` month bucket, the bucket's
    recency order relative to "now", and the "October 2024" group label.
    Dates are calendar dates read on a UTC host with English month names. */
module ReleaseDates {
  import opened Options
  import opened Strings
  import opened JsNumbers

  datatype Date = Date(year: nat, month: nat, day: nat)

  function DaysInMonth(year: int, month: int): int
  {
    if month == 2 then
      (if year % 4 == 0 && (year % 100 != 0 || year % 400 == 0) then 29 else 28)
    else if month == 4 || month == 6 || month == 9 || month == 11 then 30
    else 31
  }

  /** A calendar date whose year has four digits, as the model admits. */
  predicate ValidDate(d: Date)
  {
    1000 <= d.year <= 9999 && 1 <= d.month <= 12 && 1 <= d.day <= DaysInMonth(d.year, d.month)
  }

  const MonthNames: seq<string> := ["January", "February", "March", "April", "May", "June",
                                    "July", "August", "September", "October", "November", "December"]

  /** The release date used when a title carries none. */
  const FallbackDate: Date := Date(2024, 1, 1)

  // ---------------------------------------------------------------------
  // The pattern /([A-Za-z]+\s\d{1,2},\s\d{4})/ and its leftmost match
  // ---------------------------------------------------------------------

  predicate IsAsciiLetter(c: char)
  {
    ('A' <= c <= 'Z') || ('a' <= c <= 'z')
  }

  /** The pieces of one occurrence of the pattern. */
  datatype DateMatch = DateMatch(word: string, sep1: char, day: string, sep2: char, year: string)

  predicate WellShaped(m: DateMatch)
  {
    && |m.word| >= 1 && (forall i :: 0 <= i < |m.word| ==> IsAsciiLetter(m.word[i]))
    && IsJsWhitespace(m.sep1)
    && 1 <= |m.day| <= 2 && AllDigits(m.day)
    && IsJsWhitespace(m.sep2)
    && |m.year| == 4 && AllDigits(m.year)
  }

  /** The matched text, `match[0]`. */
  function MatchText(m: DateMatch): string
  {
    m.word + [m.sep1] + m.day + "," + [m.sep2] + m.year
  }

  /** The pattern occurs in `s` at position `p` with pieces `m`. */
  predicate ShapeAt(s: string, p: nat, m: DateMatch)
  {
    p <= |s| && WellShaped(m) && StartsWith(s[p..], MatchText(m))
  }

  /** Number of ASCII letters in `s` from position `p` on. */
  function LetterRun(s: string, p: nat): (n: nat)
    requires p <= |s|
    ensures p + n <= |s|
    ensures forall i :: p <= i < p + n ==> IsAsciiLetter(s[i])
    ensures p + n == |s| || !IsAsciiLetter(s[p + n])
    decreases |s| - p
  {
    if p < |s| && IsAsciiLetter(s[p]) then 1 + LetterRun(s, p + 1) else 0
  }

  lemma {:induction false} LetterRunExact(s: string, p: nat, n: nat)
    requires p + n <= |s|
    requires forall i :: p <= i < p + n ==> IsAsciiLetter(s[i])
    requires p + n == |s| || !IsAsciiLetter(s[p + n])
    ensures LetterRun(s, p) == n
    decreases n
  {
    if n > 0 {
      LetterRunExact(s, p + 1, n - 1);
    }
  }

  /** Where each piece of a match sits in its text. */
  lemma MatchTextChars(m: DateMatch)
    ensures var t, w, dl := MatchText(m), |m.word|, |m.day|;
      && |t| == w + dl + |m.year| + 3
      && (forall k :: 0 <= k < w ==> t[k] == m.word[k])
      && t[w] == m.sep1
      && (forall k :: 0 <= k < dl ==> t[w + 1 + k] == m.day[k])
      && t[w + 1 + dl] == ','
      && t[w + 2 + dl] == m.sep2
      && (forall k :: 0 <= k < |m.year| ==> t[w + 3 + dl + k] == m.year[k])
  {
  }

  /** The pieces `MatchAt` cuts out of `s`: letters from `p` to `q`, the
      separator at `q`, `dl` day digits, ',', a separator and four digits. */
  function Parts(s: string, p: nat, q: nat, dl: nat): DateMatch
    requires p <= q && q + dl + 7 <= |s|
  {
    DateMatch(s[p..q], s[q], s[q + 1..q + 1 + dl], s[q + dl + 2], s[q + dl + 3..q + dl + 7])
  }

  /** The pieces spell the text from `p` on. */
  lemma PartsText(s: string, p: nat, q: nat, dl: nat)
    requires p <= q && q + dl + 7 <= |s| && s[q + 1 + dl] == ','
    ensures MatchText(Parts(s, p, q, dl)) == s[p..q + dl + 7]
  {
    var e := q + dl + 7;
    assert s[p..e] == s[p..q] + s[q..e];
    assert s[q..e] == [s[q]] + s[q + 1..e];
    assert s[q + 1..e] == s[q + 1..q + 1 + dl] + s[q + 1 + dl..e];
    assert s[q + 1 + dl..e] == [','] + s[q + dl + 2..e];
    assert s[q + dl + 2..e] == [s[q + dl + 2]] + s[q + dl + 3..e];
  }

  /** Pieces of the right kinds make an occurrence at `p`. */
  lemma PartsShape(s: string, p: nat, q: nat, dl: nat)
    requires p < q && q + dl + 7 <= |s| && 1 <= dl <= 2
    requires forall k :: p <= k < q ==> IsAsciiLetter(s[k])
    requires IsJsWhitespace(s[q]) && IsJsWhitespace(s[q + dl + 2])
    requires forall k :: q + 1 <= k < q + 1 + dl ==> IsDigit(s[k])
    requires s[q + 1 + dl] == ','
    requires AllDigits(s[q + dl + 3..q + dl + 7])
    ensures ShapeAt(s, p, Parts(s, p, q, dl))
  {
    PartsText(s, p, q, dl);
    var m := Parts(s, p, q, dl);
    assert s[p..][..|MatchText(m)|] == MatchText(m);
  }

  /** The length of the day field at `i`: two digits followed by ',', else
      one digit followed by ',', else no day field (0). */
  function DayLength(s: string, i: nat): (n: nat)
    requires i <= |s|
    ensures n <= 2
    ensures n > 0 ==> i + n < |s| && s[i + n] == ',' && forall k :: i <= k < i + n ==> IsDigit(s[k])
  {
    if i + 2 < |s| && IsDigit(s[i]) && IsDigit(s[i + 1]) && s[i + 2] == ',' then 2
    else if i + 1 < |s| && IsDigit(s[i]) && s[i + 1] == ',' then 1
    else 0
  }

  lemma DayLengthExact(s: string, i: nat, n: nat)
    requires 1 <= n <= 2 && i + n < |s| && s[i + n] == ','
    requires forall k :: i <= k < i + n ==> IsDigit(s[k])
    ensures DayLength(s, i) == n
  {
  }

  /** The pattern tried at position `p`. `[A-Za-z]+` is greedy and giving
      letters back cannot help, because `\s` never matches a letter; `\d{1,2}`
      takes two digits when a ',' follows them and one digit otherwise. */
  function MatchAt(s: string, p: nat): (r: Option<DateMatch>)
    requires p <= |s|
    ensures r.Some? ==> ShapeAt(s, p, r.value)
  {
    var q := p + LetterRun(s, p);
    if q == p || q + 1 >= |s| || !IsJsWhitespace(s[q]) then None
    else
      var dl := DayLength(s, q + 1);
      if dl == 0 || q + dl + 7 > |s| then None
      else if IsJsWhitespace(s[q + dl + 2]) && AllDigits(s[q + dl + 3..q + dl + 7]) then
        PartsShape(s, p, q, dl);
        Some(Parts(s, p, q, dl))
      else None
  }

  lemma WhitespaceNotLetter(c: char)
    requires IsJsWhitespace(c)
    ensures !IsAsciiLetter(c)
  {
  }

  /** The characters of `s` from `p` on, for an occurrence at `p`. */
  lemma ShapeAtChars(s: string, p: nat, m: DateMatch)
    requires ShapeAt(s, p, m)
    ensures var w, dl := |m.word|, |m.day|;
      && p + w + dl + 7 <= |s|
      && (forall k :: 0 <= k < w ==> s[p + k] == m.word[k])
      && s[p + w] == m.sep1
      && (forall k :: 0 <= k < dl ==> s[p + w + 1 + k] == m.day[k])
      && s[p + w + 1 + dl] == ','
      && s[p + w + 2 + dl] == m.sep2
      && (forall k :: 0 <= k < 4 ==> s[p + w + 3 + dl + k] == m.year[k])
  {
    var t := MatchText(m);
    MatchTextChars(m);
    forall k | 0 <= k < |t|
      ensures s[p + k] == t[k]
    {
      assert s[p..][k] == t[k];
    }
  }

  /** `MatchAt` from the facts that drive its branches. */
  lemma MatchAtParts(s: string, p: nat, q: nat, dl: nat)
    requires p < q && q + dl + 7 <= |s| && 1 <= dl
    requires LetterRun(s, p) == q - p && DayLength(s, q + 1) == dl
    requires IsJsWhitespace(s[q]) && IsJsWhitespace(s[q + dl + 2])
    requires AllDigits(s[q + dl + 3..q + dl + 7])
    ensures MatchAt(s, p) == Some(Parts(s, p, q, dl))
  {
  }

  /** The pieces of an occurrence are where `Parts` cuts. */
  lemma PartsOfShape(s: string, p: nat, m: DateMatch)
    requires ShapeAt(s, p, m)
    ensures p + |m.word| + |m.day| + 7 <= |s|
    ensures Parts(s, p, p + |m.word|, |m.day|) == m
  {
    ShapeAtChars(s, p, m);
    var w, dl := |m.word|, |m.day|;
    var q := p + w;
    assert s[p..q] == m.word;
    assert s[q + 1..q + 1 + dl] == m.day;
    assert s[q + dl + 3..q + dl + 7] == m.year;
  }

  /** An occurrence of the pattern at `p` is exactly what `MatchAt` finds:
      at a given position the pattern can match in one way only. */
  lemma MatchAtComplete(s: string, p: nat, m: DateMatch)
    requires ShapeAt(s, p, m)
    ensures MatchAt(s, p) == Some(m)
  {
    PartsOfShape(s, p, m);
    LetterRunOfShape(s, p, m);
    DayLengthOfShape(s, p, m);
    var q, dl := p + |m.word|, |m.day|;
    assert s[q] == m.sep1 && s[q + dl + 2] == m.sep2 && s[q + dl + 3..q + dl + 7] == m.year;
    MatchAtParts(s, p, q, dl);
  }

  /** The letter run at an occurrence is its word: a separator follows. */
  lemma LetterRunOfShape(s: string, p: nat, m: DateMatch)
    requires ShapeAt(s, p, m)
    ensures LetterRun(s, p) == |m.word|
  {
    ShapeAtChars(s, p, m);
    WhitespaceNotLetter(m.sep1);
    LetterRunExact(s, p, |m.word|);
  }

  /** The day field at an occurrence is its day: a ',' follows. */
  lemma DayLengthOfShape(s: string, p: nat, m: DateMatch)
    requires ShapeAt(s, p, m)
    ensures p + |m.word| + 1 <= |s|
    ensures DayLength(s, p + |m.word| + 1) == |m.day|
  {
    ShapeAtChars(s, p, m);
    DayLengthExact(s, p + |m.word| + 1, |m.day|);
  }

  /** The leftmost match from position `p` on, with its position. */
  function FindDateFrom(s: string, p: nat): (r: Option<(nat, DateMatch)>)
    requires p <= |s|
    ensures r.Some? ==> p <= r.value.0 && ShapeAt(s, r.value.0, r.value.1)
    ensures r.Some? ==> forall q, m :: p <= q < r.value.0 ==> !ShapeAt(s, q, m)
    ensures r.None? ==> forall q, m :: p <= q ==> !ShapeAt(s, q, m)
    decreases |s| - p
  {
    var here := MatchAt(s, p);
    if here.Some? then Some((p, here.value))
    else
      assert forall m :: !ShapeAt(s, p, m) by {
        forall m | ShapeAt(s, p, m) ensures false {
          MatchAtComplete(s, p, m);
        }
      }
      if p == |s| then None
      else FindDateFrom(s, p + 1)
  }

  /** `title.match(datePattern)`: the leftmost occurrence, if any. */
  function FindDate(title: string): (r: Option<(nat, DateMatch)>)
    ensures r.Some? ==> ShapeAt(title, r.value.0, r.value.1)
    ensures r.Some? ==> forall q: nat, m :: q < r.value.0 ==> !ShapeAt(title, q, m)
    ensures r.None? ==> forall q: nat, m :: !ShapeAt(title, q, m)
  {
    FindDateFrom(title, 0)
  }

  // ---------------------------------------------------------------------
  // From the match to a calendar date
  // ---------------------------------------------------------------------

  /** The 1-based month of an English month name, or 0. */
  function MonthNumber(word: string): (n: nat)
    ensures n <= 12
    ensures n >= 1 ==> MonthNames[n - 1] == word
    ensures n == 0 ==> word !in MonthNames
  {
    if word in MonthNames then
      var k :| 0 <= k < |MonthNames| && MonthNames[k] == word;
      k + 1
    else 0
  }

  /** The date `new Date(match[0])` denotes when the word is a full English
      month name and the day exists in that month; `None` marks text whose
      reading by the JavaScript engine this model does not describe. */
  function EnglishDate(m: DateMatch): (r: Option<Date>)
    requires WellShaped(m)
    ensures r.Some? ==> ValidDate(r.value) && MonthNames[r.value.month - 1] == m.word
    ensures r.Some? ==> ParseInt(m.year) == Num(r.value.year) && ParseInt(m.day) == Num(r.value.day)
  {
    var month := MonthNumber(m.word);
    var d := Date(DigitsValue(m.year), month, DigitsValue(m.day));
    assert ParseInt(m.year) == Num(d.year) && ParseInt(m.day) == Num(d.day) by {
      ParseIntOfDigits(m.year);
      ParseIntOfDigits(m.day);
    }
    if month >= 1 && ValidDate(d) then Some(d) else None
  }

  /** The titles whose release date the model describes: no date pattern, or
      one naming a real calendar date in English. */
  predicate ModelledTitle(title: string)
  {
    var f := FindDate(title);
    f.None? || EnglishDate(f.value.1).Some?
  }

  /** The calendar date behind `extractReleaseDateFromTitle(title)`. */
  function ReleaseDate(title: string): (d: Date)
    requires ModelledTitle(title)
    ensures ValidDate(d)
    ensures FindDate(title).None? ==> d == FallbackDate
    ensures FindDate(title).Some? ==> var m := FindDate(title).value.1;
      && MonthNames[d.month - 1] == m.word
      && ParseInt(m.year) == Num(d.year) && ParseInt(m.day) == Num(d.day)
  {
    match FindDate(title)
    case None => FallbackDate
    case Some((_, m)) => EnglishDate(m).value
  }

  /** `dateObj.toISOString().split('T')[0]` for a date at midnight UTC. */
  function Iso(d: Date): string
  {
    NatToString(d.year) + "-" + Pad2(d.month) + "-" + Pad2(d.day)
  }

  /** `extractReleaseDateFromTitle(title)`. */
  function ExtractReleaseDate(title: string): (r: string)
    requires ModelledTitle(title)
    ensures FindDate(title).None? ==> r == "2024-01-01"
    ensures ParseIso(r) == Some(ReleaseDate(title))
  {
    IsoRoundTrip(ReleaseDate(title));
    FallbackIso();
    Iso(ReleaseDate(title))
  }

  lemma FallbackIso()
    ensures Iso(FallbackDate) == "2024-01-01"
  {
    assert NatToString(2024) == "2024";
    assert Pad2(1) == "01";
  }

  /** An occurrence at the very start is the match `match` returns. */
  lemma FindDateAtStart(s: string, m: DateMatch)
    requires ShapeAt(s, 0, m)
    ensures FindDate(s) == Some((0, m))
  {
    var f := FindDate(s);
    assert f.Some?;
    assert f.value.0 == 0;
    MatchAtComplete(s, 0, f.value.1);
    MatchAtComplete(s, 0, m);
  }

  /** For every title whose first date match names a real English date,
      the release date text is the matched year, the month's number with
      two digits, and the matched day padded to two digits. */
  lemma ExtractOfMatch(title: string, p: nat, m: DateMatch)
    requires FindDate(title) == Some((p, m)) && EnglishDate(m).Some?
    ensures ModelledTitle(title)
    ensures ExtractReleaseDate(title)
            == m.year + "-" + Pad2(MonthNumber(m.word)) + "-" + (if |m.day| == 1 then "0" + m.day else m.day)
  {
    var d := EnglishDate(m).value;
    assert ReleaseDate(title) == d;
    YearOfDigits(m.year);
    Pad2OfDigits(m.day);
  }

  /** A title that starts with a real English date gets that date's text. */
  lemma ExtractAtStart(s: string, m: DateMatch)
    requires ShapeAt(s, 0, m) && EnglishDate(m).Some?
    ensures ModelledTitle(s)
    ensures ExtractReleaseDate(s)
            == m.year + "-" + Pad2(MonthNumber(m.word)) + "-" + (if |m.day| == 1 then "0" + m.day else m.day)
  {
    FindDateAtStart(s, m);
    ExtractOfMatch(s, 0, m);
  }

  /** A title that is exactly an English date gives that date, zero-padded. */
  lemma JanuaryFifth()
    ensures ModelledTitle("January 5, 2024")
    ensures ExtractReleaseDate("January 5, 2024") == "2024-01-05"
  {
    JanuaryFifthShape();
    JanuaryFifthDate();
    JanuaryFifthText();
    ExtractAtStart("January 5, 2024", JanuaryFifthMatch);
  }

  const JanuaryFifthMatch := DateMatch("January", ' ', "5", ' ', "2024")

  lemma JanuaryFifthShape()
    ensures ShapeAt("January 5, 2024", 0, JanuaryFifthMatch)
  {
    assert MatchText(JanuaryFifthMatch) == "January 5, 2024";
  }

  lemma JanuaryFifthDate()
    ensures EnglishDate(JanuaryFifthMatch) == Some(Date(2024, 1, 5))
    ensures MonthNumber(JanuaryFifthMatch.word) == 1
  {
    var m := JanuaryFifthMatch;
    assert WellShaped(m) by {
      JanuaryFifthShape();
    }
    assert MonthNumber(m.word) == 1 by {
      assert MonthNames[0] == "January";
    }
    assert DigitsValue(m.year) == 2024 by {
      assert NatToString(2024) == m.year;
      NatToStringValue(2024);
    }
    assert DigitsValue(m.day) == 5 by {
      assert NatToString(5) == m.day;
      NatToStringValue(5);
    }
    EnglishDateOfParts(m, Date(2024, 1, 5));
  }

  lemma EnglishDateOfParts(m: DateMatch, d: Date)
    requires WellShaped(m) && ValidDate(d)
    requires MonthNumber(m.word) == d.month
    requires DigitsValue(m.year) == d.year && DigitsValue(m.day) == d.day
    ensures EnglishDate(m) == Some(d)
  {
  }

  lemma JanuaryFifthText()
    ensures "2024" + "-" + Pad2(1) + "-" + ("0" + "5") == "2024-01-05"
  {
    assert NatToString(1) == "1";
  }


  /** `new Date(s)` for a date-only ISO string "YYYY-MM-DD" (read as UTC);
      `None` is an invalid date. */
  function ParseIso(s: string): Option<Date>
  {
    if |s| == 10 && s[4] == '-' && s[7] == '-'
       && AllDigits(s[..4]) && AllDigits(s[5..7]) && AllDigits(s[8..]) then
      var d := Date(DigitsValue(s[..4]), DigitsValue(s[5..7]), DigitsValue(s[8..]));
      if ValidDate(d) then Some(d) else None
    else None
  }

  /** Round trip: re-reading the ISO form of a valid date gives the date. */
  lemma IsoRoundTrip(d: Date)
    requires ValidDate(d)
    ensures |Iso(d)| == 10
    ensures ParseIso(Iso(d)) == Some(d)
  {
    NatToStringLength4(d.year);
    NatToStringValue(d.year);
    ParseIntOfPad2(d.month);
    ParseIntOfPad2(d.day);
    var s := Iso(d);
    assert s[..4] == NatToString(d.year);
    assert s[5..7] == Pad2(d.month);
    assert s[8..] == Pad2(d.day);
  }

  // ---------------------------------------------------------------------
  // Month buckets, their order and their labels
  // ---------------------------------------------------------------------

  /** `${getFullYear()}-${String(getMonth() + 1).padStart(2, '0')}`. */
  function MonthYear(d: Date): string
  {
    NatToString(d.year) + "-" + Pad2(d.month)
  }

  /** The calendar month counted from year 0, used to compare buckets. */
  function MonthIndex(d: Date): int
  {
    d.year * 12 + d.month
  }

  /** The clock reading the builder compares against: year and 1-based month. */
  datatype Now = Now(year: int, month: int)

  /** `order` of a new category: the year and month are read back from the
      bucket string with `parseInt` (radix-less there, which reads these
      decimal strings the same way) and compared with "now". */
  function MonthYearOrder(now: Now, monthYear: string): JsNum
  {
    var parts := Split(monthYear, '-');
    var y := ParseInt(parts[0]);
    var m := if |parts| > 1 then ParseInt(parts[1]) else NaN;
    if y.Num? && m.Num? then Num((now.year - y.v) * 12 + (now.month - m.v)) else NaN
  }

  lemma SplitMonthYear(d: Date)
    requires ValidDate(d)
    ensures Split(MonthYear(d), '-') == [NatToString(d.year), Pad2(d.month)]
  {
    NatToStringDigits(d.year);
    ParseIntOfPad2(d.month);
    SplitAround(NatToString(d.year), '-', Pad2(d.month));
    SplitWithoutSeparator(NatToString(d.year), '-');
    SplitWithoutSeparator(Pad2(d.month), '-');
  }

  /** The order of a bucket is its distance in months back from "now". */
  lemma MonthYearOrderValue(now: Now, d: Date)
    requires ValidDate(d)
    ensures MonthYearOrder(now, MonthYear(d)) == Num((now.year * 12 + now.month) - MonthIndex(d))
  {
    SplitMonthYear(d);
    ParseIntOfNatToString(d.year);
    ParseIntOfPad2(d.month);
  }

  /** Two dates share a bucket exactly when they share year and month. */
  lemma MonthYearInjective(d1: Date, d2: Date)
    requires ValidDate(d1) && ValidDate(d2)
    ensures MonthYear(d1) == MonthYear(d2) <==> d1.year == d2.year && d1.month == d2.month
  {
    if MonthYear(d1) == MonthYear(d2) {
      SplitMonthYear(d1);
      SplitMonthYear(d2);
      NatToStringInjective(d1.year, d2.year);
      ParseIntOfPad2(d1.month);
      ParseIntOfPad2(d2.month);
    }
  }

  /** The key a group gets in the feed:
      `${monthName} ${monthYear.split('-')[0]}` where the month name is that
      of `new Date(monthYear + "-01")` in English ("Invalid Date" when that
      date is invalid). */
  function GroupLabel(monthYear: string): string
  {
    var first := ParseIso(monthYear + "-01");
    var monthName := if first.Some? then MonthNames[first.value.month - 1] else "Invalid Date";
    monthName + " " + Split(monthYear, '-')[0]
  }

  /** The label of a date's bucket is its English month name and year. */
  lemma GroupLabelOfMonthYear(d: Date)
    requires ValidDate(d)
    ensures GroupLabel(MonthYear(d)) == MonthNames[d.month - 1] + " " + NatToString(d.year)
  {
    var first := Date(d.year, d.month, 1);
    assert Pad2(1) == "01";
    assert MonthYear(d) + "-01" == Iso(first);
    IsoRoundTrip(first);
    SplitMonthYear(d);
  }

  /** Distinct buckets get distinct labels, so no group overwrites another. */
  lemma GroupLabelInjective(d1: Date, d2: Date)
    requires ValidDate(d1) && ValidDate(d2)
    requires GroupLabel(MonthYear(d1)) == GroupLabel(MonthYear(d2))
    ensures MonthYear(d1) == MonthYear(d2)
  {
    GroupLabelOfMonthYear(d1);
    GroupLabelOfMonthYear(d2);
    var n1, n2 := MonthNames[d1.month - 1], MonthNames[d2.month - 1];
    MonthNameNoSpace(d1.month);
    MonthNameNoSpace(d2.month);
    SeparatedPrefixUnique(n1, NatToString(d1.year), n2, NatToString(d2.year), ' ');
    NatToStringInjective(d1.year, d2.year);
    MonthNamesDistinct(d1.month, d2.month);
    MonthYearInjective(d1, d2);
  }

  lemma MonthNameNoSpace(month: int)
    requires 1 <= month <= 12
    ensures ' ' !in MonthNames[month - 1]
  {
  }

  lemma MonthNamesDistinct(a: int, b: int)
    requires 1 <= a <= 12 && 1 <= b <= 12
    requires MonthNames[a - 1] == MonthNames[b - 1]
    ensures a == b
  {
  }
}
