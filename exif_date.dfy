/**
  Capture-date extraction (`get_exif_date` in watermark_adder.py).

  The metadata library's output is an abstract map from IFD names ("0th", "Exif", ...)
  to maps from tag numbers to raw values. The value of a date tag is parsed with the
  fixed-width EXIF pattern `YYYY:MM:DD HH:MM:SS` and only its date is re-emitted, as
  `YYYY-MM-DD`. Every failure collapses to `None`.
*/
module ExifDate {
  import opened Wrappers

  // ---------------------------------------------------------------------------
  // Decimal fields
  // ---------------------------------------------------------------------------

  predicate IsDigit(c: char) { '0' <= c <= '9' }

  predicate AllDigits(s: string) { forall i :: 0 <= i < |s| ==> IsDigit(s[i]) }

  function Pow10(n: nat): (r: nat)
    ensures r >= 1
  {
    if n == 0 then 1 else 10 * Pow10(n - 1)
  }

  /** The value of a string of decimal digits, most significant digit first. */
  function Number(s: string): (n: nat)
    requires AllDigits(s)
    ensures n < Pow10(|s|)
  {
    if s == [] then 0 else Number(s[..|s| - 1]) * 10 + (s[|s| - 1] as int - '0' as int)
  }

  lemma DivMod10(q: int, d: int)
    requires 0 <= d < 10
    ensures (q * 10 + d) / 10 == q && (q * 10 + d) % 10 == d
  {
  }

  /** `n` written with exactly `width` decimal digits, zero-padded on the left. */
  function Digits(n: nat, width: nat): (s: string)
    requires n < Pow10(width)
    ensures |s| == width && AllDigits(s) && Number(s) == n
  {
    if width == 0 then []
    else
      var q, d := n / 10, n % 10;
      assert q < Pow10(width - 1) && n == q * 10 + d;
      var p := Digits(q, width - 1);
      var s := p + [('0' as int + d) as char];
      assert s[..width - 1] == p;
      s
  }

  /** Reading a digit string and writing it back at its own width gives it back. */
  lemma {:induction false} DigitsOfNumber(s: string)
    requires AllDigits(s)
    ensures Digits(Number(s), |s|) == s
  {
    if s != [] {
      var p, c := s[..|s| - 1], s[|s| - 1];
      var d := c as int - '0' as int;
      assert AllDigits(p) && 0 <= d < 10;
      DigitsOfNumber(p);
      var n := Number(s);
      assert n == Number(p) * 10 + d;
      DivMod10(Number(p), d);
      DigitsStep(n, |s|);
      assert ('0' as int + d) as char == c;
      assert s == p + [c];
    }
  }

  /** One unfolding of `Digits`: the last digit is `n % 10`, after the digits of `n / 10`. */
  lemma DigitsStep(n: nat, width: nat)
    requires 0 < width && n < Pow10(width)
    ensures n / 10 < Pow10(width - 1)
    ensures Digits(n, width) == Digits(n / 10, width - 1) + [('0' as int + n % 10) as char]
  {
  }

  // ---------------------------------------------------------------------------
  // Timestamps and calendar dates
  // ---------------------------------------------------------------------------

  /** A parsed `DateTimeOriginal` value. */
  datatype Stamp = Stamp(year: nat, month: nat, day: nat, hour: nat, minute: nat, second: nat)

  /** The proleptic Gregorian leap-year rule used by Python's `datetime`. */
  predicate IsLeapYear(year: int)
  {
    year % 4 == 0 && (year % 100 != 0 || year % 400 == 0)
  }

  /** The length of a month: 28 to 31 days, and 29 exactly for February of a leap year. */
  function DaysInMonth(year: int, month: int): (n: int)
    requires 1 <= month <= 12
    ensures 28 <= n <= 31
    ensures n == 29 <==> month == 2 && IsLeapYear(year)
  {
    if month == 2 then (if IsLeapYear(year) then 29 else 28)
    else if month == 4 || month == 6 || month == 9 || month == 11 then 30
    else 31
  }

  /** A date `datetime` accepts: years 1 to 9999, real months, days that exist in that month. */
  predicate IsCalendarDate(year: int, month: int, day: int)
  {
    1 <= year <= 9999 && 1 <= month <= 12 && 1 <= day <= DaysInMonth(year, month)
  }

  /** The Gregorian rules `datetime` applies: centuries are leap years only when divisible by 400. */
  lemma CalendarExamples()
    ensures IsCalendarDate(2000, 2, 29) && IsCalendarDate(2024, 2, 29)
    ensures !IsCalendarDate(1900, 2, 29) && !IsCalendarDate(2023, 2, 29)
    ensures IsCalendarDate(2023, 1, 31) && !IsCalendarDate(2023, 4, 31)
    ensures !IsCalendarDate(0, 1, 1) && IsCalendarDate(1, 1, 1) && IsCalendarDate(9999, 12, 31) && !IsCalendarDate(10000, 1, 1)
    ensures !IsCalendarDate(2023, 13, 1) && !IsCalendarDate(2023, 0, 1) && !IsCalendarDate(2023, 1, 0)
  {
  }

  predicate ValidStamp(st: Stamp)
  {
    IsCalendarDate(st.year, st.month, st.day) && st.hour <= 23 && st.minute <= 59 && st.second <= 59
  }

  /** Every field fits the width the EXIF pattern gives it. */
  predicate Fits(st: Stamp)
  {
    st.year < 10000 && st.month < 100 && st.day < 100 && st.hour < 100 && st.minute < 100 && st.second < 100
  }

  lemma ValidStampFits(st: Stamp)
    requires ValidStamp(st)
    ensures Fits(st)
  {
    assert Pow10(2) == 100;
  }

  // ---------------------------------------------------------------------------
  // The fixed-width EXIF form `YYYY:MM:DD HH:MM:SS` and the `YYYY-MM-DD` output
  // ---------------------------------------------------------------------------

  /** `a`, `b` and `c` joined by the separator `sep`: the shape of both halves of the EXIF form. */
  function Triple(a: string, sep: char, b: string, c: string): string
  {
    a + [sep] + b + [sep] + c
  }

  lemma TripleParts(a: string, sep: char, b: string, c: string)
    ensures var t := Triple(a, sep, b, c);
      && |t| == |a| + |b| + |c| + 2
      && t[..|a|] == a && t[|a|] == sep
      && t[|a| + 1..|a| + 1 + |b|] == b && t[|a| + 1 + |b|] == sep
      && t[|a| + 2 + |b|..] == c
  {
  }

  /** Three fields of widths `w`, 2 and 2, digits only, separated by `sep`. */
  predicate TripleShaped(t: string, w: nat, sep: char)
  {
    && |t| == w + 6 && t[w] == sep && t[w + 3] == sep
    && AllDigits(t[..w]) && AllDigits(t[w + 1..w + 3]) && AllDigits(t[w + 4..])
  }

  /** The layout of the EXIF form: 19 characters, digit fields, separators in place. */
  predicate Shaped(s: string)
  {
    |s| == 19 && TripleShaped(s[..10], 4, ':') && s[10] == ' ' && TripleShaped(s[11..], 2, ':')
  }

  function Fields(s: string): Stamp
    requires Shaped(s)
  {
    var d, t := s[..10], s[11..];
    Stamp(Number(d[..4]), Number(d[5..7]), Number(d[8..]), Number(t[..2]), Number(t[3..5]), Number(t[6..]))
  }

  /** The EXIF text of a timestamp (the inverse of `ParseStamp`): it has the fixed layout and reads back field by field. */
  function FormatStamp(st: Stamp): (s: string)
    requires Fits(st)
    ensures Shaped(s) && Fields(s) == st
  {
    assert Pow10(2) == 100;
    TripleOfDigits(st.year, 4, st.month, st.day, ':');
    TripleOfDigits(st.hour, 2, st.minute, st.second, ':');
    var d := Triple(Digits(st.year, 4), ':', Digits(st.month, 2), Digits(st.day, 2));
    var t := Triple(Digits(st.hour, 2), ':', Digits(st.minute, 2), Digits(st.second, 2));
    var s := d + " " + t;
    assert s[..10] == d && s[10] == ' ' && s[11..] == t;
    s
  }

  /** A triple-shaped string is the triple of its own fields, each rewritten at its width. */
  lemma TripleRoundTrip(t: string, w: nat, sep: char)
    requires TripleShaped(t, w, sep)
    ensures t == Triple(Digits(Number(t[..w]), w), sep, Digits(Number(t[w + 1..w + 3]), 2), Digits(Number(t[w + 4..]), 2))
  {
    var a, b, c := t[..w], t[w + 1..w + 3], t[w + 4..];
    DigitsOfNumber(a);
    DigitsOfNumber(b);
    DigitsOfNumber(c);
    TripleSplit(t, w, sep);
  }

  /** A string with separators at `w` and `w + 3` is the triple of the three pieces between them. */
  lemma TripleSplit(t: string, w: nat, sep: char)
    requires |t| == w + 6 && t[w] == sep && t[w + 3] == sep
    ensures t == Triple(t[..w], sep, t[w + 1..w + 3], t[w + 4..])
  {
    var a, b, c := t[..w], t[w + 1..w + 3], t[w + 4..];
    TripleParts(a, sep, b, c);
    var u := Triple(a, sep, b, c);
    assert |u| == |t|;
    forall i | 0 <= i < |t| ensures u[i] == t[i] {
      if i < w { assert u[i] == u[..w][i]; }
      else if w < i < w + 3 { assert u[i] == u[w + 1..w + 3][i - w - 1]; }
      else if w + 3 < i { assert u[i] == u[w + 4..][i - w - 4]; }
    }
  }

  /** A shaped string is the EXIF text of its own fields. */
  lemma ShapedRoundTrip(s: string)
    requires Shaped(s)
    ensures Fits(Fields(s)) && FormatStamp(Fields(s)) == s
  {
    var d, t := s[..10], s[11..];
    TripleRoundTrip(d, 4, ':');
    TripleRoundTrip(t, 2, ':');
    FieldsFit(s);
    FormatStampText(Fields(s));
    assert Pow10(2) == 100;
    assert s == d + " " + t;
  }

  lemma FieldsFit(s: string)
    requires Shaped(s)
    ensures Fits(Fields(s))
  {
    assert Pow10(2) == 100 && Pow10(4) == 10000;
  }

  lemma FormatStampText(st: Stamp)
    requires Fits(st)
    ensures FormatStamp(st)
         == Triple(Digits(st.year, 4), ':', Digits(st.month, 2), Digits(st.day, 2)) + " "
          + Triple(Digits(st.hour, 2), ':', Digits(st.minute, 2), Digits(st.second, 2))
  {
  }

  /**
    `datetime.strptime(value, '%Y:%m:%d %H:%M:%S')`, restricted to the fixed-width form:
    a result is a valid timestamp whose EXIF text is exactly the input.
  */
  function ParseStamp(s: string): (r: Option<Stamp>)
    ensures r.Some? ==> ValidStamp(r.value) && FormatStamp(r.value) == s
  {
    if Shaped(s) && ValidStamp(Fields(s)) then
      ShapedRoundTrip(s);
      Some(Fields(s))
    else
      None
  }

  /** The fields written at their widths form a triple-shaped string and read back unchanged. */
  lemma TripleOfDigits(x: nat, w: nat, y: nat, z: nat, sep: char)
    requires x < Pow10(w) && y < 100 && z < 100
    ensures var t := Triple(Digits(x, w), sep, Digits(y, 2), Digits(z, 2));
      TripleShaped(t, w, sep) && Number(t[..w]) == x && Number(t[w + 1..w + 3]) == y && Number(t[w + 4..]) == z
  {
    assert Pow10(2) == 100;
    TripleParts(Digits(x, w), sep, Digits(y, 2), Digits(z, 2));
  }

  /** Every valid timestamp is read back from its EXIF text. */
  lemma ParseFormat(st: Stamp)
    requires ValidStamp(st)
    ensures ParseStamp(FormatStamp(st)) == Some(st)
  {
    ValidStampFits(st);
  }

  /** A `YYYY-MM-DD` string naming a date that exists. */
  predicate IsIsoDate(d: string)
  {
    TripleShaped(d, 4, '-') && IsCalendarDate(Number(d[..4]), Number(d[5..7]), Number(d[8..]))
  }

  /** `strftime('%Y-%m-%d')`: the date part of a timestamp, read back field by field. */
  function FormatDate(st: Stamp): (d: string)
    requires ValidStamp(st)
    ensures IsIsoDate(d)
    ensures Number(d[..4]) == st.year && Number(d[5..7]) == st.month && Number(d[8..]) == st.day
  {
    ValidStampFits(st);
    TripleOfDigits(st.year, 4, st.month, st.day, '-');
    Triple(Digits(st.year, 4), '-', Digits(st.month, 2), Digits(st.day, 2))
  }

  /** `t` with every `:` replaced by `-`. */
  function ColonsToDashes(t: string): string
  {
    seq(|t|, i requires 0 <= i < |t| => if t[i] == ':' then '-' else t[i])
  }

  /**
    A well-formed value yields exactly its first ten characters with `:` turned into `-`.
  */
  lemma DateIsLeadingText(s: string)
    ensures ParseStamp(s).Some? ==> FormatDate(ParseStamp(s).value) == ColonsToDashes(s[..10])
  {
    if ParseStamp(s).None? {
      return;
    }
    var st := ParseStamp(s).value;
    ValidStampFits(st);
    assert Pow10(2) == 100;
    var y, m, d := Digits(st.year, 4), Digits(st.month, 2), Digits(st.day, 2);
    assert s == Triple(y, ':', m, d) + " " + Triple(Digits(st.hour, 2), ':', Digits(st.minute, 2), Digits(st.second, 2));
    assert s[..10] == Triple(y, ':', m, d);
    var lhs, rhs := FormatDate(st), ColonsToDashes(s[..10]);
    assert lhs == Triple(y, '-', m, d);
    forall i | 0 <= i < 10 ensures lhs[i] == rhs[i] {
      if i < 4 { assert IsDigit(y[i]); }
      else if 5 <= i < 7 { assert IsDigit(m[i - 5]); }
      else if 8 <= i { assert IsDigit(d[i - 8]); }
    }
  }

  /** The time of day is discarded: stamps that differ only after the date give the same date. */
  lemma TimeOfDayDiscarded(s1: string, s2: string)
    ensures ParseStamp(s1).Some? && ParseStamp(s2).Some? && s1[..10] == s2[..10] ==>
      FormatDate(ParseStamp(s1).value) == FormatDate(ParseStamp(s2).value)
  {
    DateIsLeadingText(s1);
    DateIsLeadingText(s2);
  }

  /**
    A printable ASCII character that is neither a digit, a colon nor a blank. No part of
    the pattern `%Y:%m:%d %H:%M:%S` can match one, so a value holding one is rejected.
  */
  predicate IsForeign(c: char)
  {
    '!' <= c <= '~' && c != ':' && !IsDigit(c)
  }

  /** Wrong separators and non-numeric fields: a foreign character anywhere gives `None`. */
  lemma ForeignCharacterRejected(s: string, i: int)
    requires 0 <= i < |s| && IsForeign(s[i])
    ensures ParseStamp(s) == None
  {
  }

  /** A field out of range (month 13, 30 February, hour 24, minute or second 60, year 0) gives `None`. */
  lemma OutOfRangeRejected(s: string)
    requires Shaped(s)
    requires !IsCalendarDate(Fields(s).year, Fields(s).month, Fields(s).day)
          || Fields(s).hour > 23 || Fields(s).minute > 59 || Fields(s).second > 59
    ensures ParseStamp(s) == None
  {
  }

  /** A well-formed value cut short before its last field gives `None`. */
  lemma TruncatedRejected(s: string, n: nat)
    requires n <= 17 && n <= |s|
    ensures ParseStamp(s).Some? ==> ParseStamp(s[..n]) == None
  {
  }

  // ---------------------------------------------------------------------------
  // The tag search
  // ---------------------------------------------------------------------------

  /** A raw tag value: bytes that decode as UTF-8 to `text`, or bytes that do not decode. */
  datatype RawValue = Utf8(text: string) | Undecodable

  /** One image file directory: tag number to raw value. */
  type Ifd = map<int, RawValue>

  /** The metadata block: IFD name to directory. */
  type Ifds = map<string, Ifd>

  /** The section the date tags are looked up in. */
  const ExifSection := "Exif"

  /** The tags consulted, in priority order. */
  const DateTags: seq<string> := ["DateTimeOriginal", "DateTime"]

  /** Decode one tag's raw value, parse it and keep its date; any failure is `None`. */
  function DateFromValue(v: RawValue): (r: Option<string>)
    ensures r.Some? ==> IsIsoDate(r.value)
  {
    match v
    case Undecodable => None
    case Utf8(t) =>
      match ParseStamp(t)
      case None => None
      case Some(st) => Some(FormatDate(st))
  }

  /** The digit fields of the worked example below. */
  lemma ExampleDigits()
    ensures Digits(2023, 4) == "2023" && Digits(5, 2) == "05" && Digits(7, 2) == "07"
    ensures Digits(14, 2) == "14" && Digits(22, 2) == "22" && Digits(1, 2) == "01"
  {
    NumberOfExample();
    DigitsOfNumber("2023");
    DigitsOfNumber("05");
    DigitsOfNumber("07");
    DigitsOfNumber("14");
    DigitsOfNumber("22");
    DigitsOfNumber("01");
  }

  /** The digit fields of the worked example, read as numbers. */
  lemma NumberOfExample()
    ensures Number("2023") == 2023
    ensures Number("05") == 5 && Number("07") == 7 && Number("14") == 14 && Number("22") == 22 && Number("01") == 1
  {
    assert "2023"[..3] == "202" && "202"[..2] == "20" && "20"[..1] == "2";
    assert "05"[..1] == "0" && "07"[..1] == "0" && "14"[..1] == "1" && "22"[..1] == "2" && "01"[..1] == "0";
  }

  /** The EXIF text of the worked example's timestamp. */
  lemma ExampleStampText()
    ensures Fits(Stamp(2023, 5, 7, 14, 22, 1))
    ensures FormatStamp(Stamp(2023, 5, 7, 14, 22, 1)) == "2023:05:07 14:22:01"
  {
    var st := Stamp(2023, 5, 7, 14, 22, 1);
    ExampleDigits();
    assert Pow10(2) == 100;
    ExampleTriples();
    assert FormatStamp(st) == Triple("2023", ':', "05", "07") + " " + Triple("14", ':', "22", "01");
  }

  /** The worked example's fields joined by their separators. */
  lemma ExampleTriples()
    ensures Triple("2023", ':', "05", "07") + " " + Triple("14", ':', "22", "01") == "2023:05:07 14:22:01"
    ensures Triple("2023", '-', "05", "07") == "2023-05-07"
  {
    assert Triple("2023", ':', "05", "07") == "2023:05:07";
    assert Triple("14", ':', "22", "01") == "14:22:01";
    assert Triple("2023", '-', "05", "07") == "2023-05-07";
  }

  /** The ISO date of the worked example's timestamp. */
  lemma ExampleDateText()
    ensures ValidStamp(Stamp(2023, 5, 7, 14, 22, 1))
    ensures FormatDate(Stamp(2023, 5, 7, 14, 22, 1)) == "2023-05-07"
  {
    ExampleDigits();
    ExampleTriples();
    assert FormatDate(Stamp(2023, 5, 7, 14, 22, 1)) == Triple("2023", '-', "05", "07");
  }

  /** The worked example: the capture time `2023:05:07 14:22:01` becomes the date `2023-05-07`. */
  lemma WorkedExample()
    ensures ParseStamp("2023:05:07 14:22:01") == Some(Stamp(2023, 5, 7, 14, 22, 1))
    ensures DateFromValue(Utf8("2023:05:07 14:22:01")) == Some("2023-05-07")
  {
    var st := Stamp(2023, 5, 7, 14, 22, 1);
    ExampleStampText();
    ExampleDateText();
    ParseFormat(st);
  }

  /** A value yields a date exactly when it decodes to a well-formed timestamp, and the date is its leading text. */
  lemma DateFromValueMeaning(v: RawValue)
    ensures DateFromValue(v).Some? <==> v.Utf8? && ParseStamp(v.text).Some?
    ensures DateFromValue(v).Some? ==> DateFromValue(v).value == ColonsToDashes(v.text[..10])
  {
    if v.Utf8? && ParseStamp(v.text).Some? {
      DateIsLeadingText(v.text);
    }
  }

  /**
    The loop over the tag names. `keys` maps a tag name to its tag number; a name it lacks
    stands for the lookup raising, and the exception ends the search with `None`. The first
    tag present in the directory decides the result: a value that fails to decode or parse
    ends the search too, without trying later tags.
  */
  function SearchTags(tags: seq<string>, keys: map<string, int>, exif: Ifd): (r: Option<string>)
    ensures r.Some? ==> IsIsoDate(r.value)
  {
    if tags == [] then None
    else if tags[0] !in keys then None
    else if keys[tags[0]] in exif then DateFromValue(exif[keys[tags[0]]])
    else SearchTags(tags[1..], keys, exif)
  }

  /** A date found by the search was read from one of the directory's values. */
  lemma {:induction false} SearchTagsReadsAValue(tags: seq<string>, keys: map<string, int>, exif: Ifd)
    requires SearchTags(tags, keys, exif).Some?
    ensures exists k :: k in exif && DateFromValue(exif[k]) == SearchTags(tags, keys, exif)
  {
    var k := keys[tags[0]];
    if k in exif {
      assert DateFromValue(exif[k]) == SearchTags(tags, keys, exif);
    } else {
      SearchTagsReadsAValue(tags[1..], keys, exif);
    }
  }

  /**
    `get_exif_date`: `loaded` is what the metadata library returns for the file, `None`
    when loading raises. A date is always a real calendar date in `YYYY-MM-DD` form.
  */
  function GetExifDate(loaded: Option<Ifds>, keys: map<string, int>): (r: Option<string>)
    ensures r.Some? ==> IsIsoDate(r.value)
  {
    match loaded
    case None => None
    case Some(ifds) =>
      if ExifSection in ifds then SearchTags(DateTags, keys, ifds[ExifSection]) else None
  }

  /** Never a fabricated date: a result is the leading text of a well-formed value in the `Exif` section. */
  lemma NeverFabricated(loaded: Option<Ifds>, keys: map<string, int>)
    requires GetExifDate(loaded, keys).Some?
    ensures loaded.Some? && ExifSection in loaded.value
    ensures exists k :: k in loaded.value[ExifSection] && loaded.value[ExifSection][k].Utf8?
              && ParseStamp(loaded.value[ExifSection][k].text).Some?
              && GetExifDate(loaded, keys).value == ColonsToDashes(loaded.value[ExifSection][k].text[..10])
  {
    var exif := loaded.value[ExifSection];
    SearchTagsReadsAValue(DateTags, keys, exif);
    var k :| k in exif && DateFromValue(exif[k]) == GetExifDate(loaded, keys);
    DateFromValueMeaning(exif[k]);
  }

  /** `DateTimeOriginal`, when present, decides the result alone; `DateTime` is not consulted. */
  lemma OriginalTakesPriority(ifds: Ifds, keys: map<string, int>)
    requires ExifSection in ifds && "DateTimeOriginal" in keys
    requires keys["DateTimeOriginal"] in ifds[ExifSection]
    ensures GetExifDate(Some(ifds), keys) == DateFromValue(ifds[ExifSection][keys["DateTimeOriginal"]])
  {
  }

  /** `DateTime` is consulted only when `DateTimeOriginal` is absent from the section. */
  lemma FallbackToDateTime(ifds: Ifds, keys: map<string, int>)
    requires ExifSection in ifds && "DateTimeOriginal" in keys && "DateTime" in keys
    requires keys["DateTimeOriginal"] !in ifds[ExifSection]
    ensures GetExifDate(Some(ifds), keys)
         == if keys["DateTime"] in ifds[ExifSection] then DateFromValue(ifds[ExifSection][keys["DateTime"]]) else None
  {
    var exif := ifds[ExifSection];
    assert DateTags[0] == "DateTimeOriginal" && DateTags[1..] == ["DateTime"];
    assert GetExifDate(Some(ifds), keys) == SearchTags(["DateTime"], keys, exif);
    assert ["DateTime"][0] == "DateTime" && ["DateTime"][1..] == [];
    assert SearchTags(["DateTime"], keys, exif)
        == if keys["DateTime"] in exif then DateFromValue(exif[keys["DateTime"]]) else SearchTags([], keys, exif);
  }

  /** A lookup of a tag name that raises ends the search: no later tag is tried. */
  lemma FailedLookupGivesNone(ifds: Ifds, keys: map<string, int>)
    requires ExifSection in ifds
    requires "DateTimeOriginal" !in keys || (keys["DateTimeOriginal"] !in ifds[ExifSection] && "DateTime" !in keys)
    ensures GetExifDate(Some(ifds), keys) == None
  {
    var exif := ifds[ExifSection];
    assert DateTags[0] == "DateTimeOriginal" && DateTags[1..] == ["DateTime"];
    if "DateTimeOriginal" in keys {
      assert GetExifDate(Some(ifds), keys) == SearchTags(["DateTime"], keys, exif);
    }
  }

  /** A metadata block that cannot be loaded, or that has no `Exif` section, gives `None`. */
  lemma MissingMetadataGivesNone(loaded: Option<Ifds>, keys: map<string, int>)
    requires loaded.None? || ExifSection !in loaded.value
    ensures GetExifDate(loaded, keys) == None
  {
  }

  // ---------------------------------------------------------------------------
  // The tag-name table
  // ---------------------------------------------------------------------------

  /**
    The table as the program reaches it: `piexif.ExifIFD` is a class of tag-number
    attributes, not a mapping, so subscripting it with a tag name raises for every name.
  */
  const SubscriptedTagTable: map<string, int> := map[]

  /** With that table no file ever yields a date, whatever its metadata holds. */
  lemma SubscriptedTableNeverFindsADate(loaded: Option<Ifds>)
    ensures GetExifDate(loaded, SubscriptedTagTable) == None
  {
    if loaded.Some? && ExifSection in loaded.value {
      FailedLookupGivesNone(loaded.value, SubscriptedTagTable);
    }
  }

  /** The EXIF tag numbers of the two names: `DateTimeOriginal` is 0x9003 and `DateTime` is 0x0132. */
  const TagNumbers: map<string, int> := map["DateTimeOriginal" := 0x9003, "DateTime" := 0x0132]

  /** With the tag numbers, a present `DateTimeOriginal` decides: its leading date text with dashes when it parses, `None` otherwise. */
  lemma TagNumbersReadTheCaptureDate(ifds: Ifds)
    requires ExifSection in ifds && 0x9003 in ifds[ExifSection]
    ensures var v := ifds[ExifSection][0x9003];
      GetExifDate(Some(ifds), TagNumbers)
        == if v.Utf8? && ParseStamp(v.text).Some? then Some(ColonsToDashes(v.text[..10])) else None
  {
    OriginalTakesPriority(ifds, TagNumbers);
    DateFromValueMeaning(ifds[ExifSection][0x9003]);
  }
}
