/**
 * Custom date formats (util_date.go): placeholder-to-layout rewriting, the
 * current-year prefix for formats without a year, and the conversion between
 * instants and UTC Unix seconds.
 */
module Dates {
  import opened Strings
  import opened Wrappers
  import Convert

  /** Nanoseconds in a second (the unit of Go's `time.Duration` is the nanosecond). */
  const Second: int := 1_000_000_000

  /** A point in time, in nanoseconds since the Unix epoch. */
  type Instant = int

  /**
   * `time.ParseInLocation(layout, value, loc)` as an oracle: the instant the
   * value denotes under the layout, or None when Go reports a parse error.
   */
  type TimeParser = (string, string) -> Option<Instant>

  /** `DateToCustomLong`: UTC Unix seconds, rounding towards the past as `Time.Unix` does. */
  function DateToCustomLong(t: Instant): (r: int)
    ensures r * Second <= t < r * Second + Second
  {
    t / Second
  }

  /** `CustomLongToTime`: the instant at the start of the given Unix second, which converts back to it. */
  function CustomLongToTime(n: int): (t: Instant)
    ensures t % Second == 0
    ensures DateToCustomLong(t) == n
  {
    n * Second
  }

  /** The placeholder table, applied in this order. */
  const Placeholders: seq<(string, string)> := [
    ("hh", "15"), ("h", "03"), ("mm", "04"), ("ss", "05"),
    ("MMMM", "January"), ("MMM", "Jan"), ("MM", "01"), ("M", "1"),
    ("pm", "PM"),
    ("ZZZZ", "-0700"), ("ZZZ", "MST"), ("ZZ", "Z07:00"),
    ("YYYY", "2006"), ("YY", "06"),
    ("DDDD", "Monday"), ("DDD", "Mon"), ("DD", "02"), ("D", "2")
  ]

  /** Position of the `YYYY` entry in the table. */
  const YearIndex: nat := 12

  /** `replace`: a custom format rewritten into a Go reference layout. */
  function Replace(format: string): string
  {
    ReplaceFrom(format, 0)
  }

  /** The table entries from index `k` on, each applied as a replace-all. */
  function ReplaceFrom(s: string, k: nat): string
    requires k <= |Placeholders|
    decreases |Placeholders| - k
  {
    if k == |Placeholders| then s
    else
      assert |Placeholders[k].0| > 0;
      ReplaceFrom(ReplaceAll(s, Placeholders[k].0, Placeholders[k].1), k + 1)
  }

  /** Every letter that occurs in a placeholder. */
  const PatternLetters: string := "hmsMpZYD"

  lemma {:induction false} PatternsUseLetters()
    ensures forall j, i :: 0 <= j < |Placeholders| && 0 <= i < |Placeholders[j].0| ==> Placeholders[j].0[i] in PatternLetters
  {
  }

  /** Text none of whose characters can be part of a placeholder. */
  predicate Plain(s: string)
  {
    forall i :: 0 <= i < |s| ==> s[i] !in PatternLetters
  }

  /** A plain prefix passes through the remaining entries untouched. */
  lemma {:induction false} ReplaceFromKeepsPrefix(p: string, t: string, k: nat)
    requires k <= |Placeholders| && Plain(p)
    ensures ReplaceFrom(p + t, k) == p + ReplaceFrom(t, k)
    decreases |Placeholders| - k
  {
    if k < |Placeholders| {
      PatternsUseLetters();
      var (f, sub) := Placeholders[k];
      ReplaceAllKeepsPrefix(p, t, f, sub);
      ReplaceFromKeepsPrefix(p, ReplaceAll(t, f, sub), k + 1);
    }
  }

  /** Plain text is left as it is. */
  lemma {:induction false} ReplaceFromPlain(s: string, k: nat)
    requires k <= |Placeholders| && Plain(s)
    ensures ReplaceFrom(s, k) == s
  {
    PatternsUseLetters();
    SkipAbsent(s, k, |Placeholders|);
  }

  /** What the entries before the year entry cannot touch. */
  lemma {:induction false} TableFacts()
    ensures forall j :: 0 <= j < |Placeholders| ==> 'Y' !in Placeholders[j].1
    ensures forall j :: 0 <= j < YearIndex ==> 'Y' !in Placeholders[j].0 && ' ' !in Placeholders[j].0
  {
  }

  /** The year entry turns a leading `YYYY ` into `2006 ` and leaves the year-free rest alone. */
  lemma {:induction false} YearEntry(t: string)
    requires 'Y' !in t
    ensures ReplaceFrom("YYYY " + t, YearIndex) == "2006 " + ReplaceFrom(t, YearIndex)
  {
    var (f, sub) := Placeholders[YearIndex];
    assert (f, sub) == ("YYYY", "2006");
    assert "YYYY " + t == f + (" " + t);
    ReplaceAllAtHead(f, " " + t, sub);
    ReplaceAllKeepsPrefix(" ", t, f, sub);
    HeadAbsent(t, f);
    ReplaceAllIdle(t, f, sub);
    assert sub + (" " + t) == "2006 " + t;
    ReplaceFromKeepsPrefix("2006 ", t, YearIndex + 1);
  }

  /** An entry before the year entry copies a prefix of `Y`s and spaces and keeps the rest year-free. */
  lemma {:induction false} BeforeYear(p: string, t: string, k: nat)
    requires k < YearIndex && 'Y' !in t
    requires forall i :: 0 <= i < |p| ==> p[i] in "Y "
    ensures ReplaceAll(p + t, Placeholders[k].0, Placeholders[k].1) == p + ReplaceAll(t, Placeholders[k].0, Placeholders[k].1)
    ensures 'Y' !in ReplaceAll(t, Placeholders[k].0, Placeholders[k].1)
  {
    TableFacts();
    var (f, sub) := Placeholders[k];
    ReplaceAllKeepsPrefix(p, t, f, sub);
    ReplaceAllAddsNoChar(t, f, sub, 'Y');
  }

  /** Before the year entry, the `YYYY ` prefix is untouched; from it on, the prefix becomes `2006 `. */
  lemma {:induction false} YearPrefixBecomesReference(t: string, k: nat)
    requires k <= YearIndex && 'Y' !in t
    ensures ReplaceFrom("YYYY " + t, k) == "2006 " + ReplaceFrom(t, k)
    decreases YearIndex - k
  {
    if k < YearIndex {
      BeforeYear("YYYY ", t, k);
      YearPrefixBecomesReference(ReplaceAll(t, Placeholders[k].0, Placeholders[k].1), k + 1);
    } else {
      YearEntry(t);
    }
  }

  /** For a format without a year, the rewritten `YYYY ` prefix is the layout's leading `2006 `. */
  lemma {:induction false} YearlessLayout(format: string)
    requires 'Y' !in format
    ensures Replace("YYYY " + format) == "2006 " + Replace(format)
  {
    YearPrefixBecomesReference(format, 0);
  }

  /**
   * What `ExYearParseDate` hands to `time.ParseInLocation`: the layout and
   * the value, with the current UTC year and a space in front of both when
   * the format has no year placeholder.
   */
  function ExYearParseInputs(format: string, value: string, utcYear: int): (r: (string, string))
    ensures 'Y' in format ==> r == (Replace(format), value)
    ensures 'Y' !in format ==> r.0 == "2006 " + Replace(format) && r.1 == Convert.Itoa(utcYear) + " " + value
  {
    if 'Y' !in format then
      YearlessLayout(format);
      (Replace("YYYY " + format), Convert.Itoa(utcYear) + " " + value)
    else (Replace(format), value)
  }

  /** `ExYearParseDate`: the instant, or None when Go's parser reports an error. */
  function ExYearParseDate(format: string, value: string, utcYear: int, parse: TimeParser): Option<Instant>
  {
    var (layout, v) := ExYearParseInputs(format, value, utcYear);
    parse(layout, v)
  }

  const DefaultTimeFormat: string := "hh:mm:ss"
  const DefaultDateFormat: string := "YYYY-MM-DD"
  const DefaultDateTimeFormat: string := "YYYY-MM-DD hh:mm:ss"

  /** The pattern of entry `j` cannot occur in `s`: `s` is too short or lacks its first letter. */
  predicate Misses(s: string, j: nat)
    requires j < |Placeholders|
  {
    |s| < |Placeholders[j].0| || Placeholders[j].0[0] !in s
  }

  /** Entries `k` up to `m` that miss `s` leave it as it is. */
  lemma {:induction false} SkipAbsent(s: string, k: nat, m: nat)
    requires k <= m <= |Placeholders|
    requires forall j :: k <= j < m ==> Misses(s, j)
    ensures ReplaceFrom(s, k) == ReplaceFrom(s, m)
    decreases m - k
  {
    if k < m {
      var (f, sub) := Placeholders[k];
      assert Misses(s, k);
      if |s| >= |f| {
        HeadAbsent(s, f);
        ReplaceAllIdle(s, f, sub);
      }
      Step(s, k, f, sub, s);
      SkipAbsent(s, k + 1, m);
    }
  }

  /** A piece that only entry `k` rewrites, into plain text `r`, is replaced by `r`. */
  lemma {:induction false} Token(s: string, k: nat, r: string)
    requires k < |Placeholders|
    requires forall j :: 0 <= j < k ==> Misses(s, j)
    requires ReplaceAll(s, Placeholders[k].0, Placeholders[k].1) == r && Plain(r)
    ensures Replace(s) == r
  {
    SkipAbsent(s, 0, k);
    Step(s, k, Placeholders[k].0, Placeholders[k].1, r);
    ReplaceFromPlain(r, k + 1);
  }

  /** One table entry, `(pat, sub)`, turns `s` into `r`. */
  lemma {:induction false} Step(s: string, k: nat, pat: string, sub: string, r: string)
    requires k < |Placeholders| && Placeholders[k] == (pat, sub)
    requires ReplaceAll(s, pat, sub) == r
    ensures ReplaceFrom(s, k) == ReplaceFrom(r, k + 1)
  {
  }

  /** A character absent from every remaining pattern splits the rewriting: no placeholder can straddle it. */
  lemma {:induction false} ReplaceFromSplits(a: string, c: char, b: string, k: nat)
    requires k <= |Placeholders|
    requires forall j :: k <= j < |Placeholders| ==> c !in Placeholders[j].0
    ensures ReplaceFrom(a + [c] + b, k) == ReplaceFrom(a, k) + [c] + ReplaceFrom(b, k)
    decreases |Placeholders| - k
  {
    if k < |Placeholders| {
      var (f, sub) := Placeholders[k];
      ReplaceAllSplits(a, c, b, f, sub);
      ReplaceFromSplits(ReplaceAll(a, f, sub), c, ReplaceAll(b, f, sub), k + 1);
    }
  }

  /** Spaces, colons and dashes are not part of any placeholder, so they separate independent pieces. */
  lemma {:induction false} ReplaceSplits(a: string, c: char, b: string)
    requires c in " :-"
    ensures Replace(a + [c] + b) == Replace(a) + [c] + Replace(b)
  {
    ReplaceFromSplits(a, c, b, 0);
  }

  /** The six tokens of the default formats, each on its own; the default layouts below rest on them. */
  lemma {:induction false} HourToken()
    ensures Replace("hh") == "15"
  {
    Token("hh", 0, "15");
  }

  lemma {:induction false} MinuteToken()
    ensures Replace("mm") == "04"
  {
    Token("mm", 2, "04");
  }

  lemma {:induction false} SecondToken()
    ensures Replace("ss") == "05"
  {
    Token("ss", 3, "05");
  }

  lemma {:induction false} YearToken()
    ensures Replace("YYYY") == "2006"
  {
    Token("YYYY", YearIndex, "2006");
  }

  lemma {:induction false} MonthToken()
    ensures Replace("MM") == "01"
  {
    Token("MM", 6, "01");
  }

  lemma {:induction false} DayToken()
    ensures Replace("DD") == "02"
  {
    Token("DD", 16, "02");
  }

  /** The default time format is Go's `15:04:05`. */
  lemma {:induction false} DefaultTimeLayout()
    ensures Replace(DefaultTimeFormat) == "15:04:05"
  {
    assert DefaultTimeFormat == "hh" + [':'] + ("mm" + [':'] + "ss");
    ReplaceSplits("hh", ':', "mm" + [':'] + "ss");
    ReplaceSplits("mm", ':', "ss");
    HourToken();
    MinuteToken();
    SecondToken();
    JoinTime(Replace("hh"), Replace("mm"), Replace("ss"));
  }

  lemma {:induction false} JoinTime(h: string, m: string, s: string)
    requires h == "15" && m == "04" && s == "05"
    ensures h + [':'] + (m + [':'] + s) == "15:04:05"
  {
  }

  /** The default date format is Go's `2006-01-02`. */
  lemma {:induction false} DefaultDateLayout()
    ensures Replace(DefaultDateFormat) == "2006-01-02"
  {
    assert DefaultDateFormat == "YYYY" + ['-'] + ("MM" + ['-'] + "DD");
    ReplaceSplits("YYYY", '-', "MM" + ['-'] + "DD");
    ReplaceSplits("MM", '-', "DD");
    YearToken();
    MonthToken();
    DayToken();
    JoinDate(Replace("YYYY"), Replace("MM"), Replace("DD"));
  }

  lemma {:induction false} JoinDate(y: string, m: string, d: string)
    requires y == "2006" && m == "01" && d == "02"
    ensures y + ['-'] + (m + ['-'] + d) == "2006-01-02"
  {
  }

  lemma {:induction false} JoinLayouts(date: string, time: string)
    requires date == "2006-01-02" && time == "15:04:05"
    ensures date + [' '] + time == "2006-01-02 15:04:05"
  {
  }

  /** The default date-time format is Go's `2006-01-02 15:04:05`. */
  lemma {:induction false} DefaultDateTimeLayout()
    ensures Replace(DefaultDateTimeFormat) == "2006-01-02 15:04:05"
  {
    assert DefaultDateTimeFormat == DefaultDateFormat + [' '] + DefaultTimeFormat;
    ReplaceSplits(DefaultDateFormat, ' ', DefaultTimeFormat);
    DefaultDateLayout();
    DefaultTimeLayout();
    JoinLayouts(Replace(DefaultDateFormat), Replace(DefaultTimeFormat));
  }

  /** A literal letter that coincides with a placeholder is rewritten too: a lone `D` becomes `2`. */
  lemma {:induction false} LoneDayLetter()
    ensures Replace("D") == "2"
  {
    Token("D", 17, "2");
  }
}
