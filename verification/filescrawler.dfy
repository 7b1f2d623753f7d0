/**
 * The per-file decisions of the log-file crawler (crawler_files.go): which
 * files each rule claims, whether a file is read at all, where reading
 * resumes, how the text read is cut into lines, which lines are left for
 * the next pass, how lines are counted, and the events a line yields.
 *
 * The file system is an input: a `FileView` holds the file id, what
 * `os.Stat` reports, whether the file opens, the outcomes of the reads
 * `Utf8Reader` performs and the segments `ReadBytes('\n')` returns. Each
 * segment carries the position `Seek(0, SeekCurrent)` reports after it;
 * that is the position of the underlying reader beneath a 10 KiB buffer,
 * not the end of the line, so nothing here relates it to the bytes read.
 */
module FilesCrawler {
  import opened Wrappers
  import opened Strings
  import opened Events
  import Utils
  import Seqs
  import Dates
  import Convert
  import Config
  import PositionStore
  import Containers
  import FileNames
  import Utf8Probe

  /** No file is skipped as stale unless it is older than this, whatever its rules say. */
  const MinDeadTime: int := Dates.Second
  /** An unterminated last line of a file modified more recently than this is left for the next pass. */
  const SettleTime: int := 60 * Dates.Second

  // ---------------------------------------------------------------------------
  // Which rules claim which files

  function Sep(windows: bool): char
  {
    if windows then '\\' else '/'
  }

  /** The files one rule's path patterns match, normalised, in pattern order. `glob` is `filepath.Glob`. */
  function RuleFiles(paths: seq<string>, glob: string -> seq<string>, windows: bool): seq<string>
  {
    if |paths| == 0 then []
    else
      var files := glob(paths[|paths| - 1]);
      RuleFiles(paths[..|paths| - 1], glob, windows) + NormalizeAll(files, Sep(windows))
  }

  function NormalizeAll(files: seq<string>, sep: char): (r: seq<string>)
    requires sep == '/' || sep == '\\'
    ensures |r| == |files| && forall i | 0 <= i < |files| :: r[i] == FileNames.Normalize(files[i], sep)
  {
    if |files| == 0 then [] else [FileNames.Normalize(files[0], sep)] + NormalizeAll(files[1..], sep)
  }

  function PairWith<T>(rule: T, files: seq<string>): (r: seq<(T, string)>)
    ensures |r| == |files| && forall i | 0 <= i < |files| :: r[i] == (rule, files[i])
  {
    if |files| == 0 then [] else [(rule, files[0])] + PairWith(rule, files[1..])
  }

  /** Every (rule, file) pair the nested loops of `_GetFilesListMap` visit, in visiting order. */
  function Claims(rules: seq<Config.CompiledRule>, glob: string -> seq<string>, windows: bool): seq<(Config.CompiledRule, string)>
  {
    if |rules| == 0 then []
    else
      var rule := rules[|rules| - 1];
      var files := RuleFiles(rule.config.paths, glob, windows);
      Claims(rules[..|rules| - 1], glob, windows) + PairWith(rule, files)
  }

  /** The rule's file filter rejects the file. */
  predicate ExcludesFile(rule: Config.CompiledRule, file: string)
  {
    Utils.MatchString(rule.excludeFiles, file)
  }

  /** Reference: the rules of the claims on `file` that the claiming rule does not exclude, in order. */
  function RulesFor(claims: seq<(Config.CompiledRule, string)>, file: string): (r: seq<Config.CompiledRule>)
    ensures forall i | 0 <= i < |r| :: !ExcludesFile(r[i], file)
    ensures |r| <= |claims|
  {
    if |claims| == 0 then []
    else
      var (rule, f) := claims[|claims| - 1];
      var init := RulesFor(claims[..|claims| - 1], file);
      if f == file && !ExcludesFile(rule, file) then init + [rule] else init
  }

  function Get(m: map<string, seq<Config.CompiledRule>>, file: string): seq<Config.CompiledRule>
  {
    if file in m then m[file] else []
  }

  /**
   * The loop body of `_GetFilesListMap` over all claims: the rule is
   * appended to the file's list unless its filter excludes the file. The
   * source's check for a rule already in the list only ends an inner loop
   * early and so has no effect.
   */
  function AssignClaims(claims: seq<(Config.CompiledRule, string)>): (m: map<string, seq<Config.CompiledRule>>)
    ensures forall f :: f in m <==> |RulesFor(claims, f)| > 0
    ensures forall f | f in m :: m[f] == RulesFor(claims, f)
  {
    if |claims| == 0 then map[]
    else
      var (rule, file) := claims[|claims| - 1];
      var m := AssignClaims(claims[..|claims| - 1]);
      if ExcludesFile(rule, file) then m else m[file := Get(m, file) + [rule]]
  }

  /** `_GetFilesListMap`: every file some rule claims, with the claiming rules in rule order. */
  function FilesListMap(rules: seq<Config.CompiledRule>, glob: string -> seq<string>, windows: bool): (m: map<string, seq<Config.CompiledRule>>)
    ensures forall f | f in m :: |m[f]| > 0
    ensures forall f | f in m :: forall i | 0 <= i < |m[f]| :: !ExcludesFile(m[f][i], f)
    ensures forall f :: f in m <==> |RulesFor(Claims(rules, glob, windows), f)| > 0
  {
    AssignClaims(Claims(rules, glob, windows))
  }

  /** A rule whose two patterns match the same file is listed twice for it. */
  lemma {:induction false} RuleListedTwice(rule: Config.CompiledRule, glob: string -> seq<string>, file: string)
    requires rule.config.paths == ["a", "b"] && glob("a") == [file] && glob("b") == [file]
    requires FileNames.Normalize(file, '/') == file && !ExcludesFile(rule, file)
    ensures Get(FilesListMap([rule], glob, false), file) == [rule, rule]
  {
    var paths := rule.config.paths;
    assert paths[..1] == ["a"] && paths[..1][..0] == [];
    var one := NormalizeAll([file], '/');
    assert one == [file];
    assert RuleFiles(["a"], glob, false) == RuleFiles([], glob, false) + one;
    assert RuleFiles(paths, glob, false) == RuleFiles(["a"], glob, false) + one;
    var claims := Claims([rule], glob, false);
    var pairs := PairWith(rule, [file, file]);
    assert pairs == [(rule, file), (rule, file)];
    assert [rule][..0] == [];
    assert claims == Claims([], glob, false) + pairs;
    assert claims[..1] == [(rule, file)] && claims[..1][..0] == [];
    assert RulesFor(claims, file) == [rule, rule];
  }

  // ---------------------------------------------------------------------------
  // Whether a file is read

  /** The largest dead time among the claiming rules, and never less than one second. */
  function MaxDeadTime(rules: seq<Config.CompiledRule>): (d: int)
    ensures d >= MinDeadTime
    ensures forall i | 0 <= i < |rules| :: rules[i].deadtime <= d
    ensures d == MinDeadTime || exists i | 0 <= i < |rules| :: d == rules[i].deadtime
  {
    if |rules| == 0 then MinDeadTime
    else
      var init := rules[..|rules| - 1];
      var d := MaxDeadTime(init);
      assert forall i | 0 <= i < |init| :: init[i] == rules[i];
      if rules[|rules| - 1].deadtime > d then rules[|rules| - 1].deadtime else d
  }

  predicate TooOld(now: Dates.Instant, modTime: Dates.Instant, rules: seq<Config.CompiledRule>)
  {
    now - modTime > MaxDeadTime(rules)
  }

  /** A file is stale exactly when it is older than one second and than every claiming rule's dead time. */
  lemma {:induction false} TooOldIff(now: Dates.Instant, modTime: Dates.Instant, rules: seq<Config.CompiledRule>)
    ensures TooOld(now, modTime, rules) <==>
      now - modTime > MinDeadTime && forall i | 0 <= i < |rules| :: now - modTime > rules[i].deadtime
  {
  }

  /**
   * Where reading resumes, as (position, line): the stored position and
   * line when a position is stored, else the start at line 1; the start
   * again when the file is shorter than the position; `None` when the file
   * ends exactly there.
   */
  function ResumePoint(st: SourceState, size: int): (r: Option<(int, int)>)
    ensures r.None? <==> (if st.offset > 0 then st.offset else 0) == size
    ensures r.Some? && 0 < st.offset < size ==> r.value == (st.offset, st.line)
    ensures r.Some? && !(0 < st.offset < size) ==> r.value == (0, 1)
  {
    var (position, line) := if st.offset > 0 then (st.offset, st.line) else (0, 1);
    if position > size then Some((0, 1))
    else if position == size then None
    else Some((position, line))
  }

  /**
   * A record read back from the state file carries line 0, since the line
   * is not stored, so a crawler restarted on a file it had read part of
   * resumes with line counting switched off.
   */
  lemma {:induction false} RestartStopsLineCounting(st: SourceState, size: int)
    requires 0 < st.offset < size && st.line == 0
    ensures ResumePoint(st, size) == Some((st.offset, 0))
  {
  }

  /** The encoding the first rule names, or none when `htmlindex` does not know it. */
  function EncodingFor(rules: seq<Config.CompiledRule>, known: string -> bool): (r: string)
    requires |rules| > 0
    ensures r == "" || (r == rules[0].config.encoding && known(r))
    ensures known(rules[0].config.encoding) ==> r == rules[0].config.encoding
  {
    var e := rules[0].config.encoding;
    if |e| > 0 && !known(e) then "" else e
  }

  // ---------------------------------------------------------------------------
  // Lines

  datatype ReadError = NoError | Eof | BufferFull | OtherError

  /** One `ReadBytes('\n')`: the text read, its error, and the position reported after it. */
  datatype Segment = Segment(data: string, err: ReadError, position: int)

  /** The line a segment holds: a final `\n`, and one `\r` before it, are removed. */
  function LineText(s: string): string
  {
    if |s| > 0 && s[|s| - 1] == '\n' then
      var drop := if |s| > 1 && s[|s| - 2] == '\r' then 2 else 1;
      s[..|s| - drop]
    else s
  }

  /** The line is a prefix of the segment: a final `\n` or `\r\n` is removed, and a segment without `\n` is kept whole. */
  lemma {:induction false} LineTextSpec(s: string)
    ensures var r := LineText(s);
      |r| <= |s| && r == s[..|r|]
      && (EndsWith(s, "\n") ==> s == r + "\n" || s == r + "\r\n")
      && (!EndsWith(s, "\n") ==> r == s)
  {
  }

  /** A line terminated by `\r\n` reads back as itself, whatever it ends with. */
  lemma {:induction false} LineTextCrLf(t: string)
    ensures LineText(t + "\r\n") == t
  {
    assert (t + "\r\n")[..|t|] == t;
  }

  /** A line terminated by `\n` alone reads back as itself when it does not end with `\r`. */
  lemma {:induction false} LineTextLf(t: string)
    requires !EndsWith(t, "\r")
    ensures LineText(t + "\n") == t
  {
    assert (t + "\n")[..|t|] == t;
    if |t| > 0 {
      assert (t + "\n")[|t| - 1] == t[|t| - 1];
      assert t[|t| - 1..] == [t[|t| - 1]];
    }
  }

  /** Only one `\r` is removed. */
  lemma {:induction false} OneCarriageReturnRemoved(t: string)
    ensures LineText(t + "\r\r\n") == t + "\r"
  {
    assert t + "\r\r\n" == (t + "\r") + "\r\n";
    LineTextCrLf(t + "\r");
  }

  /** An unterminated segment read at the end of a recently modified file is left for the next pass. */
  predicate Deferred(seg: Segment, recent: bool)
  {
    |seg.data| > 0 && seg.data[|seg.data| - 1] != '\n' && seg.err == Eof && recent
  }

  /** Which reads advance the line counter (when it is on). */
  datatype Counting =
    | EverySegment       // as written: the empty read at the end of the file counts too
    | NonEmptySegments   // as intended: only reads that return text

  function NextLine(line: int, data: string, counting: Counting): int
  {
    if line > 0 && (counting.EverySegment? || |data| > 0) then line + 1 else line
  }

  /** The reads that counted, among those processed. */
  function Counted(segs: seq<Segment>, counting: Counting): (n: nat)
    ensures n <= |segs|
    ensures counting.EverySegment? ==> n == |segs|
  {
    if |segs| == 0 then 0
    else Counted(segs[..|segs| - 1], counting) + (if counting.EverySegment? || |segs[|segs| - 1].data| > 0 then 1 else 0)
  }

  /**
   * The state of the reading loop: the line counter, the position recorded
   * for the last processed segment (`None` before the first), how many
   * segments were processed and the events so far.
   */
  datatype ScanState = ScanState(line: int, position: Option<int>, processed: nat, events: seq<SecurityEvent>)

  /** The events a processed segment yields: none for an empty line. */
  function SegmentEvents(text: string, line: int, parse: (string, int) -> seq<SecurityEvent>): seq<SecurityEvent>
  {
    if |text| > 0 then parse(text, line) else []
  }

  /**
   * The reading loop: each segment is processed (counted, its position
   * recorded, its line parsed) unless it is a deferred last line; the loop
   * goes on after a complete read or a full buffer and stops at the end of
   * the file or on any other error.
   */
  function Scan(segs: seq<Segment>, st: ScanState, recent: bool, parse: (string, int) -> seq<SecurityEvent>, counting: Counting): (r: ScanState)
    ensures st.processed <= r.processed <= st.processed + |segs|
    ensures r.processed == st.processed ==> r == st
    decreases |segs|
  {
    if |segs| == 0 || Deferred(segs[0], recent) then st
    else
      var seg := segs[0];
      var line := NextLine(st.line, seg.data, counting);
      var next := ScanState(line, Some(seg.position), st.processed + 1,
        st.events + SegmentEvents(LineText(seg.data), line, parse));
      if seg.err == NoError || seg.err == BufferFull then Scan(segs[1..], next, recent, parse, counting)
      else next
  }

  /** The state after processing the first segment. */
  function Advance(seg: Segment, st: ScanState, parse: (string, int) -> seq<SecurityEvent>, counting: Counting): ScanState
  {
    var line := NextLine(st.line, seg.data, counting);
    ScanState(line, Some(seg.position), st.processed + 1, st.events + SegmentEvents(LineText(seg.data), line, parse))
  }

  /** Scanning is processing the first segment, then, after a complete read, scanning the rest. */
  lemma {:induction false} ScanUnfold(segs: seq<Segment>, st: ScanState, recent: bool, parse: (string, int) -> seq<SecurityEvent>, counting: Counting)
    requires |segs| > 0 && !Deferred(segs[0], recent)
    ensures Scan(segs, st, recent, parse, counting) ==
      if segs[0].err == NoError || segs[0].err == BufferFull
      then Scan(segs[1..], Advance(segs[0], st, parse, counting), recent, parse, counting)
      else Advance(segs[0], st, parse, counting)
  {
  }

  /** After any processing, the stored position is the one reported after the last processed segment. */
  lemma {:induction false} ScanPosition(segs: seq<Segment>, st: ScanState, recent: bool, parse: (string, int) -> seq<SecurityEvent>, counting: Counting)
    ensures var r := Scan(segs, st, recent, parse, counting);
      r.processed > st.processed ==> r.position == Some(segs[r.processed - st.processed - 1].position)
    decreases |segs|
  {
    if |segs| > 0 && !Deferred(segs[0], recent) {
      ScanUnfold(segs, st, recent, parse, counting);
      var next := Advance(segs[0], st, parse, counting);
      if segs[0].err == NoError || segs[0].err == BufferFull {
        ScanPosition(segs[1..], next, recent, parse, counting);
      }
    }
  }

  /** The line counter, when on, advances once for every processed read that counts. */
  lemma {:induction false} ScanCounts(segs: seq<Segment>, st: ScanState, recent: bool, parse: (string, int) -> seq<SecurityEvent>, counting: Counting)
    requires st.line > 0
    ensures Scan(segs, st, recent, parse, counting).line
      == st.line + Counted(segs[..Scan(segs, st, recent, parse, counting).processed - st.processed], counting)
    decreases |segs|
  {
    var r := Scan(segs, st, recent, parse, counting);
    if |segs| > 0 && !Deferred(segs[0], recent) {
      ScanUnfold(segs, st, recent, parse, counting);
      var next := Advance(segs[0], st, parse, counting);
      var first := if counting.EverySegment? || |segs[0].data| > 0 then 1 else 0;
      assert next.line == st.line + first && next.processed == st.processed + 1;
      if segs[0].err == NoError || segs[0].err == BufferFull {
        ScanCounts(segs[1..], next, recent, parse, counting);
        CountStep(segs, r.processed - st.processed, st.line, next.line, r.line, counting);
      } else {
        assert r == next;
        assert segs[..1] == [segs[0]] && segs[..1][..0] == [];
        assert Counted(segs[..1], counting) == first;
      }
    } else {
      assert r == st;
      assert segs[..0] == [];
    }
  }

  lemma {:induction false} CountStep(segs: seq<Segment>, n: nat, before: int, after: int, last: int, counting: Counting)
    requires 1 <= n <= |segs|
    requires after == before + (if counting.EverySegment? || |segs[0].data| > 0 then 1 else 0)
    requires last == after + Counted(segs[1..][..n - 1], counting)
    ensures last == before + Counted(segs[..n], counting)
  {
    CountedCons(segs, n, counting);
  }

  /** The line counter, when off, stays off. */
  lemma {:induction false} ScanCountingOff(segs: seq<Segment>, st: ScanState, recent: bool, parse: (string, int) -> seq<SecurityEvent>, counting: Counting)
    requires st.line <= 0
    ensures Scan(segs, st, recent, parse, counting).line == st.line
    decreases |segs|
  {
    if |segs| > 0 && !Deferred(segs[0], recent) {
      ScanUnfold(segs, st, recent, parse, counting);
      if segs[0].err == NoError || segs[0].err == BufferFull {
        ScanCountingOff(segs[1..], Advance(segs[0], st, parse, counting), recent, parse, counting);
      }
    }
  }

  /** Counting a prefix of reads is counting its first read, then the rest. */
  lemma {:induction false} CountedCons(segs: seq<Segment>, k: nat, counting: Counting)
    requires 1 <= k <= |segs|
    ensures Counted(segs[..k], counting)
      == (if counting.EverySegment? || |segs[0].data| > 0 then 1 else 0) + Counted(segs[1..][..k - 1], counting)
    decreases k
  {
    if k > 1 {
      CountedCons(segs, k - 1, counting);
      assert segs[..k][..k - 1] == segs[..k - 1];
      assert segs[1..][..k - 1][..k - 2] == segs[1..][..k - 2];
    } else {
      assert segs[..1][..0] == [];
    }
  }

  /** Complete lines, each ending with a line feed. */
  predicate CompleteLines(ls: seq<Segment>)
  {
    forall i | 0 <= i < |ls| :: ls[i].err == NoError && EndsWith(ls[i].data, "\n")
  }

  lemma {:induction false} ScanCompleteLines(ls: seq<Segment>, last: Segment, st: ScanState, recent: bool,
                                            parse: (string, int) -> seq<SecurityEvent>, counting: Counting)
    requires CompleteLines(ls) && last.data == "" && last.err == Eof
    ensures Scan(ls + [last], st, recent, parse, counting).processed == st.processed + |ls| + 1
    decreases |ls|
  {
    var segs := ls + [last];
    if |ls| > 0 {
      assert segs[0] == ls[0] && segs[1..] == ls[1..] + [last];
      assert EndsWith(ls[0].data, "\n");
      ScanUnfold(segs, st, recent, parse, counting);
      assert CompleteLines(ls[1..]) by {
        forall i | 0 <= i < |ls[1..]|
          ensures ls[1..][i].err == NoError && EndsWith(ls[1..][i].data, "\n")
        {
          assert ls[1..][i] == ls[i + 1];
        }
      }
      ScanCompleteLines(ls[1..], last, Advance(ls[0], st, parse, counting), recent, parse, counting);
    } else {
      assert segs == [last];
      ScanUnfold(segs, st, recent, parse, counting);
    }
  }

  /**
   * As written, reading `n` complete lines and then the empty read at the
   * end of the file advances the counter by `n + 1`, so the next pass
   * numbers its lines one too high; only the non-empty reads should count.
   */
  lemma {:induction false} LineCountAfterPass(ls: seq<Segment>, last: Segment, line: int, recent: bool, parse: (string, int) -> seq<SecurityEvent>)
    requires CompleteLines(ls) && last.data == "" && last.err == Eof && line > 0
    ensures Scan(ls + [last], ScanState(line, None, 0, []), recent, parse, EverySegment).line == line + |ls| + 1
    ensures Scan(ls + [last], ScanState(line, None, 0, []), recent, parse, NonEmptySegments).line == line + |ls|
  {
    var st := ScanState(line, None, 0, []);
    var segs := ls + [last];
    assert segs[..|ls| + 1] == segs;
    ScanCompleteLines(ls, last, st, recent, parse, EverySegment);
    ScanCounts(segs, st, recent, parse, EverySegment);
    ScanCompleteLines(ls, last, st, recent, parse, NonEmptySegments);
    ScanCounts(segs, st, recent, parse, NonEmptySegments);
    CountedNonEmpty(ls, last);
  }

  lemma {:induction false} CountedNonEmpty(ls: seq<Segment>, last: Segment)
    requires CompleteLines(ls) && last.data == ""
    ensures Counted(ls + [last], NonEmptySegments) == |ls|
    decreases |ls|
  {
    assert (ls + [last])[..|ls|] == ls;
    CountedLines(ls);
  }

  lemma {:induction false} CountedLines(ls: seq<Segment>)
    requires CompleteLines(ls)
    ensures Counted(ls, NonEmptySegments) == |ls|
    decreases |ls|
  {
    if |ls| > 0 {
      var init := ls[..|ls| - 1];
      assert CompleteLines(init) by {
        forall i | 0 <= i < |init|
          ensures init[i].err == NoError && EndsWith(init[i].data, "\n")
        {
          assert init[i] == ls[i];
        }
      }
      CountedLines(init);
      assert EndsWith(ls[|ls| - 1].data, "\n");
    }
  }

  /** A line ending with one `line`: one complete line, then the empty read at the end. */
  lemma {:induction false} EmptyEofReadCounted(t: string, p: int, recent: bool, parse: (string, int) -> seq<SecurityEvent>)
    ensures Scan([Segment(t + "\n", NoError, p), Segment("", Eof, p)], ScanState(1, None, 0, []), recent, parse, EverySegment).line == 3
    ensures Scan([Segment(t + "\n", NoError, p), Segment("", Eof, p)], ScanState(1, None, 0, []), recent, parse, NonEmptySegments).line == 2
  {
    var ls := [Segment(t + "\n", NoError, p)];
    assert EndsWith(t + "\n", "\n") by {
      assert (t + "\n")[|t + "\n"| - 1..] == "\n";
    }
    assert CompleteLines(ls);
    LineCountAfterPass(ls, Segment("", Eof, p), 1, recent, parse);
    assert ls + [Segment("", Eof, p)] == [Segment(t + "\n", NoError, p), Segment("", Eof, p)];
  }

  /** A recently modified file whose only new text is an unterminated line yields nothing this pass. */
  lemma {:induction false} PartialLineDeferred(seg: Segment, rest: seq<Segment>, st: ScanState, parse: (string, int) -> seq<SecurityEvent>, counting: Counting)
    requires |seg.data| > 0 && seg.data[|seg.data| - 1] != '\n' && seg.err == Eof
    ensures Scan([seg] + rest, st, true, parse, counting) == st
    ensures Scan([seg] + rest, st, false, parse, counting).processed == st.processed + 1
  {
    assert ([seg] + rest)[0] == seg;
  }

  // ---------------------------------------------------------------------------
  // Events of one line

  /** What parsing needs besides the line: the time parser, the year, and map iteration orders. */
  datatype ParseContext = ParseContext(
    parse: Dates.TimeParser,
    utcYear: int,
    fieldOrder: Utils.KeyOrder,
    excludeOrder: map<string, Option<Utils.Regex>> -> seq<string>)

  /** The orders are honest Go map iterations: every key once, no other. */
  ghost predicate HonestOrders(ctx: ParseContext)
  {
    forall m: map<string, Option<Utils.Regex>> :: Utils.IsKeyOrder(ctx.excludeOrder(m), m)
  }

  /** The field map: the filter's fixed fields, then every named capture. */
  function Fields(text: string, ev: Config.CompiledEvent): map<string, string>
  {
    Utils.FindAllSubmatches(text, ev.regex, ev.config.fields)
  }

  /**
   * The event time: with no format the captured text is its own layout,
   * otherwise the custom format with the current year when it has none.
   */
  function EventTime(format: string, value: string, ctx: ParseContext): Option<Dates.Instant>
  {
    if |format| < 1 then ctx.parse(value, value)
    else Dates.ExYearParseDate(format, value, ctx.utcYear, ctx.parse)
  }

  /** The fields other than `ip` and `eventTime`, or `None` when there are none. */
  function AuxFields(m: map<string, string>): (r: Option<map<string, string>>)
    ensures r.Some? ==> |r.value| > 0 && "ip" !in r.value && "eventTime" !in r.value
    ensures r.Some? ==> forall k | k in r.value :: k in m && r.value[k] == m[k]
    ensures forall k | k in m && k != "ip" && k != "eventTime" :: r.Some? && k in r.value
  {
    var a := map k | k in m && k != "ip" && k != "eventTime" :: m[k];
    if |a| < 1 then
      assert forall k | k in m && k != "ip" && k != "eventTime" :: k in a;
      None
    else Some(a)
  }

  /** The event source: the path, and the zero-based line number when lines are counted. */
  function Locator(path: string, line: int): (r: string)
    ensures line <= 0 ==> r == path
    ensures line > 0 ==> StartsWith(r, path + ":")
  {
    if line > 0 then path + ":" + Convert.Itoa(line - 1) else path
  }

  /** The line number reads back from the locator. */
  lemma {:induction false} LocatorLine(path: string, line: int)
    requires line > 0 && Convert.IsInt64(line - 1)
    ensures Convert.ForceAtoi(Locator(path, line)[|path| + 1..]) == line - 1
  {
    assert Locator(path, line)[|path| + 1..] == Convert.Itoa(line - 1);
    Convert.ForceAtoiItoa(line - 1);
  }

  /** The message: the template filled from the fields, then `#ip` replaced by the address. */
  function Message(ev: Config.CompiledEvent, fields: map<string, string>, ctx: ParseContext): string
  {
    ReplaceAll(Utils.ApplyTemplate(ev.config.message, Some(fields), ctx.fieldOrder(fields)), "#ip", Utils.Lookup(fields, "ip"))
  }

  /** The body of `ParseLine`'s loop for one event filter. */
  function ParseEvent(path: string, text: string, line: int, format: string, ev: Config.CompiledEvent, ctx: ParseContext): Option<SecurityEvent>
  {
    if !Utils.MatchString(ev.regex, text) then None
    else
      var fields := Fields(text, ev);
      match EventTime(format, Utils.Lookup(fields, "eventTime"), ctx)
      case None => None
      case Some(t) =>
        var filter := Config.ExcludeFilter(ev);
        if Utils.ApplyExcludeFilter(filter, fields, ctx.excludeOrder(filter)) then None
        else
          Some(SecurityEvent(ev.config.sid, ev.config.gid, Dates.DateToCustomLong(t), Message(ev, fields, ctx),
            Utils.Lookup(fields, "ip"), AuxFields(fields), ev.config.critical, Some(Locator(path, line))))
  }

  /**
   * A line yields no event for a filter exactly when the expression does not
   * match, the time does not parse or an exclusion fires; otherwise the
   * event carries the filter's ids and flag, the `ip` field, the parsed time,
   * the locator and auxiliary fields without `ip` and `eventTime`.
   */
  lemma {:induction false} ParseEventSpec(path: string, text: string, line: int, format: string, ev: Config.CompiledEvent, ctx: ParseContext)
    ensures var r := ParseEvent(path, text, line, format, ev, ctx);
      r.None? <==>
      !Utils.MatchString(ev.regex, text)
      || EventTime(format, Utils.Lookup(Fields(text, ev), "eventTime"), ctx).None?
      || Utils.ApplyExcludeFilter(Config.ExcludeFilter(ev), Fields(text, ev), ctx.excludeOrder(Config.ExcludeFilter(ev)))
    ensures var r := ParseEvent(path, text, line, format, ev, ctx);
      r.Some? ==>
      r.value.securityId == ev.config.sid && r.value.securityGroupId == ev.config.gid && r.value.critical == ev.config.critical
    ensures var r := ParseEvent(path, text, line, format, ev, ctx);
      r.Some? ==>
      r.value.ipAddress == Utils.Lookup(Fields(text, ev), "ip")
      && r.value.eventTimeUtcNumber == Dates.DateToCustomLong(EventTime(format, Utils.Lookup(Fields(text, ev), "eventTime"), ctx).value)
    ensures var r := ParseEvent(path, text, line, format, ev, ctx);
      r.Some? ==> r.value.source == Some(Locator(path, line))
    ensures var r := ParseEvent(path, text, line, format, ev, ctx);
      r.Some? && r.value.additionalFields.Some? ==>
      "ip" !in r.value.additionalFields.value && "eventTime" !in r.value.additionalFields.value
  {
  }

  /** With honest map orders, an event is dropped by exclusion exactly when some exclusion expression matches its field. */
  lemma {:induction false} ExclusionIndependentOfOrder(path: string, text: string, line: int, format: string, ev: Config.CompiledEvent, ctx: ParseContext)
    requires HonestOrders(ctx)
    requires Utils.MatchString(ev.regex, text)
    requires EventTime(format, Utils.Lookup(Fields(text, ev), "eventTime"), ctx).Some?
    ensures ParseEvent(path, text, line, format, ev, ctx).None? <==> Utils.Excluded(Config.ExcludeFilter(ev), Fields(text, ev))
  {
    var filter := Config.ExcludeFilter(ev);
    assert Utils.IsKeyOrder(ctx.excludeOrder(filter), filter);
    Utils.ApplyExcludeFilterSpec(filter, Fields(text, ev), ctx.excludeOrder(filter));
    ParseEventSpec(path, text, line, format, ev, ctx);
  }

  /** The loop body of `ParseLine` as a function of the event filter. */
  function EventYield(path: string, text: string, line: int, format: string, ctx: ParseContext): Config.CompiledEvent -> Option<SecurityEvent>
  {
    ev => ParseEvent(path, text, line, format, ev, ctx)
  }

  /** `ParseLine` over a run of event filters: at most one event each, in filter order. */
  function ParseEvents(path: string, text: string, line: int, format: string, evs: seq<Config.CompiledEvent>, ctx: ParseContext): (r: seq<SecurityEvent>)
    ensures |r| <= |evs|
  {
    Seqs.FilterMap(evs, EventYield(path, text, line, format, ctx))
  }

  /** A line yields exactly the events its filters yield for it. */
  lemma {:induction false} ParseEventsMembers(path: string, text: string, line: int, format: string, evs: seq<Config.CompiledEvent>, ctx: ParseContext)
    ensures forall x :: x in ParseEvents(path, text, line, format, evs, ctx) <==>
      exists i | 0 <= i < |evs| :: ParseEvent(path, text, line, format, evs[i], ctx) == Some(x)
  {
    var f := EventYield(path, text, line, format, ctx);
    Seqs.FilterMapMembers(evs, f);
    assert forall i | 0 <= i < |evs| :: f(evs[i]) == ParseEvent(path, text, line, format, evs[i], ctx);
  }

  /** The events of two runs of filters come one after the other. */
  lemma {:induction false} ParseEventsAppend(path: string, text: string, line: int, format: string,
                                            a: seq<Config.CompiledEvent>, b: seq<Config.CompiledEvent>, ctx: ParseContext)
    ensures ParseEvents(path, text, line, format, a + b, ctx)
      == ParseEvents(path, text, line, format, a, ctx) + ParseEvents(path, text, line, format, b, ctx)
  {
    Seqs.FilterMapAppend(a, b, EventYield(path, text, line, format, ctx));
  }

  /** `ParseLine` for one rule. */
  function ParseLine(path: string, text: string, line: int, rule: Config.CompiledRule, ctx: ParseContext): seq<SecurityEvent>
  {
    ParseEvents(path, text, line, rule.config.eventTimeFormat, rule.events, ctx)
  }

  /** Every claiming rule parses the line, in rule order. */
  function ParseRules(path: string, text: string, line: int, rules: seq<Config.CompiledRule>, ctx: ParseContext): seq<SecurityEvent>
  {
    if |rules| == 0 then []
    else ParseRules(path, text, line, rules[..|rules| - 1], ctx) + ParseLine(path, text, line, rules[|rules| - 1], ctx)
  }

  // ---------------------------------------------------------------------------
  // One file

  datatype FileStat = FileStat(isDir: bool, size: int, modTime: Dates.Instant)

  /** What the file system reports for one path during a pass. */
  datatype FileView = FileView(
    fileId: string,
    stat: Option<FileStat>,
    opens: bool,
    reader: Utf8Probe.FileOps,
    segments: seq<Segment>)

  /** The clock reading of the pass, the platform, `htmlindex` and the parse context. */
  datatype Env = Env(now: Dates.Instant, windows: bool, knownEncoding: string -> bool, ctx: ParseContext)

  /** The container handed to the queue, if any, and the in-memory positions afterwards. */
  datatype PassResult = PassResult(sent: Option<EventsContainer>, sources: seq<SourceState>)

  /** Which definition of the two questionable steps a pass follows. */
  datatype Variant = AsWritten | Intended

  function CountingOf(v: Variant): Counting
  {
    if v.AsWritten? then EverySegment else NonEmptySegments
  }

  /** A file the pass does not read at all: no id, no status, a directory, or stale. */
  predicate Unread(f: FileView, rules: seq<Config.CompiledRule>, now: Dates.Instant)
  {
    |f.fileId| < 1 || f.stat.None? || f.stat.value.isDir || TooOld(now, f.stat.value.modTime, rules)
  }

  /**
   * The container of a pass. As written it starts at position 0 and line
   * 0, which it keeps when no segment is processed; as intended it starts
   * where reading resumed.
   */
  function PassContainer(id: string, path: string, s: ScanState, position: int, line: int, v: Variant): (c: EventsContainer)
    ensures s.position.Some? ==> c.offset == s.position.value && c.line == s.line
  {
    var (offset, ln) := if s.position.Some? then (s.position.value, s.line)
                        else if v.AsWritten? then (0, 0) else (position, line);
    Containers.Clean(EventsContainer(id, offset, ln, path, map[], s.events))
  }

  /** The reading loop of a pass over `f`, starting at line `line`. */
  function PassScan(path: string, rules: seq<Config.CompiledRule>, f: FileView, env: Env, v: Variant, line: int): ScanState
    requires f.stat.Some?
  {
    var recent := env.now - f.stat.value.modTime < SettleTime;
    var parse := (t, l) => ParseRules(path, t, l, rules, env.ctx);
    Scan(f.segments, ScanState(line, None, 0, []), recent, parse, CountingOf(v))
  }

  /**
   * One iteration of `_RunOnce`'s loop for `path`, claimed by `rules`:
   * the checks in the source's order, then the reading loop, the record of
   * the file updated in place and the container, without duplicates,
   * handed on.
   */
  function CrawlFile(path: string, rules: seq<Config.CompiledRule>, f: FileView, sources: seq<SourceState>, env: Env, v: Variant): (r: PassResult)
    requires |rules| > 0
    ensures Unread(f, rules, env.now) ==> r == PassResult(None, sources)
    ensures !Unread(f, rules, env.now) ==> |r.sources| == |PositionStore.Find(sources, f.fileId).1|
    ensures !Unread(f, rules, env.now) ==>
      var (i, found) := PositionStore.Find(sources, f.fileId);
      (forall j | 0 <= j < |found| && j != i :: r.sources[j] == found[j])
      && r.sources[i].sourceId == f.fileId && r.sources[i].source == found[i].source
      && r.sources[i].lastUpdatedTimeUtcNumber == found[i].lastUpdatedTimeUtcNumber
    ensures r.sent.Some? ==>
      r.sent.value.sourceId == f.fileId && r.sent.value.source == path && Utils.DistinctKeys(r.sent.value.securityEvents)
    ensures r.sent.Some? ==>
      var (i, found) := PositionStore.Find(sources, f.fileId);
      r.sources[i] == found[i] || (r.sources[i].offset == r.sent.value.offset && r.sources[i].line == r.sent.value.line)
    ensures r.sent.Some? <==>
      !Unread(f, rules, env.now)
      && ResumePoint(PositionStore.Find(sources, f.fileId).1[PositionStore.Find(sources, f.fileId).0], f.stat.value.size).Some?
      && f.opens
      && !Utf8Probe.Utf8Reader(f.reader, EncodingFor(rules, env.knownEncoding), env.windows, env.knownEncoding).Failure?
    ensures r.sent.Some? ==>
      var (i, found) := PositionStore.Find(sources, f.fileId);
      var (_, line) := ResumePoint(found[i], f.stat.value.size).value;
      r.sent.value.securityEvents == Utils.FirstOccurrences(PassScan(path, rules, f, env, v, line).events)
  {
    if Unread(f, rules, env.now) then PassResult(None, sources)
    else
      var (i, found) := PositionStore.Find(sources, f.fileId);
      var st := found[i];
      match ResumePoint(st, f.stat.value.size)
      case None => PassResult(None, found)
      case Some((position, line)) =>
        var encoding := EncodingFor(rules, env.knownEncoding);
        if !f.opens || Utf8Probe.Utf8Reader(f.reader, encoding, env.windows, env.knownEncoding).Failure? then
          PassResult(None, found)
        else
          var s := PassScan(path, rules, f, env, v, line);
          var st' := if s.position.Some? then st.(offset := s.position.value, line := s.line) else st;
          Utils.FirstOccurrencesDistinct(s.events);
          PassResult(Some(PassContainer(st.sourceId, path, s, position, line, v)), found[i := st'])
  }

  /**
   * As written, a pass whose only new text is an unterminated line that is
   * still being written hands on a container at position 0, although the
   * file was read up to `position`; the state sync stores that 0, and a
   * restarted crawler reads the file again from the start.
   */
  lemma {:induction false} DeferredPassResetsOffset(path: string, rules: seq<Config.CompiledRule>, f: FileView, sources: seq<SourceState>, env: Env)
    requires |rules| > 0 && !Unread(f, rules, env.now)
    requires var st := PositionStore.Find(sources, f.fileId).1[PositionStore.Find(sources, f.fileId).0];
      0 < st.offset < f.stat.value.size
    requires f.opens && !Utf8Probe.Utf8Reader(f.reader, EncodingFor(rules, env.knownEncoding), env.windows, env.knownEncoding).Failure?
    requires env.now - f.stat.value.modTime < SettleTime
    requires |f.segments| > 0 && Deferred(f.segments[0], true)
    ensures CrawlFile(path, rules, f, sources, env, AsWritten).sent.Some?
    ensures CrawlFile(path, rules, f, sources, env, AsWritten).sent.value.offset == 0
  {
  }

  /** As intended, such a pass hands on the position reading resumed from, which the sync keeps. */
  lemma {:induction false} DeferredPassKeepsOffset(path: string, rules: seq<Config.CompiledRule>, f: FileView, sources: seq<SourceState>, env: Env)
    requires |rules| > 0 && !Unread(f, rules, env.now)
    requires var st := PositionStore.Find(sources, f.fileId).1[PositionStore.Find(sources, f.fileId).0];
      0 < st.offset < f.stat.value.size
    requires f.opens && !Utf8Probe.Utf8Reader(f.reader, EncodingFor(rules, env.knownEncoding), env.windows, env.knownEncoding).Failure?
    requires env.now - f.stat.value.modTime < SettleTime
    requires |f.segments| > 0 && Deferred(f.segments[0], true)
    ensures var st := PositionStore.Find(sources, f.fileId).1[PositionStore.Find(sources, f.fileId).0];
      CrawlFile(path, rules, f, sources, env, Intended).sent.Some?
      && CrawlFile(path, rules, f, sources, env, Intended).sent.value.offset == st.offset
  {
  }

  /** A file that has not grown since the stored position is not read and nothing is handed on. */
  lemma {:induction false} UnchangedFileSkipped(path: string, rules: seq<Config.CompiledRule>, f: FileView, sources: seq<SourceState>, env: Env, v: Variant)
    requires |rules| > 0 && !Unread(f, rules, env.now)
    requires PositionStore.Find(sources, f.fileId).1[PositionStore.Find(sources, f.fileId).0].offset == f.stat.value.size
    requires f.stat.value.size > 0
    ensures CrawlFile(path, rules, f, sources, env, v) == PassResult(None, PositionStore.Find(sources, f.fileId).1)
  {
  }

  // ---------------------------------------------------------------------------
  // One pass over all files

  /**
   * `_RunOnce`: the files in the map's iteration order `paths`, each
   * crawled against the positions the previous ones left, every pass
   * following variant `v` of the two questionable steps.
   */
  function RunOnce(paths: seq<string>, claims: map<string, seq<Config.CompiledRule>>, view: string -> FileView,
                   sources: seq<SourceState>, env: Env, v: Variant): (r: (seq<EventsContainer>, seq<SourceState>))
    requires forall p | p in claims :: |claims[p]| > 0
    ensures |r.0| <= |paths|
    ensures |sources| <= |r.1|
    decreases |paths|
  {
    if |paths| == 0 then ([], sources)
    else if paths[0] !in claims then RunOnce(paths[1..], claims, view, sources, env, v)
    else
      var pass := CrawlFile(paths[0], claims[paths[0]], view(paths[0]), sources, env, v);
      var (rest, final) := RunOnce(paths[1..], claims, view, pass.sources, env, v);
      ((if pass.sent.Some? then [pass.sent.value] else []) + rest, final)
  }
}
