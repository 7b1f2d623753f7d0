/**
 * Rule discovery and normalisation (config.go): which files of the rules
 * directory are rule files, and which rules and events `LoadConfig` keeps.
 * Reading and parsing the YAML files, `regexp.Compile`, `time.ParseDuration`
 * and the per-rune lower-casing of `strings.ToLower` are given as inputs.
 */
module Config {
  import opened Wrappers
  import opened Strings
  import Utils

  /** The options defaults for a rule without its own dead time or file filter (options.go). */
  const DefaultFileDeadtime: string := "360h"
  const DefaultExcludeFileFilter: string := "((.gz)|(.zip)|(.tar)|(.zip))"

  // ---------------------------------------------------------------------------
  // Discovering rule files

  /** `path.Ext`: from the last `.` of the final path element to the end, or empty. */
  function ExtFrom(name: string, k: nat): (r: string)
    requires k <= |name|
    ensures |r| == 0 || (|r| <= |name| && r == name[|name| - |r|..] && r[0] == '.')
    decreases k
  {
    if k == 0 || name[k - 1] == '/' then ""
    else if name[k - 1] == '.' then name[k - 1..]
    else ExtFrom(name, k - 1)
  }

  function Ext(name: string): (r: string)
    ensures |r| == 0 || (EndsWith(name, r) && r[0] == '.')
  {
    ExtFrom(name, |name|)
  }

  /** The scan back passes over a character that is neither a dot nor a slash. */
  lemma {:induction false} ExtFromSkips(name: string, k: nat)
    requires 0 < k <= |name| && name[k - 1] != '/' && name[k - 1] != '.'
    ensures ExtFrom(name, k) == ExtFrom(name, k - 1)
  {
  }

  /** A name ending in `.yml` has that extension: the scan back from the end stops at its dot. */
  lemma {:induction false} YmlSuffixExt(name: string)
    requires EndsWith(name, ".yml")
    ensures Ext(name) == ".yml"
  {
    var n := |name|;
    var tail := name[n - 4..];
    assert tail == ".yml";
    assert name[n - 1] == tail[3] && name[n - 2] == tail[2] && name[n - 3] == tail[1] && name[n - 4] == tail[0];
    ExtFromSkips(name, n);
    ExtFromSkips(name, n - 1);
    ExtFromSkips(name, n - 2);
    assert ExtFrom(name, n - 3) == tail;
  }

  /** A name has the extension `.yml` exactly when it ends with `.yml`. */
  lemma {:induction false} ExtYml(name: string)
    ensures Ext(name) == ".yml" <==> EndsWith(name, ".yml")
  {
    if EndsWith(name, ".yml") {
      YmlSuffixExt(name);
    }
  }

  /** What `os.Stat` and `ioutil.ReadDir` report about the rules directory; `None` entries is a read error. */
  datatype DirStat = StatError | PlainFile | Directory(entries: Option<seq<string>>)

  /**
   * The names among the entries that `DiscoverYamlConfigs` keeps, in the
   * order `ioutil.ReadDir` lists them, which is sorted by name.
   */
  function YmlNames(entries: seq<string>): (r: seq<string>)
    ensures |r| <= |entries|
    ensures forall x :: x in r <==> x in entries && Ext(x) == ".yml"
    ensures Sorted(entries) ==> Sorted(r)
  {
    if |entries| == 0 then []
    else
      var pre := entries[..|entries| - 1];
      var init := YmlNames(pre);
      var x := entries[|entries| - 1];
      assert entries == pre + [x];
      var r := init + (if Ext(x) == ".yml" then [x] else []);
      assert Sorted(entries) ==> Sorted(r) by {
        if Sorted(entries) {
          assert Sorted(pre) by {
            forall i, j | 0 <= i < j < |pre|
              ensures NoLater(pre[i], pre[j])
            {
              assert pre[i] == entries[i] && pre[j] == entries[j];
            }
          }
          forall k | 0 <= k < |init|
            ensures NoLater(init[k], x)
          {
            assert init[k] in pre;
            var j :| 0 <= j < |pre| && pre[j] == init[k];
            assert entries[j] == init[k];
          }
          SortedSnoc(init, if Ext(x) == ".yml" then [x] else []);
        }
      }
      r
  }

  lemma {:induction false} SortedSnoc(init: seq<string>, last: seq<string>)
    requires Sorted(init) && |last| <= 1
    requires forall k | 0 <= k < |init| :: |last| == 0 || NoLater(init[k], last[0])
    ensures Sorted(init + last)
  {
    var s := init + last;
    forall i, j | 0 <= i < j < |s|
      ensures NoLater(s[i], s[j])
    {
      assert s[i] == init[i];
      if j < |init| {
        assert s[j] == init[j];
      } else {
        assert s[j] == last[0];
      }
    }
  }

  /** Entries are filtered one at a time, so the kept names of a split listing come one after the other. */
  lemma {:induction false} YmlNamesAppend(a: seq<string>, b: seq<string>)
    ensures YmlNames(a + b) == YmlNames(a) + YmlNames(b)
    decreases |b|
  {
    if |b| == 0 {
      assert a + b == a;
    } else {
      var init := b[..|b| - 1];
      assert (a + b)[..|a + b| - 1] == a + init;
      assert (a + b)[|a + b| - 1] == b[|b| - 1];
      YmlNamesAppend(a, init);
    }
  }

  /**
   * `DiscoverYamlConfigs`: an error when the directory cannot be examined,
   * nothing for a plain file, and otherwise the `.yml` entries joined to
   * the directory. `join` is `path.Join`.
   */
  function DiscoverYamlConfigs(dir: string, stat: DirStat, join: (string, string) -> string): (r: Option<seq<string>>)
    ensures r.None? <==> stat.StatError? || (stat.Directory? && stat.entries.None?)
    ensures stat.PlainFile? ==> r == Some([])
    ensures stat.Directory? && stat.entries.Some? ==>
      r.Some? && |r.value| == |YmlNames(stat.entries.value)|
      && forall i | 0 <= i < |r.value| :: r.value[i] == join(dir, YmlNames(stat.entries.value)[i])
  {
    match stat
    case StatError => None
    case PlainFile => Some([])
    case Directory(entries) =>
      match entries
      case None => None
      case Some(names) =>
        Some(JoinAll(dir, YmlNames(names), join))
  }

  function JoinAll(dir: string, names: seq<string>, join: (string, string) -> string): (r: seq<string>)
    ensures |r| == |names| && forall i | 0 <= i < |names| :: r[i] == join(dir, names[i])
  {
    if |names| == 0 then [] else [join(dir, names[0])] + JoinAll(dir, names[1..], join)
  }

  // ---------------------------------------------------------------------------
  // Rule records

  datatype EventConfig = EventConfig(
    sid: nat,
    gid: nat,
    winEventIds: seq<nat>,
    message: string,
    regex: string,
    fields: map<string, string>,
    exclude: map<string, string>,
    critical: bool)

  /** A rule file as read: `deadTime` and `excludeFilesRegex` empty where the file gives none. */
  datatype RuleConfig = RuleConfig(
    source: string,
    paths: seq<string>,
    encoding: string,
    deadTime: string,
    excludeFilesRegex: string,
    events: seq<EventConfig>,
    eventTimeFormat: string)

  /** An event with its expression compiled and the exclusion expressions that compiled. */
  datatype CompiledEvent = CompiledEvent(config: EventConfig, regex: Utils.Regex, excludeRegex: map<string, Utils.Regex>)

  /** The exclusion expressions as the filter `ApplyExcludeFilterToSecurityEvents` takes: every one present. */
  function ExcludeFilter(ev: CompiledEvent): map<string, Option<Utils.Regex>>
  {
    map k | k in ev.excludeRegex :: Some(ev.excludeRegex[k])
  }

  /** A kept rule: defaults applied, its name, its dead time (nanoseconds) and its compiled parts. */
  datatype CompiledRule = CompiledRule(
    config: RuleConfig,
    ruleFileName: string,
    deadtime: int,
    excludeFiles: Utils.Regex,
    events: seq<CompiledEvent>)

  /** The library calls `LoadConfig` relies on. */
  datatype Oracles = Oracles(
    compile: string -> Option<Utils.Regex>,
    parseDuration: string -> Option<int>,
    lowerRune: char -> char)

  /** The main configuration's rule selection. */
  datatype Selection = Selection(allRules: bool, rules: seq<string>)

  predicate Selected(sel: Selection, name: string)
  {
    sel.allRules || name in sel.rules
  }

  /** The final element of a slash-separated path, as `path.Split` gives it. */
  function BaseName(p: string): (r: string)
    ensures EndsWith(p, r) && '/' !in r
    decreases |p|
  {
    if |p| == 0 then ""
    else if p[|p| - 1] == '/' then ""
    else
      var r := BaseName(p[..|p| - 1]) + [p[|p| - 1]];
      assert p[..|p| - 1][|p| - 1 - (|r| - 1)..] + [p[|p| - 1]] == p[|p| - |r|..];
      r
  }

  function Lower(s: string, lowerRune: char -> char): (r: string)
    ensures |r| == |s| && forall i | 0 <= i < |s| :: r[i] == lowerRune(s[i])
  {
    if |s| == 0 then [] else [lowerRune(s[0])] + Lower(s[1..], lowerRune)
  }

  function TrimSuffix(s: string, suffix: string): (r: string)
    ensures EndsWith(s, suffix) ==> r + suffix == s
    ensures !EndsWith(s, suffix) ==> r == s
  {
    if EndsWith(s, suffix) then s[..|s| - |suffix|] else s
  }

  /** `RuleFileName`: the lower-cased file name without its `.yml` suffix. */
  function RuleFileName(path: string, lowerRune: char -> char): string
  {
    TrimSuffix(Lower(BaseName(path), lowerRune), ".yml")
  }

  /**
   * The rule name of `dir/stem.yml` is the lower-cased stem, for any
   * per-character lower-casing that leaves the letters of `.yml` alone, as
   * `strings.ToLower` does.
   */
  lemma {:induction false} RuleFileNameOfYml(dir: string, stem: string, lowerRune: char -> char)
    requires '/' !in stem
    requires lowerRune('.') == '.' && lowerRune('y') == 'y' && lowerRune('m') == 'm' && lowerRune('l') == 'l'
    ensures RuleFileName(dir + "/" + stem + ".yml", lowerRune) == Lower(stem, lowerRune)
  {
    var name := stem + ".yml";
    assert dir + "/" + stem + ".yml" == dir + "/" + name;
    BaseNameAfterSlash(dir, name);
    var low := Lower(name, lowerRune);
    var ls := Lower(stem, lowerRune);
    assert low == ls + ".yml" by {
      forall i | 0 <= i < |name|
        ensures low[i] == (ls + ".yml")[i]
      {
        if i >= |stem| {
          assert name[i] == ".yml"[i - |stem|];
        } else {
          assert name[i] == stem[i];
        }
      }
    }
    assert EndsWith(low, ".yml");
    assert low[..|low| - 4] == ls;
  }

  lemma {:induction false} BaseNameAfterSlash(dir: string, name: string)
    requires '/' !in name
    ensures BaseName(dir + "/" + name) == name
    decreases |name|
  {
    var p := dir + "/" + name;
    if |name| == 0 {
      assert p[|p| - 1] == '/';
    } else {
      var init := name[..|name| - 1];
      assert p[..|p| - 1] == dir + "/" + init;
      assert p[|p| - 1] == name[|name| - 1];
      BaseNameAfterSlash(dir, init);
      assert init + [name[|name| - 1]] == name;
    }
  }

  // ---------------------------------------------------------------------------
  // Events

  /** The exclusion expressions that compile; a failing one omits its key only. */
  function ExcludeRegexes(exclude: map<string, string>, compile: string -> Option<Utils.Regex>): (r: map<string, Utils.Regex>)
    ensures forall k :: k in r <==> k in exclude && compile(exclude[k]).Some?
    ensures forall k | k in r :: Some(r[k]) == compile(exclude[k])
  {
    map k | k in exclude && compile(exclude[k]).Some? :: compile(exclude[k]).value
  }

  function Compile(e: EventConfig, re: Utils.Regex, compile: string -> Option<Utils.Regex>): CompiledEvent
  {
    CompiledEvent(e, re, ExcludeRegexes(e.exclude, compile))
  }

  function Configs(events: seq<CompiledEvent>): (r: seq<EventConfig>)
    ensures |r| == |events| && forall i | 0 <= i < |events| :: r[i] == events[i].config
  {
    if |events| == 0 then [] else Configs(events[..|events| - 1]) + [events[|events| - 1].config]
  }

  /**
   * The loop over a rule's events: an event whose expression does not
   * compile is dropped, and when the rule is not selected every event is
   * dropped (the selection is tested after compiling, per event).
   */
  function CompileEvents(events: seq<EventConfig>, name: string, sel: Selection, compile: string -> Option<Utils.Regex>): (r: seq<CompiledEvent>)
    ensures |r| <= |events|
  {
    if |events| == 0 then []
    else
      var e := events[|events| - 1];
      CompileEvents(events[..|events| - 1], name, sel, compile) + CompileOne(e, name, sel, compile)
  }

  /** One event of the loop: nothing when its expression does not compile or the rule is not selected. */
  function CompileOne(e: EventConfig, name: string, sel: Selection, compile: string -> Option<Utils.Regex>): (r: seq<CompiledEvent>)
    ensures |r| <= 1
  {
    match compile(e.regex)
    case None => []
    case Some(re) => if !Utils.Contains(sel.rules, name) && !sel.allRules then [] else [Compile(e, re, compile)]
  }

  /** Compiling a rule's events keeps exactly the events that compile, each with its compiled parts. */
  lemma {:induction false} CompileEventsSpec(events: seq<EventConfig>, name: string, sel: Selection, compile: string -> Option<Utils.Regex>)
    ensures var r := CompileEvents(events, name, sel, compile);
      (!Selected(sel, name) ==> r == [])
      && (Selected(sel, name) ==> forall e :: e in Configs(r) <==> e in events && compile(e.regex).Some?)
      && (forall i | 0 <= i < |r| ::
           compile(r[i].config.regex).Some? && r[i] == Compile(r[i].config, compile(r[i].config.regex).value, compile))
    decreases |events|
  {
    if |events| > 0 {
      var init := events[..|events| - 1];
      var e := events[|events| - 1];
      CompileEventsSpec(init, name, sel, compile);
      var rest := CompileEvents(init, name, sel, compile);
      var tail := CompileOne(e, name, sel, compile);
      assert CompileEvents(events, name, sel, compile) == rest + tail;
      assert events == init + [e];
      ConfigsAppend(rest, tail);
      if Selected(sel, name) {
        forall x
          ensures x in Configs(rest + tail) <==> x in events && compile(x.regex).Some?
        {
          assert x in events <==> x in init || x == e;
          assert Configs(tail) == if compile(e.regex).Some? then [e] else [];
        }
      }
      forall i | 0 <= i < |rest + tail|
        ensures compile((rest + tail)[i].config.regex).Some?
          && (rest + tail)[i] == Compile((rest + tail)[i].config, compile((rest + tail)[i].config.regex).value, compile)
      {
        if i < |rest| {
          assert (rest + tail)[i] == rest[i];
        } else {
          assert (rest + tail)[i] == tail[0];
        }
      }
    }
  }

  lemma {:induction false} ConfigsAppend(a: seq<CompiledEvent>, b: seq<CompiledEvent>)
    ensures Configs(a + b) == Configs(a) + Configs(b)
  {
    assert forall i | 0 <= i < |a + b| :: (a + b)[i] == if i < |a| then a[i] else b[i - |a|];
  }

  /** Events that compile keep their declaration order. */
  lemma {:induction false} CompileEventsOrder(a: seq<EventConfig>, b: seq<EventConfig>, name: string, sel: Selection, compile: string -> Option<Utils.Regex>)
    ensures CompileEvents(a + b, name, sel, compile) == CompileEvents(a, name, sel, compile) + CompileEvents(b, name, sel, compile)
    decreases |b|
  {
    if |b| == 0 {
      assert a + b == a;
    } else {
      var init := b[..|b| - 1];
      assert (a + b)[..|a + b| - 1] == a + init;
      assert (a + b)[|a + b| - 1] == b[|b| - 1];
      CompileEventsOrder(a, init, name, sel, compile);
    }
  }

  // ---------------------------------------------------------------------------
  // Rules

  /** A rule file read from disk: `None` when `LoadYamlFile` failed. */
  datatype RuleFile = RuleFile(path: string, content: Option<RuleConfig>)

  /** What becomes of one rule file. */
  datatype RuleOutcome = Unreadable | BadDeadTime | BadExcludeFiles | NoEvents | Loaded(rule: CompiledRule)

  function WithDefault(s: string, default: string): (r: string)
    ensures |default| > 0 ==> |r| > 0
    ensures |s| > 0 ==> r == s
  {
    if s == "" then default else s
  }

  /**
   * The body of `LoadConfig`'s loop for one file. The source compiles the
   * file filter only when it is non-empty; after the default is applied it
   * never is, so the filter is always compiled.
   */
  function LoadRule(f: RuleFile, sel: Selection, o: Oracles): (r: RuleOutcome)
    ensures r.Unreadable? <==> f.content.None?
    ensures r.Loaded? ==> |r.rule.events| > 0 && |r.rule.config.deadTime| > 0 && |r.rule.config.excludeFilesRegex| > 0
    ensures r.Loaded? ==> r.rule.ruleFileName == RuleFileName(f.path, o.lowerRune) && Selected(sel, r.rule.ruleFileName)
    ensures r.Loaded? ==> Some(r.rule.deadtime) == o.parseDuration(r.rule.config.deadTime)
    ensures f.content.Some? ==>
      var c := f.content.value;
      var dt := WithDefault(c.deadTime, DefaultFileDeadtime);
      var ex := WithDefault(c.excludeFilesRegex, DefaultExcludeFileFilter);
      (r == BadDeadTime <==> o.parseDuration(dt).None?)
      && (r == BadExcludeFiles <==> o.parseDuration(dt).Some? && o.compile(ex).None?)
      && (r.Loaded? <==> o.parseDuration(dt).Some? && o.compile(ex).Some?
                         && |CompileEvents(c.events, RuleFileName(f.path, o.lowerRune), sel, o.compile)| > 0)
    ensures r.Loaded? ==>
      var c := f.content.value;
      r.rule.events == CompileEvents(c.events, r.rule.ruleFileName, sel, o.compile)
      && r.rule.config == c.(deadTime := WithDefault(c.deadTime, DefaultFileDeadtime),
                             excludeFilesRegex := WithDefault(c.excludeFilesRegex, DefaultExcludeFileFilter))
      && Some(r.rule.excludeFiles) == o.compile(r.rule.config.excludeFilesRegex)
  {
    match f.content
    case None => Unreadable
    case Some(rule) =>
      var name := RuleFileName(f.path, o.lowerRune);
      var deadTime := WithDefault(rule.deadTime, DefaultFileDeadtime);
      var excludeFiles := WithDefault(rule.excludeFilesRegex, DefaultExcludeFileFilter);
      match o.parseDuration(deadTime)
      case None => BadDeadTime
      case Some(d) =>
        match o.compile(excludeFiles)
        case None => BadExcludeFiles
        case Some(re) =>
          var events := CompileEvents(rule.events, name, sel, o.compile);
          CompileEventsSpec(rule.events, name, sel, o.compile);
          if |events| == 0 then NoEvents
          else Loaded(CompiledRule(rule.(deadTime := deadTime, excludeFilesRegex := excludeFiles), name, d, re, events))
  }

  /** What becomes of each rule file, in file order. */
  function Outcomes(files: seq<RuleFile>, sel: Selection, o: Oracles): (r: seq<RuleOutcome>)
    ensures |r| == |files| && forall i | 0 <= i < |files| :: r[i] == LoadRule(files[i], sel, o)
    decreases |files|
  {
    if |files| == 0 then [] else [LoadRule(files[0], sel, o)] + Outcomes(files[1..], sel, o)
  }

  lemma {:induction false} OutcomesAppend(a: seq<RuleFile>, b: seq<RuleFile>, sel: Selection, o: Oracles)
    ensures Outcomes(a + b, sel, o) == Outcomes(a, sel, o) + Outcomes(b, sel, o)
    decreases |a|
  {
    if |a| > 0 {
      assert (a + b)[1..] == a[1..] + b;
      OutcomesAppend(a[1..], b, sel, o);
    }
  }

  /** The rules among the outcomes, in order. */
  function Kept(outs: seq<RuleOutcome>): (r: seq<CompiledRule>)
    ensures |r| <= |outs|
    ensures forall x :: x in r <==> Loaded(x) in outs
    decreases |outs|
  {
    if |outs| == 0 then []
    else
      var out := outs[|outs| - 1];
      assert outs == outs[..|outs| - 1] + [out];
      Kept(outs[..|outs| - 1]) + (if out.Loaded? then [out.rule] else [])
  }

  lemma {:induction false} KeptAppend(a: seq<RuleOutcome>, b: seq<RuleOutcome>)
    ensures Kept(a + b) == Kept(a) + Kept(b)
    decreases |b|
  {
    if |b| == 0 {
      assert a + b == a;
    } else {
      var init := b[..|b| - 1];
      assert (a + b)[..|a + b| - 1] == a + init;
      assert (a + b)[|a + b| - 1] == b[|b| - 1];
      KeptAppend(a, init);
    }
  }

  /** The rules that load, in file order: a rule is kept exactly when some file's outcome is that rule. */
  function LoadedRules(files: seq<RuleFile>, sel: Selection, o: Oracles): (r: seq<CompiledRule>)
    ensures |r| <= |files|
    ensures forall x :: x in r <==> Loaded(x) in Outcomes(files, sel, o)
  {
    Kept(Outcomes(files, sel, o))
  }

  /**
   * The named result `err` of `LoadConfig` as the loop leaves it: every
   * readable file overwrites it with its dead-time parse result, so it is
   * an error exactly when the last readable file has a bad dead time.
   */
  function DeadTimeError(files: seq<RuleFile>, sel: Selection, o: Oracles): bool
  {
    if |files| == 0 then false
    else
      match LoadRule(files[|files| - 1], sel, o)
      case Unreadable => DeadTimeError(files[..|files| - 1], sel, o)
      case BadDeadTime => true
      case _ => false
  }

  /** `LoadConfig`'s rule loop as written: the kept rules, and whether it reports an error. */
  function LoadRules(files: seq<RuleFile>, sel: Selection, o: Oracles): (r: (seq<CompiledRule>, bool))
    ensures r.0 == LoadedRules(files, sel, o)
    ensures forall i | 0 <= i < |r.0| :: |r.0[i].events| > 0
  {
    var rules := LoadedRules(files, sel, o);
    assert forall i | 0 <= i < |rules| :: |rules[i].events| > 0 by {
      forall i | 0 <= i < |rules|
        ensures |rules[i].events| > 0
      {
        assert rules[i] in rules;
      }
    }
    (rules, DeadTimeError(files, sel, o))
  }

  /** A rule that is not selected never survives, whatever its events. */
  lemma {:induction false} UnselectedRuleDropped(f: RuleFile, sel: Selection, o: Oracles)
    requires f.content.Some? && !Selected(sel, RuleFileName(f.path, o.lowerRune))
    ensures !LoadRule(f, sel, o).Loaded?
  {
  }

  /** An empty dead time and file filter take the defaults. */
  lemma {:induction false} DefaultsApplied(f: RuleFile, sel: Selection, o: Oracles)
    requires f.content.Some? && f.content.value.deadTime == "" && f.content.value.excludeFilesRegex == ""
    requires LoadRule(f, sel, o).Loaded?
    ensures LoadRule(f, sel, o).rule.config.deadTime == "360h"
    ensures LoadRule(f, sel, o).rule.config.excludeFilesRegex == "((.gz)|(.zip)|(.tar)|(.zip))"
  {
  }

  /**
   * As written, a last rule file whose dead time does not parse makes the
   * whole load fail, although the loop only meant to skip that rule: one
   * good rule followed by one with dead time "2 days" loads nothing usable.
   */
  lemma {:induction false} BadLastDeadTimeFails(files: seq<RuleFile>, bad: RuleFile, sel: Selection, o: Oracles)
    requires bad.content.Some? && o.parseDuration(WithDefault(bad.content.value.deadTime, DefaultFileDeadtime)).None?
    ensures LoadRules(files + [bad], sel, o).1
    ensures LoadRules(files + [bad], sel, o).0 == LoadRules(files, sel, o).0
  {
    assert (files + [bad])[..|files|] == files;
    LoadedRulesSplit(files, [bad], sel, o);
    assert [bad][..0] == [];
    assert LoadRule(bad, sel, o) == BadDeadTime;
    assert LoadedRules([bad], sel, o) == [];
    assert files + [] == files;
  }

  /** The loop as intended: a rule that fails to parse is skipped and nothing else is reported. */
  function LoadRulesSkipping(files: seq<RuleFile>, sel: Selection, o: Oracles): (r: (seq<CompiledRule>, bool))
    ensures !r.1
    ensures r.0 == LoadRules(files, sel, o).0
  {
    (LoadedRules(files, sel, o), false)
  }

  /** With the intended loop, a file with a bad dead time changes nothing, wherever it stands. */
  lemma {:induction false} BadDeadTimeSkipped(a: seq<RuleFile>, bad: RuleFile, b: seq<RuleFile>, sel: Selection, o: Oracles)
    requires bad.content.Some? && o.parseDuration(WithDefault(bad.content.value.deadTime, DefaultFileDeadtime)).None?
    ensures LoadRulesSkipping(a + [bad] + b, sel, o) == LoadRulesSkipping(a + b, sel, o)
  {
    LoadedRulesSplit(a + [bad], b, sel, o);
    LoadedRulesSplit(a, b, sel, o);
    LoadedRulesSplit(a, [bad], sel, o);
    assert [bad][..0] == [];
    assert LoadRule(bad, sel, o) == BadDeadTime;
    assert LoadedRules([bad], sel, o) == [];
    calc {
      LoadedRules(a + [bad] + b, sel, o);
      LoadedRules(a + [bad], sel, o) + LoadedRules(b, sel, o);
      LoadedRules(a, sel, o) + [] + LoadedRules(b, sel, o);
      { assert LoadedRules(a, sel, o) + [] == LoadedRules(a, sel, o); }
      LoadedRules(a + b, sel, o);
    }
  }

  lemma {:induction false} LoadedRulesSplit(a: seq<RuleFile>, b: seq<RuleFile>, sel: Selection, o: Oracles)
    ensures LoadedRules(a + b, sel, o) == LoadedRules(a, sel, o) + LoadedRules(b, sel, o)
  {
    OutcomesAppend(a, b, sel, o);
    KeptAppend(Outcomes(a, sel, o), Outcomes(b, sel, o));
  }
}
