/**
 * One pass of the Windows event-log crawler (crawler_wineventlog_windows.go):
 * for every rule and every channel path it names, the list of event ids to
 * ask for, the look-back period of the query, the position record, and the
 * events built from the XML items the query returns.
 *
 * The query itself (`_ReadEventLogs`) is an oracle: given the channel, the
 * search list and the period in milliseconds it returns the items or fails.
 * So are the compiled system-fields expression and `time.Parse`.
 */
module WinEventLog {
  import opened Wrappers
  import opened Strings
  import opened Events
  import Utils
  import Dates
  import Convert
  import Config
  import PositionStore
  import Containers
  import Seqs

  const Millisecond: int := 1_000_000
  /** The look-back period when there is neither a stored position nor a rule dead time: 30 days. */
  const DefaultPeriod: int := 30 * 24 * 3600 * Dates.Second
  /** The most items one query returns. */
  const MaxEventsToRead: nat := 1000
  /** Go's `time.RFC3339Nano` layout, the format of `TimeCreated/@SystemTime`. */
  const Rfc3339Nano: string := "2006-01-02T15:04:05.999999999Z07:00"
  /**
   * The group names of the system-fields expression: the event id, the
   * creation time and the record id; the other groups are unnamed.
   */
  const SystemFieldNames: seq<string> := ["", "", "eventid", "_eventTime", "", "recordid"]

  // ---------------------------------------------------------------------------
  // The search list

  /** The XPath term selecting one event id. */
  function Entry(id: nat): (r: string)
    ensures StartsWith(r, "EventID=")
  {
    "EventID=" + Convert.Itoa(id)
  }

  /** The id reads back from its term, so distinct ids give distinct terms. */
  lemma {:induction false} EntryReadsBack(id: nat)
    requires id <= Convert.MaxUint64
    ensures Convert.ForceAtoui(Entry(id)[8..]) == id
  {
    assert Entry(id)[8..] == Convert.Itoa(id);
  }

  lemma {:induction false} EntryInjective(a: nat, b: nat)
    requires a <= Convert.MaxUint64 && b <= Convert.MaxUint64
    ensures Entry(a) == Entry(b) <==> a == b
  {
    EntryReadsBack(a);
    EntryReadsBack(b);
  }

  /** Every id of every event filter, in declaration order. */
  function AllIds(events: seq<Config.CompiledEvent>): (r: seq<nat>)
    ensures forall x :: x in r <==> exists i | 0 <= i < |events| :: x in events[i].config.winEventIds
    decreases |events|
  {
    if |events| == 0 then []
    else
      var init := events[..|events| - 1];
      assert forall i | 0 <= i < |init| :: init[i] == events[i];
      AllIds(init) + events[|events| - 1].config.winEventIds
  }

  /** A list extended by `x` unless it already holds it. */
  function AddNew(list: seq<string>, x: string): seq<string>
  {
    if Utils.Contains(list, x) then list else list + [x]
  }

  predicate Distinct(s: seq<string>)
  {
    forall i, j | 0 <= i < j < |s| :: s[i] != s[j]
  }

  /** The loop's duplicate check: each string kept once, in order of first occurrence. */
  function Dedup(s: seq<string>): (r: seq<string>)
    ensures Distinct(r)
    ensures forall x :: x in r <==> x in s
    ensures |r| <= |s|
    decreases |s|
  {
    if |s| == 0 then []
    else
      var init := s[..|s| - 1];
      assert s == init + [s[|s| - 1]];
      AddNew(Dedup(init), s[|s| - 1])
  }

  /** What a prefix keeps stays in front, in the same order. */
  lemma {:induction false} DedupPrefix(a: seq<string>, b: seq<string>)
    ensures |Dedup(a)| <= |Dedup(a + b)|
    ensures Dedup(a + b)[..|Dedup(a)|] == Dedup(a)
    decreases |b|
  {
    if |b| == 0 {
      assert a + b == a;
    } else {
      var init := b[..|b| - 1];
      assert (a + b)[..|a + b| - 1] == a + init;
      DedupPrefix(a, init);
    }
  }

  /** A list without repetitions is kept as it is. */
  lemma {:induction false} DedupOfDistinct(s: seq<string>)
    requires Distinct(s)
    ensures Dedup(s) == s
    decreases |s|
  {
    if |s| > 0 {
      var init := s[..|s| - 1];
      assert Distinct(init);
      DedupOfDistinct(init);
      assert s[|s| - 1] !in init;
      assert init + [s[|s| - 1]] == s;
    }
  }

  /** The term of each id, in order. */
  function Terms(ids: seq<nat>): (r: seq<string>)
    ensures |r| == |ids|
    decreases |ids|
  {
    if |ids| == 0 then [] else Terms(ids[..|ids| - 1]) + [Entry(ids[|ids| - 1])]
  }

  lemma {:induction false} TermsAt(ids: seq<nat>, i: nat)
    requires i < |ids|
    ensures Terms(ids)[i] == Entry(ids[i])
    decreases |ids|
  {
    if i < |ids| - 1 {
      TermsAt(ids[..|ids| - 1], i);
    }
  }

  lemma {:induction false} TermsAppend(a: seq<nat>, b: seq<nat>)
    ensures Terms(a + b) == Terms(a) + Terms(b)
    decreases |b|
  {
    if |b| == 0 {
      assert a + b == a;
    } else {
      var init := b[..|b| - 1];
      assert (a + b)[..|a + b| - 1] == a + init;
      TermsAppend(a, init);
    }
  }

  /** The search list: the terms of `ids`, each once, in order of first occurrence. */
  function SearchTerms(ids: seq<nat>): (r: seq<string>)
    ensures Distinct(r)
    ensures forall x :: x in r <==> exists i | 0 <= i < |ids| :: x == Entry(ids[i])
    ensures |r| <= |ids|
  {
    var r := Dedup(Terms(ids));
    assert forall x :: x in Terms(ids) <==> exists i | 0 <= i < |ids| :: x == Entry(ids[i]) by {
      forall x | x in Terms(ids)
        ensures exists i | 0 <= i < |ids| :: x == Entry(ids[i])
      {
        var i :| 0 <= i < |ids| && Terms(ids)[i] == x;
        TermsAt(ids, i);
      }
      forall x, i | 0 <= i < |ids| && x == Entry(ids[i])
        ensures x in Terms(ids)
      {
        TermsAt(ids, i);
      }
    }
    r
  }

  /** The terms found for a prefix of the ids stay in front, in the same order. */
  lemma {:induction false} SearchTermsPrefix(a: seq<nat>, b: seq<nat>)
    ensures |SearchTerms(a)| <= |SearchTerms(a + b)|
    ensures SearchTerms(a + b)[..|SearchTerms(a)|] == SearchTerms(a)
  {
    TermsAppend(a, b);
    DedupPrefix(Terms(a), Terms(b));
  }

  /** Ids that are already distinct give one term each, in the same order. */
  lemma {:induction false} SearchTermsOfDistinct(ids: seq<nat>)
    requires forall i, j | 0 <= i < j < |ids| :: ids[i] != ids[j]
    requires forall i | 0 <= i < |ids| :: ids[i] <= Convert.MaxUint64
    ensures SearchTerms(ids) == Terms(ids)
  {
    forall i, j | 0 <= i < j < |ids|
      ensures Terms(ids)[i] != Terms(ids)[j]
    {
      TermsAt(ids, i);
      TermsAt(ids, j);
      EntryInjective(ids[i], ids[j]);
    }
    DedupOfDistinct(Terms(ids));
  }

  function SearchList(events: seq<Config.CompiledEvent>): seq<string>
  {
    SearchTerms(AllIds(events))
  }

  /** A rule has nothing to ask for exactly when none of its event filters names an id. */
  lemma {:induction false} EmptySearchList(events: seq<Config.CompiledEvent>)
    ensures |SearchList(events)| == 0 <==> forall i | 0 <= i < |events| :: |events[i].config.winEventIds| == 0
  {
    forall i | 0 <= i < |events| && |events[i].config.winEventIds| > 0
      ensures |SearchList(events)| > 0
    {
      var x := events[i].config.winEventIds[0];
      assert x in AllIds(events);
      var k :| 0 <= k < |AllIds(events)| && AllIds(events)[k] == x;
      assert Entry(AllIds(events)[k]) in SearchList(events);
    }
    var ids := AllIds(events);
    if |SearchList(events)| > 0 {
      var t := SearchList(events)[0];
      assert t in SearchList(events);
      var k :| 0 <= k < |ids| && t == Entry(ids[k]);
      assert ids[k] in ids;
      var i :| 0 <= i < |events| && ids[k] in events[i].config.winEventIds;
      assert |events[i].config.winEventIds| > 0;
    }
  }

  // ---------------------------------------------------------------------------
  // The look-back period

  /**
   * How far back the query reaches: since the stored query time when there
   * is one, else the rule's dead time when its file gives one, else 30 days.
   */
  function Period(offset: int, rule: Config.CompiledRule, now: Dates.Instant): int
  {
    if offset > 0 then now - Dates.CustomLongToTime(offset)
    else if |rule.config.deadTime| > 0 then rule.deadtime
    else DefaultPeriod
  }

  /**
   * After a query at `queryTime` stored its time, the period of the next
   * query reaches back to before it, and less than a second further,
   * because the time is stored in whole seconds. The query itself is
   * issued in whole milliseconds, truncated, so its window may start up to
   * a millisecond after the period's start: only events of that last
   * millisecond before the stored query can be missed.
   */
  lemma {:induction false} NoGapAfterQuery(queryTime: Dates.Instant, rule: Config.CompiledRule, now: Dates.Instant)
    requires Dates.DateToCustomLong(queryTime) > 0
    ensures var start := now - Period(Dates.DateToCustomLong(queryTime), rule, now);
      start <= queryTime < start + Dates.Second
    ensures var start := now - Period(Dates.DateToCustomLong(queryTime), rule, now);
      var queried := now - Millis(Period(Dates.DateToCustomLong(queryTime), rule, now)) * Millisecond;
      queried < start + Millisecond && queried < queryTime + Millisecond
  {
    var n := Dates.DateToCustomLong(queryTime);
    var t := Dates.CustomLongToTime(n);
    assert t == n * Dates.Second by {
      assert Dates.DateToCustomLong(t) == n && t % Dates.Second == 0;
    }
  }

  /**
   * A loaded rule always has a dead time, its own or the default, so the
   * 30-day period applies to none: without a stored time the rule's dead
   * time is used.
   */
  lemma {:induction false} LoadedRuleUsesDeadTime(f: Config.RuleFile, sel: Config.Selection, o: Config.Oracles, offset: int, now: Dates.Instant)
    requires Config.LoadRule(f, sel, o).Loaded? && offset <= 0
    ensures Period(offset, Config.LoadRule(f, sel, o).rule, now) == Config.LoadRule(f, sel, o).rule.deadtime
  {
  }

  /** `int64(period / time.Millisecond)`: Go's division truncates toward zero. */
  function Millis(period: int): (ms: int)
    ensures period >= 0 ==> 0 <= ms * Millisecond <= period < ms * Millisecond + Millisecond
    ensures period < 0 ==> ms * Millisecond - Millisecond < period <= ms * Millisecond <= 0
  {
    if period >= 0 then period / Millisecond else -((-period) / Millisecond)
  }

  /**
   * Truncation is not flooring: it agrees with floored division except on
   * a negative period that is not a whole number of milliseconds, which it
   * rounds up instead. A period of -1 ns gives 0, not -1.
   */
  lemma {:induction false} MillisTruncates()
    ensures forall p :: Millis(p) == if p >= 0 || p % Millisecond == 0 then p / Millisecond else p / Millisecond + 1
    ensures Millis(-1) == 0 && (-1) / Millisecond == -1
  {
    forall p
      ensures Millis(p) == if p >= 0 || p % Millisecond == 0 then p / Millisecond else p / Millisecond + 1
    {
      if p < 0 {
        var q, m := (-p) / Millisecond, (-p) % Millisecond;
        assert -p == q * Millisecond + m && 0 <= m < Millisecond;
        assert p == (-q) * Millisecond - m;
        if m == 0 {
          assert p == (-q) * Millisecond + 0;
        } else {
          assert p == (-q - 1) * Millisecond + (Millisecond - m);
        }
      }
    }
  }

  // ---------------------------------------------------------------------------
  // One item

  /** The oracles of a pass. */
  datatype Context = Context(
    systemFields: Utils.Regex,
    parse: Dates.TimeParser,
    fieldOrder: Utils.KeyOrder,
    excludeOrder: map<string, Option<Utils.Regex>> -> seq<string>,
    query: (string, seq<string>, int) -> Option<seq<string>>)

  /** The item's fields: the system fields, then the filter's fixed fields, then the filter's captures, later ones winning. */
  function ItemFields(item: string, ev: Config.CompiledEvent, ctx: Context): map<string, string>
  {
    var system := Utils.FindAllSubmatches(item, ctx.systemFields, map[]);
    Utils.FindAllSubmatches(item, ev.regex, system + ev.config.fields)
  }

  /** Which source a field's value comes from. */
  lemma {:induction false} FieldPrecedence(item: string, ev: Config.CompiledEvent, ctx: Context, k: string)
    ensures var captured := Utils.LastValue(Utils.AllCaptures(ev.regex.names, ev.regex.findAll(item)), k);
      var system := Utils.LastValue(Utils.AllCaptures(ctx.systemFields.names, ctx.systemFields.findAll(item)), k);
      var m := ItemFields(item, ev, ctx);
      (k in m <==> captured.Some? || k in ev.config.fields || system.Some?)
      && (k in m ==> m[k] == if captured.Some? then captured.value
                             else if k in ev.config.fields then ev.config.fields[k]
                             else system.value)
  {
    var sys := Utils.FindAllSubmatches(item, ctx.systemFields, map[]);
    Utils.FindAllSubmatchesSpec(item, ctx.systemFields, map[]);
    Utils.FindAllSubmatchesSpec(item, ev.regex, sys + ev.config.fields);
  }

  /** With the real system-fields expression, the address comes only from the filter. */
  lemma {:induction false} AddressFromFilter(item: string, ev: Config.CompiledEvent, ctx: Context)
    requires ctx.systemFields.names == SystemFieldNames
    requires "ip" !in ev.regex.names
    ensures Utils.Lookup(ItemFields(item, ev, ctx), "ip") == Utils.Lookup(ev.config.fields, "ip")
  {
    var system := Utils.FindAllSubmatches(item, ctx.systemFields, map[]);
    Utils.UnnamedKeysUntouched(item, ctx.systemFields, map[], "ip");
    Utils.UnnamedKeysUntouched(item, ev.regex, system + ev.config.fields, "ip");
  }

  /** The id the item's system fields carry; 0 when missing or not a number. */
  function ItemId(item: string, ctx: Context): nat
  {
    Convert.ForceAtoui(Utils.Lookup(Utils.FindAllSubmatches(item, ctx.systemFields, map[]), "eventid"))
  }

  /** The captured `message`, or the filter's template when it has one, with fields substituted. */
  function ItemMessage(ev: Config.CompiledEvent, fields: map<string, string>, ctx: Context): string
  {
    var msg := if |ev.config.message| > 0 then ev.config.message else Utils.Lookup(fields, "message");
    Utils.ApplyTemplate(msg, Some(fields), ctx.fieldOrder(fields))
  }

  /** A template without placeholders is the message as it stands; without one, the captured message is. */
  lemma {:induction false} MessageChoice(ev: Config.CompiledEvent, fields: map<string, string>, ctx: Context)
    ensures |ev.config.message| > 0 && '#' !in ev.config.message ==> ItemMessage(ev, fields, ctx) == ev.config.message
    ensures |ev.config.message| == 0 && '#' !in Utils.Lookup(fields, "message") ==>
      ItemMessage(ev, fields, ctx) == Utils.Lookup(fields, "message")
  {
    var msg := if |ev.config.message| > 0 then ev.config.message else Utils.Lookup(fields, "message");
    if '#' !in msg {
      Utils.TemplateUnchanged(msg, Some(fields), ctx.fieldOrder(fields));
    }
  }

  /** Every field except the address and the two time fields; never nil, possibly empty. */
  function AuxFields(m: map<string, string>): (r: map<string, string>)
    ensures "ip" !in r && "eventTime" !in r && "_eventTime" !in r
    ensures forall k | k in m && k != "ip" && k != "eventTime" && k != "_eventTime" :: k in r && r[k] == m[k]
    ensures forall k | k in r :: k in m
  {
    map k | k in m && k != "ip" && k != "eventTime" && k != "_eventTime" :: m[k]
  }

  /**
   * The body of the inner item loop for one event filter: the event the
   * item yields, or `None` when its id is not the filter's, an exclusion
   * expression matches, its creation time is not RFC 3339, or it has no
   * address.
   */
  function ItemEvent(item: string, ev: Config.CompiledEvent, path: string, ctx: Context): Option<SecurityEvent>
  {
    if !Utils.Contains(ev.config.winEventIds, ItemId(item, ctx)) then None
    else
      var fields := ItemFields(item, ev, ctx);
      var filter := Config.ExcludeFilter(ev);
      if Utils.ApplyExcludeFilter(filter, fields, ctx.excludeOrder(filter)) then None
      else
        var message := ItemMessage(ev, fields, ctx);
        match ctx.parse(Rfc3339Nano, Utils.Lookup(fields, "_eventTime"))
        case None => None
        case Some(t) =>
          if |Utils.Lookup(fields, "ip")| < 1 then None
          else Some(SecurityEvent(ev.config.sid, ev.config.gid, Dates.DateToCustomLong(t), message,
                                  Utils.Lookup(fields, "ip"), Some(AuxFields(fields)), ev.config.critical, Some(path)))
  }

  /**
   * An item yields no event exactly when its id is not the filter's, an
   * exclusion matches, the creation time is not RFC 3339 or the address is
   * empty; otherwise the event carries the filter's ids and flag, the
   * address, the time and the path.
   */
  lemma {:induction false} ItemEventSpec(item: string, ev: Config.CompiledEvent, path: string, ctx: Context)
    ensures var r := ItemEvent(item, ev, path, ctx);
      r.None? <==>
      ItemId(item, ctx) !in ev.config.winEventIds
      || Utils.ApplyExcludeFilter(Config.ExcludeFilter(ev), ItemFields(item, ev, ctx), ctx.excludeOrder(Config.ExcludeFilter(ev)))
      || ctx.parse(Rfc3339Nano, Utils.Lookup(ItemFields(item, ev, ctx), "_eventTime")).None?
      || |Utils.Lookup(ItemFields(item, ev, ctx), "ip")| < 1
    ensures var r := ItemEvent(item, ev, path, ctx);
      r.Some? ==>
      r.value.securityId == ev.config.sid && r.value.securityGroupId == ev.config.gid
      && r.value.critical == ev.config.critical && r.value.source == Some(path)
    ensures var r := ItemEvent(item, ev, path, ctx);
      r.Some? ==>
      |r.value.ipAddress| > 0 && r.value.ipAddress == Utils.Lookup(ItemFields(item, ev, ctx), "ip")
    ensures var r := ItemEvent(item, ev, path, ctx);
      r.Some? ==>
      var t := ctx.parse(Rfc3339Nano, Utils.Lookup(ItemFields(item, ev, ctx), "_eventTime"));
      t.Some? && r.value.eventTimeUtcNumber == Dates.DateToCustomLong(t.value)
    ensures var r := ItemEvent(item, ev, path, ctx);
      r.Some? ==>
      r.value.additionalFields.Some? && "ip" !in r.value.additionalFields.value
      && "eventTime" !in r.value.additionalFields.value && "_eventTime" !in r.value.additionalFields.value
  {
  }

  /** The item loop's body for one filter, as a function of the item. */
  function Yield(ev: Config.CompiledEvent, path: string, ctx: Context): string -> Option<SecurityEvent>
  {
    item => ItemEvent(item, ev, path, ctx)
  }

  /** The events one filter yields over the items, in item order; none when it names no id. */
  function FilterEvents(items: seq<string>, ev: Config.CompiledEvent, path: string, ctx: Context): (r: seq<SecurityEvent>)
    ensures |ev.config.winEventIds| == 0 ==> r == []
    ensures |r| <= |items|
  {
    if |ev.config.winEventIds| < 1 then [] else Seqs.FilterMap(items, Yield(ev, path, ctx))
  }

  /** A filter that names an id yields exactly the events its items yield. */
  lemma {:induction false} FilterEventsMembers(items: seq<string>, ev: Config.CompiledEvent, path: string, ctx: Context)
    requires |ev.config.winEventIds| > 0
    ensures forall x :: x in FilterEvents(items, ev, path, ctx) <==>
      exists i | 0 <= i < |items| :: ItemEvent(items[i], ev, path, ctx) == Some(x)
  {
    var f := Yield(ev, path, ctx);
    Seqs.FilterMapMembers(items, f);
    assert forall i | 0 <= i < |items| :: f(items[i]) == ItemEvent(items[i], ev, path, ctx);
  }

  lemma {:induction false} FilterEventsAppend(items: seq<string>, more: seq<string>, ev: Config.CompiledEvent, path: string, ctx: Context)
    ensures FilterEvents(items + more, ev, path, ctx) == FilterEvents(items, ev, path, ctx) + FilterEvents(more, ev, path, ctx)
  {
    Seqs.FilterMapAppend(items, more, Yield(ev, path, ctx));
  }

  /** The outer loop's body for one filter, as a function of the filter. */
  function FilterYield(items: seq<string>, path: string, ctx: Context): Config.CompiledEvent -> seq<SecurityEvent>
  {
    ev => FilterEvents(items, ev, path, ctx)
  }

  /** Filter-major order: all events of the first filter, then all of the second, and so on. */
  function RuleEvents(items: seq<string>, evs: seq<Config.CompiledEvent>, path: string, ctx: Context): seq<SecurityEvent>
  {
    Seqs.FlatMap(evs, FilterYield(items, path, ctx))
  }

  /** A rule yields exactly the events its filters yield. */
  lemma {:induction false} RuleEventsMembers(items: seq<string>, evs: seq<Config.CompiledEvent>, path: string, ctx: Context)
    ensures forall x :: x in RuleEvents(items, evs, path, ctx) <==>
      exists k | 0 <= k < |evs| :: x in FilterEvents(items, evs[k], path, ctx)
  {
    var g := FilterYield(items, path, ctx);
    Seqs.FlatMapMembers(evs, g);
    assert forall k | 0 <= k < |evs| :: g(evs[k]) == FilterEvents(items, evs[k], path, ctx);
  }

  lemma {:induction false} RuleEventsAppend(items: seq<string>, a: seq<Config.CompiledEvent>, b: seq<Config.CompiledEvent>,
                                           path: string, ctx: Context)
    ensures RuleEvents(items, a + b, path, ctx) == RuleEvents(items, a, path, ctx) + RuleEvents(items, b, path, ctx)
  {
    Seqs.FlatMapAppend(a, b, FilterYield(items, path, ctx));
  }

  /** An item whose id no filter of the rule names yields nothing. */
  lemma {:induction false} ForeignItemIgnored(items: seq<string>, item: string, evs: seq<Config.CompiledEvent>, path: string, ctx: Context)
    requires forall i | 0 <= i < |evs| :: ItemId(item, ctx) !in evs[i].config.winEventIds
    ensures RuleEvents(items + [item], evs, path, ctx) == RuleEvents(items, evs, path, ctx)
    decreases |evs|
  {
    if |evs| > 0 {
      var init := evs[..|evs| - 1];
      var ev := evs[|evs| - 1];
      ForeignItemIgnored(items, item, init, path, ctx);
      FilterEventsAppend(items, [item], ev, path, ctx);
      assert FilterEvents([item], ev, path, ctx) == [] by {
        assert [item][..0] == [];
        assert ItemEvent(item, ev, path, ctx).None?;
      }
      assert RuleEvents(items + [item], evs, path, ctx)
        == RuleEvents(items + [item], init, path, ctx) + FilterEvents(items + [item], ev, path, ctx);
      assert RuleEvents(items, evs, path, ctx) == RuleEvents(items, init, path, ctx) + FilterEvents(items, ev, path, ctx);
    }
  }

  // ---------------------------------------------------------------------------
  // One (rule, path) pair and the whole pass

  /** The container handed on, if any, and the in-memory positions afterwards. */
  datatype PairResult = PairResult(sent: Option<EventsContainer>, sources: seq<SourceState>)

  function SourceId(rule: Config.CompiledRule, path: string): string
  {
    rule.ruleFileName + "_" + path
  }

  /**
   * One iteration of `_RunOnce`'s inner loop: `now` is the clock reading
   * the period is taken from, `queryTime` the one taken just before the
   * query. The record is looked up (and created) before the query, so a
   * failed query still leaves a new record behind.
   */
  function CrawlPair(rule: Config.CompiledRule, path: string, sources: seq<SourceState>, ctx: Context,
                     now: Dates.Instant, queryTime: Dates.Instant): (r: PairResult)
    ensures |SearchList(rule.events)| == 0 ==> r == PairResult(None, sources)
    ensures |SearchList(rule.events)| > 0 ==> |r.sources| == |PositionStore.Find(sources, SourceId(rule, path)).1|
    ensures |SearchList(rule.events)| > 0 ==>
      var (i, found) := PositionStore.Find(sources, SourceId(rule, path));
      (forall j | 0 <= j < |found| && j != i :: r.sources[j] == found[j])
      && r.sources[i] == if r.sent.Some? then found[i].(offset := Dates.DateToCustomLong(queryTime)) else found[i]
    ensures r.sent.Some? <==>
      |SearchList(rule.events)| > 0
      && var (i, found) := PositionStore.Find(sources, SourceId(rule, path));
         ctx.query(path, SearchList(rule.events), Millis(Period(found[i].offset, rule, now))).Some?
    ensures r.sent.Some? ==>
      r.sent.value.sourceId == SourceId(rule, path) && r.sent.value.source == path
      && r.sent.value.offset == Dates.DateToCustomLong(queryTime)
  {
    var list := SearchList(rule.events);
    if |list| < 1 then PairResult(None, sources)
    else
      var id := SourceId(rule, path);
      var (i, found) := PositionStore.Find(sources, id);
      var period := Period(found[i].offset, rule, now);
      match ctx.query(path, list, Millis(period))
      case None => PairResult(None, found)
      case Some(items) =>
        var stamp := Dates.DateToCustomLong(queryTime);
        var c := EventsContainer(id, stamp, 0, path, map[], RuleEvents(items, rule.events, path, ctx));
        PairResult(Some(Containers.Clean(c)), found[i := found[i].(offset := stamp)])
  }

  /** The events handed on are those the filters yield, in filter-major order, first occurrences only, so no key repeats. */
  lemma {:induction false} PairEvents(rule: Config.CompiledRule, path: string, sources: seq<SourceState>, ctx: Context,
                   now: Dates.Instant, queryTime: Dates.Instant, items: seq<string>)
    requires |SearchList(rule.events)| > 0
    requires var (i, found) := PositionStore.Find(sources, SourceId(rule, path));
      ctx.query(path, SearchList(rule.events), Millis(Period(found[i].offset, rule, now))) == Some(items)
    ensures CrawlPair(rule, path, sources, ctx, now, queryTime).sent.Some?
    ensures CrawlPair(rule, path, sources, ctx, now, queryTime).sent.value.securityEvents
      == Utils.FirstOccurrences(RuleEvents(items, rule.events, path, ctx))
    ensures Utils.DistinctKeys(CrawlPair(rule, path, sources, ctx, now, queryTime).sent.value.securityEvents)
  {
    Utils.FirstOccurrencesDistinct(RuleEvents(items, rule.events, path, ctx));
  }

  /** Crawling the same pair again straight away asks for no more than the second since the first query. */
  lemma {:induction false} SecondQuerySince(rule: Config.CompiledRule, path: string, sources: seq<SourceState>, ctx: Context,
                         now: Dates.Instant, queryTime: Dates.Instant, later: Dates.Instant)
    requires CrawlPair(rule, path, sources, ctx, now, queryTime).sent.Some?
    requires Dates.DateToCustomLong(queryTime) > 0
    ensures var s := CrawlPair(rule, path, sources, ctx, now, queryTime).sources;
      var (i, found) := PositionStore.Find(s, SourceId(rule, path));
      found == s && found[i].offset == Dates.DateToCustomLong(queryTime)
      && later - Period(found[i].offset, rule, later) <= queryTime
  {
    var id := SourceId(rule, path);
    var (i0, found0) := PositionStore.Find(sources, id);
    var s := CrawlPair(rule, path, sources, ctx, now, queryTime).sources;
    assert s[i0].sourceId == id;
    PositionStore.FindIdempotent(sources, id);
    var (i, found) := PositionStore.Find(s, id);
    assert i == i0 by {
      assert forall j | 0 <= j < i0 :: s[j] == found0[j];
    }
    NoGapAfterQuery(queryTime, rule, later);
  }

  /** A pair only updates or appends records: every earlier record keeps its place and id. */
  lemma {:induction false} PairKeepsRecords(rule: Config.CompiledRule, path: string, sources: seq<SourceState>, ctx: Context,
                                            now: Dates.Instant)
    ensures var pair := CrawlPair(rule, path, sources, ctx, now, now);
      |sources| <= |pair.sources| && forall j | 0 <= j < |sources| :: pair.sources[j].sourceId == sources[j].sourceId
  {
    if |SearchList(rule.events)| > 0 {
      var (i, found) := PositionStore.Find(sources, SourceId(rule, path));
      assert forall j | 0 <= j < |sources| :: found[j] == sources[j];
    }
  }

  /** Every path of one rule, in order. */
  function CrawlPaths(rule: Config.CompiledRule, paths: seq<string>, sources: seq<SourceState>, ctx: Context,
                      now: Dates.Instant): (r: (seq<EventsContainer>, seq<SourceState>))
    ensures |r.0| <= |paths| && |sources| <= |r.1|
    ensures forall j | 0 <= j < |sources| :: r.1[j].sourceId == sources[j].sourceId
    ensures forall c | c in r.0 :: exists k | 0 <= k < |paths| :: c.sourceId == SourceId(rule, paths[k]) && c.source == paths[k]
    decreases |paths|
  {
    if |paths| == 0 then ([], sources)
    else
      var pair := CrawlPair(rule, paths[0], sources, ctx, now, now);
      PairKeepsRecords(rule, paths[0], sources, ctx, now);
      var (rest, final) := CrawlPaths(rule, paths[1..], pair.sources, ctx, now);
      assert forall c | c in rest :: exists k | 0 <= k < |paths| :: c.sourceId == SourceId(rule, paths[k]) && c.source == paths[k] by {
        forall c | c in rest
          ensures exists k | 0 <= k < |paths| :: c.sourceId == SourceId(rule, paths[k]) && c.source == paths[k]
        {
          var k :| 0 <= k < |paths[1..]| && c.sourceId == SourceId(rule, paths[1..][k]) && c.source == paths[1..][k];
          assert paths[1..][k] == paths[k + 1];
        }
      }
      ((if pair.sent.Some? then [pair.sent.value] else []) + rest, final)
  }

  /**
   * `_RunOnce`: every rule, every path of it, against the positions the
   * previous pairs left, with one clock reading for the whole pass.
   */
  function RunOnce(rules: seq<Config.CompiledRule>, sources: seq<SourceState>, ctx: Context, now: Dates.Instant)
    : (r: (seq<EventsContainer>, seq<SourceState>))
    ensures |sources| <= |r.1|
    ensures forall j | 0 <= j < |sources| :: r.1[j].sourceId == sources[j].sourceId
    ensures forall c | c in r.0 :: exists k, p | 0 <= k < |rules| && p in rules[k].config.paths :: c.sourceId == SourceId(rules[k], p)
    decreases |rules|
  {
    if |rules| == 0 then ([], sources)
    else
      var (mine, mid) := CrawlPaths(rules[0], rules[0].config.paths, sources, ctx, now);
      var (rest, final) := RunOnce(rules[1..], mid, ctx, now);
      assert forall c | c in mine + rest :: exists k, p | 0 <= k < |rules| && p in rules[k].config.paths :: c.sourceId == SourceId(rules[k], p) by {
        forall c | c in mine + rest
          ensures exists k, p | 0 <= k < |rules| && p in rules[k].config.paths :: c.sourceId == SourceId(rules[k], p)
        {
          if c in mine {
            var k :| 0 <= k < |rules[0].config.paths| && c.sourceId == SourceId(rules[0], rules[0].config.paths[k]);
            assert rules[0].config.paths[k] in rules[0].config.paths;
          } else {
            var k, p :| 0 <= k < |rules[1..]| && p in rules[1..][k].config.paths && c.sourceId == SourceId(rules[1..][k], p);
            assert rules[1..][k] == rules[k + 1];
          }
        }
      }
      (mine + rest, final)
  }
}
