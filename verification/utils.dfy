/**
 * The rule helpers shared by both crawlers: membership, merging named
 * captures into a field map, splitting on delimiter matches, the exclusion
 * test, `#field` message templating and the duplicate filter.
 *
 * Go's `regexp` package is an oracle here: a `Regex` carries its
 * subexpression names and a function giving its leftmost-first,
 * non-overlapping matches on a text, which is what `FindAllStringSubmatch`,
 * `FindAllStringIndex` and `FindStringSubmatch` all report.
 */
module Utils {
  import opened Wrappers
  import opened Strings
  import opened Events

  // ---------------------------------------------------------------------------
  // Membership

  /** `Contains` and `ContainsUint`: a front-to-back scan for an equal element. */
  function Contains<T(==)>(s: seq<T>, e: T): (r: bool)
    ensures r <==> e in s
    decreases |s|
  {
    if |s| == 0 then false
    else if s[0] == e then true
    else Contains(s[1..], e)
  }

  // ---------------------------------------------------------------------------
  // Regular expressions as an oracle

  /** One match: the span it covers in the text and its groups, group 0 first. */
  datatype Match = Match(start: nat, end: nat, groups: seq<string>)

  /**
   * A compiled expression. `names` is `SubexpNames()`: index 0 is the whole
   * match and is unnamed, unnamed groups have the empty name.
   */
  datatype Regex = Regex(names: seq<string>, findAll: string -> seq<Match>)

  predicate MatchString(re: Regex, s: string)
  {
    |re.findAll(s)| > 0
  }

  /** `FindStringSubmatch`: the groups of the leftmost match, if any. */
  function FindStringSubmatch(re: Regex, s: string): Option<seq<string>>
  {
    var ms := re.findAll(s);
    if |ms| == 0 then None else Some(ms[0].groups)
  }

  /** Group `i` of a match; a match always has one group per name. */
  function Group(groups: seq<string>, i: nat): string
  {
    if i < |groups| then groups[i] else ""
  }

  // ---------------------------------------------------------------------------
  // Merging named captures into a field map

  /** The (name, value) pairs of the first `n` groups that are named and captured something. */
  function Captures(names: seq<string>, groups: seq<string>, n: nat): seq<(string, string)>
    requires n <= |names|
  {
    if n == 0 then []
    else
      var v := Group(groups, n - 1);
      Captures(names, groups, n - 1)
        + (if |names[n - 1]| > 0 && |v| > 0 then [(names[n - 1], v)] else [])
  }

  /** The captures of every match, matches in text order, groups in index order. */
  function AllCaptures(names: seq<string>, ms: seq<Match>): seq<(string, string)>
  {
    if |ms| == 0 then []
    else AllCaptures(names, ms[..|ms| - 1]) + Captures(names, ms[|ms| - 1].groups, |names|)
  }

  /** Successive assignments `m[name] = value`. */
  function Assign(m: map<string, string>, pairs: seq<(string, string)>): map<string, string>
  {
    if |pairs| == 0 then m
    else
      var p := pairs[|pairs| - 1];
      Assign(m, pairs[..|pairs| - 1])[p.0 := p.1]
  }

  /** The value of the last pair with key `k`, if there is one. */
  function LastValue(pairs: seq<(string, string)>, k: string): Option<string>
  {
    if |pairs| == 0 then None
    else if pairs[|pairs| - 1].0 == k then Some(pairs[|pairs| - 1].1)
    else LastValue(pairs[..|pairs| - 1], k)
  }

  lemma {:induction false} AssignLastWins(m: map<string, string>, pairs: seq<(string, string)>)
    ensures forall k :: k in Assign(m, pairs) <==> k in m || LastValue(pairs, k).Some?
    ensures forall k | k in Assign(m, pairs) ::
      Assign(m, pairs)[k] == if LastValue(pairs, k).Some? then LastValue(pairs, k).value else m[k]
  {
    if |pairs| > 0 {
      AssignLastWins(m, pairs[..|pairs| - 1]);
    }
  }

  lemma {:induction false} LastValueAppend(a: seq<(string, string)>, b: seq<(string, string)>, k: string)
    ensures LastValue(a + b, k) == if LastValue(b, k).Some? then LastValue(b, k) else LastValue(a, k)
    decreases |b|
  {
    if |b| == 0 {
      assert a + b == a;
    } else {
      assert (a + b)[..|a + b| - 1] == a + b[..|b| - 1];
      LastValueAppend(a, b[..|b| - 1], k);
    }
  }

  /** A pair is captured exactly when some named group captured a non-empty value. */
  lemma {:induction false} CapturesMembership(names: seq<string>, groups: seq<string>, n: nat, k: string, v: string)
    requires n <= |names|
    ensures (k, v) in Captures(names, groups, n) <==>
      |k| > 0 && |v| > 0 && exists i | 0 <= i < n :: names[i] == k && Group(groups, i) == v
  {
    if n > 0 {
      CapturesMembership(names, groups, n - 1, k, v);
    }
  }

  lemma {:induction false} AllCapturesNonEmpty(names: seq<string>, ms: seq<Match>)
    ensures forall p | p in AllCaptures(names, ms) :: |p.0| > 0 && |p.1| > 0 && p.0 in names
  {
    if |ms| > 0 {
      AllCapturesNonEmpty(names, ms[..|ms| - 1]);
      forall p | p in Captures(names, ms[|ms| - 1].groups, |names|)
        ensures |p.0| > 0 && |p.1| > 0 && p.0 in names
      {
        CapturesMembership(names, ms[|ms| - 1].groups, |names|, p.0, p.1);
      }
    }
  }

  lemma {:induction false} LastValueFound(pairs: seq<(string, string)>, k: string)
    requires LastValue(pairs, k).Some?
    ensures (k, LastValue(pairs, k).value) in pairs
  {
    if pairs[|pairs| - 1].0 != k {
      LastValueFound(pairs[..|pairs| - 1], k);
    }
  }

  /**
   * `RegexFindAllSubmatches`: every match in order, every named group with a
   * non-empty capture assigned into the map, so a later capture of the same
   * name replaces an earlier one.
   */
  function FindAllSubmatches(text: string, re: Regex, m: map<string, string>): map<string, string>
  {
    Assign(m, AllCaptures(re.names, re.findAll(text)))
  }

  /**
   * A key is in the result exactly when it was in the map or some named
   * group captured a non-empty value for it; its value is the last such
   * capture, else the old value.
   */
  lemma {:induction false} FindAllSubmatchesSpec(text: string, re: Regex, m: map<string, string>)
    ensures var r := FindAllSubmatches(text, re, m);
      forall k :: k in r <==> k in m || LastValue(AllCaptures(re.names, re.findAll(text)), k).Some?
    ensures var r := FindAllSubmatches(text, re, m);
      forall k | k in r ::
        var last := LastValue(AllCaptures(re.names, re.findAll(text)), k);
        r[k] == if last.Some? then last.value else m[k]
  {
    AssignLastWins(m, AllCaptures(re.names, re.findAll(text)));
  }

  /** An empty capture never erases an entry: entries only appear or take a non-empty value. */
  lemma {:induction false} EmptyCapturesNeverErase(text: string, re: Regex, m: map<string, string>)
    ensures m.Keys <= FindAllSubmatches(text, re, m).Keys
    ensures forall k | k in FindAllSubmatches(text, re, m) ::
      FindAllSubmatches(text, re, m)[k] != "" || (k in m && FindAllSubmatches(text, re, m)[k] == m[k])
  {
    var caps := AllCaptures(re.names, re.findAll(text));
    FindAllSubmatchesSpec(text, re, m);
    AllCapturesNonEmpty(re.names, re.findAll(text));
    forall k | LastValue(caps, k).Some?
      ensures LastValue(caps, k).value != ""
    {
      LastValueFound(caps, k);
    }
  }

  /** Keys the expression does not name are left exactly as they were. */
  lemma {:induction false} UnnamedKeysUntouched(text: string, re: Regex, m: map<string, string>, k: string)
    requires k !in re.names
    ensures k in FindAllSubmatches(text, re, m) <==> k in m
    ensures k in m ==> FindAllSubmatches(text, re, m)[k] == m[k]
  {
    var caps := AllCaptures(re.names, re.findAll(text));
    FindAllSubmatchesSpec(text, re, m);
    AllCapturesNonEmpty(re.names, re.findAll(text));
    if LastValue(caps, k).Some? {
      LastValueFound(caps, k);
    }
  }

  /** A name captured by the last match takes that match's value, whatever earlier matches held. */
  lemma {:induction false} LaterMatchWins(text: string, re: Regex, m: map<string, string>, k: string)
    requires |re.findAll(text)| > 0
    requires LastValue(Captures(re.names, re.findAll(text)[|re.findAll(text)| - 1].groups, |re.names|), k).Some?
    ensures k in FindAllSubmatches(text, re, m)
    ensures FindAllSubmatches(text, re, m)[k] ==
      LastValue(Captures(re.names, re.findAll(text)[|re.findAll(text)| - 1].groups, |re.names|), k).value
  {
    var ms := re.findAll(text);
    FindAllSubmatchesSpec(text, re, m);
    LastValueAppend(AllCaptures(re.names, ms[..|ms| - 1]), Captures(re.names, ms[|ms| - 1].groups, |re.names|), k);
  }

  // ---------------------------------------------------------------------------
  // Splitting on delimiter matches

  /** The matches lie inside the text, left to right, without overlapping. */
  predicate Ordered(text: string, ms: seq<Match>)
  {
    (forall i | 0 <= i < |ms| :: ms[i].start <= ms[i].end <= |text|) &&
    (forall i, j | 0 <= i < j < |ms| :: ms[i].end <= ms[j].start)
  }

  /** The matched delimiter texts. */
  function Delimiters(text: string, ms: seq<Match>): (d: seq<string>)
    requires Ordered(text, ms)
    ensures |d| == |ms|
    ensures forall i | 0 <= i < |ms| :: d[i] == text[ms[i].start..ms[i].end]
    decreases |ms|
  {
    if |ms| == 0 then []
    else
      OrderedTail(text, ms);
      [text[ms[0].start..ms[0].end]] + Delimiters(text, ms[1..])
  }

  lemma {:induction false} OrderedTail(text: string, ms: seq<Match>)
    requires |ms| > 0 && Ordered(text, ms)
    ensures Ordered(text, ms[1..])
  {
    var t := ms[1..];
    forall i | 0 <= i < |t|
      ensures t[i].start <= t[i].end <= |text|
    {
      assert t[i] == ms[i + 1];
    }
    forall i, j | 0 <= i < j < |t|
      ensures t[i].end <= t[j].start
    {
      assert t[i] == ms[i + 1] && t[j] == ms[j + 1];
    }
  }

  /** `p[0] + d[0] + p[1] + ... + d[n-1] + p[n]`. */
  function Interleave(p: seq<string>, d: seq<string>): string
    requires |p| == |d| + 1
    decreases |d|
  {
    if |d| == 0 then p[0] else p[0] + d[0] + Interleave(p[1..], d[1..])
  }

  function SplitFrom(text: string, ms: seq<Match>, last: nat): (r: seq<string>)
    requires last <= |text| && Ordered(text, ms)
    requires forall i | 0 <= i < |ms| :: last <= ms[i].start
    ensures |r| == |ms| + 1
    decreases |ms|
  {
    if |ms| == 0 then [text[last..]]
    else
      OrderedTail(text, ms);
      [text[last..ms[0].start]] + SplitFrom(text, ms[1..], ms[0].end)
  }

  /** The pieces are the gaps: before the first match, between consecutive matches, after the last. */
  lemma {:induction false} SplitFromPieces(text: string, ms: seq<Match>, last: nat)
    requires last <= |text| && Ordered(text, ms)
    requires forall i | 0 <= i < |ms| :: last <= ms[i].start
    ensures var r := SplitFrom(text, ms, last);
      r[|ms|] == text[if |ms| == 0 then last else ms[|ms| - 1].end..]
    ensures |ms| > 0 ==> SplitFrom(text, ms, last)[0] == text[last..ms[0].start]
    ensures forall i | 0 < i < |ms| :: SplitFrom(text, ms, last)[i] == text[ms[i - 1].end..ms[i].start]
    decreases |ms|
  {
    if |ms| > 0 {
      OrderedTail(text, ms);
      var t := ms[1..];
      var rest := SplitFrom(text, t, ms[0].end);
      SplitFromPieces(text, t, ms[0].end);
      var r := SplitFrom(text, ms, last);
      assert r == [text[last..ms[0].start]] + rest;
      forall i | 0 < i < |ms|
        ensures r[i] == text[ms[i - 1].end..ms[i].start]
      {
        assert r[i] == rest[i - 1];
        if i > 1 {
          assert t[i - 2] == ms[i - 1] && t[i - 1] == ms[i];
        }
      }
      if |ms| > 1 {
        assert t[|t| - 1] == ms[|ms| - 1];
      }
    }
  }

  lemma {:induction false} SplitFromInterleaves(text: string, ms: seq<Match>, last: nat)
    requires last <= |text| && Ordered(text, ms)
    requires forall i | 0 <= i < |ms| :: last <= ms[i].start
    ensures Interleave(SplitFrom(text, ms, last), Delimiters(text, ms)) == text[last..]
    decreases |ms|
  {
    if |ms| > 0 {
      var p := SplitFrom(text, ms, last);
      var d := Delimiters(text, ms);
      var m := ms[0];
      var p' := SplitFrom(text, ms[1..], m.end);
      var d' := Delimiters(text, ms[1..]);
      assert p == [text[last..m.start]] + p';
      assert p[1..] == p';
      assert d[1..] == d';
      SplitFromInterleaves(text, ms[1..], m.end);
      assert Interleave(p, d) == p[0] + d[0] + Interleave(p', d');
      SliceSplits(text, last, m.start, m.end);
    }
  }

  lemma {:induction false} SliceSplits(text: string, i: nat, j: nat, k: nat)
    requires i <= j <= k <= |text|
    ensures text[i..] == text[i..j] + text[j..k] + text[k..]
  {
  }

  /**
   * `RegexSplit`: the pieces between delimiter matches. There is one more
   * piece than there are matches, and putting the matched delimiters back
   * between the pieces gives the text again.
   */
  function RegexSplit(text: string, re: Regex): (r: seq<string>)
    requires Ordered(text, re.findAll(text))
    ensures |r| == |re.findAll(text)| + 1
    ensures Interleave(r, Delimiters(text, re.findAll(text))) == text
    ensures |re.findAll(text)| == 0 ==> r == [text]
  {
    SplitFromInterleaves(text, re.findAll(text), 0);
    SplitFrom(text, re.findAll(text), 0)
  }

  // ---------------------------------------------------------------------------
  // The exclusion test

  /** A missing map entry reads as the empty string, as in Go. */
  function Lookup(m: map<string, string>, k: string): string
  {
    if k in m then m[k] else ""
  }

  /** The exclusion regex registered under `name` matches that field's non-empty value. */
  predicate ExcludesBy(filter: map<string, Option<Regex>>, fields: map<string, string>, name: string)
  {
    name in filter && filter[name].Some? && |Lookup(fields, name)| > 0
    && MatchString(filter[name].value, Lookup(fields, name))
  }

  predicate Excluded(filter: map<string, Option<Regex>>, fields: map<string, string>)
  {
    exists name | name in filter :: ExcludesBy(filter, fields, name)
  }

  /** `order` lists every key of the map and nothing else: a Go map iteration. */
  ghost predicate IsKeyOrder<V>(order: seq<string>, m: map<string, V>)
  {
    forall k :: k in order <==> k in m
  }

  function ScanExcludes(filter: map<string, Option<Regex>>, fields: map<string, string>, order: seq<string>): bool
    decreases |order|
  {
    if |order| == 0 then false
    else ScanExcludes(filter, fields, order[1..]) || ExcludesBy(filter, fields, order[0])
  }

  /** The scan reports an exclusion exactly when some key of the order excludes. */
  lemma {:induction false} ScanExcludesSpec(filter: map<string, Option<Regex>>, fields: map<string, string>, order: seq<string>)
    ensures ScanExcludes(filter, fields, order) <==> exists i | 0 <= i < |order| :: ExcludesBy(filter, fields, order[i])
    decreases |order|
  {
    if |order| > 0 {
      ScanExcludesSpec(filter, fields, order[1..]);
      if ScanExcludes(filter, fields, order[1..]) {
        var i :| 0 <= i < |order[1..]| && ExcludesBy(filter, fields, order[1..][i]);
        assert ExcludesBy(filter, fields, order[i + 1]);
      }
      if exists i | 0 <= i < |order| :: ExcludesBy(filter, fields, order[i]) {
        var i :| 0 <= i < |order| && ExcludesBy(filter, fields, order[i]);
        if i > 0 {
          assert order[1..][i - 1] == order[i];
        }
      }
    }
  }

  /**
   * `ApplyExcludeFilterToSecurityEvents`, visiting the filter's entries in
   * the iteration order `order`. Whatever that order, the answer is whether
   * some field's exclusion regex matches its non-empty value.
   */
  function ApplyExcludeFilter(filter: map<string, Option<Regex>>, fields: map<string, string>, order: seq<string>): bool
  {
    if |filter| > 0 then ScanExcludes(filter, fields, order) else false
  }

  lemma {:induction false} ApplyExcludeFilterSpec(filter: map<string, Option<Regex>>, fields: map<string, string>, order: seq<string>)
    ensures IsKeyOrder(order, filter) ==> (ApplyExcludeFilter(filter, fields, order) <==> Excluded(filter, fields))
    ensures |filter| == 0 ==> !ApplyExcludeFilter(filter, fields, order)
  {
    ScanExcludesSpec(filter, fields, order);
    if IsKeyOrder(order, filter) && Excluded(filter, fields) {
      var name :| name in filter && ExcludesBy(filter, fields, name);
      assert name in order;
      var i :| 0 <= i < |order| && order[i] == name;
    }
  }

  // ---------------------------------------------------------------------------
  // `#field` templating

  /** The key order a Go map iteration happens to produce. */
  type KeyOrder = map<string, string> -> seq<string>

  function Substitute(msg: string, fields: map<string, string>, order: seq<string>): string
    decreases |order|
  {
    if |order| == 0 then msg
    else
      var k := order[0];
      Substitute(if k in fields then ReplaceAll(msg, "#" + k, fields[k]) else msg, fields, order[1..])
  }

  /**
   * `ApplyFilterToSecurityMessage`: each `#key` in a non-empty message is
   * replaced by the field's value, keys taken in map iteration order; the
   * replacement limit of the source is the message length, which no count of
   * non-empty occurrences can exceed, so every occurrence is replaced.
   */
  function ApplyTemplate(msg: string, fields: Option<map<string, string>>, order: seq<string>): (r: string)
    ensures |msg| == 0 || fields.None? || '#' !in msg ==> r == msg
  {
    if |msg| > 0 && fields.Some? then
      NoHashNoChange(msg, fields.value, order);
      Substitute(msg, fields.value, order)
    else msg
  }

  lemma {:induction false} NoHashNoChange(msg: string, fields: map<string, string>, order: seq<string>)
    ensures '#' !in msg ==> Substitute(msg, fields, order) == msg
  {
    if '#' !in msg {
      SubstituteIdle(msg, fields, order);
    }
  }

  lemma {:induction false} SubstituteIdle(msg: string, fields: map<string, string>, order: seq<string>)
    requires '#' !in msg
    ensures Substitute(msg, fields, order) == msg
    decreases |order|
  {
    if |order| > 0 {
      var k := order[0];
      if k in fields {
        HeadAbsent(msg, "#" + k);
        ReplaceAllIdle(msg, "#" + k, fields[k]);
      }
      SubstituteIdle(msg, fields, order[1..]);
    }
  }

  /**
   * The message is returned unchanged when it is empty, when there is no
   * field map, or when it holds no `#` at all, in every iteration order.
   */
  lemma {:induction false} TemplateUnchanged(msg: string, fields: Option<map<string, string>>, order: seq<string>)
    requires |msg| == 0 || fields.None? || '#' !in msg
    ensures ApplyTemplate(msg, fields, order) == msg
  {
    if '#' !in msg && fields.Some? {
      SubstituteIdle(msg, fields.value, order);
    }
  }

  /** With a single field, every occurrence of its `#key` is replaced by its value. */
  lemma {:induction false} TemplateSingleField(msg: string, k: string, v: string)
    requires |msg| > 0
    ensures ApplyTemplate(msg, Some(map[k := v]), [k]) == ReplaceAll(msg, "#" + k, v)
  {
    var f := map[k := v];
    assert Substitute(msg, f, [k]) == Substitute(ReplaceAll(msg, "#" + k, v), f, []);
  }

  /**
   * The result can depend on the iteration order even when no key is a
   * prefix of another: substituting `#a` can create a `#b`.
   */
  lemma {:induction false} TemplateOrderMatters()
    ensures ApplyTemplate("##a", Some(map["a" := "b", "b" := "x"]), ["a", "b"]) == "x"
    ensures ApplyTemplate("##a", Some(map["a" := "b", "b" := "x"]), ["b", "a"]) == "#b"
  {
    var f := map["a" := "b", "b" := "x"];
    assert ReplaceAll("##a", "#a", "b") == "#b" by {
      ReplaceAllShort("a", "#a", "b");
      assert ReplaceAll("#a", "#a", "b") == "b" + ReplaceAll("", "#a", "b");
    }
    assert ReplaceAll("#b", "#b", "x") == "x";
    assert ReplaceAll("##a", "#b", "x") == "##a" by {
      HeadAbsent("a", "#b");
      ReplaceAllIdle("a", "#b", "x");
    }
  }

  /** A piece of a message template: literal text, or a `#key` placeholder. */
  datatype Piece = Text(text: string) | Field(key: string)

  /** A piece as it reads once the keys in `done` have been filled in from `fields`. */
  function Shown(p: Piece, fields: map<string, string>, done: set<string>): string
  {
    match p
    case Text(s) => s
    case Field(k) => if k in done && k in fields then fields[k] else "#" + k
  }

  /** The message a template reads as once the keys in `done` are filled in. */
  function Render(ps: seq<Piece>, fields: map<string, string>, done: set<string>): string
    decreases |ps|
  {
    if |ps| == 0 then "" else Shown(ps[0], fields, done) + Render(ps[1..], fields, done)
  }

  /**
   * The reference definition: one left-to-right pass that puts each
   * field's value in place of its placeholder, all keys at once.
   */
  function Fill(ps: seq<Piece>, fields: map<string, string>): string
  {
    Render(ps, fields, fields.Keys)
  }

  /**
   * A template the key-by-key replacement handles cleanly: the text and the
   * keys and values hold no `#`, every placeholder names a field, and no
   * key is a prefix of another.
   */
  predicate TemplateReady(ps: seq<Piece>, fields: map<string, string>)
  {
    (forall i | 0 <= i < |ps| :: ps[i].Text? ==> '#' !in ps[i].text)
    && (forall i | 0 <= i < |ps| :: ps[i].Field? ==> ps[i].key in fields)
    && (forall k | k in fields :: '#' !in k && '#' !in fields[k])
    && (forall a, b | a in fields && b in fields && a != b :: !StartsWith(b, a))
  }

  lemma {:induction false} ReadyTail(ps: seq<Piece>, fields: map<string, string>)
    requires |ps| > 0 && TemplateReady(ps, fields)
    ensures TemplateReady(ps[1..], fields)
  {
    assert forall i | 0 <= i < |ps[1..]| :: ps[1..][i] == ps[i + 1];
  }

  /** An unfilled placeholder for another key does not start a match of `#k`, since neither key is a prefix of the other. */
  lemma {:induction false} OtherKeyNoMatch(j: string, k: string, rest: string)
    requires !StartsWith(j, k) && !StartsWith(k, j)
    ensures !StartsWith(['#'] + (j + rest), "#" + k)
  {
    var s, pat := ['#'] + (j + rest), "#" + k;
    if StartsWith(s, pat) {
      assert s[..|pat|] == pat;
      if |k| <= |j| {
        forall i | 0 <= i < |k|
          ensures j[i] == k[i]
        {
          assert s[i + 1] == j[i] && pat[i + 1] == k[i];
        }
      } else {
        forall i | 0 <= i < |j|
          ensures k[i] == j[i]
        {
          assert s[i + 1] == j[i] && pat[i + 1] == k[i];
        }
      }
      assert false;
    }
  }

  /** Replacing one key's placeholders fills in exactly that key. */
  lemma {:induction false} ReplaceFillsKey(ps: seq<Piece>, fields: map<string, string>, done: set<string>, k: string)
    requires TemplateReady(ps, fields) && k in fields
    ensures ReplaceAll(Render(ps, fields, done), "#" + k, fields[k]) == Render(ps, fields, done + {k})
    decreases |ps|
  {
    var pat, v := "#" + k, fields[k];
    if |ps| > 0 {
      ReadyTail(ps, fields);
      ReplaceFillsKey(ps[1..], fields, done, k);
      var rest := Render(ps[1..], fields, done);
      match ps[0]
      case Text(s) =>
        assert '#' !in s;
        ReplaceAllSkipPlain(s, rest, pat, v);
      case Field(j) =>
        assert j in fields;
        if j in done {
          ReplaceAllSkipPlain(fields[j], rest, pat, v);
        } else if j == k {
          ReplaceAllAtHead(pat, rest, v);
        } else {
          assert ("#" + j) + rest == ['#'] + (j + rest);
          OtherKeyNoMatch(j, k, rest);
          ReplaceAllSkipHead('#', j + rest, pat, v);
          ReplaceAllSkipPlain(j, rest, pat, v);
        }
    }
  }

  /** The keys of `order` that have a field. */
  function VisitedKeys(order: seq<string>, fields: map<string, string>): set<string>
  {
    set k | k in order && k in fields
  }

  /** Substituting key by key fills in exactly the visited keys. */
  lemma {:induction false} SubstituteFills(ps: seq<Piece>, fields: map<string, string>, done: set<string>, order: seq<string>)
    requires TemplateReady(ps, fields)
    ensures Substitute(Render(ps, fields, done), fields, order) == Render(ps, fields, done + VisitedKeys(order, fields))
    decreases |order|
  {
    if |order| > 0 {
      var k := order[0];
      var done' := if k in fields then done + {k} else done;
      if k in fields {
        ReplaceFillsKey(ps, fields, done, k);
      }
      SubstituteFills(ps, fields, done', order[1..]);
      assert done' + VisitedKeys(order[1..], fields) == done + VisitedKeys(order, fields) by {
        assert forall x :: x in order <==> x == k || x in order[1..];
      }
    } else {
      assert VisitedKeys(order, fields) == {};
      assert done + {} == done;
    }
  }

  /** Renderings agree when the two key sets agree on every placeholder. */
  lemma {:induction false} RenderAgrees(ps: seq<Piece>, fields: map<string, string>, d1: set<string>, d2: set<string>)
    requires forall i | 0 <= i < |ps| :: ps[i].Field? ==> (ps[i].key in d1 <==> ps[i].key in d2)
    ensures Render(ps, fields, d1) == Render(ps, fields, d2)
    decreases |ps|
  {
    if |ps| > 0 {
      assert forall i | 0 <= i < |ps[1..]| :: ps[1..][i] == ps[i + 1];
      RenderAgrees(ps[1..], fields, d1, d2);
    }
  }

  /**
   * For a message built from `#`-free text and placeholders of fields whose
   * keys and values hold no `#` and none of which is a prefix of another,
   * the key-by-key replacement equals the one-pass fill in every iteration
   * order that visits each placeholder's key; so all such orders agree.
   */
  lemma {:induction false} TemplateFill(ps: seq<Piece>, fields: map<string, string>, order: seq<string>)
    requires TemplateReady(ps, fields)
    requires forall i | 0 <= i < |ps| :: ps[i].Field? ==> ps[i].key in order
    ensures ApplyTemplate(Render(ps, fields, {}), Some(fields), order) == Fill(ps, fields)
  {
    var msg := Render(ps, fields, {});
    SubstituteFills(ps, fields, {}, order);
    assert {} + VisitedKeys(order, fields) == VisitedKeys(order, fields);
    RenderAgrees(ps, fields, VisitedKeys(order, fields), fields.Keys);
    if |msg| == 0 {
      SubstituteIdle(msg, fields, order);
    }
  }

  /** Two honest iteration orders fill such a template in the same way. */
  lemma {:induction false} TemplateOrderIndependent(ps: seq<Piece>, fields: map<string, string>, o1: seq<string>, o2: seq<string>)
    requires TemplateReady(ps, fields) && IsKeyOrder(o1, fields) && IsKeyOrder(o2, fields)
    ensures ApplyTemplate(Render(ps, fields, {}), Some(fields), o1) == ApplyTemplate(Render(ps, fields, {}), Some(fields), o2)
  {
    TemplateFill(ps, fields, o1);
    TemplateFill(ps, fields, o2);
  }

  // ---------------------------------------------------------------------------
  // Duplicate filtering

  function KeySet(s: seq<SecurityEvent>): set<EventKey>
  {
    set i | 0 <= i < |s| :: Key(s[i])
  }

  /** Keys are pairwise distinct. */
  predicate DistinctKeys(s: seq<SecurityEvent>)
  {
    forall i, j | 0 <= i < j < |s| :: Key(s[i]) != Key(s[j])
  }

  /** The reference definition: the events whose key no earlier event has, in input order. */
  function FirstOccurrences(s: seq<SecurityEvent>): seq<SecurityEvent>
  {
    if |s| == 0 then []
    else
      var p := s[..|s| - 1];
      FirstOccurrences(p) + (if Key(s[|s| - 1]) in KeySet(p) then [] else [s[|s| - 1]])
  }

  /** The source's inner loop: is there already an event with this key? */
  function HasKey(target: seq<SecurityEvent>, k: EventKey): (r: bool)
    ensures r <==> k in KeySet(target)
  {
    if |target| == 0 then false
    else
      assert KeySet(target) == KeySet(target[..|target| - 1]) + {Key(target[|target| - 1])} by {
        assert forall i | 0 <= i < |target| - 1 :: target[..|target| - 1][i] == target[i];
      }
      Key(target[|target| - 1]) == k || HasKey(target[..|target| - 1], k)
  }

  /** The outer loop: append each event whose key is not yet in the output. */
  function DedupInto(target: seq<SecurityEvent>, rest: seq<SecurityEvent>): seq<SecurityEvent>
    decreases |rest|
  {
    if |rest| == 0 then target
    else DedupInto(if HasKey(target, Key(rest[0])) then target else target + [rest[0]], rest[1..])
  }

  lemma {:induction false} KeySetAppend(s: seq<SecurityEvent>, e: SecurityEvent)
    ensures KeySet(s + [e]) == KeySet(s) + {Key(e)}
  {
    assert forall i | 0 <= i < |s| :: (s + [e])[i] == s[i];
    assert (s + [e])[|s|] == e;
  }

  lemma {:induction false} FirstOccurrencesKeys(s: seq<SecurityEvent>)
    ensures KeySet(FirstOccurrences(s)) == KeySet(s)
  {
    if |s| > 0 {
      var p := s[..|s| - 1];
      FirstOccurrencesKeys(p);
      assert s == p + [s[|s| - 1]];
      KeySetAppend(p, s[|s| - 1]);
      if Key(s[|s| - 1]) !in KeySet(p) {
        KeySetAppend(FirstOccurrences(p), s[|s| - 1]);
      } else {
        assert FirstOccurrences(s) == FirstOccurrences(p);
        assert KeySet(s) == KeySet(p);
      }
    }
  }

  lemma {:induction false} DedupIntoIsFirstOccurrences(p: seq<SecurityEvent>, rest: seq<SecurityEvent>)
    ensures DedupInto(FirstOccurrences(p), rest) == FirstOccurrences(p + rest)
    decreases |rest|
  {
    if |rest| == 0 {
      assert p + rest == p;
    } else {
      var q := p + [rest[0]];
      assert q[..|q| - 1] == p && q[|q| - 1] == rest[0];
      FirstOccurrencesKeys(p);
      assert FirstOccurrences(q) == if HasKey(FirstOccurrences(p), Key(rest[0])) then FirstOccurrences(p)
        else FirstOccurrences(p) + [rest[0]];
      assert p + rest == q + rest[1..];
      DedupIntoIsFirstOccurrences(q, rest[1..]);
    }
  }

  lemma {:induction false} FirstOccurrencesDistinct(s: seq<SecurityEvent>)
    ensures DistinctKeys(FirstOccurrences(s))
    ensures |FirstOccurrences(s)| <= |s|
  {
    if |s| > 0 {
      var p := s[..|s| - 1];
      FirstOccurrencesDistinct(p);
      FirstOccurrencesKeys(p);
      var f := FirstOccurrences(p);
      forall i | 0 <= i < |f|
        ensures Key(f[i]) in KeySet(p)
      {
        assert Key(f[i]) in KeySet(f);
      }
    }
  }

  lemma {:induction false} FirstOccurrencesOfDistinct(s: seq<SecurityEvent>)
    requires DistinctKeys(s)
    ensures FirstOccurrences(s) == s
  {
    if |s| > 0 {
      var p := s[..|s| - 1];
      assert DistinctKeys(p) by {
        forall i, j | 0 <= i < j < |p|
          ensures Key(p[i]) != Key(p[j])
        {
          assert p[i] == s[i] && p[j] == s[j];
        }
      }
      FirstOccurrencesOfDistinct(p);
      assert Key(s[|s| - 1]) !in KeySet(p) by {
        forall i | 0 <= i < |p|
          ensures Key(p[i]) != Key(s[|s| - 1])
        {
          assert p[i] == s[i];
        }
      }
      assert s == p + [s[|s| - 1]];
    }
  }

  /**
   * `CleanSecurityEventsFromDublicates`: fewer than two events are returned
   * as they are; otherwise the first event of each (SecurityId, IpAddress,
   * EventTimeUtcNumber) key is kept, in input order.
   */
  function CleanDuplicates(s: seq<SecurityEvent>): (r: seq<SecurityEvent>)
    ensures r == FirstOccurrences(s)
    ensures |s| < 2 ==> r == s
  {
    if |s| < 2 then
      ShortFirstOccurrences(s);
      s
    else
      DedupIntoIsFirstOccurrences([], s);
      assert [] + s == s;
      DedupInto([], s)
  }

  lemma {:induction false} ShortFirstOccurrences(s: seq<SecurityEvent>)
    requires |s| < 2
    ensures FirstOccurrences(s) == s
  {
    if |s| == 1 {
      assert s[..0] == [];
      assert KeySet(s[..0]) == {};
    }
  }

  /** Every key of the input survives exactly once, and the result is never longer. */
  lemma {:induction false} CleanDuplicatesSpec(s: seq<SecurityEvent>)
    ensures DistinctKeys(CleanDuplicates(s))
    ensures KeySet(CleanDuplicates(s)) == KeySet(s)
    ensures |CleanDuplicates(s)| <= |s|
  {
    FirstOccurrencesDistinct(s);
    FirstOccurrencesKeys(s);
  }

  lemma {:induction false} CleanDuplicatesIdempotent(s: seq<SecurityEvent>)
    ensures CleanDuplicates(CleanDuplicates(s)) == CleanDuplicates(s)
  {
    CleanDuplicatesSpec(s);
    FirstOccurrencesOfDistinct(CleanDuplicates(s));
  }
}
