/**
 * The persisted reading positions (`SystemState`): lookup-or-create by
 * source id, the thirty-day expiry filter applied whenever the state file is
 * read, and the merge `Sync` performs for every batch the gateway forwards.
 * Reading and writing the state file are left to the caller: the decoded
 * file content comes in as an input and the list to save comes out.
 */
module PositionStore {
  import opened Wrappers
  import opened Events
  import Dates

  /** Records not updated for thirty days are forgotten. */
  const Expiry: int := 30 * 24 * 3600 * Dates.Second

  /** The record `Find` creates for an unknown source. */
  function NewSource(id: string): SourceState
  {
    SourceState(id, "", 0, 0, 0)
  }

  predicate HasId(sources: seq<SourceState>, id: string)
  {
    exists j | 0 <= j < |sources| :: sources[j].sourceId == id
  }

  /** The index of the first record for `id`, scanning from `k` on. */
  function IndexFrom(sources: seq<SourceState>, id: string, k: nat): (r: Option<nat>)
    requires k <= |sources|
    requires forall j | 0 <= j < k :: sources[j].sourceId != id
    ensures r.Some? ==> r.value < |sources| && sources[r.value].sourceId == id
    ensures r.Some? ==> forall j | 0 <= j < r.value :: sources[j].sourceId != id
    ensures r.None? <==> !HasId(sources, id)
    decreases |sources| - k
  {
    if k == |sources| then None
    else if sources[k].sourceId == id then Some(k)
    else IndexFrom(sources, id, k + 1)
  }

  function IndexOf(sources: seq<SourceState>, id: string): (r: Option<nat>)
    ensures r.Some? ==> r.value < |sources| && sources[r.value].sourceId == id
    ensures r.Some? ==> forall j | 0 <= j < r.value :: sources[j].sourceId != id
    ensures r.None? <==> !HasId(sources, id)
  {
    IndexFrom(sources, id, 0)
  }

  /**
   * `Find`: the position of the first record for `id`, appending a fresh
   * record with offset 0 when there is none. The record is returned by
   * position, as the source returns a pointer into the list.
   */
  function Find(sources: seq<SourceState>, id: string): (r: (nat, seq<SourceState>))
    ensures r.0 < |r.1| && r.1[r.0].sourceId == id
    ensures HasId(sources, id) ==> r.1 == sources && forall j | 0 <= j < r.0 :: sources[j].sourceId != id
    ensures !HasId(sources, id) ==> r.1 == sources + [NewSource(id)] && r.0 == |sources|
    ensures !HasId(sources, id) ==> r.1[r.0].offset == 0
  {
    match IndexOf(sources, id)
    case Some(i) => (i, sources)
    case None => (|sources|, sources + [NewSource(id)])
  }

  /** A second lookup of the same id finds the same record and adds nothing. */
  lemma {:induction false} FindIdempotent(sources: seq<SourceState>, id: string)
    ensures Find(Find(sources, id).1, id) == Find(sources, id)
  {
    var (i, s) := Find(sources, id);
    assert HasId(s, id);
    assert IndexOf(s, id) == IndexOf(sources, id) || !HasId(sources, id);
  }

  // ---------------------------------------------------------------------------
  // Expiry

  /** The cut-off second: records stamped at or before it are dropped. */
  function ExpiryCutoff(now: Dates.Instant): int
  {
    Dates.DateToCustomLong(now - Expiry)
  }

  /** `RemoveExpiredStates`: the records updated after the cut-off, in their order. */
  function RemoveExpired(sources: seq<SourceState>, now: Dates.Instant): (r: seq<SourceState>)
    ensures |r| <= |sources|
    ensures forall x :: x in r <==> x in sources && x.lastUpdatedTimeUtcNumber > ExpiryCutoff(now)
  {
    if |sources| == 0 then []
    else
      var last := sources[|sources| - 1];
      assert sources == sources[..|sources| - 1] + [last];
      RemoveExpired(sources[..|sources| - 1], now)
        + (if last.lastUpdatedTimeUtcNumber > ExpiryCutoff(now) then [last] else [])
  }

  /** The filter works record by record: it distributes over concatenation, so order is kept. */
  lemma {:induction false} RemoveExpiredAppend(a: seq<SourceState>, b: seq<SourceState>, now: Dates.Instant)
    ensures RemoveExpired(a + b, now) == RemoveExpired(a, now) + RemoveExpired(b, now)
    decreases |b|
  {
    if |b| == 0 {
      assert a + b == a;
    } else {
      assert (a + b)[..|a + b| - 1] == a + b[..|b| - 1];
      RemoveExpiredAppend(a, b[..|b| - 1], now);
    }
  }

  lemma {:induction false} RemoveExpiredIdempotent(sources: seq<SourceState>, now: Dates.Instant)
    ensures RemoveExpired(RemoveExpired(sources, now), now) == RemoveExpired(sources, now)
  {
    if |sources| > 0 {
      var init := sources[..|sources| - 1];
      var last := sources[|sources| - 1];
      var kept := if last.lastUpdatedTimeUtcNumber > ExpiryCutoff(now) then [last] else [];
      RemoveExpiredIdempotent(init, now);
      RemoveExpiredAppend(RemoveExpired(init, now), kept, now);
    }
  }

  /**
   * `ReadOriginalState`: the decoded state file, or nothing when it is
   * missing or unreadable, with expired records removed.
   */
  function ReadOriginalState(stored: Option<seq<SourceState>>, now: Dates.Instant): (r: seq<SourceState>)
    ensures forall x | x in r :: x.lastUpdatedTimeUtcNumber > ExpiryCutoff(now)
    ensures stored.None? ==> r == []
  {
    RemoveExpired(stored.GetOr([]), now)
  }

  // ---------------------------------------------------------------------------
  // The merge of one batch

  /** The record of container `c` after the merge: offset, source and stamp change, nothing else. */
  function Updated(s: SourceState, c: EventsContainer, stamp: int): SourceState
  {
    s.(offset := c.offset, source := c.source, lastUpdatedTimeUtcNumber := stamp)
  }

  /** One pass of the loop of `Sync`: find or create the container's record, then update it. */
  function MergeOne(sources: seq<SourceState>, c: EventsContainer, stamp: int): (r: seq<SourceState>)
    ensures |r| == if HasId(sources, c.sourceId) then |sources| else |sources| + 1
    ensures forall j | 0 <= j < |sources| ::
      r[j] == if Some(j) == IndexOf(sources, c.sourceId) then Updated(sources[j], c, stamp) else sources[j]
    ensures |r| > |sources| ==> r[|sources|] == Updated(NewSource(c.sourceId), c, stamp)
    ensures forall id :: IndexOf(r, id) == if id == c.sourceId then Some(Find(sources, c.sourceId).0) else IndexOf(sources, id)
  {
    var (i, s) := Find(sources, c.sourceId);
    var r := s[i := Updated(s[i], c, stamp)];
    forall id
      ensures IndexOf(r, id) == if id == c.sourceId then Some(i) else IndexOf(sources, id)
    {
      IndexAfterUpdate(s, i, Updated(s[i], c, stamp), id);
      if id != c.sourceId && !HasId(sources, c.sourceId) {
        IndexAfterAppend(sources, NewSource(c.sourceId), id);
      }
    }
    r
  }

  /** The loop of `Sync` over one batch, stamping each touched record with `stamp`. */
  function Merge(sources: seq<SourceState>, batch: seq<EventsContainer>, stamp: int): (r: seq<SourceState>)
    ensures |sources| <= |r|
  {
    if |batch| == 0 then sources
    else MergeOne(Merge(sources, batch[..|batch| - 1], stamp), batch[|batch| - 1], stamp)
  }

  /** The last container of the batch for `id`, if any. */
  function LastFor(batch: seq<EventsContainer>, id: string): Option<EventsContainer>
  {
    if |batch| == 0 then None
    else if batch[|batch| - 1].sourceId == id then Some(batch[|batch| - 1])
    else LastFor(batch[..|batch| - 1], id)
  }

  /** Records of the input keep their place, id and line; only the first record of a batch id changes. */
  ghost predicate KeepsRecords(sources: seq<SourceState>, batch: seq<EventsContainer>, r: seq<SourceState>)
  {
    |sources| <= |r| &&
    forall i | 0 <= i < |sources| ::
      r[i].sourceId == sources[i].sourceId && r[i].line == sources[i].line
      && (LastFor(batch, sources[i].sourceId).None? || IndexOf(sources, sources[i].sourceId) != Some(i) ==> r[i] == sources[i])
  }

  /** Appended records are for new ids of the batch and start at line 0. */
  ghost predicate AppendsNew(sources: seq<SourceState>, batch: seq<EventsContainer>, r: seq<SourceState>)
  {
    forall i | |sources| <= i < |r| ::
      LastFor(batch, r[i].sourceId).Some? && r[i].line == 0 && !HasId(sources, r[i].sourceId)
  }

  /** Each new id of the batch gets exactly one appended record. */
  ghost predicate AppendsOnce(sources: seq<SourceState>, batch: seq<EventsContainer>, r: seq<SourceState>)
  {
    (forall i, j | |sources| <= i < j < |r| :: r[i].sourceId != r[j].sourceId)
    && forall id | LastFor(batch, id).Some? && !HasId(sources, id) ::
      exists i | |sources| <= i < |r| :: r[i].sourceId == id
  }

  /** The first record of each batch id holds its last container's offset and source, and the stamp. */
  ghost predicate LatestWins(batch: seq<EventsContainer>, r: seq<SourceState>, stamp: int)
  {
    forall id | LastFor(batch, id).Some? ::
      IndexOf(r, id).Some? && r[IndexOf(r, id).value] == Updated(r[IndexOf(r, id).value], LastFor(batch, id).value, stamp)
  }

  /** Ids already present are found where they were. */
  ghost predicate SameFirsts(sources: seq<SourceState>, r: seq<SourceState>)
  {
    forall id | HasId(sources, id) :: IndexOf(r, id) == IndexOf(sources, id)
  }

  lemma {:induction false} MergeSameFirsts(sources: seq<SourceState>, batch: seq<EventsContainer>, stamp: int)
    ensures SameFirsts(sources, Merge(sources, batch, stamp))
    decreases |batch|
  {
    if |batch| > 0 {
      MergeSameFirsts(sources, batch[..|batch| - 1], stamp);
      var m := Merge(sources, batch[..|batch| - 1], stamp);
      var c := batch[|batch| - 1];
      forall id | HasId(sources, id)
        ensures IndexOf(Merge(sources, batch, stamp), id) == IndexOf(sources, id)
      {
        if id == c.sourceId {
          assert HasId(m, id);
        }
      }
    }
  }

  lemma {:induction false} MergeKeepsRecords(sources: seq<SourceState>, batch: seq<EventsContainer>, stamp: int)
    ensures KeepsRecords(sources, batch, Merge(sources, batch, stamp))
    decreases |batch|
  {
    if |batch| > 0 {
      var init := batch[..|batch| - 1];
      MergeKeepsRecords(sources, init, stamp);
      MergeSameFirsts(sources, init, stamp);
      var m := Merge(sources, init, stamp);
      var c := batch[|batch| - 1];
      var r := Merge(sources, batch, stamp);
      forall i | 0 <= i < |sources|
        ensures r[i].sourceId == sources[i].sourceId && r[i].line == sources[i].line
        ensures LastFor(batch, sources[i].sourceId).None? || IndexOf(sources, sources[i].sourceId) != Some(i) ==> r[i] == sources[i]
      {
        var id := sources[i].sourceId;
        assert HasId(sources, id);
        if id == c.sourceId {
          assert LastFor(batch, id).Some?;
        } else {
          assert LastFor(batch, id) == LastFor(init, id);
        }
      }
    }
  }

  lemma {:induction false} MergeAppendsNew(sources: seq<SourceState>, batch: seq<EventsContainer>, stamp: int)
    ensures AppendsNew(sources, batch, Merge(sources, batch, stamp))
    decreases |batch|
  {
    if |batch| > 0 {
      var init := batch[..|batch| - 1];
      MergeAppendsNew(sources, init, stamp);
      MergeSameFirsts(sources, init, stamp);
      var m := Merge(sources, init, stamp);
      var c := batch[|batch| - 1];
      var r := Merge(sources, batch, stamp);
      forall i | |sources| <= i < |r|
        ensures LastFor(batch, r[i].sourceId).Some? && r[i].line == 0 && !HasId(sources, r[i].sourceId)
      {
        if i < |m| {
          assert r[i].sourceId == m[i].sourceId && r[i].line == m[i].line;
          if m[i].sourceId != c.sourceId {
            assert LastFor(batch, m[i].sourceId) == LastFor(init, m[i].sourceId);
          }
        } else {
          assert !HasId(m, c.sourceId);
          assert !HasId(sources, c.sourceId);
        }
      }
    }
  }

  lemma {:induction false} MergeLatestWins(sources: seq<SourceState>, batch: seq<EventsContainer>, stamp: int)
    ensures LatestWins(batch, Merge(sources, batch, stamp), stamp)
    decreases |batch|
  {
    if |batch| > 0 {
      var init := batch[..|batch| - 1];
      MergeLatestWins(sources, init, stamp);
      var m := Merge(sources, init, stamp);
      var c := batch[|batch| - 1];
      var r := Merge(sources, batch, stamp);
      forall id | LastFor(batch, id).Some?
        ensures IndexOf(r, id).Some? && r[IndexOf(r, id).value] == Updated(r[IndexOf(r, id).value], LastFor(batch, id).value, stamp)
      {
        if id != c.sourceId {
          assert LastFor(batch, id) == LastFor(init, id);
          var k := IndexOf(m, id).value;
          assert IndexOf(r, id) == Some(k);
          assert m[k].sourceId != c.sourceId;
          assert Some(k) != IndexOf(m, c.sourceId);
          assert r[k] == m[k];
        }
      }
    }
  }

  lemma {:induction false} MergeAppendsOnce(sources: seq<SourceState>, batch: seq<EventsContainer>, stamp: int)
    ensures AppendsOnce(sources, batch, Merge(sources, batch, stamp))
    decreases |batch|
  {
    var r := Merge(sources, batch, stamp);
    if |batch| > 0 {
      var init := batch[..|batch| - 1];
      MergeAppendsOnce(sources, init, stamp);
      var m := Merge(sources, init, stamp);
      var c := batch[|batch| - 1];
      forall i, j | |sources| <= i < j < |r|
        ensures r[i].sourceId != r[j].sourceId
      {
        assert i < |m|;
        assert r[i].sourceId == m[i].sourceId;
        if j < |m| {
          assert r[j].sourceId == m[j].sourceId;
        } else {
          assert !HasId(m, c.sourceId);
          assert r[j].sourceId == c.sourceId;
        }
      }
    }
    MergeKeepsRecords(sources, batch, stamp);
    MergeLatestWins(sources, batch, stamp);
    forall id | LastFor(batch, id).Some? && !HasId(sources, id)
      ensures exists i | |sources| <= i < |r| :: r[i].sourceId == id
    {
      var k := IndexOf(r, id).value;
      assert |sources| <= k && r[k].sourceId == id;
    }
  }

  /**
   * After the merge, the first record for every id in the batch carries the
   * offset and source of the LAST container with that id and the merge's
   * stamp; its line is the one the record had, or 0 for a new record.
   * Records of ids not in the batch keep their place and contents, and
   * records beyond the first for a repeated id are not touched. Each new id
   * is appended exactly once.
   */
  lemma {:induction false} MergeSpec(sources: seq<SourceState>, batch: seq<EventsContainer>, stamp: int)
    ensures KeepsRecords(sources, batch, Merge(sources, batch, stamp))
    ensures AppendsNew(sources, batch, Merge(sources, batch, stamp))
    ensures AppendsOnce(sources, batch, Merge(sources, batch, stamp))
    ensures LatestWins(batch, Merge(sources, batch, stamp), stamp)
    ensures SameFirsts(sources, Merge(sources, batch, stamp))
  {
    MergeKeepsRecords(sources, batch, stamp);
    MergeAppendsNew(sources, batch, stamp);
    MergeAppendsOnce(sources, batch, stamp);
    MergeLatestWins(sources, batch, stamp);
    MergeSameFirsts(sources, batch, stamp);
  }

  /** Overwriting a record by one with the same id moves no first occurrence. */
  lemma {:induction false} IndexAfterUpdate(s: seq<SourceState>, i: nat, x: SourceState, id: string)
    requires i < |s| && x.sourceId == s[i].sourceId
    ensures IndexOf(s[i := x], id) == IndexOf(s, id)
  {
    var t := s[i := x];
    assert forall j | 0 <= j < |s| :: t[j].sourceId == s[j].sourceId;
    assert HasId(t, id) <==> HasId(s, id);
  }

  /** Appending a record for another id moves no first occurrence. */
  lemma {:induction false} IndexAfterAppend(s: seq<SourceState>, x: SourceState, id: string)
    requires x.sourceId != id
    ensures IndexOf(s + [x], id) == IndexOf(s, id)
  {
    var t := s + [x];
    assert forall j | 0 <= j < |s| :: t[j] == s[j];
    assert HasId(t, id) <==> HasId(s, id);
  }

  /**
   * `Sync` for one batch: an empty batch changes and saves nothing;
   * otherwise the state file is read afresh (not the in-memory positions the
   * crawlers keep), the batch merged into it and the result saved.
   */
  function Sync(batch: seq<EventsContainer>, stored: Option<seq<SourceState>>, now: Dates.Instant): (saved: Option<seq<SourceState>>)
    ensures saved.None? <==> |batch| == 0
    ensures saved.Some? ==> saved.value == Merge(ReadOriginalState(stored, now), batch, Dates.DateToCustomLong(now))
  {
    if |batch| == 0 then None
    else Some(Merge(ReadOriginalState(stored, now), batch, Dates.DateToCustomLong(now)))
  }
}
