/**
 * The delivery gateway (http_gateway.go): the envelope built from a batch
 * of containers, the retry of envelopes spooled by earlier failed sends,
 * the classification of the server's reply, the spooling of a failed
 * envelope, the first-message flag, and the loop that forwards every batch
 * to the state sync after sending it.
 *
 * The spool directory `.state` is a map from file name to the envelope the
 * file holds. Everything the file system, the clock and the network do
 * during one send is an input (`World`).
 */
module Gateway {
  import opened Wrappers
  import opened Strings
  import opened Events
  import Dates
  import Convert

  /** The prefix of spool file names, directory included. */
  const SpoolPrefix: string := ".state/.net_"

  /** What the gateway keeps between sends. */
  datatype Gateway = Gateway(token: string, serverKey: string, version: string, timeOffset: int, firstMessageSent: bool)

  /**
   * `ServerRequestMessage`. The JSON tags omit `ulto` when 0 and `v` when
   * empty; `events` and `ipsrvs` are `None` where the Go slice or map is nil.
   */
  datatype Envelope = Envelope(
    token: string,
    serverKey: string,
    ult: int,
    ulto: int,
    version: string,
    events: Option<seq<SecurityEvent>>,
    ipServices: Option<map<string, seq<string>>>)

  // ---------------------------------------------------------------------------
  // The envelope

  /** Every container's events, in batch order. */
  function AllEvents(batch: seq<EventsContainer>): (r: seq<SecurityEvent>)
    ensures |r| == EventCount(batch)
    decreases |batch|
  {
    if |batch| == 0 then [] else batch[0].securityEvents + AllEvents(batch[1..])
  }

  function EventCount(batch: seq<EventsContainer>): nat
    decreases |batch|
  {
    if |batch| == 0 then 0 else |batch[0].securityEvents| + EventCount(batch[1..])
  }

  /** The events of two batches sent together are the first's followed by the second's. */
  lemma {:induction false} AllEventsAppend(a: seq<EventsContainer>, b: seq<EventsContainer>)
    ensures AllEvents(a + b) == AllEvents(a) + AllEvents(b)
    decreases |a|
  {
    if |a| > 0 {
      assert (a + b)[0] == a[0] && (a + b)[1..] == a[1..] + b;
      AllEventsAppend(a[1..], b);
    } else {
      assert a + b == b;
    }
  }

  /** Every event of every container is in the envelope, at its offset in batch order. */
  lemma {:induction false} AllEventsPositions(batch: seq<EventsContainer>, i: nat, k: nat)
    requires i < |batch| && k < |batch[i].securityEvents|
    ensures EventCount(batch[..i]) + k < |AllEvents(batch)|
    ensures AllEvents(batch)[EventCount(batch[..i]) + k] == batch[i].securityEvents[k]
    decreases i
  {
    if i > 0 {
      AllEventsPositions(batch[1..], i - 1, k);
      assert batch[1..][..i - 1] == batch[..i][1..];
      assert batch[..i][0] == batch[0];
    } else {
      assert batch[..0] == [];
    }
  }

  /** The address-to-services entry of the last container that has one for `ip`. */
  function LastServices(batch: seq<EventsContainer>, ip: string): (r: Option<seq<string>>)
    ensures (forall i | 0 <= i < |batch| :: batch[i].ipToServiceMap == map[]) ==> r.None?
    decreases |batch|
  {
    if |batch| == 0 then None
    else if ip in batch[|batch| - 1].ipToServiceMap then Some(batch[|batch| - 1].ipToServiceMap[ip])
    else LastServices(batch[..|batch| - 1], ip)
  }

  /**
   * `IpServices`: the containers' maps merged, later containers winning;
   * nil unless some container has an entry.
   */
  function IpServices(batch: seq<EventsContainer>): (r: Option<map<string, seq<string>>>)
    ensures r.None? <==> forall i | 0 <= i < |batch| :: batch[i].ipToServiceMap == map[]
    ensures r.Some? ==> forall ip :: ip in r.value <==> LastServices(batch, ip).Some?
    ensures r.Some? ==> forall ip | ip in r.value :: r.value[ip] == LastServices(batch, ip).value
    decreases |batch|
  {
    if |batch| == 0 then None
    else
      var init := batch[..|batch| - 1];
      var m := batch[|batch| - 1].ipToServiceMap;
      var acc := IpServices(init);
      assert forall i | 0 <= i < |init| :: init[i] == batch[i];
      if m == map[] then acc
      else Some(acc.GetOr(map[]) + m)
  }

  /**
   * The envelope of one send: token, server key and local time always; the
   * version and the zone offset only while no message is known to have gone
   * through; the events and services only when there are any.
   */
  function MakeEnvelope(g: Gateway, batch: seq<EventsContainer>, now: Dates.Instant): (e: Envelope)
    ensures e.token == g.token && e.serverKey == g.serverKey && e.ult == Dates.DateToCustomLong(now)
    ensures e.version == (if g.firstMessageSent then "" else g.version)
    ensures e.ulto == (if g.firstMessageSent then 0 else g.timeOffset)
    ensures e.events.Some? <==> |AllEvents(batch)| > 0
    ensures e.events.Some? ==> e.events.value == AllEvents(batch)
    ensures e.ipServices == IpServices(batch)
  {
    var events := AllEvents(batch);
    Envelope(g.token, g.serverKey, Dates.DateToCustomLong(now),
             if g.firstMessageSent then 0 else g.timeOffset,
             if g.firstMessageSent then "" else g.version,
             if |events| > 0 then Some(events) else None,
             IpServices(batch))
  }

  // ---------------------------------------------------------------------------
  // The reply

  /** `ServerResponseMessage`. */
  datatype ServerResponse = ServerResponse(success: bool, errorCode: int)

  /** What the POST produced: a transport error, or a status and a body that does or does not parse. */
  datatype Reply = TransportError | Answered(status: int, body: Option<ServerResponse>)

  /** The server took the envelope, or refused it for a malformed request (code 1), which is not retried. */
  predicate Accepted(reply: Reply)
  {
    reply.Answered? && reply.status == 200 && reply.body.Some?
    && (reply.body.value.success || reply.body.value.errorCode == 1)
  }

  /** The classification of the reply: whether the send failed. */
  function Failed(reply: Reply): (failed: bool)
    ensures failed <==> !Accepted(reply)
  {
    match reply
    case TransportError => true
    case Answered(status, body) =>
      if status != 200 then true
      else match body
        case None => true
        case Some(response) =>
          if !response.success then response.errorCode != 1 else false
  }

  // ---------------------------------------------------------------------------
  // The spool

  /** What the file system, the clock and the network do during one send. */
  datatype World = World(
    now: Dates.Instant,
    listing: seq<string>,
    readable: string -> bool,
    resendReached: string -> bool,
    removed: string -> bool,
    reply: Reply,
    spoolTime: Dates.Instant,
    written: bool)

  /** A spooled file is posted again when it is there and can be read. */
  predicate Resent(name: string, spool: map<string, Envelope>, w: World)
  {
    name in spool && w.readable(name)
  }

  /** A file is deleted when its POST reached the server, whatever the reply, and the removal worked. */
  predicate Deleted(name: string, spool: map<string, Envelope>, w: World)
  {
    Resent(name, spool, w) && w.resendReached(name) && w.removed(name)
  }

  /**
   * The retry loop over `names`: the names posted again, in order, and the
   * spool afterwards.
   */
  function Retry(names: seq<string>, spool: map<string, Envelope>, w: World): (r: (seq<string>, map<string, Envelope>))
    ensures forall n :: n in r.0 <==> n in names && Resent(n, spool, w)
    ensures Sorted(names) ==> Sorted(r.0)
    decreases |names|
  {
    if |names| == 0 then ([], spool)
    else
      var n := names[0];
      var (later, rest) := Retry(names[1..], spool - (if Deleted(n, spool, w) then {n} else {}), w);
      assert forall m | m in names[1..] :: m == n || (Resent(m, spool - (if Deleted(n, spool, w) then {n} else {}), w) <==> Resent(m, spool, w));
      var posted := if Resent(n, spool, w) then [n] + later else later;
      assert Sorted(names) ==> Sorted(posted) by {
        if Sorted(names) && Resent(n, spool, w) {
          SortedTail(names);
          forall j | 0 <= j < |later|
            ensures NoLater(n, later[j])
          {
            assert later[j] in names[1..];
            var k :| 0 <= k < |names[1..]| && names[1..][k] == later[j];
            assert names[k + 1] == later[j];
          }
          SortedCons(n, later);
        }
      }
      (posted, rest)
  }

  /** A spooled file leaves the spool exactly when it is deleted; what stays is unchanged. */
  lemma {:induction false} RetrySpool(names: seq<string>, spool: map<string, Envelope>, w: World)
    ensures var r := Retry(names, spool, w).1;
      forall n :: n in r <==> n in spool && !(n in names && Deleted(n, spool, w))
    ensures var r := Retry(names, spool, w).1;
      forall n | n in r :: r[n] == spool[n]
    decreases |names|
  {
    if |names| > 0 {
      var n := names[0];
      var smaller := spool - (if Deleted(n, spool, w) then {n} else {});
      RetrySpool(names[1..], smaller, w);
      assert forall m | m in names[1..] :: m == n || (Deleted(m, smaller, w) <==> Deleted(m, spool, w));
    }
  }

  /** The name `time.Now().Unix()` gives a spool file. */
  function SpoolName(t: Dates.Instant): (r: string)
    ensures StartsWith(r, SpoolPrefix)
  {
    SpoolPrefix + Convert.Itoa(Dates.DateToCustomLong(t))
  }

  /** The seconds a spool name carries read back from it. */
  lemma {:induction false} SpoolNameTime(t: Dates.Instant)
    requires Convert.IsInt64(Dates.DateToCustomLong(t))
    ensures Convert.ForceAtoi(SpoolName(t)[|SpoolPrefix|..]) == Dates.DateToCustomLong(t)
  {
    assert SpoolName(t)[|SpoolPrefix|..] == Convert.Itoa(Dates.DateToCustomLong(t));
    Convert.ForceAtoiItoa(Dates.DateToCustomLong(t));
  }

  /** Spool names of different seconds differ. */
  lemma {:induction false} SpoolNamesOfSeconds(t: Dates.Instant, u: Dates.Instant)
    requires Convert.IsInt64(Dates.DateToCustomLong(t)) && Convert.IsInt64(Dates.DateToCustomLong(u))
    ensures SpoolName(t) == SpoolName(u) <==> Dates.DateToCustomLong(t) == Dates.DateToCustomLong(u)
  {
    SpoolNameTime(t);
    SpoolNameTime(u);
  }

  /** The names in `spool` at least as long as `name`. */
  function NotShorter(spool: map<string, Envelope>, name: string): set<string>
  {
    set k | k in spool && |k| >= |name|
  }

  lemma {:induction false} SubsetSize(a: set<string>, b: set<string>)
    requires a <= b
    ensures |a| <= |b|
  {
    if a != {} {
      var x :| x in a;
      SubsetSize(a - {x}, b - {x});
    }
  }

  /** The first of `name`, `name_`, `name__`, ... the spool does not hold. */
  function FreshName(spool: map<string, Envelope>, name: string): (r: string)
    ensures r !in spool
    ensures StartsWith(r, name)
    decreases |NotShorter(spool, name)|
  {
    if name !in spool then name
    else
      var longer := name + "_";
      assert NotShorter(spool, longer) + {name} <= NotShorter(spool, name);
      assert name !in NotShorter(spool, longer);
      SubsetSize(NotShorter(spool, longer) + {name}, NotShorter(spool, name));
      var r := FreshName(spool, longer);
      assert r[..|name|] == longer[..|name|];
      r
  }

  /** Which definition of the two questionable steps a send follows. */
  datatype Variant = AsWritten | Intended

  /** The name a failed envelope is written under. */
  function SpoolFileName(spool: map<string, Envelope>, t: Dates.Instant, v: Variant): string
  {
    if v.AsWritten? then SpoolName(t) else FreshName(spool, SpoolName(t))
  }

  /** The result of one send. */
  datatype Sent = Sent(gateway: Gateway, envelope: Envelope, failed: bool, resent: seq<string>, spool: map<string, Envelope>)

  /**
   * `SendToServer`: build the envelope, post the spooled envelopes again in
   * ascending name order, post the new one, classify the reply and spool
   * the envelope when it failed and carries events. As written the method
   * has a value receiver, so the flag it sets is lost; as intended the
   * gateway remembers that a message went through.
   */
  function Send(g: Gateway, batch: seq<EventsContainer>, spool: map<string, Envelope>, w: World, v: Variant): (r: Sent)
    ensures r.envelope == MakeEnvelope(g, batch, w.now)
    ensures r.failed <==> !Accepted(w.reply)
    ensures Sorted(r.resent)
    ensures forall n :: n in r.resent <==> n in w.listing && Resent(n, spool, w)
    ensures v.AsWritten? ==> r.gateway == g
    ensures v.Intended? ==> r.gateway == g.(firstMessageSent := g.firstMessageSent || !r.failed)
  {
    var envelope := MakeEnvelope(g, batch, w.now);
    var names := SortStrings(w.listing);
    assert forall n :: n in names <==> n in w.listing by {
      forall n
        ensures n in names <==> n in w.listing
      {
        assert n in names <==> n in multiset(names);
        assert n in w.listing <==> n in multiset(w.listing);
      }
    }
    var (resent, retried) := Retry(names, spool, w);
    var failed := Failed(w.reply);
    var stored := if failed && envelope.events.Some? && w.written
                  then retried[SpoolFileName(retried, w.spoolTime, v) := envelope]
                  else retried;
    var next := if v.Intended? && !failed then g.(firstMessageSent := true) else g;
    Sent(next, envelope, failed, resent, stored)
  }

  /** The spool after the retry loop of a send, before the new envelope is written. */
  function Retried(spool: map<string, Envelope>, w: World): map<string, Envelope>
  {
    Retry(SortStrings(w.listing), spool, w).1
  }

  /** A send that failed writes its envelope when, and only when, it has events and the write works. */
  lemma {:induction false} SpoolWrittenIffFailedWithEvents(g: Gateway, batch: seq<EventsContainer>, spool: map<string, Envelope>, w: World, v: Variant)
    ensures var r := Send(g, batch, spool, w, v);
      var name := SpoolFileName(Retried(spool, w), w.spoolTime, v);
      (r.spool == Retried(spool, w)[name := r.envelope]) || r.spool == Retried(spool, w)
    ensures var r := Send(g, batch, spool, w, v);
      r.spool != Retried(spool, w) ==> r.failed && |AllEvents(batch)| > 0 && w.written
    ensures var r := Send(g, batch, spool, w, v);
      r.failed && |AllEvents(batch)| > 0 && w.written ==>
      r.spool[SpoolFileName(Retried(spool, w), w.spoolTime, v)] == r.envelope
  {
  }

  /** A malformed-request refusal (code 1) drops the envelope: nothing is spooled. */
  lemma {:induction false} CodeOneNeverSpools(g: Gateway, batch: seq<EventsContainer>, spool: map<string, Envelope>, w: World, v: Variant)
    requires w.reply == Answered(200, Some(ServerResponse(false, 1)))
    ensures !Send(g, batch, spool, w, v).failed
    ensures Send(g, batch, spool, w, v).spool == Retried(spool, w)
  {
  }

  /** A spooled envelope leaves the spool exactly when its POST reached the server and it was removed. */
  lemma {:induction false} RetryDeletes(g: Gateway, batch: seq<EventsContainer>, spool: map<string, Envelope>, w: World, n: string)
    requires n in spool
    ensures n in Retried(spool, w) <==> !(n in w.listing && Deleted(n, spool, w))
  {
    var names := SortStrings(w.listing);
    RetrySpool(names, spool, w);
    assert n in names <==> n in multiset(names);
    assert n in w.listing <==> n in multiset(w.listing);
  }

  /**
   * As written, a second failed send in the same second replaces the
   * spooled envelope of the first when the server could not be reached for
   * its retry: the events of the first are lost.
   */
  lemma {:induction false} SameSecondOverwrites(g: Gateway, batch: seq<EventsContainer>, spool: map<string, Envelope>, w: World, earlier: Envelope)
    requires SpoolName(w.spoolTime) in spool && spool[SpoolName(w.spoolTime)] == earlier
    requires !w.resendReached(SpoolName(w.spoolTime))
    requires Failed(w.reply) && |AllEvents(batch)| > 0 && w.written
    requires earlier != MakeEnvelope(g, batch, w.now)
    ensures SpoolName(w.spoolTime) in Send(g, batch, spool, w, AsWritten).spool
    ensures Send(g, batch, spool, w, AsWritten).spool[SpoolName(w.spoolTime)] != earlier
  {
    var names := SortStrings(w.listing);
    var (resent, retried) := Retry(names, spool, w);
    RetrySpool(names, spool, w);
    assert SpoolName(w.spoolTime) in retried;
  }

  /** As intended, every envelope the retry kept is still spooled after the send, under its name. */
  lemma {:induction false} SpoolKeepsEnvelopes(g: Gateway, batch: seq<EventsContainer>, spool: map<string, Envelope>, w: World)
    ensures var r := Send(g, batch, spool, w, Intended);
      forall n | n in Retried(spool, w) :: n in r.spool && r.spool[n] == Retried(spool, w)[n]
  {
  }

  // ---------------------------------------------------------------------------
  // The loop

  /** The outcome of `Run` over a sequence of batches. */
  datatype RunResult = RunResult(gateway: Gateway, envelopes: seq<Envelope>, forwarded: seq<seq<EventsContainer>>,
                                 spool: map<string, Envelope>)

  /** `Run`: each batch sent, then handed to the state sync whatever the outcome. */
  function Run(g: Gateway, inputs: seq<(seq<EventsContainer>, World)>, spool: map<string, Envelope>, v: Variant): (r: RunResult)
    ensures |r.envelopes| == |inputs|
    ensures |r.forwarded| == |inputs| && forall i | 0 <= i < |inputs| :: r.forwarded[i] == inputs[i].0
    decreases |inputs|
  {
    if |inputs| == 0 then RunResult(g, [], [], spool)
    else
      var s := Send(g, inputs[0].0, spool, inputs[0].1, v);
      var rest := Run(s.gateway, inputs[1..], s.spool, v);
      RunResult(rest.gateway, [s.envelope] + rest.envelopes, [inputs[0].0] + rest.forwarded, rest.spool)
  }

  /** A run is its first send followed by the run of the rest from where the send left off. */
  lemma {:induction false} RunUnfold(g: Gateway, inputs: seq<(seq<EventsContainer>, World)>, spool: map<string, Envelope>, v: Variant)
    requires |inputs| > 0
    ensures var s := Send(g, inputs[0].0, spool, inputs[0].1, v);
      Run(g, inputs, spool, v).envelopes == [s.envelope] + Run(s.gateway, inputs[1..], s.spool, v).envelopes
  {
  }

  /** As written, the gateway never learns that a message went through: every envelope carries the version. */
  lemma {:induction false} EveryEnvelopeVersioned(g: Gateway, inputs: seq<(seq<EventsContainer>, World)>, spool: map<string, Envelope>)
    requires !g.firstMessageSent
    ensures var r := Run(g, inputs, spool, AsWritten);
      forall i | 0 <= i < |r.envelopes| :: r.envelopes[i].version == g.version && r.envelopes[i].ulto == g.timeOffset
    decreases |inputs|
  {
    if |inputs| > 0 {
      var s := Send(g, inputs[0].0, spool, inputs[0].1, AsWritten);
      var rest := Run(s.gateway, inputs[1..], s.spool, AsWritten).envelopes;
      EveryEnvelopeVersioned(g, inputs[1..], s.spool);
      RunUnfold(g, inputs, spool, AsWritten);
      var all := [s.envelope] + rest;
      forall i | 0 <= i < |all|
        ensures all[i].version == g.version && all[i].ulto == g.timeOffset
      {
        if i > 0 {
          assert all[i] == rest[i - 1];
        }
      }
    }
  }

  /** No earlier send in the run was accepted. */
  predicate NoneAccepted(inputs: seq<(seq<EventsContainer>, World)>, i: nat)
    requires i <= |inputs|
  {
    forall j | 0 <= j < i :: !Accepted(inputs[j].1.reply)
  }

  /**
   * As intended, an envelope carries the version and the zone offset
   * exactly when no earlier send of the run was accepted.
   */
  lemma {:induction false} VersionUntilFirstAccepted(g: Gateway, inputs: seq<(seq<EventsContainer>, World)>, spool: map<string, Envelope>)
    requires !g.firstMessageSent && g.version != ""
    ensures var r := Run(g, inputs, spool, Intended);
      forall i | 0 <= i < |r.envelopes| :: r.envelopes[i].version == g.version <==> NoneAccepted(inputs, i)
    decreases |inputs|
  {
    if |inputs| > 0 {
      var s := Send(g, inputs[0].0, spool, inputs[0].1, Intended);
      var rest := Run(s.gateway, inputs[1..], s.spool, Intended).envelopes;
      RunUnfold(g, inputs, spool, Intended);
      if s.failed {
        VersionUntilFirstAccepted(g, inputs[1..], s.spool);
        VersionsWhileRefused(s.envelope, rest, inputs, g.version);
      } else {
        NeverVersionedAgain(s.gateway, inputs[1..], s.spool);
        VersionsAfterAccepted(s.envelope, rest, inputs, g.version);
      }
    }
  }

  /** The first send was refused: the version pattern of the rest shifts by one. */
  lemma {:induction false} VersionsWhileRefused(first: Envelope, rest: seq<Envelope>, inputs: seq<(seq<EventsContainer>, World)>, version: string)
    requires |rest| + 1 == |inputs| && first.version == version && !Accepted(inputs[0].1.reply)
    requires forall i | 0 <= i < |rest| :: rest[i].version == version <==> NoneAccepted(inputs[1..], i)
    ensures var all := [first] + rest;
      forall i | 0 <= i < |all| :: all[i].version == version <==> NoneAccepted(inputs, i)
  {
    var all := [first] + rest;
    forall i | 0 <= i < |all|
      ensures all[i].version == version <==> NoneAccepted(inputs, i)
    {
      if i > 0 {
        assert all[i] == rest[i - 1];
        assert NoneAccepted(inputs[1..], i - 1) <==> NoneAccepted(inputs, i) by {
          assert forall j | 1 <= j < i :: inputs[1..][j - 1] == inputs[j];
        }
      }
    }
  }

  /** The first send was accepted: no later envelope carries the version. */
  lemma {:induction false} VersionsAfterAccepted(first: Envelope, rest: seq<Envelope>, inputs: seq<(seq<EventsContainer>, World)>, version: string)
    requires |rest| + 1 == |inputs| && first.version == version && version != "" && Accepted(inputs[0].1.reply)
    requires forall i | 0 <= i < |rest| :: rest[i].version == ""
    ensures var all := [first] + rest;
      forall i | 0 <= i < |all| :: all[i].version == version <==> NoneAccepted(inputs, i)
  {
    var all := [first] + rest;
    forall i | 0 <= i < |all|
      ensures all[i].version == version <==> NoneAccepted(inputs, i)
    {
      if i > 0 {
        assert all[i] == rest[i - 1];
      }
    }
  }

  /** Once the gateway knows a message went through, no later envelope carries the version. */
  lemma {:induction false} NeverVersionedAgain(g: Gateway, inputs: seq<(seq<EventsContainer>, World)>, spool: map<string, Envelope>)
    requires g.firstMessageSent
    ensures var r := Run(g, inputs, spool, Intended);
      forall i | 0 <= i < |r.envelopes| :: r.envelopes[i].version == "" && r.envelopes[i].ulto == 0
    decreases |inputs|
  {
    if |inputs| > 0 {
      var s := Send(g, inputs[0].0, spool, inputs[0].1, Intended);
      var rest := Run(s.gateway, inputs[1..], s.spool, Intended).envelopes;
      NeverVersionedAgain(s.gateway, inputs[1..], s.spool);
      RunUnfold(g, inputs, spool, Intended);
      var all := [s.envelope] + rest;
      forall i | 0 <= i < |all|
        ensures all[i].version == "" && all[i].ulto == 0
      {
        if i > 0 {
          assert all[i] == rest[i - 1];
        }
      }
    }
  }
}
