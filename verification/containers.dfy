/** The method of `SecurityEventsContainer` that drops duplicate events before sending. */
module Containers {
  import opened Events
  import Utils

  /** `CleanSecurityEventsFromDublicates` on a container: only the event list changes. */
  function Clean(c: EventsContainer): (r: EventsContainer)
    ensures r.securityEvents == Utils.FirstOccurrences(c.securityEvents)
    ensures r.sourceId == c.sourceId && r.offset == c.offset && r.line == c.line
    ensures r.source == c.source && r.ipToServiceMap == c.ipToServiceMap
  {
    c.(securityEvents := Utils.CleanDuplicates(c.securityEvents))
  }

  /** The cleaned list never grows, keeps every key and holds each key once. */
  lemma {:induction false} CleanKeepsKeys(c: EventsContainer)
    ensures |Clean(c).securityEvents| <= |c.securityEvents|
    ensures Utils.KeySet(Clean(c).securityEvents) == Utils.KeySet(c.securityEvents)
    ensures Utils.DistinctKeys(Clean(c).securityEvents)
  {
    Utils.CleanDuplicatesSpec(c.securityEvents);
  }

  lemma {:induction false} CleanIdempotent(c: EventsContainer)
    ensures Clean(Clean(c)) == Clean(c)
  {
    Utils.CleanDuplicatesIdempotent(c.securityEvents);
  }
}
