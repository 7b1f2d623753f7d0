/**
 * The records that flow through the collector: one security event, the
 * per-source reading position, and the batch unit a crawler hands to the
 * queue. Go's fixed-width integers are unbounded here; nothing in the model
 * of these records depends on their width.
 */
module Events {
  import opened Wrappers

  /**
   * A security event. `additionalFields` is `None` where the Go map is nil
   * (it is then omitted from the wire format) and `source` is `None` where
   * the Go pointer is nil.
   */
  datatype SecurityEvent = SecurityEvent(
    securityId: nat,
    securityGroupId: nat,
    eventTimeUtcNumber: int,
    message: string,
    ipAddress: string,
    additionalFields: Option<map<string, string>>,
    critical: bool,
    source: Option<string>)

  /** The identity under which two events count as duplicates. */
  type EventKey = (nat, string, int)

  function Key(e: SecurityEvent): EventKey
  {
    (e.securityId, e.ipAddress, e.eventTimeUtcNumber)
  }

  /**
   * The stored reading position of one source. `line` is the counter the
   * file crawler keeps in memory next to the offset; it is not one of the
   * persisted fields, so a record read back from disk carries line 0.
   */
  datatype SourceState = SourceState(
    sourceId: string,
    source: string,
    offset: int,
    line: int,
    lastUpdatedTimeUtcNumber: int)

  /**
   * What one crawler pass over one source produces. `line` is, as for
   * `SourceState`, the in-memory counter the file crawler sets; it is not
   * part of the wire format.
   */
  datatype EventsContainer = EventsContainer(
    sourceId: string,
    offset: int,
    line: int,
    source: string,
    ipToServiceMap: map<string, seq<string>>,
    securityEvents: seq<SecurityEvent>)
}
