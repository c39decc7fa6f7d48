/**
 * Decoded room events, as the DAG stores them.
 *
 * Only the three attributes the DAG logic reads are modelled: the event's identifier,
 * its depth and the identifiers of the events it declares as predecessors
 * (`prev_events`). The remaining JSON fields only feed node labels, which this model
 * keeps abstract.
 */
module Events {
  /** The name of an event field that may be shown in a node label. */
  type Field = string

  datatype Event = Event(eventId: string, depth: int, prevEvents: seq<string>)

  /** Identifier and depth of an event that has at least one missing ancestor. */
  datatype OrphanInfo = OrphanInfo(id: string, depth: int)
}
