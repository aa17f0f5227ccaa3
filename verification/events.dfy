/**
 The event records fetched from the partner API: an event kind and the instant it
 occurred, wrapped in an edge that carries the edge's page cursor.
 */
module Events {

  /** Event kinds are strings; the feed documents four of them. */
  type Kind = string

  const Installed: Kind := "RELATIONSHIP_INSTALLED"
  const Deactivated: Kind := "RELATIONSHIP_DEACTIVATED"
  const Reactivated: Kind := "RELATIONSHIP_REACTIVATED"
  const Uninstalled: Kind := "RELATIONSHIP_UNINSTALLED"

  /** An event: its kind and the Unix time (seconds) it occurred at. */
  datatype Node = Node(kind: Kind, occurredAt: int)

  /** A page edge: the event and the opaque cursor that names its position in the feed. */
  datatype Edge = Edge(node: Node, cursor: string)

  /** The column title each documented kind is reported under. */
  const HumanReadableEventType: map<Kind, string> := map[
    Installed := "Installs",
    Deactivated := "Closed",
    Reactivated := "Reopened",
    Uninstalled := "Uninstalls"
  ]
}
