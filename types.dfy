/** The version-1 agent event carried inside the OSC frames. */
module Types {
  import opened Wrappers

  datatype Source = Codex | Claude | OpenCode

  datatype EventType = TurnComplete | ApprovalRequested | Stop | SubagentStop

  datatype Status = Success | Info | Warning

  /** The wire literal of each source. */
  function SourceName(s: Source): string {
    match s
    case Codex => "codex"
    case Claude => "claude"
    case OpenCode => "opencode"
  }

  function EventName(e: EventType): string {
    match e
    case TurnComplete => "turn_complete"
    case ApprovalRequested => "approval_requested"
    case Stop => "stop"
    case SubagentStop => "subagent_stop"
  }

  function StatusName(s: Status): string {
    match s
    case Success => "success"
    case Info => "info"
    case Warning => "warning"
  }

  /** A validated payload. Its `version` is always 1 and is not stored. `createdAt` is a
      finite double, here a real. An optional field is either absent or a non-empty string. */
  datatype Payload = Payload(
    source: Source,
    event: EventType,
    status: Status,
    title: Option<string>,
    message: string,
    createdAt: real,
    sessionId: Option<string>,
    taskId: Option<string>,
    turnId: Option<string>,
    dedupeKey: Option<string>)

  /** A payload together with the id of the terminal it was read from; the terminal object
      itself belongs to the editor and is not modelled. */
  datatype AgentEvent = AgentEvent(payload: Payload, terminalId: string)

  predicate NonEmptyIfPresent(o: Option<string>) {
    o.None? || o.value != []
  }

  /** The payloads validation can produce: every optional field that is present is non-empty. */
  predicate WellFormed(p: Payload) {
    NonEmptyIfPresent(p.title) && NonEmptyIfPresent(p.sessionId) && NonEmptyIfPresent(p.taskId)
    && NonEmptyIfPresent(p.turnId) && NonEmptyIfPresent(p.dedupeKey)
  }

  /** The three name tables are injective, so a literal names one value. */
  lemma NamesInjective()
    ensures forall a, b :: SourceName(a) == SourceName(b) ==> a == b
    ensures forall a, b :: EventName(a) == EventName(b) ==> a == b
    ensures forall a, b :: StatusName(a) == StatusName(b) ==> a == b
  {
  }
}
