/** Buffered agent events and the queue each one belongs to. */
module Events {
  import opened Prelude

  // The fields of an AgentEvent that the candidate buffers look at. The payload travels as the
  // event itself: JSON dumping and validating are inverse to each other on well-formed events.
  datatype Event = Event(id: string, workspace: string, session: Option<string>, run: string)

  // One FIFO queue per workspace and session.
  datatype Slot = Slot(workspace: string, session: string)

  // A session-less event (missing or empty session id) is grouped by its run.
  function SessionOf(e: Event): string {
    if e.session.Some? && e.session.value != "" then e.session.value else e.run
  }

  function SlotOf(e: Event): Slot {
    Slot(e.workspace, SessionOf(e))
  }
}
