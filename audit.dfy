/** The audit events the scheduler writes with `logEmailEvent`. Writing an
    event never fails the operation that writes it (the helper catches its own
    errors), so the model appends each call to a log and nothing else; the log
    is the calls made, not the documents the index accepted. */
module Audit {
  import opened Options

  datatype Event =
    | ServiceStartSkipped(userEmail: string, reason: string)
    | ServiceStarted(userEmail: string, intervalMs: nat)
    | ServiceStartFailed(userEmail: string, error: string)
    | ServiceStopped(userEmail: string, reason: string)
    | ServiceStopSkipped(userEmail: string, reason: string)
    | ServiceStopFailed(userEmail: string, error: string)
    | EmailReceived(sender: Option<string>, subject: Option<string>, messageId: string, historyId: string)
    | ProcessingError(error: string, historyId: string)

  const AlreadyRunning: string := "Service already running"
  const NoServiceRunning: string := "No service running"
  const ManualStop: string := "Manual stop"
  const ResponseReceived: string := "Response received"

  /** The `eventType` field each event is stored under. */
  function EventType(e: Event): string
  {
    match e
    case ServiceStartSkipped(_, _) => "email_service_start_skipped"
    case ServiceStarted(_, _) => "email_service_started"
    case ServiceStartFailed(_, _) => "email_service_start_failed"
    case ServiceStopped(_, _) => "email_service_stopped"
    case ServiceStopSkipped(_, _) => "email_service_stop_skipped"
    case ServiceStopFailed(_, _) => "email_service_stop_failed"
    case EmailReceived(_, _, _, _) => "email_received"
    case ProcessingError(_, _) => "email_processing_error"
  }

  /** Both events are built by the same constructor. */
  predicate SameKind(a: Event, b: Event)
  {
    && a.ServiceStartSkipped? == b.ServiceStartSkipped?
    && a.ServiceStarted? == b.ServiceStarted?
    && a.ServiceStartFailed? == b.ServiceStartFailed?
    && a.ServiceStopped? == b.ServiceStopped?
    && a.ServiceStopSkipped? == b.ServiceStopSkipped?
    && a.ServiceStopFailed? == b.ServiceStopFailed?
    && a.EmailReceived? == b.EmailReceived?
    && a.ProcessingError? == b.ProcessingError?
  }

  /** The stored `eventType` tells the kinds of event apart: two events share
      a tag exactly when they are of the same kind. */
  lemma EventTypeIdentifiesKind(a: Event, b: Event)
    ensures EventType(a) == EventType(b) <==> SameKind(a, b)
  {
  }
}
