/**
 Properties of the summary coordinator: the invariant every row keeps, the
 forward-only status order, no summariser call on the cached, in-flight and
 missing paths, idempotence of a second request, and idempotent deletion.
 */
module SessionProperties {
  import opened Text
  import opened Sessions

  /** What every row written by these endpoints satisfies: a non-empty
      transcript, and a summary present exactly when the status is done. */
  ghost predicate WellFormed(s: Session) {
    s.transcript != "" && (s.status == Done <==> s.summary != "")
  }

  ghost predicate StoreWellFormed(store: Store) {
    forall id :: id in store ==> WellFormed(store[id])
  }

  function Rank(s: Status): nat {
    match s
    case Pending => 0
    case Processing => 1
    case Done => 2
  }

  /** No row present in both tables went back in the status order. */
  ghost predicate StatusAdvances(before: Store, after: Store) {
    forall id :: id in before && id in after ==> Rank(before[id].status) <= Rank(after[id].status)
  }

  /** A row created by `/transcribe` is well formed, and the rows already
      there are untouched. */
  lemma TranscribePreservesInvariant(
    store: Store, authenticated: bool, sid: string, patientId: string,
    segments: seq<string>, audioDir: string, now: int)
    requires StoreWellFormed(store)
    ensures var store' := Transcribe(store, authenticated, sid, patientId, segments, audioDir, now).1;
              StoreWellFormed(store') && StatusAdvances(store, store')
  {
  }

  /** A full `generate_summary` keeps every row well formed and never moves a
      status backwards. */
  lemma GenerateSummaryPreservesInvariant(store: Store, sid: string, ollama: string -> OllamaRun)
    requires StoreWellFormed(store)
    ensures var store' := GenerateSummary(store, sid, ollama).1;
              StoreWellFormed(store') && StatusAdvances(store, store')
  {
  }

  /** The intermediate "processing" table seen between the two halves of
      `generate_summary` keeps the invariant and the forward order too. */
  lemma BeginSummaryAdvances(store: Store, sid: string)
    requires StoreWellFormed(store)
    ensures var (step, mid) := BeginSummary(store, sid);
              && StoreWellFormed(mid)
              && StatusAdvances(store, mid)
              && (step.Claimed? ==> mid[sid].status == Processing && mid[sid].summary == "")
  {
  }

  /** Deletion keeps the invariant. */
  lemma DeletePreservesInvariant(store: Store, sid: string)
    requires StoreWellFormed(store)
    ensures StoreWellFormed(DeleteSession(store, sid).1)
  {
  }

  /** On the three non-claiming paths (unknown id, cached summary, already
      processing) the summariser is not consulted: any two summarisers give the
      same answer, and the table is unchanged. */
  lemma NoSummariserCallUnlessClaimed(
    store: Store, sid: string, ollama1: string -> OllamaRun, ollama2: string -> OllamaRun)
    requires !BeginSummary(store, sid).0.Claimed?
    ensures GenerateSummary(store, sid, ollama1) == GenerateSummary(store, sid, ollama2)
    ensures GenerateSummary(store, sid, ollama1).1 == store
  {
  }

  /** A second request for the same session returns the same text, leaves the
      table as the first left it, and does not depend on the summariser. */
  lemma SummaryIdempotent(
    store: Store, sid: string, ollama1: string -> OllamaRun, ollama2: string -> OllamaRun)
    ensures var (text, store') := GenerateSummary(store, sid, ollama1);
              GenerateSummary(store', sid, ollama2) == (text, store')
  {
  }

  /** A pending session goes to done in one request, with the summariser's
      stripped output or the fallback text as its summary. */
  lemma PendingBecomesDone(store: Store, sid: string, ollama: string -> OllamaRun)
    requires sid in store && store[sid].status == Pending
    ensures var (text, store') := GenerateSummary(store, sid, ollama);
              var run := ollama(Prompt(store[sid].transcript));
              && store'[sid].status == Done
              && store'[sid].summary == text
              && (run.Raised? ==> text == SummaryUnavailable)
              && (run.Completed? && AllSpace(run.stdout) ==> text == SummaryUnavailable)
              && (run.Completed? && !AllSpace(run.stdout) ==> text == Strip(run.stdout))
  {
  }

  /** A request arriving while another holds the session in "processing" gets
      the placeholder without calling the summariser; the first request then
      finishes exactly as if it had run alone. */
  lemma InFlightRequestWaits(
    store: Store, sid: string, first: string -> OllamaRun, second: string -> OllamaRun)
    requires BeginSummary(store, sid).0.Claimed?
    ensures var mid := BeginSummary(store, sid).1;
              && GenerateSummary(mid, sid, second) == (Summarizing, mid)
              && FinishSummary(mid, sid, Summarize(first(Prompt(store[sid].transcript))))
                 == GenerateSummary(store, sid, first).1
  {
  }

  /** Deleting twice is the same as deleting once, and a deleted session's
      summary request gets the not-found sentinel. */
  lemma DeleteIdempotent(store: Store, sid: string, ollama: string -> OllamaRun)
    ensures var once := DeleteSession(store, sid);
              && DeleteSession(once.1, sid) == once
              && GenerateSummary(once.1, sid, ollama) == (SessionNotFound, once.1)
  {
    var once := DeleteSession(store, sid);
    assert once.1 - {sid} == once.1;
  }
}
