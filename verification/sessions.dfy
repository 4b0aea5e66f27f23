/**
 The dictation-session table and the endpoints that write it: the record built
 by `/transcribe`, the summary coordinator behind `/summary/{sid}` with its
 `summarize` fallback wrapper, and `/session/{sid}` deletion. Whisper and the
 ollama subprocess are oracles passed in as parameters.
 */
module Sessions {
  import opened Text

  datatype Status = Pending | Processing | Done

  /** One row of the `sessions` table; the id is the map key. */
  datatype Session = Session(
    patientId: string,
    transcript: string,
    summary: string,
    audioFile: string,
    timestamp: int,
    status: Status)

  type Store = map<string, Session>

  const NoSpeech := "No speech detected."
  const SummaryUnavailable := "Summary unavailable."
  const SessionNotFound := "Session not found."
  const Summarizing := "Summarizing..."
  const DeletedStatus := "deleted"
  const SoapPrompt := "Convert to clinical SOAP notes:\n"
  const AudioExtension := ".webm"

  /** Where `/transcribe` writes the upload: `f"{AUDIO_DIR}/{sid}.webm"`. */
  function StoredAudioPath(audioDir: string, sid: string): string {
    audioDir + "/" + sid + AudioExtension
  }

  /** The file `/audio/{filename}` serves: `f"{AUDIO_DIR}/{filename}"`. */
  function ServedAudioPath(audioDir: string, filename: string): string {
    audioDir + "/" + filename
  }

  // ---------- transcribe ----------

  /** Concatenation of Whisper's segment texts, `"".join(...)`. */
  function Concat(segments: seq<string>): string
    decreases |segments|
  {
    if |segments| == 0 then "" else Concat(segments[..|segments| - 1]) + segments[|segments| - 1]
  }

  /** The stored transcript: the stripped concatenation, or the fixed
      placeholder when nothing but whitespace was recognised. Never empty. */
  function TranscriptOf(segments: seq<string>): (t: string)
    ensures t != ""
    ensures !AllSpace(Concat(segments)) ==> t == Strip(Concat(segments))
    ensures AllSpace(Concat(segments)) ==> t == NoSpeech
  {
    var joined := Strip(Concat(segments));
    if joined == "" then NoSpeech else joined
  }

  datatype TranscribeResult =
    | Transcribed(id: string, transcript: string)
    | Unauthorized
    | DuplicateId

  /** `POST /transcribe`. `authenticated` is the outcome of the bearer-token
      dependency, `sid` the fresh UUID, `segments` Whisper's output and `now`
      the clock. A new row starts pending with an empty summary; an id already
      present makes the insert fail. */
  function Transcribe(
    store: Store, authenticated: bool, sid: string, patientId: string,
    segments: seq<string>, audioDir: string, now: int): (r: (TranscribeResult, Store))
    ensures !r.0.Transcribed? ==> r.1 == store
    ensures r.0.Transcribed? <==> authenticated && sid !in store
    ensures r.0.Transcribed? ==>
              && r.0.id == sid
              && r.1.Keys == store.Keys + {sid}
              && (forall id :: id in store ==> r.1[id] == store[id])
              && r.1[sid].patientId == patientId
              && r.1[sid].transcript == r.0.transcript == TranscriptOf(segments)
              && r.1[sid].summary == ""
              && r.1[sid].status == Pending
              && r.1[sid].audioFile == StoredAudioPath(audioDir, sid)
              && r.1[sid].timestamp == now
  {
    if !authenticated then (Unauthorized, store)
    else if sid in store then (DuplicateId, store)
    else
      var transcript := TranscriptOf(segments);
      (Transcribed(sid, transcript),
       store[sid := Session(patientId, transcript, "", StoredAudioPath(audioDir, sid), now, Pending)])
  }

  // ---------- summarize ----------

  /** What running `ollama run phi3:mini` produced: its decoded stdout, or an
      exception (including the 60 s timeout). */
  datatype OllamaRun = Completed(stdout: string) | Raised

  /** The prompt sent on stdin. */
  function Prompt(transcript: string): string {
    SoapPrompt + transcript
  }

  /** `summarize`: the stripped output, or the fallback text when the run
      raised or printed only whitespace. Never empty. */
  function Summarize(run: OllamaRun): (s: string)
    ensures s != ""
    ensures run.Raised? ==> s == SummaryUnavailable
    ensures run.Completed? && AllSpace(run.stdout) ==> s == SummaryUnavailable
    ensures run.Completed? && !AllSpace(run.stdout) ==> s == Strip(run.stdout)
  {
    match run
    case Raised => SummaryUnavailable
    case Completed(out) =>
      var text := Strip(out);
      if text == "" then SummaryUnavailable else text
  }

  // ---------- generate_summary ----------

  /** Outcome of the first half of `generate_summary`: an immediate answer, or
      the transcript of a session it has just marked as processing. */
  datatype SummaryStep = Answered(summary: string) | Claimed(transcript: string)

  /** The reads and the "lock" write of `generate_summary`, up to the point the
      summariser is called. */
  function BeginSummary(store: Store, sid: string): (r: (SummaryStep, Store))
    ensures sid !in store ==> r == (Answered(SessionNotFound), store)
    ensures sid in store && store[sid].status == Done && store[sid].summary != "" ==>
              r == (Answered(store[sid].summary), store)
    ensures sid in store && store[sid].status == Processing ==> r == (Answered(Summarizing), store)
    ensures r.0.Claimed? <==>
              sid in store && store[sid].status != Processing &&
              !(store[sid].status == Done && store[sid].summary != "")
    ensures r.0.Claimed? ==>
              && r.0.transcript == store[sid].transcript
              && r.1 == store[sid := store[sid].(status := Processing)]
  {
    if sid !in store then (Answered(SessionNotFound), store)
    else
      var s := store[sid];
      if s.status == Done && s.summary != "" then (Answered(s.summary), store)
      else if s.status == Processing then (Answered(Summarizing), store)
      else (Claimed(s.transcript), store[sid := s.(status := Processing)])
  }

  /** The final write of `generate_summary`: summary and status `done` for the
      row, which an `UPDATE ... WHERE id=?` skips if it has gone. */
  function FinishSummary(store: Store, sid: string, summary: string): (store': Store)
    ensures store'.Keys == store.Keys
    ensures forall id :: id in store && id != sid ==> store'[id] == store[id]
    ensures sid in store ==>
              && store'[sid].summary == summary
              && store'[sid].status == Done
              && store'[sid].transcript == store[sid].transcript
              && store'[sid].patientId == store[sid].patientId
              && store'[sid].audioFile == store[sid].audioFile
              && store'[sid].timestamp == store[sid].timestamp
  {
    if sid in store then store[sid := store[sid].(summary := summary, status := Done)] else store
  }

  /** `GET /summary/{sid}` run to completion without interleaving: answer text
      and the table afterwards. The summariser is consulted only on the claim
      path, with the session's transcript in the prompt. */
  function GenerateSummary(store: Store, sid: string, ollama: string -> OllamaRun): (r: (string, Store))
    ensures r.0 != ""
    ensures r.1.Keys == store.Keys
    ensures forall id :: id in store && id != sid ==> r.1[id] == store[id]
    ensures sid !in store ==> r == (SessionNotFound, store)
    ensures sid in store && store[sid].status == Done && store[sid].summary != "" ==>
              r == (store[sid].summary, store)
    ensures sid in store && store[sid].status == Processing ==> r == (Summarizing, store)
    ensures !BeginSummary(store, sid).0.Claimed? ==> r == (BeginSummary(store, sid).0.summary, store)
    ensures BeginSummary(store, sid).0.Claimed? ==>
              && r.0 == Summarize(ollama(Prompt(store[sid].transcript)))
              && r.1 == store[sid := store[sid].(summary := r.0, status := Done)]
  {
    match BeginSummary(store, sid)
    case (Answered(text), store') => (text, store')
    case (Claimed(transcript), store') =>
      var summary := Summarize(ollama(Prompt(transcript)));
      (summary, FinishSummary(store', sid, summary))
  }

  // ---------- delete_session ----------

  /** `DELETE /session/{sid}`: removes the row if present and always answers
      "deleted". */
  function DeleteSession(store: Store, sid: string): (r: (string, Store))
    ensures r.0 == DeletedStatus
    ensures r.1.Keys == store.Keys - {sid}
    ensures forall id :: id in r.1 ==> r.1[id] == store[id]
  {
    (DeletedStatus, store - {sid})
  }
}
