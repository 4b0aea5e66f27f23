# Clinical dictation backend: account lockout and summary coordinator

A Dafny model of the stateful core of a clinical dictation app (a FastAPI
backend with a small React frontend):

- **Accounts** (`accounts.dfy`, `tokens.dfy`, `account_properties.dfy`): the
  `users` table as a map from email to a record with an abstract bcrypt digest,
  role, `failed_attempts`, `locked_until` and `verified`; `register` (password
  rule, 72-byte limit, duplicate email) and `login` (lock check, password
  check with the five-failure / 300-second lockout, counter reset, verification
  gate, access token) as pure transitions taking the clock `now` as a parameter;
  the access and verification token claim sets with their lifetimes.
- **Dictation sessions** (`sessions.dfy`, `history.dfy`,
  `session_properties.dfy`): the `sessions` table as a map from id to a record
  with status `Pending | Processing | Done`; the row `/transcribe` inserts; the
  `summarize` fallback wrapper; `generate_summary` split into its claiming half
  (reads and the write to "processing") and its finishing half (summary and
  "done"), so the state another request would observe between the two is
  explicit; `history` / `all_history` (newest first, without the status
  column); `delete_session`.
- **Audio links** (`audio_links.dfy`): the frontend's `audioUrl`, which keeps
  the last `/`-separated segment of the stored path, with its round trip to the
  path the backend writes and the file its `/audio/{filename}` route serves.
- **Text** (`text.dfy`): Python's `str.strip()` and its whitespace class, the
  substring test behind `LIKE '%pid%'`, the UTF-8 byte length, and the
  character classes of the password rule.

The external collaborators are parameters: Whisper's output is the list of
segment texts, the ollama subprocess is a function from prompt to
`Completed(stdout) | Raised`, the bearer-token check on `/transcribe` is a
boolean, the new session id and the clock are plain arguments.

The model follows the code as written:
`register` issues no verification token (the function that creates one is
never called); there is no forgot-password, reset-password, verification
endpoint or audit log; the failure counter and the status transition are
separate read and write calls, not atomic updates; only `/transcribe` checks
the bearer token, since `user = Depends(...)` inside a function body does
nothing.

## Model

| member | source | states |
|---|---|---|
| Text.Strip | backend/app.py:163 | `strip()` removes only surrounding whitespace: the result is the part of the input that starts at its first non-space character (`LeadingSpace`) and is followed by nothing but whitespace; it has no whitespace at either end, and is empty exactly when the input is all whitespace |
| Text.IsSubstringIff | backend/app.py:248-251 | the recursive substring test used for `LIKE '%pid%'` holds exactly when the pattern occurs at some index (both directions) |
| Text.Utf8Length | backend/app.py:316 | the UTF-8 byte length lies between one and four bytes per character and equals the character count exactly for ASCII text |
| Text.Utf8LengthAppend | backend/app.py:316 | the byte length of `password.encode("utf-8")` is additive over concatenation, so the length is fixed character by character |
| Text.Utf8LengthOne | backend/app.py:316 | a one-character string encodes to exactly that character's UTF-8 width, between one and four bytes and one exactly for ASCII |
| Tokens.CreateToken | backend/app.py:127-131 | the access token carries the given subject and role and expires 3600 s (60 minutes) after issue |
| Tokens.CreateVerificationToken | backend/app.py:133-141 | the verification token carries the email and expires 86400 s (24 hours) after issue |
| Accounts.Register | backend/app.py:305-336 | policy failure wins over the length check, which wins over a duplicate email; any rejection leaves the table unchanged; success adds exactly one unverified doctor with both counters 0 whose digest verifies the password, other users unchanged |
| Accounts.Login | backend/app.py:339-414 | a token is issued exactly for a known, unlocked, verified user with the right password, with sub = email, the stored role and a one-hour lifetime; only that user's counters can change, never the password, role or verified flag |
| AccountProperties.RejectionsLeaveTableUnchanged | backend/app.py:350-364 | unknown email gives invalid credentials and a locked account gives locked, whatever the password, and neither changes the table |
| AccountProperties.WrongPasswordCounts | backend/app.py:368-383 | a wrong password raises the counter by exactly one and sets the lock to now + 300 from the fifth failure on, else to 0 |
| AccountProperties.CorrectPasswordResets | backend/app.py:385-414 | a correct password clears both counters before the verification gate; unverified gets not-verified, verified gets a token |
| AccountProperties.RelockAfterExpiry | backend/app.py:357-383 | the counter survives an expired lock, so one more wrong password locks the account again immediately |
| AccountProperties.FailuresAccumulate | backend/app.py:368-383 | up to five wrong passwords on a clean account are each refused as invalid credentials; the counter equals the attempt count and the lock is set exactly at the fifth, to 300 s after it |
| AccountProperties.FiveFailuresLock | backend/app.py:357-400 | after five failures any attempt within 300 s is refused as locked without change; after that the right password resets the counters and succeeds for a verified account |
| AccountProperties.UnverifiedNeverArmsLockout | backend/app.py:385-400 | any run of correct-password attempts on an unverified account is refused as unverified every time and leaves both counters at 0 |
| AccountProperties.RegisterThenLogin | backend/app.py:305-400 | a freshly registered account is refused as unverified with its own password, table unchanged, and a wrong password counts one failure |
| AccountProperties.NoLoginEverSucceeds | backend/app.py:305-414 | since no endpoint sets `verified`, from a table of unverified users no sequence of registrations and logins ever yields a token |
| Sessions.TranscriptOf | backend/app.py:162-166 | the stored transcript is the stripped concatenation of the segments, or "No speech detected." when that is blank; never empty |
| Sessions.Transcribe | backend/app.py:150-189 | without a valid token or with a taken id nothing changes; otherwise exactly one row is added, pending, with empty summary, the transcript `TranscriptOf(segments)` (the stripped join of the segments, or "No speech detected.") that is also returned, `AUDIO_DIR/sid.webm` audio path and the current time, other rows unchanged |
| Sessions.Summarize | backend/app.py:94-112 | the result is never empty: the fallback text when the run raised or printed only whitespace, else its stripped output (`Strip(stdout)`) |
| Sessions.BeginSummary | backend/app.py:191-221 | unknown id, cached done summary and processing each answer at once without change; otherwise (pending, or done with no summary) the row alone becomes processing and its transcript is handed on |
| Sessions.FinishSummary | backend/app.py:224-233 | the final update writes summary and done to that row only, keeping its other columns, and does nothing if the row is gone |
| Sessions.GenerateSummary | backend/app.py:191-235 | the answer is never empty and only the requested row can change; an unknown id gets "Session not found.", a done row with a summary gets that stored summary and a processing row gets "Summarizing...", all without change; on the claim path the summariser is called with the SOAP prompt over that row's transcript and the row ends done with that answer as its summary |
| Sessions.DeleteSession | backend/app.py:295-303 | removes exactly the given id, keeps every other row and always answers "deleted" |
| SessionProperties.TranscribePreservesInvariant | backend/app.py:165-182 | every row keeps a non-empty transcript and has a summary exactly when done, and a new row does not disturb the status of others |
| SessionProperties.GenerateSummaryPreservesInvariant | backend/app.py:206-235 | a full summary request keeps every row well formed and never moves a status backwards |
| SessionProperties.BeginSummaryAdvances | backend/app.py:216-221 | the intermediate processing table keeps the invariant, the claimed row is processing with an empty summary, and no status moves back |
| SessionProperties.DeletePreservesInvariant | backend/app.py:295-303 | deletion keeps every remaining row well formed |
| SessionProperties.NoSummariserCallUnlessClaimed | backend/app.py:197-214 | on the not-found, cached and processing paths the answer does not depend on the summariser and the table is unchanged |
| SessionProperties.SummaryIdempotent | backend/app.py:191-235 | a second request returns the first request's text and table, whatever the summariser would say |
| SessionProperties.PendingBecomesDone | backend/app.py:216-235 | a pending session is done after one request, its summary being the stripped summariser output or the fallback text |
| SessionProperties.InFlightRequestWaits | backend/app.py:212-235 | a request that finds the row processing gets "Summarizing..." without change; the first request then finishes as if alone |
| SessionProperties.DeleteIdempotent | backend/app.py:295-303 | deleting twice equals deleting once, and a deleted session's summary request gets "Session not found." |
| History.InsertionPoint | backend/app.py:248-251 | the position for a new row lies after every strictly newer row and, in a newest-first list, before every other row |
| History.QueryHistory | backend/app.py:237-265 | lists exactly the sessions whose patient id contains pid (all of them for an empty pid), each once, newest first, each row being the stored session without its status |
| History.AllHistory | backend/app.py:267-287 | lists every session once, newest first, without status |
| History.SelectsIff | backend/app.py:248-251 | a non-empty pid selects a session exactly when it occurs at some index of the patient id |
| History.EmptyPidSelectsAll | backend/app.py:243-251 | the empty-pid branch and the `LIKE '%%'` branch select the same rows: all of them |
| History.DeleteHidesFromHistory | backend/app.py:295-303 | after deleting an id the history selects what it selected before minus that id |
| AudioLinks.LastSegment | frontend/src/api.js:51 | the segment has no '/', is a suffix of the path, and is either the whole path or preceded by '/' |
| AudioLinks.AudioUrl | frontend/src/api.js:49-53 | a missing or empty path gives ""; otherwise the URL is `BASE + "/audio/"` followed by the last segment |
| AudioLinks.LastSegmentUnique | frontend/src/api.js:51 | the three facts of the segment's contract determine it uniquely |
| AudioLinks.JoinSplit | frontend/src/api.js:51 | joining `split("/")` with '/' gives the path back |
| AudioLinks.PopIsLastSegment | frontend/src/api.js:51 | `pop()` of `split("/")` is the text after the last '/' |
| AudioLinks.AudioUrlRoundTrip | frontend/src/api.js:49-53 | for a '/'-free session id the stored path `AUDIO_DIR/sid.webm` (backend/app.py:157) becomes `BASE/audio/sid.webm`, and the audio route (backend/app.py:290-293) maps that filename back to the same path |

## Left out

- SQLite I/O and connections: replaced by in-memory maps; the `users.id` autoincrement key is replaced by the unique email.
- Concurrency: the model is sequential. The read-then-write of `failed_attempts` (backend/app.py:370-380) and of the pending-to-processing update (backend/app.py:217-221) are not atomic in the code, so two interleaved requests can lose a failure or both call the summariser; only the interleaving where the second request arrives after the "processing" write is modelled (`InFlightRequestWaits`).
- bcrypt: the digest is abstracted to the password it hashes, so verification is equality; salt, cost and timing are not modelled. bcrypt reads only the first 72 bytes of a password, and `login` (backend/app.py:368) does not check the length: depending on the bcrypt version, a login password longer than 72 bytes that shares its first 72 bytes with the stored one is accepted, or the call raises and the request fails with a server error without touching the counter. The model treats every such password as wrong and counts the failure; `AccountProperties.RegisterThenLogin` relies on this exact comparison for its wrong-password half.
- JWT signing and decoding (`get_current_user`): tokens are their claim sets; the expiry boundary applied on decode is library behaviour and not modelled. On `/transcribe` the outcome of the check is a boolean parameter.
- Accounts.Login: one clock value serves both the lock check (`int(time.time())`) and the token expiry (`datetime.utcnow()`), which the code reads separately.
- Accounts.MeetsPolicy: upper case, lower case and digit are the ASCII ranges and "symbol" is ASCII punctuation; the validator library's exact character classes (Unicode letters, its own symbol list) are not reproduced.
- Text.Utf8Length: strings are sequences of Unicode scalar values, so the encode error Python raises for a lone surrogate cannot arise.
- History.QueryHistory: `LIKE` is modelled as a case-sensitive substring test; SQLite's ASCII case-insensitivity and the `%` / `_` wildcards inside pid are not modelled. Rows with equal timestamps may come in any order, as in SQL.
- Whisper transcription and the ollama subprocess (including its 60 s timeout and UTF-8 decoding with errors ignored) are oracles: a list of segment texts and a prompt-to-result function.
- Sessions.Transcribe: Whisper can raise before the insert (backend/app.py:162-163), which ends the request with a server error and no new row; the segment oracle cannot fail, so an authorised request with a fresh id always adds its row.
- Audio file writes, `FileResponse`, CORS and FastAPI routing; the frontend fetch wrappers and all React components.
- server.py: an older standalone prototype made only of I/O plumbing.
- Forgot-password, reset-password, email-verification consumption and the audit log do not exist in the code and are not modelled.
