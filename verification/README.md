# Verified model of the NIM proxy's evidence, scheduling and operator logic

This project models eight pieces of the repository and proves what they promise, for every input,
every run or every reachable state. `dafny verify dfyconfig.toml` checks the whole of it.

**Evidence sanitizer** (`Text`, `JsonValues`, `JsonText`, `JsonPunctuation`, `Sanitizer`,
`SanitizerPaths`, `SanitizerShape`, `SanitizerFixpoint`, `SanitizerObserver`, `SanitizerRun`,
`JsonReader`, `JsonBody`, and the `Sse…` modules). A captured JSON or server-sent-event body is
rewritten so that only its contract shape survives. The traversal and its two shared dictionaries
run as methods; `Relabel` of `Project` says what they compute, with a dictionary abstracted to the
order in which its keys were first seen. The main results: laid out flat, the result holds exactly
the nodes whose chain of names the contract permits, numbers and identifiers written by their place
among those before them (`BodyWritten`); the written text is determined by the program's own "protected shape" and the booleans, and
determines both, for a body as for a whole stream; two bodies, or two streams, that differ only by
a renaming of numbers and identifiers and by redacted text are written as the same text; the shape
of the result is that of the source exactly when 0.0 and -0.0 do not both occur; sanitizing twice
changes nothing; the event framing is kept, and the final blank line is lost exactly after an odd
run of three or more newlines; and the program's own signature of a captured stream is that of the
sanitized one under one condition on the source, which is necessary as well.

**Bounded reader** (`BoundedReader`). The chunked loop with byte, event and time limits computes
one specification of the whole stream, whatever the fragmentation; stopped early, it answers with
a prefix of that. An answer is called truncated exactly when something is missing or a limit was
reached.

**Key pool and dispatcher** (`KeyPool`, `PoolRun`, `PoolHistory`, `PoolLanes`, `PoolBudget`,
`PoolWindow`, `Dispatch`, `DispatchRun`). The sliding-window lanes with their loops, then every interleaving of
reservations, returns, cooldowns, rebuilds and time, with the exact condition for a rebuild to keep
a key's budget and for a lane's window to hold its live grants and nothing else, and with exactly
the enabled keys granted; then the FIFO
dispatcher as a state machine, and as a class whose loops take exactly the steps of that machine.

**Rate enforcer and end to end** (`Enforcer`, `EndToEnd`). The mock upstream that judges the
proxy: its deque is the recent history, and no run of the dispatcher makes it count a violation.

**Sessions, codecs, limiter** (`Session`, `Codecs`, `Forms`, `Throttle`), **catalogs** (`Catalog`,
`CatalogOrder`, `Translation`), **prerequisite graph and canonical printer** (`Prerequisites`, `CanonicalJson`) and
**manifest-last publication** (`Publication`) complete the picture. `Collections` and `Folding` hold
what several of these share.

Times are integers: nanoseconds in the pool, the dispatcher and the enforcer, seconds in the
limiter and in session expiries. The clock, the JSON reader, SHA-256, HMAC, `html.unescape`, the
UTF-8 decoders and the arrival of bytes are parameters. Where a theorem needs something of a
parameter it says so: `ReadsBack` for the JSON reader, which speaks only of values that hold no
number but placeholders below 2^52 and are nested no deeper than something the reader has read
(`JsonReader.ReaderReadsBack` shows that it can be met); `InjectiveDigest` for the digest; `Unforged`
for the MAC.

Where the code and what is said about it differ, the model follows the code:

- The README promises one rate window per key. A key that one rebuild drops and a later one
  restores starts with an empty window (`DroppedKeyForgotten`), and `DroppedKeyOverspends` is a run,
  through rebuilds that each keep a key, that breaks the promise. It holds exactly as long as no
  rebuild drops the key while it has live grants (`RebuildSafeIff`).
- Everything below `usage` looks permitted, but the names `choices`, `error`, `message`, `delta`,
  `tool_calls` and `function` govern what is below them wherever they stand, so `usage.error` is
  emptied (`ErrorEmptied`).
- A slot returned after its pool was replaced stays spent in the new pool (`ReturnedSlotStaysSpent`
  is the run); `WindowIsLive` says that this is the only way for a returned slot not to be free
  again.
- The sanitizer passes booleans through, while the protected shape drops them; the
  if-and-only-if about written texts names both.
- A second zero of the other sign gets the first one's placeholder (`ShapeLost`), and an odd run of
  newlines loses the final blank line (`TerminationLost`); both are stated as exact conditions.
- The capture guide (knowledge/ops/nim-response-capture.md) says that a failed update is never
  accepted as current evidence. An update that
  fails after its last rename, in the directory's fsync, has put the new set in place, and it is
  accepted; `StoppedAcceptedIff` says exactly when. One that fails earlier, after the first rename or
  with a temporary file left over, leaves a directory that every later run refuses, so it has to be
  repaired by hand (`StoppedStaysRefused`).

## Model

| member | source | states |
|---|---|---|
| `SanitizerRun.Dictionaries.NumberPlaceholder` | scripts/sanitize_nim_capture.py:98-113 | fails exactly on a number that is not finite; otherwise the number's name is the one its first occurrence fixes, and the dictionary grows by first-seen order |
| `SanitizerRun.Dictionaries.IssueNumber` | scripts/sanitize_nim_capture.py:105-113 | a number seen for the first time gets the next position of its class, and the dictionary stays the names of what was seen |
| `SanitizerRun.Dictionaries.IdentifierPlaceholder` | scripts/sanitize_nim_capture.py:116-119 | the identifier's name is its position in first-seen order |
| `SanitizerRun.SanitizeJsonValue` | scripts/sanitize_nim_capture.py:122-162 | the one traversal that projects and renames equals renaming the projection, with both dictionaries threaded; it fails exactly when a projected number is not finite |
| `SanitizerRun.SanitizeItems` | scripts/sanitize_nim_capture.py:150-151 | the same for the items of a list, left to right |
| `SanitizerRun.SanitizePairs` | scripts/sanitize_nim_capture.py:126-149 | the same for the pairs of an object, dropping what the context does not allow |
| `SanitizerPaths.BodyWritten` | scripts/sanitize_nim_capture.py:122-162 | the nodes of the result are exactly those of the source whose chain of names survives, in document order: a number is written by its place among the numbers of its class that appear up to it, an identifier by its place among the identifiers, the five known finish reasons as themselves and any other as `__other__`, other text as a mark, everything else as it is |
| `SanitizerPaths.SurvivorsWritten` | scripts/sanitize_nim_capture.py:122-162 | the same within a stream, numbers and identifiers counted over what was written before |
| `SanitizerPaths.ChoicesSurvive` | scripts/sanitize_nim_capture.py:129-137 | at the root exactly `usage`, `choices` and `error` survive, and below `choices` exactly `index`, `finish_reason`, `message` and `delta` |
| `SanitizerPaths.ToolsSurvive` | scripts/sanitize_nim_capture.py:129-137 | below `message` and `delta` exactly `tool_calls`, below that exactly `index`, `id`, `tool_call_id`, `type` and `function`, and below that exactly `name` and `arguments` |
| `SanitizerPaths.UsageSurvives` | scripts/sanitize_nim_capture.py:138-149 | below `usage` everything survives but what another governing name stands over |
| `SanitizerPaths.ErrorEmptied` | scripts/sanitize_nim_capture.py:127-128 | nothing survives below `error`, not even below `usage` |
| `SanitizerPaths.RefusedIff` | scripts/sanitize_nim_capture.py:98-100 | a body is refused exactly when a number that survives is NaN or infinite |
| `SanitizerShape.SanitizedFromShape` | scripts/sanitize_nim_capture.py:122-162 | equal protected shapes and booleans give equal sanitized values, whatever was seen before in step |
| `SanitizerShape.ShapeKept` | scripts/sanitize_nim_capture.py:893-917 | the protected shape of the sanitized value equals that of the projected original if and only if 0.0 and -0.0 do not both occur |
| `SanitizerShape.ShapeLost` | scripts/sanitize_nim_capture.py:98-113 | one input that loses its shape: 0.0 and -0.0 side by side in `usage` |
| `SanitizerObserver.WholeShapeKept` | scripts/sanitize_nim_capture.py:893-917 | the protected shape of the sanitized value equals that of the original as captured if and only if the contract permits every key of it and 0.0 and -0.0 do not both occur |
| `SanitizerShape.SanitizedAlikeIff` | scripts/sanitize_nim_capture.py:893-917 | without two zeros, two values sanitize alike exactly when their protected shapes and booleans agree |
| `SanitizerShape.NonInterference` | scripts/sanitize_nim_capture.py:98-162 | an injective renaming of identifiers, an injective class-preserving renaming of numbers and any change of other text cannot be seen in the result |
| `SanitizerShape.PlaceholderInjective` | scripts/sanitize_nim_capture.py:98-113 | placeholders of different classes or positions differ, zeros apart |
| `SanitizerFixpoint.SanitizeIdempotent` | scripts/sanitize_nim_capture.py:122-162 | sanitizing a sanitized value gives it again |
| `SanitizerFixpoint.RelabelAgain` | scripts/sanitize_nim_capture.py:98-162 | a second pass in step with the first issues every placeholder again, and stays in step |
| `JsonText.ReadEncoded` | scripts/sanitize_nim_capture.py:165-174 | reading compact ASCII text back gives the value and the text after it, for every value whose floats are written by their repr |
| `JsonText.EncodeInjective` | scripts/sanitize_nim_capture.py:165-174 | different values have different encoded text |
| `JsonPunctuation.EncodedParts` | scripts/sanitize_nim_capture.py:165-174 | lists and objects are written compactly, in order, duplicate names included |
| `JsonPunctuation.QuotedCharacter` | scripts/sanitize_nim_capture.py:165-174 | text is quoted with the short escapes, printable ASCII as itself, and nothing but printable ASCII is written |
| `JsonBody.SanitizeJsonBody` | scripts/sanitize_nim_capture.py:177-181 | fails exactly on an unreadable body or a projected number that is not finite, and otherwise writes the encoded sanitized value |
| `JsonBody.BodyTextsAlikeIff` | scripts/sanitize_nim_capture.py:177-181 | without two zeros, two bodies are written as the same text exactly when their protected shapes and booleans agree |
| `JsonReader.RelabelIssued` | scripts/sanitize_nim_capture.py:98-113 | a sanitized value holds no number but placeholders whose text is their repr, unless it took 2^52 distinct numbers |
| `JsonReader.SanitizedReadsBack` | scripts/sanitize_nim_capture.py:854-858 | what the sanitizer writes for a value it has read is read back, also with blank lines after it, by any reader that understands such values when nested no deeper than something it has read |
| `JsonBody.JsonBodyIdempotent` | scripts/sanitize_nim_capture.py:177-181 | a sanitized body is readable, accepted and unchanged by a second pass, if fewer than 2^52 distinct numbers occur in its contract part |
| `SseBody.DataLines` | scripts/sanitize_nim_capture.py:210-211 | the stripped values of the data lines, in order |
| `SseBody.Replacement` | scripts/sanitize_nim_capture.py:212-217 | the text that replaces an event's joined data, with the dictionaries shared across events; fails exactly on a number that is not finite |
| `SseBody.RenderAll` | scripts/sanitize_nim_capture.py:218-229 | every line keeps its kind, the first data line carries the text and the others nothing |
| `SseBody.SanitizeSseBody` | scripts/sanitize_nim_capture.py:196-231 | the nested loops compute the sanitized body, or fail exactly when some event does |
| `SseLines.DataRead` | scripts/sanitize_nim_capture.py:210-211 | of a line that starts with `data:` what follows the white space behind it is read, of any other line nothing |
| `SseLines.LineWritten` | scripts/sanitize_nim_capture.py:218-229 | what is written for each line: the text for the first data line, nothing for the others, and for any other line its kind and a mark |
| `SseLines.TextWritten` | scripts/sanitize_nim_capture.py:212-217 | the end mark stands for itself, a mark for what cannot be read, and otherwise the encoded sanitized value |
| `SseFraming.RejoinedData` | scripts/sanitize_nim_capture.py:189-193 | the repartitioned data joins to the text followed by one newline for each further data line |
| `SseFraming.LinesAgain` | scripts/sanitize_nim_capture.py:218-229 | rendered lines are safe, render to themselves, and carry the text in their first data line |
| `SseStream.SegmentKept` | scripts/sanitize_nim_capture.py:204-230 | whatever its data says, a rendered event keeps the kind of every line, the number of data lines and the end mark, and splits off again as one segment |
| `SseStream.SegmentAgain` | scripts/sanitize_nim_capture.py:204-230 | a rendered event renders to itself, in step with the first pass, and does not fail |
| `SseDocument.SanitizedSegments` | scripts/sanitize_nim_capture.py:203-231 | for every JSON reader, splitting the sanitized body gives back the rendered segments, with either newline style |
| `SseDocument.FramingKept` | scripts/sanitize_nim_capture.py:928-950 | for every JSON reader, newline style, number of segments, which are empty, the kind of each line, data lines and the end mark of each segment are those of the source; only unknown field names are rewritten |
| `SseDocument.BodyIdempotent` | scripts/sanitize_nim_capture.py:196-231 | sanitizing a sanitized stream succeeds and changes nothing, if fewer than 2^52 distinct numbers occur in the events |
| `SseDocument.TerminationKept` | scripts/sanitize_nim_capture.py:932-934 | for every JSON reader, ending in a blank line is kept if and only if the source does not end in an odd run of three or more newlines |
| `SseDocument.TerminationLost` | scripts/sanitize_nim_capture.py:203-231 | one input that loses its final blank line, whatever the JSON reader: a line and three newlines |
| `SseNumbers.StreamNoted` | scripts/sanitize_nim_capture.py:196-217 | the numbers in the dictionary at the end of a stream are those that occur in the contract parts of its events, each once |
| `SseSignature.ShapesAgree` | scripts/sanitize_nim_capture.py:893-917 | event by event, with one pair of dictionaries, the protected shapes of what the contract permits agree until both zeros were seen and differ from then on |
| `SseSignature.StreamShapesKept` | scripts/sanitize_nim_capture.py:893-917 | the protected shapes of the contract parts, as the sanitizer reads them, are the same in source and result if and only if 0.0 and -0.0 do not both occur in the contract parts of the source's events |
| `SseObserver.SignatureKeptIff` | scripts/sanitize_nim_capture.py:928-950 | the signature of the sanitized stream is that of its source, both taken from the bytes and from whole values, if and only if the source does not end in an odd run of three or more newlines, names no field but the known ones, with their colon, and `field`, pads end marks and values with ASCII space, has no key the contract does not permit, and does not hold both 0.0 and -0.0 |
| `SseObserver.RawShapesKeptIff` | scripts/sanitize_nim_capture.py:935-946 | of these, the last three (of values, not end marks) are exactly what keeps the shapes of the events |
| `SseObserver.OutlinesKeptIff` | scripts/sanitize_nim_capture.py:939-948 | and field names and end marks are exactly what keeps line kinds, data counts and end marks |
| `SseSecrecy.StreamSecrecy` | scripts/sanitize_nim_capture.py:196-231 | two streams with the same framing and line kinds, whose events differ by one renaming across the whole stream and by redacted text, are written as the same text |
| `SseSecrecy.StreamTextsAlikeIff` | scripts/sanitize_nim_capture.py:196-231 | without two zeros, two streams are written as the same text exactly when framing, line kinds, end marks, readability, shapes with references across events, and booleans agree |
| `Publication.ManifestBinds` | scripts/sanitize_nim_capture.py:561-624 | two accepted file sets with the same manifest are the same files |
| `Publication.AcceptedIff` | scripts/sanitize_nim_capture.py:561-624 | leniently a set is accepted exactly when it is the four fixtures and a manifest, written as it is dumped, that describes each fixture as it stands; strictly exactly when the evidence is theirs as well |
| `Publication.StaleEvidence` | scripts/sanitize_nim_capture.py:617-620 | a set whose evidence goes stale is still accepted leniently, and no longer strictly |
| `Publication.Directory.WritePrivate` | scripts/sanitize_nim_capture.py:708-727 | a new file appears under a temporary name, empty at first, without touching another file; if a call fails it is unlinked, or left over if that fails too |
| `Publication.Directory.Publish` | scripts/sanitize_nim_capture.py:796-798 | the file is replaced in one step after its temporary copy was written; if a call fails nothing is changed but for the temporary file |
| `Publication.OldManifest` | scripts/sanitize_nim_capture.py:788-800 | while the manifest is the old one, or there is none, only the old set can be accepted |
| `Publication.GoodSetStaged` | scripts/sanitize_nim_capture.py:763-779 | when manifests are read back as they are dumped, a run is refused exactly when the destination is there and its manifest does not describe it, or some new fixture is invalid |
| `Publication.WriteOutput` | scripts/sanitize_nim_capture.py:763-808 | a refusal touches nothing; otherwise the directory goes through the sets with one more file replaced, manifest last, and each of them, if accepted, is wholly the old set or wholly the new one; success leaves the new set accepted, and it fails only if a call did, wherever that was |
| `Publication.StoppedAcceptedIff` | scripts/sanitize_nim_capture.py:561-624 | the directory a run stopped in is accepted if and only if nothing had been replaced and the old set was accepted, or everything had |
| `Publication.StoppedStaysRefused` | scripts/sanitize_nim_capture.py:770-773 | a directory a run stopped in before the end, with anything changed or just created, is refused by every later run |
| `Publication.ConcurrentReader` | scripts/sanitize_nim_capture.py:561-624 | a validation that runs alongside and reads one file at a time accepts nothing but the old set or the new one |
| `BoundedReader.TruncateStream` | scripts/capture_nim.py:504-511 | what is retained of the stream is cut at its last complete event, as the specification stops there, and marked truncated if that cut anything |
| `BoundedReader.ScanByte` | scripts/capture_nim.py:542-554 | one byte updates line, event count and boundary to those of the longer prefix |
| `BoundedReader.ReadBoundedResponse` | scripts/capture_nim.py:514-554 | undisturbed, the answer is the one a single look at the whole stream gives, whatever the chunks; at the first disturbance it is what was read until then, cut at its last event, or an error if the connection broke before the deadline |
| `BoundedReader.UndisturbedIs` | scripts/capture_nim.py:514-554 | a buffered answer is the stream up to 2 MiB, a streamed one as many whole events of it as 2 MiB and 2048 events allow |
| `BoundedReader.TruncatedIff` | scripts/capture_nim.py:524-554 | an undisturbed answer is called truncated exactly when something is missing, the stream has 2 MiB or more, or its first 2 MiB hold 2048 events |
| `BoundedReader.EarlyIsPrefix` | scripts/capture_nim.py:526-540 | an answer cut short by the deadline is a prefix of the undisturbed answer |
| `BoundedReader.AnswerWithinCaps` | scripts/capture_nim.py:514-554 | every answer is a prefix of the stream within the byte and event limits, and a truncated streamed one ends with a complete event |
| `KeyPool.AvailableFromReadyAt` | src/pool.rs:276-290 | from a lane's ready time on it can be taken, and not before |
| `KeyPool.WaitIsSoonest` | src/pool.rs:255-312 | a wait is announced only when no eligible lane is available, none becomes available sooner, and one does then unless the wait was capped at the window |
| `KeyPool.ReserveChoice` | src/pool.rs:255-312 | a slot is granted exactly when an allowed lane is available: the preferred lane if it is one, else the least loaded, the first on a tie |
| `KeyPool.ReleaseUndoes` | src/pool.rs:314-321 | releasing a slot with its own stamp takes the reservation back: from then on every lane behaves as if nothing had been reserved |
| `PoolLanes.GrantedLane` | src/pool.rs:255-312 | a slot is granted exactly when an active lane of an allowed group is out of cooldown with fewer than its budget sent within 61 s; the preferred one of these if there is one, otherwise the one with the fewest, the first on a tie |
| `PoolLanes.FreeAgain` | src/pool.rs:276-290 | a lane with its budget spent is free again exactly 61 s after the oldest timestamp that counts |
| `PoolLanes.AssembleBuilt` | src/pool.rs:113-147 | a rebuild has one lane for each key of the configuration, with its budget and group, and exactly the enabled ones are active |
| `PoolLanes.LaneCarried` | src/pool.rs:120-147 | a kept key keeps its timestamps and its cooldown; a new one has none |
| `PoolLanes.LanesInOrder` | src/pool.rs:114-116 | enabled keys keep the order of the configuration, and so do the others |
| `PoolLanes.OnlyEnabledGranted` | src/pool.rs:98-331 | over every run each grant is of a key that the configuration of its generation has enabled, at the budget it says |
| `PoolLanes.EnabledCanBeGranted` | src/pool.rs:98-331 | over every run each enabled key of the configuration in force, in a group the caller may use, has a lane that grants when it is out of cooldown and under its budget |
| `PoolRun.Pool.TryTake` | src/pool.rs:219-239 | takes the lane exactly when it is out of cooldown and its window is not full, recording the time |
| `PoolRun.Pool.ReserveFiltered` | src/pool.rs:255-312 | the loop over lanes and the sort give the preferred lane, else the least-loaded ready one of lowest index, else the soonest wake-up |
| `PoolRun.SortPairs` | src/pool.rs:297-297 | the pairs in ascending order, the same ones |
| `PoolRun.Pool.Release` | src/pool.rs:316-321 | the last record of the stamp is taken out of its lane, and nothing else changes |
| `PoolRun.Pool.Penalize` | src/pool.rs:324-330 | the lane is available exactly when it was and the penalty is over, its cooldown never moves earlier, and no other lane changes |
| `PoolHistory.StepConsistent` | src/pool.rs:98-331 | every event keeps windows sorted and in the past, keys distinct, and grants pointing at lanes of their key |
| `PoolHistory.StepKeeps` | src/pool.rs:98-331 | every event but a rebuild that drops the key with live grants keeps those grants recorded in its lane, and its budget |
| `PoolHistory.KeptKeyWithinBudget` | README.md:206-206 | over every run in which no rebuild drops the key while it has live grants, no grant of it fills its rolling 61-second window beyond the budget in force for it |
| `PoolBudget.RebuildSafeIff` | src/pool.rs:103-147 | after a rebuild, every such run keeps the budget if and only if the rebuild kept the key or the key had no live grant |
| `PoolBudget.DroppedKeyOverspends` | README.md:206-206 | one run that breaks the promise of one window per key: granted, dropped by a rebuild that keeps another key, restored, granted again |
| `PoolHistory.DroppedKeyForgotten` | src/pool.rs:103-147 | a key dropped by one rebuild and restored by the next has an empty window and is available at once |
| `PoolWindow.WindowIsLive` | src/pool.rs:314-321 | over every run whose rebuilds drop the key only with an empty window, the times left in its window are exactly its live grants, and a returned slot is free again, if and only if none of the window was returned after its pool had been replaced |
| `PoolWindow.ReturnedSlotStaysSpent` | src/pool.rs:314-321 | one run that loses a slot: granted, the pool rebuilt with the same key, returned; no grant is out and the lane is full |
| `Dispatch.StepGood` | src/dispatch.rs:89-150 | every step, of the dispatcher, a client or the settings, keeps queue order, spacing, accounting of grants and the gauge |
| `Dispatch.DispatcherSafe` | src/dispatch.rs:89-150 | in every run deliveries follow arrival order at least 25 ms apart, each grant is delivered to one waiter or returned or in hand, and the gauge counts the waiters inside |
| `Dispatch.TryOutcome` | src/dispatch.rs:95-146 | a waiter gets a slot when the pool has one, sleeps until one can open or for 500 ms if that is by its deadline, and leaves otherwise |
| `Dispatch.LeavesWhenHopeless` | src/dispatch.rs:137-141 | a waiter leaves without a slot only when no lane it may use would become available by its deadline |
| `Dispatch.HandOutcome` | src/dispatch.rs:131-136 | a slot in hand is delivered, with a rest of 25 ms, or returned, with none |
| `DispatchRun.Dispatcher.Acquire` | src/dispatch.rs:71-86 | the waiter joins the end of the queue with the next id and the gauge goes up |
| `DispatchRun.Dispatcher.TryReserve` | src/dispatch.rs:93-146 | on the live pool: a slot in hand, a capped sleep that ends by the deadline, or the end of the turn |
| `DispatchRun.Dispatcher.Hand` | src/dispatch.rs:131-136 | the slot is delivered if the receiver is there, and otherwise returned to the pool that granted it |
| `DispatchRun.Dispatcher.Serve` | src/dispatch.rs:90-149 | the loop for one waiter terminates; with an ideal clock its turn is over by its own deadline, or a gap after a delivery |
| `DispatchRun.Dispatcher.Run` | src/dispatch.rs:89-150 | whatever happens during its pauses, the dispatcher takes only steps of the state machine |
| `Enforcer.ServeFaithful` | scripts/mock_nim.py:82-94 | the deque is exactly the admitted requests younger than 60 s, in order |
| `Enforcer.RollingBound` | scripts/mock_nim.py:82-94 | no rolling 60 s ever holds more than rpm admissions |
| `Enforcer.AdmittedIff` | scripts/mock_nim.py:82-94 | a request is admitted exactly when fewer than rpm were admitted in the 60 s before it, and is otherwise counted as a violation |
| `Enforcer.MinuteBound` | scripts/mock_nim.py:82-94 | over every run no 60 s hold more than rpm admissions |
| `Enforcer.RetryAfterLeast` | scripts/mock_nim.py:90-90 | the announced wait is the least number of whole seconds, at least one, after which the oldest request is past the window |
| `Enforcer.RetryAfterSuffices` | scripts/mock_nim.py:87-93 | waiting the returned seconds with no other traffic gets the next request past the window |
| `Enforcer.PacedNeverRefused` | scripts/mock_nim.py:82-94 | arrivals that keep the limit themselves are all admitted |
| `Enforcer.Upstream.CheckRate` | scripts/mock_nim.py:77-94 | the shared deques and counters change as the specification of one key says, and other keys do not change |
| `Enforcer.Upstream.TakeWorker` | scripts/mock_nim.py:97-110 | a slot of the model is taken exactly while fewer than the cap are in use, the cap is never passed, and the peak and the refusals are counted |
| `Enforcer.Upstream.FinishWorker` | scripts/mock_nim.py:111-116 | the slot is given back |
| `EndToEnd.ArrivalsPaced` | README.md:206-206 | requests arriving within a second of grants that keep the 61-second window keep the 60-second one |
| `EndToEnd.ZeroViolations` | scripts/mock_nim.py:77-94 | over every pool run that does not drop the key while it has live grants, the enforcer counts no violation for requests sent on its grants, whatever order they arrive in |
| `EndToEnd.PoolRunIs` | src/dispatch.rs:89-150 | the pool's side of a dispatcher run is a run of the pool |
| `EndToEnd.DispatchedNeverRefused` | src/dispatch.rs:89-150 | over every such dispatcher run, requests sent on delivered slots are never refused |
| `Throttle.Admin.NoteFailure` | src/auth.rs:206-211 | counts a failure in its window and says whether the limit is passed |
| `Throttle.Admin.IsThrottled` | src/auth.rs:213-217 | true exactly when an attempt now would be refused, changing nothing |
| `Throttle.Admin.AdmitPreAuthAttempt` | src/auth.rs:222-230 | admits exactly while the window's count is within the limit, counting the attempt |
| `Throttle.AdmittedIff` | src/auth.rs:222-230 | over every interleaving of the three calls, an attempt is admitted if and only if at most ten failures and admitted attempts were counted before it in its window |
| `Throttle.WindowEnds` | src/auth.rs:269-275 | a window ends exactly 60 s after it started, at the next failure or attempt |
| `Throttle.RefusedIff` | src/auth.rs:206-217 | the limiter refuses exactly while its window lasts and more than ten are counted in it |
| `Throttle.ElevenPerWindow` | src/auth.rs:219-230 | over every interleaving of the three calls, at most 11 attempts are admitted per window |
| `Throttle.TwentyTwoPerSpan` | src/auth.rs:219-230 | and at most 22 in any span shorter than 60 s |
| `Session.FrameInjective` | src/auth.rs:156-164 | the length-prefixed MAC input determines its list of parts |
| `Session.SignedParses` | src/auth.rs:166-176 | a signed token parses to its expiry, user, fragment and tag |
| `Session.SignedVerifiesIff` | src/auth.rs:181-203 | a signed token is accepted, as its user, exactly until its expiry while the user exists with a password of the same fragment |
| `Session.AcceptedIff` | src/auth.rs:181-203 | whoever made it, a token is accepted as a user's exactly when it is four parts between dots: an expiry not past, the user's name, the fragment of the user's password, and the tag of the three |
| `Session.ParseHexIff` | src/auth.rs:192-192 | an expiry is read from hexadecimal digits of either case, after at most one plus sign, below 2^64 |
| `Session.MessageWasSigned` | src/auth.rs:156-176 | a session message under the MAC was signed as such: no other parts and no memoized credential give the same input |
| `Session.AcceptedWasSigned` | src/auth.rs:181-203 | unless the tag of what it claims was guessed, an accepted token's expiry, user and fragment were signed together earlier in the run |
| `Session.UnsignedRefused` | src/auth.rs:181-203 | while nothing was signed with the user's current fragment, or once the user is deleted, no token of the user is accepted |
| `Session.ChangeRevokes` | src/auth.rs:178-203 | after a password change or deletion at any point of the run, of the tokens accepted for the user before it exactly those are still accepted that have not expired and carry the new password's fragment |
| `Session.OtherFragmentRefused` | src/auth.rs:201-202 | and no token with another fragment is accepted, whoever made it |
| `Codecs.UnhexOfHex` | src/auth.rs:277-294 | unhex gives back what hex wrote |
| `Codecs.UnhexFailsIff` | src/auth.rs:286-294 | unhex fails exactly on an odd length or a character that is no hexadecimal digit of either case |
| `Codecs.Base64Decode` | src/auth.rs:346-379 | the shifting loops compute the decoder's specification |
| `Codecs.Base64RoundTrip` | src/auth.rs:346-379 | decoding any text that is a standard encoding up to padding and white space gives its bytes |
| `Codecs.Base64FailsIff` | src/auth.rs:346-379 | decoding fails exactly on a foreign character or a length of 1 modulo 4 |
| `Codecs.DecodeFailsIff` | src/auth.rs:346-379 | said of the text itself: decoding fails exactly on a character that is neither of the standard alphabet nor padding nor ASCII white space, or when the others number 1 modulo 4 |
| `Forms.UrlDecode` | src/auth.rs:564-584 | the byte loop computes the decoding of `+` and percent escapes |
| `Forms.FormField` | src/auth.rs:553-562 | the first pair with the name decides |
| `Forms.TextRoundTrip` | src/auth.rs:564-584 | decoding a value serialized as section 5.2 of the WHATWG URL Standard says gives the value |
| `Forms.DecodedUpTo` | src/auth.rs:564-584 | of any text, what stands before the first well-formed escape stays as it is, malformed escapes included |
| `Forms.DecodedEscape` | src/auth.rs:570-577 | an escape becomes the byte its digits, of either case, stand for |
| `Forms.FormFieldFinds` | src/auth.rs:553-584 | of any serialized form, a field whose name needs no escaping is read as the first value of that name, as far as it is valid UTF-8, or nothing if there is none |
| `Forms.FirstNamed` | src/auth.rs:553-562 | of any body, the first part that is the name, `=` and a value decides; parts without `=` do not |
| `Catalog.UnbalancedBraces` | scripts/locale_v1.py:63-74 | the depth loop decides whether scanning meets an error |
| `Catalog.BalancedIff` | scripts/locale_v1.py:63-74 | a text passes exactly when it is made of brace-free literals and unnested groups |
| `Catalog.GroupsOfPieces` | scripts/locale_v1.py:55-60 | in such a text the placeholder matches are its groups, in order |
| `Catalog.Message` | src/web/login.js:44-49 | the split-and-join loop applies the parameters one after the other to the message, or to its id |
| `Catalog.ReplaceFillsOne` | src/web/login.js:46-47 | one split and join fills exactly the groups of that name |
| `Catalog.SequentialIsSimultaneous` | src/web/login.js:44-49 | on balanced texts with brace-free keys and values, the loop equals substituting all parameters at once |
| `Catalog.OrderFree` | src/web/login.js:44-49 | only the value each name stands for matters, not the order of the parameters |
| `Catalog.BracedValueIsRescanned` | src/web/login.js:46-47 | with braces in a value the order does matter: one input, two results |
| `CatalogOrder.SimultaneousIff` | src/web/login.js:44-49 | for values that are balanced texts themselves, the loop equals substituting all at once on every balanced text if and only if no value is changed by the parameters after it |
| `CatalogOrder.CommuteIff` | src/web/login.js:46-47 | two such parameters give the same text in either order, on every balanced text, if and only if neither value shows the other's placeholder, unless that stands for itself |
| `Catalog.PlaceholdersLeft` | src/web/login.js:44-49 | a rendered balanced text is balanced and shows exactly the placeholders that were not supplied |
| `Translation.Inspect` | scripts/locale_v1.py:87-143 | the list holds exactly the problems of one message |
| `Translation.Validate` | scripts/locale_v1.py:77-145 | the list holds exactly the defects of the two catalogs |
| `Translation.EachDefect` | scripts/locale_v1.py:87-133 | what each kind of problem means for a message of both catalogs: a raw bracket, a bracket behind an entity, another hash, more characters than a cap that is not 0, other markers, text that is not literals and groups |
| `Translation.ParityDefect` | scripts/locale_v1.py:94-105 | a parity problem is a balanced text with a placeholder, not a marker, that only one of the two texts shows |
| `Translation.FrozenDefect` | scripts/locale_v1.py:134-143 | a frozen token is missed exactly when the source text holds it and the translation does not |
| `Translation.LoneDefect` | scripts/locale_v1.py:82-85 | a message of one catalog only has exactly one problem, missing or orphan |
| `Translation.MarkersKept` | scripts/locale_v1.py:112-119 | rendering keeps the inline markers in order |
| `Translation.SoundRenders` | scripts/locale_v1.py:58-119 | a translation without a syntax, placeholder or inline problem renders, once the source's parameters are supplied, with no placeholder left and the source's markers |
| `Translation.ParityIff` | scripts/locale_v1.py:94-101 | two balanced texts pass the parity check exactly when the same supplies of parameters are complete for both |
| `Prerequisites.Search.Visit` | scripts/render_check.js:2474-2484 | terminates on every graph; without a problem the id is finished after everything it requires, and what is reported is on a cycle |
| `Prerequisites.Cycles` | scripts/render_check.js:2472-2485 | a cycle is reported exactly when the graph has one, and only ids on a cycle are reported |
| `Prerequisites.RowProblems` | scripts/render_check.js:2436-2447 | the list holds exactly: that a prerequisite is named twice, and then nothing else; that one is no row or the row itself; or that one does not come before the row |
| `Prerequisites.RecipeProblems` | scripts/render_check.js:2436-2485 | the list holds exactly what is reported of some row; it is empty exactly when each row's prerequisites are unique, known and earlier; a cycle is reported exactly when there is one |
| `Prerequisites.RowsFineIff` | scripts/render_check.js:2436-2447 | with unique ids the row checks pass exactly when no row names a prerequisite twice and every prerequisite is an earlier row |
| `Prerequisites.OrderedIsAcyclic` | scripts/render_check.js:2436-2485 | and then the graph has no cycle |
| `Prerequisites.Planner.AddDependency` | scripts/render_check.js:5054-5060 | terminates and adds exactly what the id reaches, each row once and after everything it requires |
| `Prerequisites.Dependencies` | scripts/render_check.js:5053-5061 | the list is exactly the transitive prerequisites of the row, each once, each after everything it requires |
| `CanonicalJson.CanonicalIff` | scripts/render_check.js:2517-2524 | two values with finite numbers and no negative zero print the same exactly when they are equal up to the order of object keys |
| `CanonicalJson.CanonicalRecord` | scripts/render_check.js:2519-2522 | an object prints each field once, quoted key, colon and value, with commas, the keys ascending by UTF-16 code units |
| `CanonicalJson.CanonicalList` | scripts/render_check.js:2518-2518 | a list prints its items in order, with commas |
| `CanonicalJson.JsQuoted` | scripts/render_check.js:2523-2523 | text is quoted with no more escapes than JSON needs |
| `CanonicalJson.PrintTells` | scripts/render_check.js:2517-2524 | printed text, with whatever follows a value, determines the value |
| `CanonicalJson.AscendingUnique` | scripts/render_check.js:2519-2522 | there is one way to list fields in ascending order of their names |

## Left out

- Bodies are text: UTF-8 decoding and its failures are not modelled, nor are lone surrogates, which a Dafny character cannot be.
- A float is named by its `repr` and carries its sign; how Python prints and reads floats is not modelled.
- Python's JSON reader is a parameter; what idempotence and shape preservation assume of it is `ReadsBack`. From the 2^52nd distinct number of a class on, `position + 0.5` is rounded; the model's placeholder is not.
- `SseSignature` and `SseDocument` look at both streams as the sanitizer does; `SseObserver` looks at them as `sse_signature` does, with text in place of its UTF-8 bytes. What it assumes of the JSON reader besides `ReadsBack` is `StrictSpace`: no line of a text it reads starts with white space that is not ASCII (`StrictReaderStrict` shows that both can be met).
- The envelope, evidence and self-test functions of scripts/sanitize_nim_capture.py.
- Publication: file modes, ownership, links, what a crash leaves unsynced, the staging copy, `refresh_manifest` and a directory replaced by someone else; parsing of manifest and fixtures is a parameter, and the digest is assumed injective.
- The look for leftover temporary files before writing: validation has just refused any other name, and interference by other processes is not modelled.
- The reader's timing is a schedule of outcomes; TLS, HTTP and signals are not modelled.
- Lane metadata (endpoint names, base URLs), statistics and affinity counters.
- Of the configuration validation before a rebuild only that keys are unique and budgets positive; the pool floor, an enabled key of the superuser on an enabled upstream, is not modelled, so runs may also rebuild to pools without a key (src/config.rs is not part of this model).
- A receiver dropped after a successful send keeps the slot spent; the model counts it as delivered, as the code does.
- Several tasks on one clock are interleaved steps; the memory model and the async runtime are not modelled.
- DispatchRun.Dispatcher.Run: serves a given number of turns, because Dafny methods terminate; the source's loop never ends.
- DispatchRun.Dispatcher.Serve: the bound by the deadline holds for an ideal clock, one that moves only while the dispatcher sleeps and wakes it on time; otherwise only termination and safety are stated.
- EndToEnd.ZeroViolations: arrivals are handled in timestamp order; scripts/mock_nim.py reads its clock before it takes the lock, so that order is an assumption.
- Enforcer.ServeFaithful: monotonic float seconds are integer nanoseconds.
- The 32-bit failure counter's wrap-around, which the limiter cannot reach within a window of the admitted attempts but `note_failure` alone could after 2^32 failures.
- SHA-256, HMAC, PBKDF2 and constant-time comparison are uninterpreted; the scraper credential memo appears only as other messages under the same MAC.
- Forms.UrlDecode: `from_utf8_lossy` is a parameter, the identity on valid UTF-8.
- Translation.Validate: problems are compared as a set; the sorted order and the wording of the messages are not modelled. `html.unescape` and the list of frozen tokens are parameters.
- Prerequisites.RecipeProblems: of the recipe checks only those about prerequisites; the others compare fields of one row.
- CanonicalJson.CanonicalIff: a number is named by the text JavaScript prints it as; undefined, functions and lone surrogates are not modelled.
- src/api.rs, src/proxy.rs, the governor, history, browser checks, load test and the translation heuristics of scripts/check_i18n.py and scripts/check_agent_guide.py.
