# Admissions interviewer: a verified model of the interview controller

The admissions interviewer is a chat bot that runs an adaptive college
admissions interview in a chat channel. This Dafny project models the logic
in `admissions-interviewer/bot.py` that does not depend on the chat service,
the language-model service or the SQL engine, and proves properties of that
logic. The model covers five parts.

- **The coverage model** (`coverage.dfy`, module `Coverage`).
  - There are six target categories. A new session starts with all six uncovered and with zero evidence.
  - `enough_coverage` counts the targets whose `covered` is exactly `true` and compares the count with 5.
  - `enough_coverage` is partial. It raises when the coverage is not an object, or when a target entry is present but is not an object. The model makes this explicit: `EnoughCoverage` returns an `Option<bool>`.
- **The store** (`records.dfy` and `store.dfy`, modules `Records` and `Store`).
  - The four tables (`sessions`, `messages`, `session_state`, `evaluations`) are held in memory by the class `Store.Database`.
  - `sessions`, `messages` and `evaluations` are sequences in insertion order. The state table is a map from session id to state.
  - A session's id is its row number, because AUTOINCREMENT runs with no deletes.
  - Each table accessor of the source (`get_active_session`, `get_last_session`, `add_message`, `get_or_create_state`, `save_state`, and the inserts and the update the commands issue) is one method of the class. The transcript queries `fetch_transcript_rows` and `transcript_text` are functions over the message log.
  - Each method is specified by a function over plain values:
    - `Latest` for `get_active_session` and `get_last_session`;
    - `LazyInsert` for `get_or_create_state`;
    - `Overwrite` for `save_state`;
    - `TranscriptOf` for `fetch_transcript_rows`.
- **The commands** (`handlers.dfy`, module `Handlers`). These are `/start_interview`, `/set_resume`, `/end_interview`, `/export_transcript` and `/evaluate`, written as methods that change the store.
  - Each rejection writes nothing.
  - Each success states the whole new store.
- **The turn controller** (`turns.dfy` for the decision as a function, and `Handlers.OnMessage` for the writes).
  - A candidate message in a channel with an active session is recorded first.
  - The interview is then ready to end if `turn_count` has reached 10 or if coverage is sufficient.
  - Otherwise the parsed backend reply yields the next state (one more turn, the same resume, the reply's `coverage_update` or the old coverage) and a question (the reply's `question` or a default question).
  - A failed backend call or a failed parse yields the fixed fallback question and leaves the state as it was.
  - Exactly one interviewer message is recorded when a question is asked.
  - `turn_count` never passes 10 on this path (`RunTurnsKeepsBound`, `OnMessage`).
  - With replies that keep coverage insufficient, it climbs to exactly 10 and every later message is told to end (`ProductiveRunReachesLimit`).
- **`safe_json_parse`** (`json_text.dfy`, module `JsonText`). It decodes the whole stripped reply. Failing that, it decodes the first triple-backtick-separated segment that decodes, after stripping the segment and dropping a leading `json` tag. JSON decoding is a caller-supplied partial function (`Decoder`).

What the bot does not do, and what it does instead:
- It does not detect candidate questions, does not de-duplicate similar questions and does not pick a fallback question by coverage. It has one fixed fallback question, used only when generation raises.
- The coverage threshold is the constant 5.
- `/start_interview` checks for an active session on the invoking channel. It stores the new session under the interview channel, which is the thread it created when it could create one.
  - So "at most one active session per channel" is kept only when that channel is the invoking channel or has no active session (`StartInterview`, `AddActiveKeepsOneActive`).
  - `AddActiveOnBusyChannelBreaksOneActive` shows that the invariant breaks without that condition.
- A backend reply can make the handler raise:
  - When the reply parses but is not an object, `data.get` raises inside the guarded call and the fallback question is asked.
  - When `question` cannot be written to the `content` column, the state has already been saved with one more turn. The handler then raises with no interviewer message recorded (outcome `Aborted`). This happens for `null`, an array, an object, an integer outside 64 bits (the binding overflows) and NaN (bound as NULL, which `content` refuses).
  - When the stored coverage cannot be read by `enough_coverage`, the handler raises right after recording the candidate message.
- `/evaluate` creates the session's state row before asking the backend. It appends an evaluation only when the reply parses to an object.

## Model

| member | source | states |
|---|---|---|
| `JsonText.Strip` | admissions-interviewer/bot.py:231 | `text.strip()` is a slice of the text with only whitespace (the characters `str.isspace` accepts) cut on either side, and it neither starts nor ends with whitespace |
| `JsonText.JoinSplit` | admissions-interviewer/bot.py:239 | the pieces of `text.split(sep)` joined with `sep` give back the text |
| `JsonText.SplitSingleIffAbsent` | admissions-interviewer/bot.py:238-239 | splitting on the fence yields a single piece exactly when the fence does not occur in the text (the `in` guard and the split agree) |
| `JsonText.FirstDecodable` | admissions-interviewer/bot.py:240-247 | the loop returns the first segment in order that decodes: every earlier one fails, and none is returned only when every segment fails |
| `JsonText.SafeJsonParse` | admissions-interviewer/bot.py:230-248 | the decode of the whole stripped text when it succeeds; otherwise, when the text holds a fence, the decode of the first fence-separated segment (stripped, with a leading `json` tag dropped and the rest stripped again, as `Candidates` lists them) that decodes; it fails (raises) exactly when the whole text fails and there is no fence or every segment fails |
| `Coverage.DefaultCoverage` | admissions-interviewer/bot.py:171-172 | an object whose keys are exactly the six target categories, each mapped to `covered = false` and `evidence_count = 0` |
| `Coverage.DefaultCoverageHasSixEntries` | admissions-interviewer/bot.py:34-41 | the six target names are distinct, so the default coverage has six entries |
| `Coverage.TallyCovered` | admissions-interviewer/bot.py:213-215 | the sum raises exactly when some target entry cannot be asked `.get("covered")`; otherwise it is the number of distinct targets whose `covered` is exactly `true` |
| `Coverage.EnoughCoverage` | admissions-interviewer/bot.py:212-216 | the call raises exactly when the coverage is not an object or some present target entry is not an object |
| `Coverage.EnoughCoverageMeaning` | admissions-interviewer/bot.py:212-216 | when it answers, the coverage is sufficient iff at least 5 target categories have `covered` exactly `true`; keys outside the targets and truthy values other than `true` do not count |
| `Coverage.DefaultCoverageIsInsufficient` | admissions-interviewer/bot.py:171-172 | the starting coverage is never sufficient |
| `Records.InitialState` | admissions-interviewer/bot.py:184-191 | the inserted row has an empty resume, zero turns and exactly the default coverage, which is not sufficient |
| `Records.LazyInsert` | admissions-interviewer/bot.py:174-199 | an existing row is returned and the table is unchanged; a missing row is inserted with the initial values and returned |
| `Records.Overwrite` | admissions-interviewer/bot.py:201-210 | the update replaces an existing row, adds no row, and leaves every other row as it was |
| `Records.LazyInsertIdempotent` | admissions-interviewer/bot.py:174-199 | a second `get_or_create_state` returns the same row and writes nothing |
| `Records.SaveThenLoad` | admissions-interviewer/bot.py:174-210 | after `save_state` on an existing row, `get_or_create_state` returns the saved values and writes nothing |
| `Records.LatestIndex` | admissions-interviewer/bot.py:119-125 | the position of the last row that matches the channel (and the status when only active rows are selected); no later row matches, and there is none only when no row matches |
| `Records.LatestHasHighestId` | admissions-interviewer/bot.py:133-139 | with ascending ids, the row found is a matching row with the highest id (`ORDER BY id DESC LIMIT 1`), and there is none exactly when no row matches |
| `Records.ResolveSession` | admissions-interviewer/bot.py:507-515 | the last active session of the channel if there is one, otherwise its last session of any status; none exactly when the channel has no session |
| `Records.AddActiveKeepsOneActive` | admissions-interviewer/bot.py:404-410 | inserting an active session on a channel with no active session keeps at most one active session per channel |
| `Records.AddActiveOnBusyChannelBreaksOneActive` | admissions-interviewer/bot.py:413-436 | a concrete store in which inserting under a channel that already has an active session leaves two active sessions on it |
| `Records.EndedAt` | admissions-interviewer/bot.py:493-497 | the ended session has status ended and the end time, and its id, candidate, channel and start time are unchanged |
| `Records.EndingLatestLeavesNoActive` | admissions-interviewer/bot.py:485-499 | when each channel has at most one active session, ending the channel's active session leaves it with none and keeps the invariant |
| `Records.TranscriptOf` | admissions-interviewer/bot.py:154-165 | exactly the messages of the session (membership), no more of them than the log holds; the insertion order is stated by `TranscriptAppend` |
| `Records.TranscriptOfUnknownSession` | admissions-interviewer/bot.py:154-165 | a session with no messages in the log has an empty transcript |
| `Records.TranscriptAppend` | admissions-interviewer/bot.py:144-165 | appending a message adds it at the end of its own session's transcript and leaves every other transcript unchanged; with the empty transcript of the empty log this fixes the transcript as the session's messages in insertion order (`ORDER BY id ASC`) |
| `Records.TranscriptText` | admissions-interviewer/bot.py:167-169 | the lines `[created_at] ROLE: content` joined with newlines: empty exactly for an empty transcript, and opening with the first message's line |
| `Records.TranscriptTextAppend` | admissions-interviewer/bot.py:167-169 | a message added to a transcript adds one line to the end of its text, after a newline unless the transcript was empty |
| `Records.Truncate` | admissions-interviewer/bot.py:518 | the whole text when it fits, and exactly its first `limit` characters otherwise |
| `Store.Database.constructor` | admissions-interviewer/bot.py:64-112 | four empty tables |
| `Store.Database.LatestSession` | admissions-interviewer/bot.py:116-142 | the scan from the newest row returns the last matching session, which is the stored row under its id |
| `Store.Database.GetActiveSession` | admissions-interviewer/bot.py:116-128 | the last active session on the channel, or none |
| `Store.Database.GetLastSession` | admissions-interviewer/bot.py:130-142 | the last session on the channel, whatever its status, or none |
| `Store.Database.AddMessage` | admissions-interviewer/bot.py:144-152 | one row appended to the message log, and no other table changed |
| `Store.Database.GetOrCreateState` | admissions-interviewer/bot.py:174-199 | the table and row given by `LazyInsert`, and no other table changed |
| `Store.Database.SaveState` | admissions-interviewer/bot.py:201-210 | the state table becomes `Overwrite` of the old one, and no other table changed |
| `Store.Database.InsertSession` | admissions-interviewer/bot.py:431-438 | one active session appended under the next id, with no state row and no messages yet |
| `Store.Database.MarkEnded` | admissions-interviewer/bot.py:491-499 | only that session changes, to ended with the end time |
| `Store.Database.InsertEvaluation` | admissions-interviewer/bot.py:544-551 | one row appended to the evaluation log, and no other table changed |
| `Turns.ReplyObject` | admissions-interviewer/bot.py:301-304 | there is a parsed object exactly when the backend answered and its text parses to a JSON object; anything else makes `data.get` raise |
| `Turns.Generate` | admissions-interviewer/bot.py:296-309 | on a parsed object: one more turn, the same resume, `coverage_update` if present or else the old coverage, and `question` if present or else the default question (the two `d.get(key, default)` reads, `GetOr`); nothing on failure |
| `Turns.StoredText` | admissions-interviewer/bot.py:144-152 | a string question is stored as it is; the value cannot be written to the `content` column exactly when it is null, an array, an object, an integer outside 64 bits or NaN |
| `Turns.AskNext` | admissions-interviewer/bot.py:586-591 | without a parsed object, the fallback question and the state unchanged; otherwise the generated state, asking the question's stored text (a string as it is, a boolean, a 64-bit integer or a double as the column stores it), the default question when there is none, or an abort when the question cannot be stored; never ready-to-end |
| `Turns.TakeTurn` | admissions-interviewer/bot.py:580-592 | ready to end with the state unchanged when turns have reached 10 or coverage suffices; an abort with the state unchanged when coverage cannot be read; otherwise `AskNext`; the state changes only by one more turn with the resume kept, and a bound of 10 on turns is kept |
| `Turns.RunTurnsKeepsBound` | admissions-interviewer/bot.py:580-592 | through any run of messages, `turn_count` stays at most 10, never decreases, and the resume is untouched |
| `Turns.ProductiveTurn` | admissions-interviewer/bot.py:581-591 | with turns left and insufficient coverage, a reply with a storable question and an insufficient coverage update asks a question, takes one turn, and keeps coverage insufficient |
| `Turns.ProductiveStep` | admissions-interviewer/bot.py:580-592 | the same reply at the limit: ready to end with the state unchanged |
| `Turns.ProductiveRunReachesLimit` | admissions-interviewer/bot.py:580-592 | with such replies, `turn_count` ends at exactly min(10, start + messages), each message asks a question exactly while turns remain, and every later one is told to end |
| `Handlers.OpenSession` | admissions-interviewer/bot.py:431-442 | one new active session, its initial state row, and the opening question as its only transcript message |
| `Handlers.StartInterview` | admissions-interviewer/bot.py:403-442 | rejects and writes nothing when the invoking channel has an active session; otherwise stores exactly the writes of `OpenSession` under the interview channel; keeps one active session per channel when that channel was free; keeps every `turn_count` within 10 |
| `Handlers.SetResume` | admissions-interviewer/bot.py:472-481 | rejects and writes nothing without an active session; otherwise the session's row gets the new resume and keeps its turn count and coverage (created first if missing), and nothing else changes |
| `Handlers.EndInterview` | admissions-interviewer/bot.py:484-503 | rejects and writes nothing without an active session; otherwise only that session is ended with the end time; when each channel had at most one active session, afterwards the channel has none, so a second call rejects, and the invariant is kept |
| `Handlers.FindSession` | admissions-interviewer/bot.py:507-515 | the active session, else the last session, of the channel |
| `Handlers.ExportTranscript` | admissions-interviewer/bot.py:506-519 | none exactly when the channel has no session; otherwise that session's id and its transcript text, whole when it fits in 1800 characters and exactly its first 1800 characters otherwise |
| `Handlers.Evaluate` | admissions-interviewer/bot.py:522-561 | nothing written without a session; otherwise the state row is created if missing, and an evaluation is appended exactly when the reply parses to an object, holding the session, its candidate, the result, and its `recommendation` and `confidence` or `N/A` (`EvaluationRecord`); nothing else changes |
| `Handlers.GenerateNextQuestion` | admissions-interviewer/bot.py:250-309 | the state row is read or created; on a parsed object, `Generate`'s next state is saved and its question returned; on failure nothing more is written |
| `Handlers.AskNextQuestion` | admissions-interviewer/bot.py:586-591 | the store carries out `AskNext`: its state is saved, and exactly one interviewer message with its question is recorded when it asks |
| `Handlers.AnswerTurn` | admissions-interviewer/bot.py:580-592 | the store carries out `TakeTurn` on the session's (created if missing) state: the state becomes its next state, and one interviewer message is recorded exactly when it asks |
| `Handlers.OnMessage` | admissions-interviewer/bot.py:568-594 | a bot's message or a channel without an active session changes nothing; otherwise the candidate message is appended first, then at most the one interviewer question `TakeTurn` asks, the state becomes `TakeTurn`'s, and every `turn_count` stays within 10 |

## Left out

- The chat service:
  - bot setup, intents and command syncing;
  - thread creation and user invites (the interview channel is a parameter of `StartInterview`);
  - every reply, follow-up and ephemeral flag (the methods return what the reply reports);
  - `bot.process_commands`.
- The language-model service and its prompts (policy files, transcript excerpts, wording). Its answer is a parameter, either the output text or a failure.
- SQLite connections, SQL text and commits. The tables are in memory, and each accessor is one atomic step.
- Clocks. Each handler receives one timestamp and uses it for all of its writes.
- Concurrency. Each handler is one atomic step on the store. In the bot, `/start_interview` awaits thread creation between its check for an active session and its insert. Two calls in one channel can interleave there and, when thread creation fails for both, store two active sessions under that channel. The one-active-session-per-channel guarantee of `StartInterview` holds only for handlers that run one at a time.
- The text SQLite writes for a double (`1e16` becomes `1.0e+16`) is not computed. A decoded double carries it as data (`JsonText.Double`), and only NaN is told apart.
- Strings holding unpaired surrogates. Dafny characters are Unicode scalar values, so such a `question` (which the decoder accepts and the store refuses to encode) is not representable, and its failure to be stored is not modelled.
- Environment configuration, `read_file_safe` and the start-up checks.
- `json.loads` is an abstract decoder.
  - The `json.dumps`/`json.loads` round trip of the stored coverage is taken as the identity.
  - The `result_json` column and the rendering of `result_text` are represented by the parsed result object.
- The `question_index` column, which nothing reads or advances.
- The `int(row[2] or 0)` and `row[1] or ""` coercions. The model never stores anything but a number and a string there.
- The splitting of long evaluation output into chat messages. It is display only.
- Split: its lemmas state the round trip with `Join` and when it yields one piece, not that each piece is free of the separator.
- Turns.RunTurns: its own contract states only that there is one outcome per message. Its behaviour is stated by `RunTurnsKeepsBound` and `ProductiveRunReachesLimit`.
