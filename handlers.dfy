/**
 * The bot's entry points as transitions of the store: the slash commands
 * (`/start_interview`, `/set_resume`, `/end_interview`, `/export_transcript`,
 * `/evaluate`) and the handler for chat messages.  Replies sent back to the
 * chat are not modelled; each method returns what the reply reports.
 */
module Handlers {
  import opened Common
  import opened JsonText
  import opened Coverage
  import opened Records
  import opened Store
  import opened Turns

  /** Why a command was turned down (the ephemeral replies). */
  datatype Rejection = SessionAlreadyActive | NoActiveSession

  /**
   * The writes of a successful `/start_interview`: a new active session, its
   * initial state row, and the opening question as its first message.
   */
  method OpenSession(db: Database, candidateId: string, channel: ChannelId, now: Timestamp) returns (sid: nat)
    requires db.Valid()
    modifies db
    ensures db.Valid()
    ensures sid == |old(db.sessions)| + 1
    ensures db.sessions == old(db.sessions) + [Session(sid, candidateId, channel, Active, now, None)]
    ensures db.states == old(db.states)[sid := InitialState()]
    ensures db.messages == old(db.messages) + [Message(sid, Interviewer, None, OpeningQuestion, now)]
    ensures db.evaluations == old(db.evaluations)
    ensures TranscriptOf(db.messages, sid) == [Message(sid, Interviewer, None, OpeningQuestion, now)]
  {
    ghost var messages0 := db.messages;
    sid := db.InsertSession(candidateId, channel, now);
    var _ := db.GetOrCreateState(sid);
    db.AddMessage(sid, Interviewer, OpeningQuestion, None, now);
    TranscriptAppend(messages0, Message(sid, Interviewer, None, OpeningQuestion, now), sid);
  }

  /**
   * `/start_interview`, invoked in `invokingChannel`.  The session is stored
   * under `interviewChannel`: the id of the thread created for it, or the
   * invoking channel when no thread could be created.
   */
  method StartInterview(db: Database, invokingChannel: ChannelId, interviewChannel: ChannelId,
                        candidateId: string, now: Timestamp)
    returns (r: Result<nat, Rejection>)
    requires db.Valid()
    modifies db
    ensures db.Valid()
    ensures Latest(old(db.sessions), invokingChannel, true).Some? ==>
              r == Err(SessionAlreadyActive) && unchanged(db)
    ensures Latest(old(db.sessions), invokingChannel, true).None? ==>
              && r.Ok? && r.value == |old(db.sessions)| + 1
              && db.sessions == old(db.sessions) + [Session(r.value, candidateId, interviewChannel, Active, now, None)]
              && db.states == old(db.states)[r.value := InitialState()]
              && db.messages == old(db.messages) + [Message(r.value, Interviewer, None, OpeningQuestion, now)]
              && db.evaluations == old(db.evaluations)
              && TranscriptOf(db.messages, r.value) == [Message(r.value, Interviewer, None, OpeningQuestion, now)]
    ensures r.Ok? && OneActivePerChannel(old(db.sessions))
            && (interviewChannel == invokingChannel || Latest(old(db.sessions), interviewChannel, true).None?) ==>
              OneActivePerChannel(db.sessions)
    ensures TurnsWithin(old(db.states), MaxTurns) ==> TurnsWithin(db.states, MaxTurns)
  {
    var active := db.GetActiveSession(invokingChannel);
    if active.Some? {
      return Err(SessionAlreadyActive);
    }
    ghost var sessions0 := db.sessions;
    ghost var states0 := db.states;
    var sid := OpenSession(db, candidateId, interviewChannel, now);
    if OneActivePerChannel(sessions0)
       && (interviewChannel == invokingChannel || Latest(sessions0, interviewChannel, true).None?) {
      AddActiveKeepsOneActive(sessions0, Session(sid, candidateId, interviewChannel, Active, now, None));
    }
    if TurnsWithin(states0, MaxTurns) {
      TurnsWithinUpdate(states0, sid, InitialState(), MaxTurns);
    }
    return Ok(sid);
  }

  /** `/set_resume`: replace the active session's resume, keeping its turn count and coverage. */
  method SetResume(db: Database, channel: ChannelId, resume: string) returns (r: Result<nat, Rejection>)
    requires db.Valid()
    modifies db
    ensures db.Valid()
    ensures Latest(old(db.sessions), channel, true).None? ==> r == Err(NoActiveSession) && unchanged(db)
    ensures Latest(old(db.sessions), channel, true).Some? ==>
              var sid := Latest(old(db.sessions), channel, true).value.id;
              var st := LazyInsert(old(db.states), sid).1;
              && r == Ok(sid)
              && db.states == old(db.states)[sid := SessionState(resume, st.turnCount, st.coverage)]
              && db.sessions == old(db.sessions) && db.messages == old(db.messages)
              && db.evaluations == old(db.evaluations)
    ensures TurnsWithin(old(db.states), MaxTurns) ==> TurnsWithin(db.states, MaxTurns)
  {
    var active := db.GetActiveSession(channel);
    if active.None? {
      return Err(NoActiveSession);
    }
    var sid := active.value.id;
    ghost var states0: map<nat, SessionState> := db.states;
    var st := db.GetOrCreateState(sid);
    LazyInsertStores(states0, sid);
    db.SaveState(sid, resume, st.turnCount, st.coverage);
    OverwriteTwice(states0, sid, st, SessionState(resume, st.turnCount, st.coverage));
    if TurnsWithin(states0, MaxTurns) {
      assert st.turnCount <= MaxTurns;
      TurnsWithinUpdate(states0, sid, SessionState(resume, st.turnCount, st.coverage), MaxTurns);
    }
    return Ok(sid);
  }

  /** `/end_interview`: end the channel's active session and stamp its end time. */
  method EndInterview(db: Database, channel: ChannelId, now: Timestamp) returns (r: Result<nat, Rejection>)
    requires db.Valid()
    modifies db
    ensures db.Valid()
    ensures Latest(old(db.sessions), channel, true).None? ==> r == Err(NoActiveSession) && unchanged(db)
    ensures Latest(old(db.sessions), channel, true).Some? ==>
              var s := Latest(old(db.sessions), channel, true).value;
              && r == Ok(s.id)
              && db.sessions == old(db.sessions)[s.id - 1 := EndedAt(s, now)]
              && db.messages == old(db.messages) && db.states == old(db.states)
              && db.evaluations == old(db.evaluations)
    ensures OneActivePerChannel(old(db.sessions)) ==>
              OneActivePerChannel(db.sessions) && Latest(db.sessions, channel, true).None?
  {
    var active := db.GetActiveSession(channel);
    if active.None? {
      return Err(NoActiveSession);
    }
    var s := active.value;
    if OneActivePerChannel(db.sessions) {
      EndingLatestLeavesNoActive(db.sessions, channel, now);
    }
    db.MarkEnded(s.id, now);
    return Ok(s.id);
  }

  /** `/export_transcript` and `/evaluate` look the session up this way: the active one, else the last one. */
  method FindSession(db: Database, channel: ChannelId) returns (r: Option<Session>)
    requires db.Valid()
    ensures r == ResolveSession(db.sessions, channel)
    ensures r.Some? ==> db.HasSession(r.value.id) && db.sessions[r.value.id - 1] == r.value
  {
    r := db.GetActiveSession(channel);
    if r.None? {
      r := db.GetLastSession(channel);
    }
  }

  /** How many characters of a transcript `/export_transcript` shows. */
  const ExportLimit: nat := 1800

  /** `/export_transcript`: the session's id and its transcript text, cut to `ExportLimit` characters. */
  method ExportTranscript(db: Database, channel: ChannelId) returns (r: Option<(nat, string)>)
    requires db.Valid()
    ensures r.None? <==> forall j :: 0 <= j < |db.sessions| ==> db.sessions[j].channelId != channel
    ensures r.Some? ==> r.value.0 == ResolveSession(db.sessions, channel).value.id
    ensures r.Some? ==> var full := TranscriptText(TranscriptOf(db.messages, r.value.0));
                        |r.value.1| <= ExportLimit && r.value.1 <= full
                        && (|full| <= ExportLimit ==> r.value.1 == full)
                        && (|full| > ExportLimit ==> r.value.1 == full[..ExportLimit])
  {
    var s := FindSession(db, channel);
    if s.None? {
      return None;
    }
    var text := TranscriptText(TranscriptOf(db.messages, s.value.id));
    return Some((s.value.id, Truncate(text, ExportLimit)));
  }

  /** What `/evaluate` reported. */
  datatype EvalOutcome =
    | NoSessionFound
    | EvaluationFailed(sessionId: nat)
    | Evaluated(sessionId: nat, evaluation: Evaluation)

  /** The evaluation row for a parsed result object, `N/A` standing in for a missing recommendation or confidence. */
  function EvaluationRecord(s: Session, result: map<string, Json>, now: Timestamp): (e: Evaluation)
    ensures e.sessionId == s.id && e.candidateId == s.candidateId && e.result == JObject(result)
    ensures e.recommendation == GetOr(result, "recommendation", JString("N/A"))
    ensures e.confidence == GetOr(result, "confidence", JString("N/A"))
  {
    Evaluation(s.id, s.candidateId, GetOr(result, "recommendation", JString("N/A")),
               GetOr(result, "confidence", JString("N/A")), JObject(result), now)
  }

  /**
   * `/evaluate` on the active, else the last, session of the channel.  The
   * session's state row is created if missing before the backend is asked;
   * a row is appended to `evaluations` only when the reply parses to an
   * object, and nothing else changes.
   */
  method Evaluate(db: Database, channel: ChannelId, reply: BackendReply, decode: Decoder, now: Timestamp)
    returns (r: EvalOutcome)
    requires db.Valid()
    modifies db
    ensures db.Valid()
    ensures ResolveSession(old(db.sessions), channel).None? ==> r == NoSessionFound && unchanged(db)
    ensures ResolveSession(old(db.sessions), channel).Some? ==>
              var s := ResolveSession(old(db.sessions), channel).value;
              && db.states == LazyInsert(old(db.states), s.id).0
              && db.sessions == old(db.sessions) && db.messages == old(db.messages)
              && match ReplyObject(reply, decode)
                 case None => r == EvaluationFailed(s.id) && db.evaluations == old(db.evaluations)
                 case Some(result) =>
                   var e := EvaluationRecord(s, result, now);
                   r == Evaluated(s.id, e) && db.evaluations == old(db.evaluations) + [e]
    ensures TurnsWithin(old(db.states), MaxTurns) ==> TurnsWithin(db.states, MaxTurns)
  {
    var found := FindSession(db, channel);
    if found.None? {
      return NoSessionFound;
    }
    var s := found.value;
    ghost var states0: map<nat, SessionState> := db.states;
    var st := db.GetOrCreateState(s.id);
    if TurnsWithin(states0, MaxTurns) {
      LazyInsertStores(states0, s.id);
      assert st.turnCount <= MaxTurns;
      TurnsWithinUpdate(states0, s.id, st, MaxTurns);
    }
    var result := ReplyObject(reply, decode);
    if result.None? {
      return EvaluationFailed(s.id);
    }
    var e := EvaluationRecord(s, result.value, now);
    db.InsertEvaluation(e);
    return Evaluated(s.id, e);
  }

  /**
   * `generate_next_question` against the store: read (or create) the state,
   * and on a reply that parses to an object save the next state and return
   * the question value; on any failure write nothing and return `None`.
   */
  method GenerateNextQuestion(db: Database, sid: nat, reply: BackendReply, decode: Decoder)
    returns (question: Option<Json>)
    requires db.Valid() && db.HasSession(sid)
    modifies db
    ensures db.Valid()
    ensures var st := LazyInsert(old(db.states), sid).1;
            var g := Generate(st, ReplyObject(reply, decode));
            && (g.None? ==> question.None? && db.states == old(db.states)[sid := st])
            && (g.Some? ==> question == Some(g.value.question) && db.states == old(db.states)[sid := g.value.next])
    ensures db.sessions == old(db.sessions) && db.messages == old(db.messages)
    ensures db.evaluations == old(db.evaluations)
  {
    ghost var states0: map<nat, SessionState> := db.states;
    var st := db.GetOrCreateState(sid);
    LazyInsertStores(states0, sid);
    var g := Generate(st, ReplyObject(reply, decode));
    if g.None? {
      return None;
    }
    db.SaveState(sid, g.value.next.resumeText, g.value.next.turnCount, g.value.next.coverage);
    OverwriteTwice(states0, sid, st, g.value.next);
    return Some(g.value.question);
  }

  /**
   * The branch of `on_message` that asks: generate the next question, fall
   * back to the fixed question when generation fails, and record the
   * question asked.  The session's state row already exists.
   */
  method AskNextQuestion(db: Database, sid: nat, reply: BackendReply, decode: Decoder, now: Timestamp)
    returns (outcome: TurnOutcome)
    requires db.Valid() && db.HasSession(sid) && sid in db.states
    modifies db
    ensures db.Valid()
    ensures var a := AskNext(old(db.states)[sid], ReplyObject(reply, decode));
            && outcome == a.outcome
            && db.states == old(db.states)[sid := a.next]
            && db.messages == old(db.messages)
                              + (if a.outcome.Asked? then [Message(sid, Interviewer, None, a.outcome.question, now)] else [])
    ensures db.sessions == old(db.sessions) && db.evaluations == old(db.evaluations)
  {
    ghost var states0: map<nat, SessionState> := db.states;
    ghost var st := states0[sid];
    ghost var messages0 := db.messages;
    ghost var a := AskNext(st, ReplyObject(reply, decode));
    AskNextCases(st, ReplyObject(reply, decode));
    assert LazyInsert(states0, sid).1 == st;
    var generated := GenerateNextQuestion(db, sid, reply, decode);
    var text: string;
    if generated.None? {
      text := FallbackQuestion;
    } else {
      var stored := StoredText(generated.value);
      if stored.None? {
        return Aborted;
      }
      text := stored.value;
    }
    db.AddMessage(sid, Interviewer, text, None, now);
    assert db.messages == messages0 + [Message(sid, Interviewer, None, text, now)];
    return Asked(text);
  }

  /**
   * The part of `on_message` after the candidate's message is recorded: the
   * turn `TakeTurn` describes, carried out on the store, recording exactly
   * the interviewer question it asks, if any.
   */
  method AnswerTurn(db: Database, sid: nat, reply: BackendReply, decode: Decoder, now: Timestamp)
    returns (outcome: TurnOutcome)
    requires db.Valid() && db.HasSession(sid)
    modifies db
    ensures db.Valid()
    ensures var t := TakeTurn(LazyInsert(old(db.states), sid).1, ReplyObject(reply, decode));
            && outcome == t.outcome
            && db.states == old(db.states)[sid := t.next]
            && db.messages == old(db.messages)
                              + (if t.outcome.Asked? then [Message(sid, Interviewer, None, t.outcome.question, now)] else [])
    ensures db.sessions == old(db.sessions) && db.evaluations == old(db.evaluations)
  {
    ghost var states0: map<nat, SessionState> := db.states;
    var st := db.GetOrCreateState(sid);
    LazyInsertStores(states0, sid);
    ghost var t := TakeTurn(st, ReplyObject(reply, decode));
    if st.turnCount >= MaxTurns {
      assert t == TurnResult(ReadyToEnd, st);
      return ReadyToEnd;
    }
    var enough := EnoughCoverage(st.coverage);
    if enough.None? {
      assert t == TurnResult(Aborted, st);
      return Aborted;
    }
    if enough.value {
      assert t == TurnResult(ReadyToEnd, st);
      return ReadyToEnd;
    }
    assert t == AskNext(st, ReplyObject(reply, decode));
    outcome := AskNextQuestion(db, sid, reply, decode, now);
    OverwriteTwice(states0, sid, st, t.next);
  }

  /** What the message handler did. */
  datatype MessageOutcome =
    | Ignored                                  // a bot's message, or no active session in the channel
    | Turn(sessionId: nat, outcome: TurnOutcome)

  /**
   * `on_message`: in a channel with an active session, record the
   * candidate's message first, then answer it as `AnswerTurn` does.
   */
  method OnMessage(db: Database, channel: ChannelId, authorId: string, fromBot: bool, content: string,
                   reply: BackendReply, decode: Decoder, now: Timestamp)
    returns (r: MessageOutcome)
    requires db.Valid()
    modifies db
    ensures db.Valid()
    ensures fromBot || Latest(old(db.sessions), channel, true).None? ==> r == Ignored && unchanged(db)
    ensures !fromBot && Latest(old(db.sessions), channel, true).Some? ==>
              var sid := Latest(old(db.sessions), channel, true).value.id;
              var t := TakeTurn(LazyInsert(old(db.states), sid).1, ReplyObject(reply, decode));
              && r == Turn(sid, t.outcome)
              && db.messages == old(db.messages) + [Message(sid, Candidate, Some(authorId), content, now)]
                                + (if t.outcome.Asked? then [Message(sid, Interviewer, None, t.outcome.question, now)] else [])
              && db.states == old(db.states)[sid := t.next]
              && db.sessions == old(db.sessions) && db.evaluations == old(db.evaluations)
    ensures TurnsWithin(old(db.states), MaxTurns) ==> TurnsWithin(db.states, MaxTurns)
  {
    if fromBot {
      return Ignored;
    }
    var active := db.GetActiveSession(channel);
    if active.None? {
      return Ignored;
    }
    var sid := active.value.id;
    db.AddMessage(sid, Candidate, content, Some(authorId), now);
    var outcome := AnswerTurn(db, sid, reply, decode, now);
    return Turn(sid, outcome);
  }
}
