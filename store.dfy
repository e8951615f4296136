/**
 * The interview store: the four tables (`sessions`, `messages`,
 * `session_state`, `evaluations`) held in memory, with the accessors the
 * commands and the message handler use.  Each accessor is one atomic write
 * or one read.
 */
module Store {
  import opened Common
  import opened JsonText
  import opened Records

  class Database {
    var sessions: seq<Session>
    var messages: seq<Message>
    var states: map<nat, SessionState>
    var evaluations: seq<Evaluation>

    /** `sid` is the id of a stored session. */
    predicate HasSession(sid: nat)
      reads this
    {
      1 <= sid <= |sessions|
    }

    /**
     * Session ids are row numbers (AUTOINCREMENT with no deletes), a session
     * has an end time exactly when it has ended, and every other row refers
     * to a stored session.  SQLite does not enforce the declared foreign keys
     * here; the references hold because every write uses the id of a session
     * looked up or inserted just before.
     */
    ghost predicate Valid()
      reads this
    {
      && (forall i :: 0 <= i < |sessions| ==> sessions[i].id == i + 1)
      && (forall i :: 0 <= i < |sessions| ==> (sessions[i].status == Ended <==> sessions[i].endedAt.Some?))
      && (forall m :: m in messages ==> HasSession(m.sessionId))
      && (forall sid :: sid in states ==> HasSession(sid))
      && (forall e :: e in evaluations ==> HasSession(e.sessionId))
    }

    /** `init_db`: four empty tables. */
    constructor ()
      ensures Valid()
      ensures sessions == [] && messages == [] && states == map[] && evaluations == []
    {
      sessions, messages, states, evaluations := [], [], map[], [];
    }

    /** The last session on `channel` (only active ones when `activeOnly`), scanning from the newest row. */
    method LatestSession(channel: ChannelId, activeOnly: bool) returns (r: Option<Session>)
      requires Valid()
      ensures r == Latest(sessions, channel, activeOnly)
      ensures r.Some? ==> HasSession(r.value.id) && sessions[r.value.id - 1] == r.value
    {
      var i := |sessions|;
      assert sessions[..i] == sessions;
      while i > 0
        invariant 0 <= i <= |sessions|
        invariant LatestIndex(sessions, channel, activeOnly) == LatestIndex(sessions[..i], channel, activeOnly)
      {
        if Selects(sessions[i - 1], channel, activeOnly) {
          assert sessions[..i][i - 1] == sessions[i - 1];
          return Some(sessions[i - 1]);
        }
        assert sessions[..i][..i - 1] == sessions[..i - 1];
        i := i - 1;
      }
      return None;
    }

    /** `get_active_session`: the highest-id active session on `channel`, if any. */
    method GetActiveSession(channel: ChannelId) returns (r: Option<Session>)
      requires Valid()
      ensures r == Latest(sessions, channel, true)
      ensures r.Some? ==> r.value.channelId == channel && r.value.status == Active
      ensures r.Some? ==> HasSession(r.value.id) && sessions[r.value.id - 1] == r.value
    {
      r := LatestSession(channel, true);
    }

    /** `get_last_session`: the highest-id session on `channel`, whatever its status. */
    method GetLastSession(channel: ChannelId) returns (r: Option<Session>)
      requires Valid()
      ensures r == Latest(sessions, channel, false)
      ensures r.Some? ==> r.value.channelId == channel
      ensures r.Some? ==> HasSession(r.value.id) && sessions[r.value.id - 1] == r.value
    {
      r := LatestSession(channel, false);
    }

    /** `add_message`: append one row to the message log. */
    method AddMessage(sid: nat, role: Role, content: string, author: Option<string>, at: Timestamp)
      requires Valid() && HasSession(sid)
      modifies this
      ensures Valid()
      ensures messages == old(messages) + [Message(sid, role, author, content, at)]
      ensures sessions == old(sessions) && states == old(states) && evaluations == old(evaluations)
    {
      messages := messages + [Message(sid, role, author, content, at)];
    }

    /** `get_or_create_state`: the session's state row, inserted with initial values when missing. */
    method GetOrCreateState(sid: nat) returns (st: SessionState)
      requires Valid() && HasSession(sid)
      modifies this
      ensures Valid()
      ensures (states, st) == LazyInsert(old(states), sid)
      ensures sessions == old(sessions) && messages == old(messages) && evaluations == old(evaluations)
    {
      if sid in states {
        st := states[sid];
      } else {
        st := InitialState();
        states := states[sid := st];
      }
    }

    /** `save_state`: overwrite the session's state row, if it has one. */
    method SaveState(sid: nat, resumeText: string, turnCount: nat, coverage: Json)
      requires Valid()
      modifies this
      ensures Valid()
      ensures states == Overwrite(old(states), sid, SessionState(resumeText, turnCount, coverage))
      ensures sessions == old(sessions) && messages == old(messages) && evaluations == old(evaluations)
    {
      if sid in states {
        states := states[sid := SessionState(resumeText, turnCount, coverage)];
      }
    }

    /** The `INSERT INTO sessions` of `/start_interview`: a new active session under the next id. */
    method InsertSession(candidateId: string, channel: ChannelId, now: Timestamp) returns (sid: nat)
      requires Valid()
      modifies this
      ensures Valid()
      ensures sid == |old(sessions)| + 1 && HasSession(sid)
      ensures sessions == old(sessions) + [Session(sid, candidateId, channel, Active, now, None)]
      ensures messages == old(messages) && states == old(states) && evaluations == old(evaluations)
      ensures sid !in states && TranscriptOf(messages, sid) == []
    {
      sid := |sessions| + 1;
      sessions := sessions + [Session(sid, candidateId, channel, Active, now, None)];
      TranscriptOfUnknownSession(messages, sid);
    }

    /** The `UPDATE sessions` of `/end_interview`: the session is ended, with its end time. */
    method MarkEnded(sid: nat, now: Timestamp)
      requires Valid() && HasSession(sid)
      modifies this
      ensures Valid()
      ensures sessions == old(sessions)[sid - 1 := EndedAt(old(sessions)[sid - 1], now)]
      ensures messages == old(messages) && states == old(states) && evaluations == old(evaluations)
    {
      sessions := sessions[sid - 1 := EndedAt(sessions[sid - 1], now)];
    }

    /** The `INSERT INTO evaluations` of `/evaluate`: append one evaluation row. */
    method InsertEvaluation(e: Evaluation)
      requires Valid() && HasSession(e.sessionId)
      modifies this
      ensures Valid()
      ensures evaluations == old(evaluations) + [e]
      ensures sessions == old(sessions) && messages == old(messages) && states == old(states)
    {
      evaluations := evaluations + [e];
    }
  }
}
