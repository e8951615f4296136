/**
 * The rows of the interview store (sessions, messages, per-session state,
 * evaluations) as values, and the queries over them: the latest session of
 * a channel, a session's transcript and its rendered text.
 */
module Records {
  import opened Common
  import opened JsonText
  import opened Coverage

  /** A chat channel or thread id. */
  type ChannelId = int

  /** An ISO-8601 timestamp, supplied by the caller. */
  type Timestamp = string

  datatype Status = Active | Ended

  /** A row of `sessions`; `id` is its AUTOINCREMENT key. */
  datatype Session = Session(
    id: nat,
    candidateId: string,
    channelId: ChannelId,
    status: Status,
    startedAt: Timestamp,
    endedAt: Option<Timestamp>)

  datatype Role = Interviewer | Candidate | System

  /** A row of `messages`; rows are kept in insertion (id) order. */
  datatype Message = Message(
    sessionId: nat,
    role: Role,
    authorId: Option<string>,
    content: string,
    createdAt: Timestamp)

  /** A row of `session_state`, as `get_or_create_state` hands it out. */
  datatype SessionState = SessionState(resumeText: string, turnCount: nat, coverage: Json)

  /**
   * A row of `evaluations`.  The stored `result_text` is a rendering of
   * `candidateId`, `recommendation`, `confidence` and `result`, and
   * `result_json` is the encoding of `result`.
   */
  datatype Evaluation = Evaluation(
    sessionId: nat,
    candidateId: string,
    recommendation: Json,
    confidence: Json,
    result: Json,
    createdAt: Timestamp)

  /** The state row `get_or_create_state` inserts for a session that has none. */
  function InitialState(): (st: SessionState)
    ensures st.resumeText == "" && st.turnCount == 0 && st.coverage == DefaultCoverage()
    ensures EnoughCoverage(st.coverage) == Some(false)
  {
    DefaultCoverageIsInsufficient();
    SessionState("", 0, DefaultCoverage())
  }

  // ---------------------------------------------------------------------------
  // The session_state table
  // ---------------------------------------------------------------------------

  /**
   * `get_or_create_state` on the state table: the stored row when there is
   * one, and the table unchanged; otherwise the initial row, now inserted.
   */
  function LazyInsert(states: map<nat, SessionState>, sid: nat): (r: (map<nat, SessionState>, SessionState))
    ensures sid in r.0 && r.0[sid] == r.1
    ensures sid in states ==> r.0 == states && r.1 == states[sid]
    ensures sid !in states ==> r.0 == states[sid := InitialState()] && r.1 == InitialState()
  {
    if sid in states then (states, states[sid]) else (states[sid := InitialState()], InitialState())
  }

  /** `save_state` on the state table: `UPDATE ... WHERE session_id=?` replaces an existing row and adds none. */
  function Overwrite(states: map<nat, SessionState>, sid: nat, st: SessionState): (r: map<nat, SessionState>)
    ensures r.Keys == states.Keys
    ensures sid in states ==> r[sid] == st
    ensures forall k :: k in states && k != sid ==> r[k] == states[k]
  {
    if sid in states then states[sid := st] else states
  }

  /** `get_or_create_state` leaves the table as it was, with the row it returns stored under the session. */
  lemma LazyInsertStores(states: map<nat, SessionState>, sid: nat)
    ensures LazyInsert(states, sid).0 == states[sid := LazyInsert(states, sid).1]
  {
    if sid in states {
      assert states[sid := states[sid]] == states;
    }
  }

  /** Writing a row twice leaves the second write. */
  lemma OverwriteTwice(states: map<nat, SessionState>, sid: nat, a: SessionState, b: SessionState)
    ensures states[sid := a][sid := b] == states[sid := b]
  {
  }

  /** A second `get_or_create_state` returns the same row and writes nothing. */
  lemma LazyInsertIdempotent(states: map<nat, SessionState>, sid: nat)
    ensures LazyInsert(LazyInsert(states, sid).0, sid) == LazyInsert(states, sid)
  {
  }

  /** A row saved with `save_state` is what `get_or_create_state` returns next. */
  lemma SaveThenLoad(states: map<nat, SessionState>, sid: nat, st: SessionState)
    requires sid in states
    ensures LazyInsert(Overwrite(states, sid, st), sid) == (states[sid := st], st)
  {
  }

  /** No session's `turn_count` exceeds `limit`. */
  predicate TurnsWithin(states: map<nat, SessionState>, limit: nat) {
    forall sid :: sid in states ==> states[sid].turnCount <= limit
  }

  /** Writing a row whose turn count is within the limit keeps every row within it. */
  lemma TurnsWithinUpdate(states: map<nat, SessionState>, sid: nat, st: SessionState, limit: nat)
    requires TurnsWithin(states, limit) && st.turnCount <= limit
    ensures TurnsWithin(states[sid := st], limit)
  {
  }

  // ---------------------------------------------------------------------------
  // Sessions of a channel
  // ---------------------------------------------------------------------------

  /** The `WHERE` clause of the session queries: on `channel`, and active when `activeOnly`. */
  predicate Selects(s: Session, channel: ChannelId, activeOnly: bool) {
    s.channelId == channel && (!activeOnly || s.status == Active)
  }

  /** The position of the last selected row; `None` when no row is selected. */
  function LatestIndex(ss: seq<Session>, channel: ChannelId, activeOnly: bool): (r: Option<nat>)
    ensures r.Some? ==> r.value < |ss| && Selects(ss[r.value], channel, activeOnly)
    ensures r.Some? ==> forall j :: r.value < j < |ss| ==> !Selects(ss[j], channel, activeOnly)
    ensures r.None? ==> forall j :: 0 <= j < |ss| ==> !Selects(ss[j], channel, activeOnly)
    decreases |ss|
  {
    if ss == [] then None
    else if Selects(ss[|ss| - 1], channel, activeOnly) then Some(|ss| - 1)
    else LatestIndex(ss[..|ss| - 1], channel, activeOnly)
  }

  /** The last selected row (`get_active_session` when `activeOnly`, `get_last_session` otherwise). */
  function Latest(ss: seq<Session>, channel: ChannelId, activeOnly: bool): Option<Session> {
    match LatestIndex(ss, channel, activeOnly)
    case None => None
    case Some(i) => Some(ss[i])
  }

  /** Session ids strictly increase along the table, as AUTOINCREMENT keys do. */
  predicate IdsAscending(ss: seq<Session>) {
    forall i, j :: 0 <= i < j < |ss| ==> ss[i].id < ss[j].id
  }

  /**
   * With ascending ids, the last selected row is the selected row with the
   * highest id (`ORDER BY id DESC LIMIT 1`), and there is none exactly when
   * no row is selected.
   */
  lemma LatestHasHighestId(ss: seq<Session>, channel: ChannelId, activeOnly: bool)
    requires IdsAscending(ss)
    ensures Latest(ss, channel, activeOnly).None? <==> forall s :: s in ss ==> !Selects(s, channel, activeOnly)
    ensures Latest(ss, channel, activeOnly).Some? ==>
              var top := Latest(ss, channel, activeOnly).value;
              top in ss && Selects(top, channel, activeOnly)
              && forall s :: s in ss && Selects(s, channel, activeOnly) ==> s.id <= top.id
  {
    var r := LatestIndex(ss, channel, activeOnly);
    if r.Some? {
      forall s | s in ss && Selects(s, channel, activeOnly)
        ensures s.id <= ss[r.value].id
      {
        var j :| 0 <= j < |ss| && ss[j] == s;
        assert j <= r.value;
      }
    } else {
      forall s | s in ss
        ensures !Selects(s, channel, activeOnly)
      {
        var j :| 0 <= j < |ss| && ss[j] == s;
      }
    }
  }

  /** The session `/evaluate` and `/export_transcript` work on: the active one, else the last one. */
  function ResolveSession(ss: seq<Session>, channel: ChannelId): (r: Option<Session>)
    ensures r.None? <==> forall j :: 0 <= j < |ss| ==> ss[j].channelId != channel
    ensures r.Some? ==> r.value in ss && r.value.channelId == channel
    ensures Latest(ss, channel, true).Some? ==> r == Latest(ss, channel, true)
    ensures Latest(ss, channel, true).None? ==> r == Latest(ss, channel, false)
  {
    var active := Latest(ss, channel, true);
    if active.Some? then active
    else
      var last := Latest(ss, channel, false);
      assert LatestIndex(ss, channel, false).None? ==> forall j :: 0 <= j < |ss| ==> !Selects(ss[j], channel, false);
      last
  }

  /** No channel has two active sessions. */
  predicate OneActivePerChannel(ss: seq<Session>) {
    forall i, j :: 0 <= i < j < |ss| && ss[i].status == Active && ss[j].status == Active ==>
      ss[i].channelId != ss[j].channelId
  }

  /** Adding an active session keeps one active session per channel when its channel had none. */
  lemma AddActiveKeepsOneActive(ss: seq<Session>, s: Session)
    requires OneActivePerChannel(ss)
    requires s.status == Active
    requires Latest(ss, s.channelId, true).None?
    ensures OneActivePerChannel(ss + [s])
  {
    var ss' := ss + [s];
    forall i, j | 0 <= i < j < |ss'| && ss'[i].status == Active && ss'[j].status == Active
      ensures ss'[i].channelId != ss'[j].channelId
    {
      if j == |ss| {
        assert !Selects(ss[i], s.channelId, true);
      }
    }
  }

  /** Without that condition the invariant can break: an active session added on a busy channel. */
  lemma AddActiveOnBusyChannelBreaksOneActive()
    ensures var ss := [Session(1, "A", 7, Active, "t0", None)];
            var s := Session(2, "B", 7, Active, "t1", None);
            OneActivePerChannel(ss) && Latest(ss, 7, true).Some? && !OneActivePerChannel(ss + [s])
  {
    var ss := [Session(1, "A", 7, Active, "t0", None)];
    var s := Session(2, "B", 7, Active, "t1", None);
    assert (ss + [s])[0].channelId == (ss + [s])[1].channelId;
  }

  /** `s` after `UPDATE sessions SET status='ended', ended_at=now`. */
  function EndedAt(s: Session, now: Timestamp): (e: Session)
    ensures e.status == Ended && e.endedAt == Some(now)
    ensures e.id == s.id && e.candidateId == s.candidateId && e.channelId == s.channelId && e.startedAt == s.startedAt
  {
    s.(status := Ended, endedAt := Some(now))
  }

  /**
   * Ending a channel's active session leaves the channel with no active
   * session, when it had only one, and keeps one active session per channel.
   */
  lemma EndingLatestLeavesNoActive(ss: seq<Session>, channel: ChannelId, now: Timestamp)
    requires OneActivePerChannel(ss)
    requires LatestIndex(ss, channel, true).Some?
    ensures var i := LatestIndex(ss, channel, true).value;
            var ss' := ss[i := EndedAt(ss[i], now)];
            OneActivePerChannel(ss') && Latest(ss', channel, true).None?
  {
    var i := LatestIndex(ss, channel, true).value;
    var ss' := ss[i := EndedAt(ss[i], now)];
    forall j | 0 <= j < |ss'|
      ensures !Selects(ss'[j], channel, true)
    {
      if j > i {
        assert !Selects(ss[j], channel, true);
      }
    }
  }

  // ---------------------------------------------------------------------------
  // Transcripts
  // ---------------------------------------------------------------------------

  /** `fetch_transcript_rows`: the messages of session `sid`, in insertion order. */
  function TranscriptOf(ms: seq<Message>, sid: nat): (t: seq<Message>)
    ensures forall m :: m in t <==> m in ms && m.sessionId == sid
    ensures |t| <= |ms|
    decreases |ms|
  {
    if ms == [] then []
    else (if ms[0].sessionId == sid then [ms[0]] else []) + TranscriptOf(ms[1..], sid)
  }

  /** A session none of whose messages is in the log has an empty transcript. */
  lemma {:induction false} TranscriptOfUnknownSession(ms: seq<Message>, sid: nat)
    requires forall m :: m in ms ==> m.sessionId != sid
    ensures TranscriptOf(ms, sid) == []
    decreases |ms|
  {
    if ms != [] {
      TranscriptOfUnknownSession(ms[1..], sid);
    }
  }

  /** A message appended to the log ends its own session's transcript and leaves every other transcript alone. */
  lemma {:induction false} TranscriptAppend(ms: seq<Message>, m: Message, sid: nat)
    ensures TranscriptOf(ms + [m], sid) == TranscriptOf(ms, sid) + (if m.sessionId == sid then [m] else [])
    decreases |ms|
  {
    if ms == [] {
      assert ms + [m] == [m];
    } else {
      var tail := ms[1..];
      assert (ms + [m])[0] == ms[0];
      assert (ms + [m])[1..] == tail + [m];
      TranscriptAppend(tail, m, sid);
      if ms[0].sessionId == sid {
        assert TranscriptOf(ms + [m], sid) == [ms[0]] + TranscriptOf(tail + [m], sid);
      } else {
        assert TranscriptOf(ms + [m], sid) == [] + TranscriptOf(tail + [m], sid);
      }
    }
  }

  /** The upper-cased role name a transcript line shows. */
  function RoleLabel(r: Role): string {
    match r
    case Interviewer => "INTERVIEWER"
    case Candidate => "CANDIDATE"
    case System => "SYSTEM"
  }

  /** One line of `transcript_text`: `[created_at] ROLE: content`. */
  function TranscriptLine(m: Message): string {
    "[" + m.createdAt + "] " + RoleLabel(m.role) + ": " + m.content
  }

  /** The lines of a transcript, one per message. */
  function TranscriptLines(t: seq<Message>): (lines: seq<string>)
    ensures |lines| == |t|
    ensures forall i :: 0 <= i < |t| ==> lines[i] == TranscriptLine(t[i])
  {
    seq(|t|, i requires 0 <= i < |t| => TranscriptLine(t[i]))
  }

  /**
   * `transcript_text`: the lines joined with newlines.  Every line is
   * non-empty, so the text is empty exactly for an empty transcript, and it
   * opens with the first message's line.
   */
  function TranscriptText(t: seq<Message>): (r: string)
    ensures r == [] <==> t == []
    ensures t != [] ==> TranscriptLine(t[0]) <= r
  {
    if t == [] then "" else
      var lines := TranscriptLines(t);
      assert |lines| == 1 || Join(lines, "\n") == lines[0] + "\n" + Join(lines[1..], "\n");
      Join(lines, "\n")
  }

  /** Joining one more piece adds the separator and that piece at the end. */
  lemma {:induction false} JoinAppend(parts: seq<string>, x: string, sep: string)
    requires |parts| >= 1
    ensures Join(parts + [x], sep) == Join(parts, sep) + sep + x
    decreases |parts|
  {
    if |parts| == 1 {
      assert (parts + [x])[1..] == [x];
    } else {
      assert (parts + [x])[1..] == parts[1..] + [x];
      JoinAppend(parts[1..], x, sep);
    }
  }

  /** A message added to a transcript adds one line at the end of its text. */
  lemma TranscriptTextAppend(t: seq<Message>, m: Message)
    ensures TranscriptText(t + [m]) == if t == [] then TranscriptLine(m) else TranscriptText(t) + "\n" + TranscriptLine(m)
  {
    if t != [] {
      assert TranscriptLines(t + [m]) == TranscriptLines(t) + [TranscriptLine(m)];
      JoinAppend(TranscriptLines(t), TranscriptLine(m), "\n");
    }
  }

  /** The text `/export_transcript` shows: at most `limit` characters, cut from the end. */
  function Truncate(s: string, limit: nat): (r: string)
    ensures |r| <= limit && r <= s
    ensures |s| <= limit ==> r == s
    ensures |s| > limit ==> r == s[..limit]
  {
    if |s| > limit then s[..limit] else s
  }
}
