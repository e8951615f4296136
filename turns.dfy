/**
 * The turn controller: what one candidate message does to a session's state,
 * as a function of that state and of the backend's reply.  It combines the
 * decision in the message handler (stop, or ask the next question) with the
 * state update at the end of `generate_next_question`.
 */
module Turns {
  import opened Common
  import opened JsonText
  import opened Coverage
  import opened Records

  /** The most adaptive questions one session may ask. */
  const MaxTurns: nat := 10

  /** The first interviewer message of every session. */
  const OpeningQuestion: string :=
    "Thanks for joining today. To start, tell me about yourself and why you're interested in this program."

  /** The question used when the backend's object has no `question`. */
  const DefaultQuestion: string := "Can you expand on that with a specific example?"

  /** The question asked when generation fails. */
  const FallbackQuestion: string :=
    "Thanks. Can you give a concrete example with your exact role, actions, and measurable outcome?"

  /** What the call to the generative backend gave: its output text, or an exception. */
  datatype BackendReply = Unavailable | Reply(text: string)

  /** The parsed reply when it is a JSON object; `data.get` raises on anything else. */
  function ReplyObject(reply: BackendReply, decode: Decoder): (r: ParsedReply)
    ensures r.Some? <==> reply.Reply? && SafeJsonParse(reply.text, decode).Some?
                         && SafeJsonParse(reply.text, decode).value.JObject?
    ensures r.Some? ==> SafeJsonParse(reply.text, decode) == Some(JObject(r.value))
  {
    if reply.Unavailable? then None
    else
      match SafeJsonParse(reply.text, decode)
      case Some(JObject(d)) => Some(d)
      case _ => None
  }

  /** The reply as the turn controller sees it: the object it parsed to, or `None` when the call or the parse failed. */
  type ParsedReply = Option<map<string, Json>>

  /** `d.get(key, default)`. */
  function GetOr(d: map<string, Json>, key: string, default: Json): (v: Json)
    ensures key in d ==> v == d[key]
    ensures key !in d ==> v == default
  {
    if key in d then d[key] else default
  }

  /** A successful generation: the state to save and the question value to record. */
  datatype Generation = Generation(next: SessionState, question: Json)

  /**
   * The tail of `generate_next_question`: when the reply parses to an object,
   * one more turn, the same resume, the reply's `coverage_update` (if any) as
   * the coverage, and its `question` (or the default question); otherwise
   * nothing.
   */
  function Generate(st: SessionState, reply: ParsedReply): (r: Option<Generation>)
    ensures r.Some? <==> reply.Some?
    ensures r.Some? ==> r.value.next.turnCount == st.turnCount + 1 && r.value.next.resumeText == st.resumeText
    ensures r.Some? ==>
              var d := reply.value;
              && r.value.next.coverage == (if "coverage_update" in d then d["coverage_update"] else st.coverage)
              && r.value.question == (if "question" in d then d["question"] else JString(DefaultQuestion))
  {
    match reply
    case None => None
    case Some(d) =>
      var coverage := GetOr(d, "coverage_update", st.coverage);
      Some(Generation(SessionState(st.resumeText, st.turnCount + 1, coverage), GetOr(d, "question", JString(DefaultQuestion))))
  }

  /** The range of the 64-bit integers SQLite can bind. */
  const MinInt64: int := -0x8000_0000_0000_0000
  const MaxInt64: int := 0x7FFF_FFFF_FFFF_FFFF

  /** The decimal digit `d`. */
  function Digit(d: nat): char
    requires d < 10
  {
    "0123456789"[d]
  }

  /** The decimal numeral of `n`: digits only, with no leading zero except for zero itself. */
  function NaturalText(n: nat): (r: string)
    ensures |r| >= 1 && forall k :: 0 <= k < |r| ==> '0' <= r[k] <= '9'
    ensures r[0] == '0' <==> n == 0
    decreases n
  {
    if n < 10 then [Digit(n)] else NaturalText(n / 10) + [Digit(n % 10)]
  }

  /** The text of an integer in a TEXT column: its decimal numeral, signed when negative. */
  function DecimalText(i: int): string {
    if i < 0 then "-" + NaturalText(-i) else NaturalText(i)
  }

  /**
   * The text a question value becomes in the `content` column: a string as
   * it is, a boolean as `1` or `0`, an integer as its numeral, a double as
   * SQLite writes it.  Null, arrays and objects cannot be bound, an integer
   * outside 64 bits overflows the binding, and NaN is bound as NULL, which
   * the column's NOT NULL refuses.
   */
  function StoredText(q: Json): (r: Option<string>)
    ensures q.JString? ==> r == Some(q.s)
    ensures r.None? <==> || q.JNull? || q.JArray? || q.JObject?
                         || (q.JInt? && !(MinInt64 <= q.i <= MaxInt64))
                         || q == JFloat(NaN)
  {
    match q
    case JString(s) => Some(s)
    case JBool(b) => Some(if b then "1" else "0")
    case JInt(i) => if MinInt64 <= i <= MaxInt64 then Some(DecimalText(i)) else None
    case JFloat(NaN) => None
    case JFloat(Number(t)) => Some(t)
    case _ => None
  }

  /** What the handler did after recording the candidate's message. */
  datatype TurnOutcome =
    | ReadyToEnd              // enough turns or coverage: no question, the operator is told to end
    | Asked(question: string) // one interviewer message with this text
    | Aborted                 // the handler raised before recording a question

  datatype TurnResult = TurnResult(outcome: TurnOutcome, next: SessionState)

  /**
   * The question step, taken when turns remain and coverage is
   * insufficient: with no parsed reply, the fallback question and no state
   * change; otherwise the generated state is saved and its question is
   * asked, or (when the question cannot be stored) the handler raises after
   * the save.
   */
  function AskNext(st: SessionState, reply: ParsedReply): (r: TurnResult)
    ensures reply.None? ==> r == TurnResult(Asked(FallbackQuestion), st)
    ensures reply.Some? ==> r.next == Generate(st, reply).value.next
    ensures reply.Some? && "question" !in reply.value ==> r.outcome == Asked(DefaultQuestion)
    ensures reply.Some? && "question" in reply.value && reply.value["question"].JString? ==>
              r.outcome == Asked(reply.value["question"].s)
    ensures reply.Some? && "question" in reply.value && StoredText(reply.value["question"]).Some? ==>
              r.outcome == Asked(StoredText(reply.value["question"]).value)
    ensures r.outcome == Aborted <==> reply.Some? && "question" in reply.value && StoredText(reply.value["question"]).None?
    ensures r.outcome != ReadyToEnd
  {
    match Generate(st, reply)
    case None => TurnResult(Asked(FallbackQuestion), st)
    case Some(g) =>
      match StoredText(g.question)
      case None => TurnResult(Aborted, g.next)
      case Some(q) => TurnResult(Asked(q), g.next)
  }

  /** The question step by the generation's three outcomes: none, a question that cannot be stored, one that can. */
  lemma AskNextCases(st: SessionState, reply: ParsedReply)
    ensures Generate(st, reply).None? ==> AskNext(st, reply) == TurnResult(Asked(FallbackQuestion), st)
    ensures Generate(st, reply).Some? ==>
              var g := Generate(st, reply).value;
              && (StoredText(g.question).None? ==> AskNext(st, reply) == TurnResult(Aborted, g.next))
              && (StoredText(g.question).Some? ==> AskNext(st, reply) == TurnResult(Asked(StoredText(g.question).value), g.next))
  {
  }

  /**
   * One candidate message, from the session's state `st` and the backend's
   * reply to the question request.
   */
  function TakeTurn(st: SessionState, reply: ParsedReply): (r: TurnResult)
    ensures st.turnCount >= MaxTurns || EnoughCoverage(st.coverage) == Some(true) ==>
              r == TurnResult(ReadyToEnd, st)
    ensures st.turnCount < MaxTurns && EnoughCoverage(st.coverage).None? ==> r == TurnResult(Aborted, st)
    ensures st.turnCount < MaxTurns && EnoughCoverage(st.coverage) == Some(false) ==> r == AskNext(st, reply)
    ensures r.next == st || (st.turnCount < MaxTurns && r.next.turnCount == st.turnCount + 1 && r.next.resumeText == st.resumeText)
    ensures r.outcome == ReadyToEnd ==> r.next == st
    ensures st.turnCount <= MaxTurns ==> r.next.turnCount <= MaxTurns
  {
    if st.turnCount >= MaxTurns then TurnResult(ReadyToEnd, st)
    else
      match EnoughCoverage(st.coverage)
      case None => TurnResult(Aborted, st)
      case Some(true) => TurnResult(ReadyToEnd, st)
      case Some(false) => AskNext(st, reply)
  }

  /** A run of candidate messages, one backend reply each: the final state and each message's outcome. */
  function RunTurns(st: SessionState, replies: seq<ParsedReply>): (r: (SessionState, seq<TurnOutcome>))
    ensures |r.1| == |replies|
    decreases |replies|
  {
    if replies == [] then (st, [])
    else
      var t := TakeTurn(st, replies[0]);
      var rest := RunTurns(t.next, replies[1..]);
      (rest.0, [t.outcome] + rest.1)
  }

  /** Through any run of messages `turn_count` never passes `MaxTurns`, and the resume is untouched. */
  lemma {:induction false} RunTurnsKeepsBound(st: SessionState, replies: seq<ParsedReply>)
    requires st.turnCount <= MaxTurns
    ensures RunTurns(st, replies).0.turnCount <= MaxTurns
    ensures RunTurns(st, replies).0.resumeText == st.resumeText
    ensures RunTurns(st, replies).0.turnCount >= st.turnCount
    decreases |replies|
  {
    if replies != [] {
      RunTurnsKeepsBound(TakeTurn(st, replies[0]).next, replies[1..]);
    }
  }

  /**
   * A reply the backend gives in a well-behaved session: an object whose
   * question can be stored and whose coverage update (if any) is readable
   * but not sufficient.
   */
  predicate Productive(reply: ParsedReply) {
    match reply
    case None => false
    case Some(d) =>
      && ("question" in d ==> StoredText(d["question"]).Some?)
      && ("coverage_update" in d ==> EnoughCoverage(d["coverage_update"]) == Some(false))
  }

  function Min(a: nat, b: nat): nat {
    if a <= b then a else b
  }

  /** One productive reply, with turns left and insufficient coverage, asks a question and keeps coverage insufficient. */
  lemma ProductiveTurn(st: SessionState, reply: ParsedReply)
    requires st.turnCount < MaxTurns
    requires EnoughCoverage(st.coverage) == Some(false)
    requires Productive(reply)
    ensures TakeTurn(st, reply).outcome.Asked?
    ensures TakeTurn(st, reply).next.turnCount == st.turnCount + 1
    ensures EnoughCoverage(TakeTurn(st, reply).next.coverage) == Some(false)
  {
    var d := reply.value;
    var g := Generate(st, reply).value;
    assert g.question == GetOr(d, "question", JString(DefaultQuestion));
  }

  /**
   * The outcomes of a run of messages whose first arrives with `start`
   * turns taken: a question for each message while turns remain, and the
   * instruction to end for every later one.
   */
  predicate OutcomesFrom(outcomes: seq<TurnOutcome>, start: nat) {
    forall i :: 0 <= i < |outcomes| ==>
      && (outcomes[i].Asked? <==> start + i < MaxTurns)
      && (start + i >= MaxTurns ==> outcomes[i] == ReadyToEnd)
  }

  /** One more outcome in front of a run that started a turn later, or at the limit. */
  lemma OutcomesFromCons(o: TurnOutcome, outcomes: seq<TurnOutcome>, start: nat, next: nat)
    requires OutcomesFrom(outcomes, next)
    requires next == start + 1 || (start >= MaxTurns && next >= MaxTurns)
    requires o.Asked? <==> start < MaxTurns
    requires start >= MaxTurns ==> o == ReadyToEnd
    ensures OutcomesFrom([o] + outcomes, start)
  {
    var all := [o] + outcomes;
    forall i | 0 <= i < |all|
      ensures (all[i].Asked? <==> start + i < MaxTurns) && (start + i >= MaxTurns ==> all[i] == ReadyToEnd)
    {
      if i > 0 {
        assert all[i] == outcomes[i - 1];
      }
    }
  }

  /** Every reply of a run is productive. */
  predicate AllProductive(replies: seq<ParsedReply>) {
    forall i :: 0 <= i < |replies| ==> Productive(replies[i])
  }

  lemma AllProductiveTail(replies: seq<ParsedReply>)
    requires replies != [] && AllProductive(replies)
    ensures Productive(replies[0]) && AllProductive(replies[1..])
  {
    assert forall i :: 0 <= i < |replies| - 1 ==> replies[1..][i] == replies[i + 1];
  }

  /**
   * One productive reply with insufficient coverage and at most `MaxTurns`
   * turns taken: a question exactly while turns remain, one more turn then,
   * the state unchanged and the instruction to end otherwise, and coverage
   * still insufficient.
   */
  lemma ProductiveStep(st: SessionState, reply: ParsedReply)
    requires st.turnCount <= MaxTurns
    requires EnoughCoverage(st.coverage) == Some(false)
    requires Productive(reply)
    ensures var t := TakeTurn(st, reply);
            && (t.outcome.Asked? <==> st.turnCount < MaxTurns)
            && (st.turnCount < MaxTurns ==> t.next.turnCount == st.turnCount + 1)
            && (st.turnCount >= MaxTurns ==> t == TurnResult(ReadyToEnd, st))
            && t.next.turnCount <= MaxTurns
            && EnoughCoverage(t.next.coverage) == Some(false)
  {
    if st.turnCount < MaxTurns {
      ProductiveTurn(st, reply);
    }
  }

  /**
   * With productive replies and coverage that never suffices, each message
   * asks one question while turns remain, `turn_count` climbs to exactly
   * `MaxTurns` and stops there, and every later message is told to end.
   */
  lemma {:induction false} ProductiveRunReachesLimit(st: SessionState, replies: seq<ParsedReply>)
    requires st.turnCount <= MaxTurns
    requires EnoughCoverage(st.coverage) == Some(false)
    requires AllProductive(replies)
    ensures RunTurns(st, replies).0.turnCount == Min(MaxTurns, st.turnCount + |replies|)
    ensures OutcomesFrom(RunTurns(st, replies).1, st.turnCount)
    decreases |replies|
  {
    if replies != [] {
      AllProductiveTail(replies);
      var t := TakeTurn(st, replies[0]);
      ProductiveStep(st, replies[0]);
      ProductiveRunReachesLimit(t.next, replies[1..]);
      OutcomesFromCons(t.outcome, RunTurns(t.next, replies[1..]).1, st.turnCount, t.next.turnCount);
    }
  }
}
