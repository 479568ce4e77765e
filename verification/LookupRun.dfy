/** The iterative lookup as a function of its schedule: what it has queued, asked and heard after each event, and what
    it returns. A schedule is an arbitrary finite sequence of replies and timeouts. */
module LookupRun {
  import opened Bytes
  import opened Ids
  import opened BucketLists
  import opened PriorityQueue
  import opened CandidateHeap
  import opened Options

  datatype Reply = Failure | Answer(contacts: seq<Contact>, value: Option<seq<byte>>)

  datatype Event = Response(contact: Contact, reply: Reply) | Timeout

  datatype IterativeResult =
    IterativeResult(success: bool, target: Contact, activeList: seq<Contact>, value: Option<seq<byte>>)

  // A run either returns or is still waiting when its schedule ends.
  datatype Outcome = Returned(result: IterativeResult) | Waiting

  // Who looks for what.
  datatype Query = Query(self: Contact, key: Id, findValue: bool) {
    predicate GivesValue(reply: Reply) {
      reply.Answer? && findValue && reply.value.Some?
    }
  }

  // The candidates not yet asked, every identifier ever offered, the contacts asked and not yet heard from, and those
  // that answered without a value.
  datatype Search = Search(pending: multiset<Contact>, seen: set<Id>, inflight: multiset<Contact>,
      answered: multiset<Contact>)

  // ---------- One event ----------

  // What one reply means to the loop that took it.
  datatype Verdict = KeepGoing | NothingCloser | Found(result: IterativeResult)

  datatype Step = Step(verdict: Verdict, search: Search)

  ghost function Discovered(q: Query, s: Search, contacts: seq<Contact>): Search {
    s.(pending := s.pending + multiset(Fresh(q.self.nodeId, s.seen, contacts)),
       seen := SeenAfter(q.self.nodeId, s.seen, contacts))
  }

  // The nearest n candidates are asked.
  ghost function Dispatched(q: Query, s: Search, n: nat): Search {
    var batch := multiset(Batch(q.key, s.pending, n));
    s.(pending := s.pending - batch, inflight := s.inflight + batch)
  }

  ghost function Heard(s: Search, c: Contact): Search {
    s.(inflight := s.inflight - multiset{c})
  }

  ghost function Credited(s: Search, c: Contact): Search {
    s.(inflight := s.inflight - multiset{c}, answered := s.answered + multiset{c})
  }

  // The nearest of the answers, or the node itself when there are none.
  ghost function ClosestAnswer(q: Query, answered: multiset<Contact>): Contact {
    if answered == multiset{} then q.self else Nearest(q.key, answered)
  }

  // A value ends the lookup; the target is the nearest answer without it.
  ghost function ValueResult(q: Query, s: Search, reply: Reply): IterativeResult
    requires q.GivesValue(reply)
  {
    IterativeResult(true, ClosestAnswer(q, s.answered), [], reply.value)
  }

  // An answer stalls the first phase when some earlier one came from at least as close as all that it offers.
  ghost predicate Stalls(key: Id, answered: multiset<Contact>, contacts: seq<Contact>) {
    exists t: Contact :: t in answered && forall n: Contact | n in contacts :: D(key, t) <= D(key, n)
  }

  ghost function FirstStep(q: Query, s: Search, c: Contact, reply: Reply): Step {
    if reply.Failure? then Step(KeepGoing, Heard(s, c))
    else if q.GivesValue(reply) then Step(Found(ValueResult(q, s, reply)), Heard(s, c))
    else if Stalls(q.key, s.answered, reply.contacts) then Step(NothingCloser, Credited(s, c))
    else Step(KeepGoing, Discovered(q, Credited(s, c), reply.contacts))
  }

  // The second phase discards what an answer offers.
  ghost function SecondStep(q: Query, s: Search, c: Contact, reply: Reply): Step {
    if reply.Failure? then Step(KeepGoing, Heard(s, c))
    else if q.GivesValue(reply) then Step(Found(ValueResult(q, s, reply)), Heard(s, c))
    else Step(KeepGoing, Credited(s, c))
  }

  // ---------- Batches and phases ----------

  // How a loop ends: its batch is over, the whole phase is, a value came, or the schedule ran dry.
  datatype Exit = BatchOver | PhaseOver | ValueFound(result: IterativeResult) | Dry

  datatype Progress = Progress(exit: Exit, search: Search, rest: seq<Event>)

  // A batch of the first phase waits for `count` replies, late ones to earlier batches included, or for a timeout.
  // A reply from a contact that is not in flight cannot happen, and is skipped.
  ghost function FirstBatchRun(q: Query, s: Search, count: int, events: seq<Event>): (r: Progress)
    ensures |r.rest| <= |events| && (r.exit == BatchOver ==> |r.rest| < |events|)
    decreases |events|
  {
    if events == [] then Progress(Dry, s, []) else
      var e, rest := events[0], events[1..];
      if e.Timeout? then Progress(BatchOver, s, rest)
      else if e.contact !in s.inflight then FirstBatchRun(q, s, count, rest)
      else
        var t := FirstStep(q, s, e.contact, e.reply);
        match t.verdict
        case Found(result) => Progress(ValueFound(result), t.search, rest)
        case NothingCloser => Progress(PhaseOver, t.search, rest)
        case KeepGoing =>
          if count == 1 then Progress(BatchOver, t.search, rest) else FirstBatchRun(q, t.search, count - 1, rest)
  }

  ghost function FirstPhaseRun(q: Query, s: Search, events: seq<Event>): (r: Progress)
    decreases |events|
  {
    if |s.answered| >= 20 then Progress(PhaseOver, s, events) else
      var r := FirstBatchRun(q, Dispatched(q, s, 3), |Batch(q.key, s.pending, 3)|, events);
      if r.exit == BatchOver then FirstPhaseRun(q, r.search, r.rest) else r
  }

  // A batch of the second phase has no timer, and gives up when nothing is pending.
  ghost function SecondBatchRun(q: Query, s: Search, count: int, events: seq<Event>): (r: Progress)
    ensures |r.rest| <= |events| && (r.exit == BatchOver ==> |r.rest| < |events|)
    decreases |events|
  {
    if events == [] then Progress(Dry, s, []) else
      var e, rest := events[0], events[1..];
      if e.Timeout? || e.contact !in s.inflight then SecondBatchRun(q, s, count, rest)
      else
        var t := SecondStep(q, s, e.contact, e.reply);
        if t.verdict.Found? then Progress(ValueFound(t.verdict.result), t.search, rest)
        else if count == 1 then Progress(BatchOver, t.search, rest)
        else if |t.search.pending| == 0 then Progress(PhaseOver, t.search, rest)
        else SecondBatchRun(q, t.search, count - 1, rest)
  }

  ghost function SecondPhaseRun(q: Query, s: Search, events: seq<Event>): (r: Progress)
    decreases |events|
  {
    if |s.answered| >= 20 then Progress(PhaseOver, s, events) else
      var n := 20 - |s.answered|;
      var r := SecondBatchRun(q, Dispatched(q, s, n), |Batch(q.key, s.pending, n)|, events);
      if r.exit == BatchOver then SecondPhaseRun(q, r.search, r.rest) else r
  }

  // One turn of each phase.
  lemma FirstPhaseTurn(q: Query, s: Search, events: seq<Event>)
    requires |s.answered| < 20
    ensures var r := FirstBatchRun(q, Dispatched(q, s, 3), |Batch(q.key, s.pending, 3)|, events);
            FirstPhaseRun(q, s, events) == if r.exit == BatchOver then FirstPhaseRun(q, r.search, r.rest) else r
  {
    hide FirstBatchRun, Batch, Dispatched;
  }

  lemma SecondPhaseTurn(q: Query, s: Search, events: seq<Event>)
    requires |s.answered| < 20
    ensures var n := 20 - |s.answered|;
            var r := SecondBatchRun(q, Dispatched(q, s, n), |Batch(q.key, s.pending, n)|, events);
            SecondPhaseRun(q, s, events) == if r.exit == BatchOver then SecondPhaseRun(q, r.search, r.rest) else r
  {
    hide SecondBatchRun, Batch, Dispatched;
  }

  lemma PhasesStop(q: Query, s: Search, events: seq<Event>)
    requires |s.answered| >= 20
    ensures FirstPhaseRun(q, s, events) == SecondPhaseRun(q, s, events) == Progress(PhaseOver, s, events)
  {
  }

  lemma FirstDry(q: Query, s: Search, count: int, events: seq<Event>)
    requires events == []
    ensures FirstBatchRun(q, s, count, events) == Progress(Dry, s, events)
  {
  }

  lemma SecondDry(q: Query, s: Search, count: int, events: seq<Event>)
    requires events == []
    ensures SecondBatchRun(q, s, count, events) == Progress(Dry, s, events)
  {
  }

  // What the first phase makes of its next event.
  lemma FirstTimeout(q: Query, s: Search, count: int, events: seq<Event>)
    requires events != [] && events[0].Timeout?
    ensures FirstBatchRun(q, s, count, events) == Progress(BatchOver, s, events[1..])
  {
  }

  lemma FirstTakes(q: Query, s: Search, count: int, events: seq<Event>)
    requires events != [] && events[0].Response?
    ensures var r, rest := FirstBatchRun(q, s, count, events), events[1..];
            var t := FirstStep(q, s, events[0].contact, events[0].reply);
            if events[0].contact !in s.inflight then r == FirstBatchRun(q, s, count, rest)
            else match t.verdict
                 case Found(result) => r == Progress(ValueFound(result), t.search, rest)
                                       && q.GivesValue(events[0].reply) && result == ValueResult(q, s, events[0].reply)
                                       && t.search.answered == s.answered
                 case NothingCloser => r == Progress(PhaseOver, t.search, rest) && !q.GivesValue(events[0].reply)
                 case KeepGoing =>
                   && !q.GivesValue(events[0].reply)
                   && r == if count == 1 then Progress(BatchOver, t.search, rest)
                           else FirstBatchRun(q, t.search, count - 1, rest)
  {
    hide FirstStep;
    FirstVerdict(q, s, events[0].contact, events[0].reply);
  }

  lemma FirstVerdict(q: Query, s: Search, c: Contact, reply: Reply)
    ensures var t := FirstStep(q, s, c, reply);
            && (t.verdict.Found? <==> q.GivesValue(reply))
            && (t.verdict.Found? ==> t.verdict.result == ValueResult(q, s, reply) && t.search.answered == s.answered)
  {
  }

  // What the second phase makes of its next event.
  lemma SecondTakes(q: Query, s: Search, count: int, events: seq<Event>)
    requires events != []
    ensures var r, rest := SecondBatchRun(q, s, count, events), events[1..];
            if events[0].Timeout? || events[0].contact !in s.inflight then r == SecondBatchRun(q, s, count, rest)
            else var reply, t := events[0].reply, SecondStep(q, s, events[0].contact, events[0].reply);
                 && t.search.pending == s.pending
                 && if q.GivesValue(reply)
                 then t == Step(Found(ValueResult(q, s, reply)), t.search) && t.search.answered == s.answered
                      && r == Progress(ValueFound(t.verdict.result), t.search, rest)
                 else && t.verdict == KeepGoing
                      && r == (if count == 1 then Progress(BatchOver, t.search, rest)
                               else if |s.pending| == 0 then Progress(PhaseOver, t.search, rest)
                               else SecondBatchRun(q, t.search, count - 1, rest))
  {
  }

  // ---------- The whole lookup ----------

  ghost function Started(q: Query, initial: seq<Contact>): Search {
    Discovered(q, Search(multiset{}, {}, multiset{}, multiset{}), initial)
  }

  ghost function PhasesRun(q: Query, s: Search, events: seq<Event>): Progress {
    var r := FirstPhaseRun(q, s, events);
    if r.exit == PhaseOver then SecondPhaseRun(q, r.search, r.rest) else r
  }

  ghost function Final(q: Query, answered: multiset<Contact>): IterativeResult {
    if q.findValue then IterativeResult(true, ClosestAnswer(q, answered), [], None)
    else IterativeResult(true, q.self, Batch(q.key, answered, |answered|), None)
  }

  ghost function Run(q: Query, initial: seq<Contact>, events: seq<Event>): Outcome {
    var s := Started(q, initial);
    if |s.pending| == 0 then Returned(IterativeResult(false, q.self, [], None)) else
      var r := PhasesRun(q, s, events);
      match r.exit
      case Dry => Waiting
      case ValueFound(result) => Returned(result)
      case _ => Returned(Final(q, r.search.answered))
  }

  lemma SizeOfQueue(list: seq<Contact>)
    ensures |multiset(list)| == |list|
  {
  }

  // ---------- Counting timeouts ----------

  // How many of the events are timeouts.
  ghost function Timeouts(events: seq<Event>): nat {
    if events == [] then 0 else
      var last := |events| - 1;
      Timeouts(events[..last]) + if events[last].Timeout? then 1 else 0
  }

  lemma OneMoreTimeout(events: seq<Event>, e: Event)
    ensures Timeouts(events + [e]) == Timeouts(events) + if e.Timeout? then 1 else 0
  {
    assert (events + [e])[..|events|] == events;
  }

  // How many answers there can be. A batch of three may start at 19 answers; and once nothing is pending, a batch
  // waits for all the queries that timeouts have left behind, up to three each.
  function MaxAnswers(timeouts: nat): nat {
    19 + 3 * if timeouts == 0 then 1 else timeouts
  }
}
