/** What a value lookup returns and what it can find: a value comes back exactly when a contact that was asked replies
    with it, and every value that answers lead to can come back. */
module LookupValue {
  import opened Bytes
  import opened Ids
  import opened BucketLists
  import opened PriorityQueue
  import opened CandidateHeap
  import opened LookupRun
  import opened LookupSize
  import opened Options

  // ---------- A run goes on where it stopped ----------

  // The first phase from within a batch that waits for `count` replies.
  ghost function FirstResume(q: Query, s: Search, count: int, events: seq<Event>): Progress {
    var r := FirstBatchRun(q, s, count, events);
    if r.exit == BatchOver then FirstPhaseRun(q, r.search, r.rest) else r
  }

  ghost function SecondResume(q: Query, s: Search, count: int, events: seq<Event>): Progress {
    var r := SecondBatchRun(q, s, count, events);
    if r.exit == BatchOver then SecondPhaseRun(q, r.search, r.rest) else r
  }

  ghost function Later(r: Progress, more: seq<Event>): Progress {
    r.(rest := r.rest + more)
  }

  // A batch that waits goes on with what comes next; one that is over leaves it.
  lemma {:induction false} FirstBatchResumes(q: Query, s: Search, count: int, events: seq<Event>, more: seq<Event>)
    returns (left: int)
    ensures var r, all := FirstBatchRun(q, s, count, events), FirstBatchRun(q, s, count, events + more);
            if r.exit == Dry then all == FirstBatchRun(q, r.search, left, more) else all == Later(r, more)
    decreases |events|
  {
    hide FirstBatchRun, FirstStep;
    left := count;
    if events == [] {
      FirstDry(q, s, count, events);
      assert [] + more == more;
    } else {
      var all := events + more;
      assert all[0] == events[0] && all[1..] == events[1..] + more;
      if events[0].Timeout? {
        FirstTimeout(q, s, count, events);
        FirstTimeout(q, s, count, all);
      } else {
        FirstTakes(q, s, count, events);
        FirstTakes(q, s, count, all);
        if events[0].contact !in s.inflight {
          left := FirstBatchResumes(q, s, count, events[1..], more);
        } else {
          var t := FirstStep(q, s, events[0].contact, events[0].reply);
          if t.verdict == KeepGoing && count != 1 {
            left := FirstBatchResumes(q, t.search, count - 1, events[1..], more);
          }
        }
      }
    }
  }

  lemma {:induction false} SecondBatchResumes(q: Query, s: Search, count: int, events: seq<Event>, more: seq<Event>)
    returns (left: int)
    ensures var r, all := SecondBatchRun(q, s, count, events), SecondBatchRun(q, s, count, events + more);
            if r.exit == Dry then all == SecondBatchRun(q, r.search, left, more) else all == Later(r, more)
    decreases |events|
  {
    hide SecondBatchRun, SecondStep;
    left := count;
    if events == [] {
      SecondDry(q, s, count, events);
      assert [] + more == more;
    } else {
      var all := events + more;
      assert all[0] == events[0] && all[1..] == events[1..] + more;
      SecondTakes(q, s, count, events);
      SecondTakes(q, s, count, all);
      if events[0].Timeout? || events[0].contact !in s.inflight {
        left := SecondBatchResumes(q, s, count, events[1..], more);
      } else {
        var t := SecondStep(q, s, events[0].contact, events[0].reply);
        if t.verdict == KeepGoing && count != 1 && |s.pending| > 0 {
          left := SecondBatchResumes(q, t.search, count - 1, events[1..], more);
        }
      }
    }
  }

  lemma {:induction false} FirstPhaseResumes(q: Query, s: Search, events: seq<Event>, more: seq<Event>)
    returns (left: int)
    ensures var r, all := FirstPhaseRun(q, s, events), FirstPhaseRun(q, s, events + more);
            if r.exit == Dry then all == FirstResume(q, r.search, left, more) else all == Later(r, more)
    decreases |events|
  {
    hide FirstBatchRun, FirstPhaseRun, Batch, Dispatched;
    left := 0;
    if |s.answered| >= 20 {
      PhasesStop(q, s, events);
      PhasesStop(q, s, events + more);
    } else {
      FirstPhaseTurn(q, s, events);
      FirstPhaseTurn(q, s, events + more);
      var d, count := Dispatched(q, s, 3), |Batch(q.key, s.pending, 3)|;
      left := FirstBatchResumes(q, d, count, events, more);
      var r := FirstBatchRun(q, d, count, events);
      if r.exit == BatchOver {
        left := FirstPhaseResumes(q, r.search, r.rest, more);
      }
    }
  }

  lemma {:induction false} SecondPhaseResumes(q: Query, s: Search, events: seq<Event>, more: seq<Event>)
    returns (left: int)
    ensures var r, all := SecondPhaseRun(q, s, events), SecondPhaseRun(q, s, events + more);
            if r.exit == Dry then all == SecondResume(q, r.search, left, more) else all == Later(r, more)
    decreases |events|
  {
    hide SecondBatchRun, SecondPhaseRun, Batch, Dispatched;
    left := 0;
    if |s.answered| >= 20 {
      PhasesStop(q, s, events);
      PhasesStop(q, s, events + more);
    } else {
      SecondPhaseTurn(q, s, events);
      SecondPhaseTurn(q, s, events + more);
      var n := 20 - |s.answered|;
      var d, count := Dispatched(q, s, n), |Batch(q.key, s.pending, n)|;
      left := SecondBatchResumes(q, d, count, events, more);
      var r := SecondBatchRun(q, d, count, events);
      if r.exit == BatchOver {
        left := SecondPhaseResumes(q, r.search, r.rest, more);
      }
    }
  }

  // ---------- One more event ----------

  // The reply brings a value that the lookup is after.
  ghost predicate BringsValue(q: Query, s: Search, e: Event) {
    q.findValue && e.Response? && e.contact in s.inflight && e.reply.Answer? && e.reply.value.Some?
  }

  // The lookup ends with the value of the reply, and the target nearest among those that answered without it.
  ghost predicate EndsWithValue(q: Query, s: Search, e: Event, exit: Exit)
    requires BringsValue(q, s, e)
  {
    && exit.ValueFound? && exit.result.success && exit.result.value == e.reply.value && exit.result.activeList == []
    && if s.answered == multiset{} then exit.result.target == q.self
       else IsNearest(q.key, s.answered, exit.result.target)
  }

  lemma FirstOneEvent(q: Query, s: Search, count: int, e: Event)
    ensures var r := FirstResume(q, s, count, [e]);
            if BringsValue(q, s, e) then EndsWithValue(q, s, e, r.exit) else !r.exit.ValueFound?
  {
    hide FirstBatchRun, FirstStep, FirstPhaseRun, IsNearest, Batch;
    if e.Timeout? {
      FirstTimeout(q, s, count, [e]);
      FirstPhaseEmpty(q, s);
    } else {
      FirstTakes(q, s, count, [e]);
      if e.contact !in s.inflight {
        FirstDry(q, s, count, []);
      } else {
        var t := FirstStep(q, s, e.contact, e.reply);
        FirstDry(q, t.search, count - 1, []);
        FirstPhaseEmpty(q, t.search);
      }
    }
  }

  lemma FirstPhaseEmpty(q: Query, s: Search)
    ensures var r := FirstPhaseRun(q, s, []);
            && (r.exit == Dry || r.exit == PhaseOver) && (r.exit == PhaseOver <==> |s.answered| >= 20)
            && r == if |s.answered| >= 20 then Progress(PhaseOver, s, []) else Progress(Dry, Dispatched(q, s, 3), [])
  {
    hide FirstBatchRun, Batch, Dispatched;
    FirstDry(q, Dispatched(q, s, 3), |Batch(q.key, s.pending, 3)|, []);
  }

  lemma SecondPhaseEmpty(q: Query, s: Search)
    ensures SecondPhaseRun(q, s, []).exit == Dry || SecondPhaseRun(q, s, []).exit == PhaseOver
  {
    hide SecondBatchRun, Batch, Dispatched;
    if |s.answered| < 20 {
      var n := 20 - |s.answered|;
      SecondDry(q, Dispatched(q, s, n), |Batch(q.key, s.pending, n)|, []);
    }
  }

  lemma SecondOneEvent(q: Query, s: Search, count: int, e: Event)
    ensures var r := SecondResume(q, s, count, [e]);
            if BringsValue(q, s, e) then EndsWithValue(q, s, e, r.exit) else !r.exit.ValueFound?
  {
    hide SecondBatchRun, SecondStep, SecondPhaseRun, IsNearest, Batch;
    SecondTakes(q, s, count, [e]);
    SecondDry(q, s, count, []);
    if e.Response? && e.contact in s.inflight {
      var t := SecondStep(q, s, e.contact, e.reply);
      SecondDry(q, t.search, count - 1, []);
      SecondPhaseEmpty(q, t.search);
    }
  }

  // ---------- A value comes back exactly when it was brought ----------

  // How far a lookup has come.
  ghost function Now(q: Query, initial: seq<Contact>, events: seq<Event>): Progress {
    PhasesRun(q, Started(q, initial), events)
  }

  lemma NowResumes(q: Query, initial: seq<Contact>, events: seq<Event>, e: Event)
    ensures var r, all := Now(q, initial, events), Now(q, initial, events + [e]);
            if r.exit != Dry then all == Later(r, [e])
            else if BringsValue(q, r.search, e) then EndsWithValue(q, r.search, e, all.exit)
            else !all.exit.ValueFound?
  {
    hide FirstPhaseRun, SecondPhaseRun, FirstResume, SecondResume, Started, BringsValue, EndsWithValue;
    var s := Started(q, initial);
    var r := FirstPhaseRun(q, s, events);
    var left := FirstPhaseResumes(q, s, events, [e]);
    if r.exit == Dry {
      FirstOneEvent(q, r.search, left, e);
      FirstOver(q, r.search, left, e);
      SecondPhaseEmpty(q, FirstResume(q, r.search, left, [e]).search);
    } else if r.exit == PhaseOver {
      var left' := SecondPhaseResumes(q, r.search, r.rest, [e]);
      SecondOneEvent(q, SecondPhaseRun(q, r.search, r.rest).search, left', e);
    }
  }

  // When one event ends the phase, nothing is left of it.
  lemma FirstOver(q: Query, s: Search, count: int, e: Event)
    ensures FirstResume(q, s, count, [e]).rest == []
    ensures BringsValue(q, s, e) ==> FirstResume(q, s, count, [e]).exit != PhaseOver
  {
    hide FirstBatchRun, FirstStep, FirstPhaseRun, Batch;
    if e.Timeout? {
      FirstTimeout(q, s, count, [e]);
      FirstPhaseEmpty(q, s);
    } else {
      FirstTakes(q, s, count, [e]);
      var t := FirstStep(q, s, e.contact, e.reply);
      FirstDry(q, s, count, []);
      FirstDry(q, t.search, count - 1, []);
      FirstPhaseEmpty(q, t.search);
    }
  }

  // Event k is a reply with the value, of a contact that was asked, to a lookup that still waits.
  ghost predicate IsValueReply(q: Query, initial: seq<Contact>, events: seq<Event>, k: int, v: seq<byte>) {
    && 0 <= k < |events| && |Started(q, initial).pending| > 0
    && var now := Now(q, initial, events[..k]);
       now.exit == Dry && BringsValue(q, now.search, events[k]) && events[k].reply.value == Some(v)
  }

  lemma NowValue(q: Query, initial: seq<Contact>, events: seq<Event>)
    ensures Now(q, initial, []).exit == Dry || Now(q, initial, []).exit == PhaseOver
  {
    hide FirstPhaseRun, SecondPhaseRun, Started;
    var s := Started(q, initial);
    FirstPhaseEmpty(q, s);
    SecondPhaseEmpty(q, s);
  }

  // A lookup that has found a value was brought it by one of the events.
  lemma {:induction false} ValueWasBrought(q: Query, initial: seq<Contact>, events: seq<Event>, v: seq<byte>)
    requires |Started(q, initial).pending| > 0
    requires Now(q, initial, events).exit.ValueFound? && Now(q, initial, events).exit.result.value == Some(v)
    ensures exists k :: IsValueReply(q, initial, events, k, v)
    decreases |events|
  {
    hide Now, Started, BringsValue;
    if events == [] {
      NowValue(q, initial, events);
    } else {
      var last := |events| - 1;
      var front := events[..last];
      assert events == front + [events[last]];
      NowResumes(q, initial, front, events[last]);
      if Now(q, initial, front).exit == Dry {
        assert IsValueReply(q, initial, events, last, v);
      } else {
        ValueWasBrought(q, initial, front, v);
        var k :| IsValueReply(q, initial, front, k, v);
        assert events[..k] == front[..k];
        assert IsValueReply(q, initial, events, k, v);
      }
    }
  }

  // What was decided stays decided.
  lemma {:induction false} StaysOver(q: Query, initial: seq<Contact>, events: seq<Event>, k: nat)
    requires k <= |events| && Now(q, initial, events[..k]).exit != Dry
    ensures Now(q, initial, events).exit == Now(q, initial, events[..k]).exit
    decreases |events|
  {
    hide Now;
    if k < |events| {
      var last := |events| - 1;
      assert events == events[..last] + [events[last]] && events[..last][..k] == events[..k];
      StaysOver(q, initial, events[..last], k);
      NowResumes(q, initial, events[..last], events[last]);
    } else {
      assert events[..k] == events;
    }
  }

  // A value that is brought comes back.
  lemma BroughtComesBack(q: Query, initial: seq<Contact>, events: seq<Event>, k: int, v: seq<byte>)
    requires IsValueReply(q, initial, events, k, v)
    ensures var now, outcome := Now(q, initial, events[..k]), Run(q, initial, events);
            && outcome.Returned? && outcome.result.success && outcome.result.value == Some(v)
            && outcome.result.activeList == []
            && if now.search.answered == multiset{} then outcome.result.target == q.self
               else IsNearest(q.key, now.search.answered, outcome.result.target)
  {
    hide Started, IsNearest, PhasesRun;
    assert events[..k + 1] == events[..k] + [events[k]];
    NowResumes(q, initial, events[..k], events[k]);
    StaysOver(q, initial, events, k + 1);
  }

  // A lookup returns a value if and only if it looks for values and a contact that was asked replied with it while the
  // lookup still waited.
  lemma ValueReturnedIff(q: Query, initial: seq<Contact>, events: seq<Event>, v: seq<byte>)
    ensures var outcome := Run(q, initial, events);
            outcome.Returned? && outcome.result.value == Some(v)
            <==> exists k :: IsValueReply(q, initial, events, k, v)
  {
    hide Started, PhasesRun, IsValueReply, Final;
    var outcome := Run(q, initial, events);
    if k :| IsValueReply(q, initial, events, k, v) {
      BroughtComesBack(q, initial, events, k, v);
    } else if outcome.Returned? && outcome.result.value == Some(v) && |Started(q, initial).pending| > 0 {
      FinalHasNoValue(q, Now(q, initial, events).search.answered);
      ValueWasBrought(q, initial, events, v);
    }
  }

  lemma FinalHasNoValue(q: Query, answered: multiset<Contact>)
    ensures Final(q, answered).value == None
  {
  }

  // It is the first one: no reply that was taken before brought a value.
  lemma OneValueReply(q: Query, initial: seq<Contact>, events: seq<Event>, j: int, v: seq<byte>, k: int, w: seq<byte>)
    requires IsValueReply(q, initial, events, j, v) && IsValueReply(q, initial, events, k, w)
    ensures j == k
  {
    hide Now;
    if j != k {
      var a, b := if j < k then j else k, if j < k then k else j;
      assert events[..b][..a] == events[..a] && events[..b][..a + 1] == events[..a] + [events[a]];
      NowResumes(q, initial, events[..a], events[a]);
      StaysOver(q, initial, events[..b], a + 1);
    }
  }

  // ---------- What answers list is heeded ----------

  ghost predicate Names(contacts: seq<Contact>, id: Id) {
    exists n: Contact :: n in contacts && n.nodeId == id
  }

  lemma IdsOfSum(m: multiset<Contact>, n: multiset<Contact>)
    ensures IdsOf(m + n) == IdsOf(m) + IdsOf(n)
  {
  }

  lemma NamedIds(contacts: seq<Contact>, id: Id)
    ensures id in IdsOf(multiset(contacts)) <==> Names(contacts, id)
  {
    forall n: Contact
      ensures n in contacts <==> n in multiset(contacts)
    {
    }
  }

  // Everyone listed becomes known, but for the node itself, and a candidate if not known before.
  ghost predicate Heeds(q: Query, s: Search, contacts: seq<Contact>, t: Search) {
    && (forall n: Contact | n in contacts :: n.nodeId == q.self.nodeId || n.nodeId in t.seen)
    && (forall id :: id in t.seen <==> id in s.seen || (id != q.self.nodeId && Names(contacts, id)))
    && IdsOf(t.pending) == IdsOf(s.pending) + (t.seen - s.seen)
  }

  lemma DiscoveredHeeds(q: Query, s: Search, contacts: seq<Contact>)
    ensures Heeds(q, s, contacts, Discovered(q, s, contacts))
  {
    hide Fresh, IdsOf, Names;
    var self := q.self.nodeId;
    FreshIds(self, s.seen, contacts);
    IdsOfSum(s.pending, multiset(Fresh(self, s.seen, contacts)));
    forall id: Id
      ensures id in IdsOf(multiset(contacts)) <==> Names(contacts, id)
    {
      NamedIds(contacts, id);
    }
    forall n: Contact | n in contacts
      ensures Names(contacts, n.nodeId)
    {
      NamedSelf(contacts, n);
    }
  }

  lemma NamedSelf(contacts: seq<Contact>, n: Contact)
    requires n in contacts
    ensures Names(contacts, n.nodeId)
  {
  }

  // Some earlier answer came from at least as close as all that this one lists.
  ghost predicate NothingCloserIn(q: Query, answered: multiset<Contact>, contacts: seq<Contact>) {
    exists a: Contact :: a in answered
      && forall n: Contact | n in contacts :: Distance(q.key, a.nodeId) <= Distance(q.key, n.nodeId)
  }

  lemma StallsWhenNothingCloser(q: Query, answered: multiset<Contact>, contacts: seq<Contact>)
    ensures Stalls(q.key, answered, contacts) <==> NothingCloserIn(q, answered, contacts)
  {
  }

  // What an answer without a value does in the first phase of any lookup: it ends the phase exactly when it lists
  // nobody closer than some earlier answer came from, and otherwise it is heeded.
  lemma AnswerIsHeeded(q: Query, s: Search, c: Contact, contacts: seq<Contact>, value: Option<seq<byte>>)
    requires q.findValue ==> value.None?
    ensures var t := FirstStep(q, s, c, Answer(contacts, value));
            && t.search.answered == s.answered + multiset{c} && t.search.inflight == s.inflight - multiset{c}
            && if NothingCloserIn(q, s.answered, contacts)
               then t.verdict == NothingCloser && t.search.seen == s.seen && t.search.pending == s.pending
               else t.verdict == KeepGoing && Heeds(q, s, contacts, t.search)
  {
    hide Heeds, Discovered, Stalls, NothingCloserIn;
    StallsWhenNothingCloser(q, s.answered, contacts);
    DiscoveredHeeds(q, Credited(s, c), contacts);
    SameCandidates(q, s, Credited(s, c), contacts, Discovered(q, Credited(s, c), contacts));
    DiscoveredKeeps(q, Credited(s, c), contacts);
  }

  lemma SameCandidates(q: Query, s: Search, s': Search, contacts: seq<Contact>, t: Search)
    requires s'.pending == s.pending && s'.seen == s.seen && Heeds(q, s', contacts, t)
    ensures Heeds(q, s, contacts, t)
  {
  }

  lemma DiscoveredKeeps(q: Query, s: Search, contacts: seq<Contact>)
    ensures Discovered(q, s, contacts).answered == s.answered && Discovered(q, s, contacts).inflight == s.inflight
  {
  }

  // The second phase records an answer without a value and a failure, and no more.
  lemma SecondPhaseRecords(q: Query, s: Search, c: Contact, contacts: seq<Contact>, value: Option<seq<byte>>)
    requires q.findValue ==> value.None?
    ensures SecondStep(q, s, c, Answer(contacts, value))
         == Step(KeepGoing, Search(s.pending, s.seen, s.inflight - multiset{c}, s.answered + multiset{c}))
    ensures SecondStep(q, s, c, Failure) == FirstStep(q, s, c, Failure)
         == Step(KeepGoing, Search(s.pending, s.seen, s.inflight - multiset{c}, s.answered))
  {
  }

  // In the run: an answer without a value that is taken in the first phase, and lists somebody closer, makes everyone
  // it lists known; nobody is forgotten.
  lemma TakenAnswerIsHeeded(q: Query, s: Search, events: seq<Event>, c: Contact, contacts: seq<Contact>,
                            value: Option<seq<byte>>)
    requires FirstPhaseRun(q, s, events).exit == Dry && c in FirstPhaseRun(q, s, events).search.inflight
    requires q.findValue ==> value.None?
    requires !NothingCloserIn(q, FirstPhaseRun(q, s, events).search.answered, contacts)
    ensures var t := FirstPhaseRun(q, s, events).search;
            var u := FirstPhaseRun(q, s, events + [Response(c, Answer(contacts, value))]).search;
            && u.answered == t.answered + multiset{c} && t.seen <= u.seen
            && forall n: Contact | n in contacts :: n.nodeId == q.self.nodeId || n.nodeId in u.seen
  {
    hide D, FirstPhaseRun, FirstBatchRun, FirstStep, NothingCloserIn, IdsOf, Batch;
    var e := Response(c, Answer(contacts, value));
    var t := FirstPhaseRun(q, s, events).search;
    var left := FirstPhaseResumes(q, s, events, [e]);
    AnswerIsHeeded(q, t, c, contacts, value);
    FirstTakes(q, t, left, [e]);
    var u := FirstStep(q, t, c, e.reply).search;
    FirstDry(q, u, left - 1, []);
    FirstPhaseEmpty(q, u);
  }

  // ---------- A value that answers lead to can be found ----------

  // A node on the way and what it lists.
  datatype Hop = Hop(id: Id, offers: seq<Contact>)

  ghost function StopAt(hops: seq<Hop>, holder: Id, i: nat): Id
    requires i <= |hops|
  {
    if i < |hops| then hops[i].id else holder
  }

  // From a contact that the lookup starts with, each node lists the next and somebody closer to the key than all before
  // it; the last holds the value.
  ghost predicate IsTrail(q: Query, initial: seq<Contact>, hops: seq<Hop>, holder: Id) {
    && |hops| <= 19
    && Names(initial, StopAt(hops, holder, 0))
    && (forall i, j | 0 <= i < j <= |hops| :: StopAt(hops, holder, i) != StopAt(hops, holder, j))
    && (forall i | 0 <= i <= |hops| :: StopAt(hops, holder, i) != q.self.nodeId)
    && (forall i | 0 <= i < |hops| :: Names(hops[i].offers, StopAt(hops, holder, i + 1)) && Approaches(q, hops, i))
  }

  ghost predicate Approaches(q: Query, hops: seq<Hop>, i: int)
    requires 0 <= i < |hops|
  {
    i > 0 ==> exists n: Contact :: n in hops[i].offers
                && forall j | 0 <= j < i :: Distance(q.key, n.nodeId) < Distance(q.key, hops[j].id)
  }

  // Replies as the nodes of the trail give them, and timeouts.
  ghost predicate FromTrail(hops: seq<Hop>, holder: Id, v: seq<byte>, events: seq<Event>) {
    forall i | 0 <= i < |events| :: events[i].Timeout? || IsTrailReply(hops, holder, v, events[i])
  }

  ghost predicate IsTrailReply(hops: seq<Hop>, holder: Id, v: seq<byte>, e: Event) {
    && e.Response?
    && ((e.contact.nodeId == holder && e.reply == Answer([], Some(v)))
        || exists j :: 0 <= j < |hops| && e.contact.nodeId == hops[j].id && e.reply == Answer(hops[j].offers, None))
  }

  ghost predicate ResumeLeads(q: Query, s: Search, count: int, events: seq<Event>, t: Search, left: int) {
    forall more: seq<Event> :: FirstResume(q, s, count, events + more) == FirstResume(q, t, left, more)
  }

  lemma ResumeJoin(q: Query, s: Search, count: int, events: seq<Event>, t: Search, left: int, more: seq<Event>,
                   u: Search, last: int)
    requires ResumeLeads(q, s, count, events, t, left) && ResumeLeads(q, t, left, more, u, last)
    ensures ResumeLeads(q, s, count, events + more, u, last)
  {
    hide FirstResume;
    forall rest: seq<Event>
      ensures FirstResume(q, s, count, (events + more) + rest) == FirstResume(q, u, last, rest)
    {
      assert (events + more) + rest == events + (more + rest);
    }
  }

  lemma ResumeNowhere(q: Query, s: Search, count: int)
    ensures ResumeLeads(q, s, count, [], s, count)
  {
    hide FirstResume;
    forall more: seq<Event>
      ensures [] + more == more
    {
    }
  }

  // A batch that times out leaves its queries in flight, and the next one is asked.
  lemma OneTimeout(q: Query, s: Search, count: int)
    requires |s.answered| < 20
    ensures ResumeLeads(q, s, count, [Timeout], Dispatched(q, s, 3), |Batch(q.key, s.pending, 3)|)
  {
    hide FirstBatchRun, FirstPhaseRun, Batch, Dispatched;
    forall more: seq<Event>
      ensures FirstResume(q, s, count, [Timeout] + more)
           == FirstResume(q, Dispatched(q, s, 3), |Batch(q.key, s.pending, 3)|, more)
    {
      assert ([Timeout] + more)[1..] == more;
      FirstTimeout(q, s, count, [Timeout] + more);
      FirstPhaseTurn(q, s, more);
    }
  }

  lemma DispatchedIds(q: Query, s: Search)
    ensures var t := Dispatched(q, s, 3);
            && t.seen == s.seen && t.answered == s.answered
            && IdsOf(t.pending) + IdsOf(t.inflight) == IdsOf(s.pending) + IdsOf(s.inflight)
            && (s.pending != multiset{} ==> |t.pending| < |s.pending|)
  {
    hide Batch, IdsOf;
    BatchWithin(q.key, s.pending, 3);
    BatchLength(q.key, s.pending, 3);
    var batch := multiset(Batch(q.key, s.pending, 3));
    SizeOfQueue(Batch(q.key, s.pending, 3));
    assert s.pending == (s.pending - batch) + batch;
    IdsOfSum(s.pending - batch, batch);
    IdsOfSum(s.inflight, batch);
  }

  // Timeouts alone get everyone asked.
  lemma {:induction false} AllAsked(q: Query, s: Search, count: int) returns (events: seq<Event>, t: Search, left: int)
    requires |s.answered| < 20
    ensures forall i | 0 <= i < |events| :: events[i].Timeout?
    ensures ResumeLeads(q, s, count, events, t, left)
    ensures t.pending == multiset{} && t.seen == s.seen && t.answered == s.answered
    ensures IdsOf(t.inflight) == IdsOf(s.pending) + IdsOf(s.inflight)
    decreases |s.pending|
  {
    hide Dispatched, Batch, ResumeLeads, IdsOf;
    if s.pending == multiset{} {
      events, t, left := [], s, count;
      ResumeNowhere(q, s, count);
      NoIds();
    } else {
      var d, n := Dispatched(q, s, 3), |Batch(q.key, s.pending, 3)|;
      OneTimeout(q, s, count);
      DispatchedIds(q, s);
      var later;
      later, t, left := AllAsked(q, d, n);
      events := [Timeout] + later;
      ResumeJoin(q, s, count, [Timeout], d, n, later, t, left);
    }
  }

  // Everyone known is pending, in flight or has answered.
  ghost predicate Accounted(s: Search) {
    s.seen <= IdsOf(s.pending) + IdsOf(s.inflight) + IdsOf(s.answered)
  }

  lemma HopAccounted(q: Query, s: Search, c: Contact, contacts: seq<Contact>, t: Search)
    requires Accounted(s) && Heeds(q, s, contacts, t)
    requires t.answered == s.answered + multiset{c} && t.inflight == s.inflight - multiset{c}
    ensures Accounted(t)
  {
    hide Names;
    IdsOfMore(s.answered, c);
    assert IdsOf(s.inflight) <= IdsOf(t.inflight) + {c.nodeId} by {
      forall d: Contact | d in s.inflight && d != c
        ensures d in t.inflight
      {
      }
    }
  }

  // One node of the trail answers.
  lemma TakeHop(q: Query, s: Search, count: int, c: Contact, contacts: seq<Contact>) returns (t: Search, left: int)
    requires c in s.inflight && Accounted(s) && |s.answered| < 19 && !NothingCloserIn(q, s.answered, contacts)
    ensures ResumeLeads(q, s, count, [Response(c, Answer(contacts, None))], t, left)
    ensures Accounted(t) && t.answered == s.answered + multiset{c}
    ensures forall id: Id | Names(contacts, id) && id != q.self.nodeId :: id in t.seen
  {
    hide FirstBatchRun, FirstPhaseRun, FirstStep, Batch, Dispatched, NothingCloserIn, IdsOf, Names;
    var e := Response(c, Answer(contacts, None));
    AnswerIsHeeded(q, s, c, contacts, None);
    var u := FirstStep(q, s, c, e.reply).search;
    HopAccounted(q, s, c, contacts, u);
    DispatchedIds(q, u);
    t := if count == 1 then Dispatched(q, u, 3) else u;
    left := if count == 1 then |Batch(q.key, u.pending, 3)| else count - 1;
    forall more: seq<Event>
      ensures FirstResume(q, s, count, [e] + more) == FirstResume(q, t, left, more)
    {
      assert ([e] + more)[1..] == more;
      FirstTakes(q, s, count, [e] + more);
      FirstPhaseTurn(q, u, more);
    }
  }

  // The first i nodes of the trail have answered, and nobody else has.
  ghost predicate Reached(hops: seq<Hop>, i: nat, s: Search) {
    && |s.answered| == i <= |hops|
    && forall a: Contact | a in s.answered :: exists j :: 0 <= j < i && a.nodeId == hops[j].id
  }

  lemma HopCloser(q: Query, initial: seq<Contact>, hops: seq<Hop>, holder: Id, i: nat, s: Search)
    requires IsTrail(q, initial, hops, holder) && i < |hops| && Reached(hops, i, s)
    ensures !NothingCloserIn(q, s.answered, hops[i].offers)
  {
    assert Approaches(q, hops, i);
    if i > 0 {
      var n: Contact :| n in hops[i].offers
        && forall j | 0 <= j < i :: Distance(q.key, n.nodeId) < Distance(q.key, hops[j].id);
      forall a: Contact | a in s.answered
        ensures Distance(q.key, n.nodeId) < Distance(q.key, a.nodeId)
      {
      }
    }
  }

  // The next node of the trail is in flight once all are asked.
  lemma NextInFlight(q: Query, initial: seq<Contact>, hops: seq<Hop>, holder: Id, i: nat, s: Search)
    returns (c: Contact)
    requires IsTrail(q, initial, hops, holder) && Reached(hops, i, s) && Accounted(s)
    requires s.pending == multiset{} && StopAt(hops, holder, i) in s.seen
    ensures c in s.inflight && c.nodeId == StopAt(hops, holder, i)
  {
    hide Names, Approaches;
    var id := StopAt(hops, holder, i);
    assert id !in IdsOf(s.answered) by {
      forall a: Contact | a in s.answered
        ensures a.nodeId != id
      {
        var j :| 0 <= j < i && a.nodeId == hops[j].id;
        assert a.nodeId == StopAt(hops, holder, j);
      }
    }
    NoIds();
    c :| c in s.inflight && c.nodeId == id;
  }

  lemma AskedAccounted(s: Search, t: Search)
    requires Accounted(s) && t.seen == s.seen && t.answered == s.answered
    requires IdsOf(t.inflight) == IdsOf(s.pending) + IdsOf(s.inflight)
    ensures Accounted(t)
  {
  }

  lemma OneMoreReached(hops: seq<Hop>, i: nat, s: Search, c: Contact, t: Search)
    requires Reached(hops, i, s) && i < |hops| && c.nodeId == hops[i].id && t.answered == s.answered + multiset{c}
    ensures Reached(hops, i + 1, t)
  {
    forall a: Contact | a in s.answered + multiset{c}
      ensures exists j :: 0 <= j < i + 1 && a.nodeId == hops[j].id
    {
      if a in s.answered {
        var j :| 0 <= j < i && a.nodeId == hops[j].id;
      } else {
        assert a == c;
      }
    }
  }

  lemma ReachedFew(q: Query, initial: seq<Contact>, hops: seq<Hop>, holder: Id, i: nat, s: Search)
    requires IsTrail(q, initial, hops, holder) && Reached(hops, i, s)
    ensures i <= |hops| && |s.answered| == i < 20 && (i < |hops| ==> i < 19)
  {
  }

  lemma StillReached(hops: seq<Hop>, i: nat, s: Search, t: Search)
    requires Reached(hops, i, s) && t.answered == s.answered
    ensures Reached(hops, i, t)
  {
  }

  lemma NextKnown(q: Query, initial: seq<Contact>, hops: seq<Hop>, holder: Id, i: nat, s: Search)
    requires IsTrail(q, initial, hops, holder) && i < |hops|
    requires forall id: Id | Names(hops[i].offers, id) && id != q.self.nodeId :: id in s.seen
    ensures StopAt(hops, holder, i + 1) in s.seen
  {
  }

  lemma TrailStep(hops: seq<Hop>, holder: Id, v: seq<byte>, asked: seq<Event>, e: Event, later: seq<Event>)
    requires (forall i | 0 <= i < |asked| :: asked[i].Timeout?) && IsTrailReply(hops, holder, v, e)
    requires FromTrail(hops, holder, v, later)
    ensures FromTrail(hops, holder, v, asked + ([e] + later))
  {
  }

  lemma {:induction false} Follow(q: Query, initial: seq<Contact>, hops: seq<Hop>, holder: Id, v: seq<byte>, i: nat,
                                  s: Search, count: int) returns (events: seq<Event>)
    requires q.findValue && IsTrail(q, initial, hops, holder) && Reached(hops, i, s) && Accounted(s)
    requires StopAt(hops, holder, i) in s.seen
    ensures FromTrail(hops, holder, v, events)
    ensures var r := FirstResume(q, s, count, events); r.exit.ValueFound? && r.exit.result.value == Some(v)
    decreases |hops| - i
  {
    hide FirstResume, ResumeLeads, IdsOf, Names, NothingCloserIn, FromTrail, IsTrailReply, IsNearest, IsTrail, Reached,
         Accounted;
    ReachedFew(q, initial, hops, holder, i, s);
    var asked, t, left := AllAsked(q, s, count);
    AskedAccounted(s, t);
    StillReached(hops, i, s, t);
    var c := NextInFlight(q, initial, hops, holder, i, t);
    if i == |hops| {
      var e := Response(c, Answer([], Some(v)));
      FirstOneEvent(q, t, left, e);
      HolderReply(hops, holder, v, e);
      NoTrail(hops, holder, v);
      TrailStep(hops, holder, v, asked, e, []);
      assert [e] + [] == [e];
      ResumeTo(q, s, count, asked, t, left, [e]);
      events := asked + [e];
    } else {
      var e := Response(c, Answer(hops[i].offers, None));
      HopCloser(q, initial, hops, holder, i, t);
      HopReply(hops, holder, v, i, e);
      var u, left' := TakeHop(q, t, left, c, hops[i].offers);
      OneMoreReached(hops, i, t, c, u);
      NextKnown(q, initial, hops, holder, i, u);
      var later := Follow(q, initial, hops, holder, v, i + 1, u, left');
      TrailStep(hops, holder, v, asked, e, later);
      ResumeTo(q, t, left, [e], u, left', later);
      ResumeTo(q, s, count, asked, t, left, [e] + later);
      events := asked + ([e] + later);
    }
  }

  lemma ResumeTo(q: Query, s: Search, count: int, events: seq<Event>, t: Search, left: int, more: seq<Event>)
    requires ResumeLeads(q, s, count, events, t, left)
    ensures FirstResume(q, s, count, events + more) == FirstResume(q, t, left, more)
  {
    hide FirstResume;
  }

  lemma HolderReply(hops: seq<Hop>, holder: Id, v: seq<byte>, e: Event)
    requires e.Response? && e.contact.nodeId == holder && e.reply == Answer([], Some(v))
    ensures IsTrailReply(hops, holder, v, e)
  {
  }

  lemma HopReply(hops: seq<Hop>, holder: Id, v: seq<byte>, j: nat, e: Event)
    requires j < |hops| && e.Response? && e.contact.nodeId == hops[j].id && e.reply == Answer(hops[j].offers, None)
    ensures IsTrailReply(hops, holder, v, e)
  {
  }

  lemma NoTrail(hops: seq<Hop>, holder: Id, v: seq<byte>)
    ensures FromTrail(hops, holder, v, [])
  {
  }

  // Every value at the end of a trail comes back on some schedule in which the nodes of the trail reply as they do and
  // nobody else does.
  lemma ValueCanBeFound(q: Query, initial: seq<Contact>, hops: seq<Hop>, holder: Id, v: seq<byte>)
    returns (events: seq<Event>)
    requires q.findValue && IsTrail(q, initial, hops, holder)
    ensures FromTrail(hops, holder, v, events)
    ensures var outcome := Run(q, initial, events);
            outcome.Returned? && outcome.result.success && outcome.result.value == Some(v)
  {
    hide FirstResume, FirstPhaseRun, Started, Batch, Dispatched, Names, Approaches, IdsOf, FromTrail, FirstBatchRun,
         IsValueReply, IsNearest;
    var s := Started(q, initial);
    TrailStart(q, initial, hops, holder);
    var d, count := Dispatched(q, s, 3), |Batch(q.key, s.pending, 3)|;
    DispatchedIds(q, s);
    assert Reached(hops, 0, d);
    events := Follow(q, initial, hops, holder, v, 0, d, count);
    FirstPhaseTurn(q, s, events);
    ResumeIs(q, d, count, events);
    ValueReturnedIff(q, initial, events, v);
    var k :| IsValueReply(q, initial, events, k, v);
    BroughtComesBack(q, initial, events, k, v);
  }

  lemma ResumeIs(q: Query, s: Search, count: int, events: seq<Event>)
    ensures var r := FirstBatchRun(q, s, count, events);
            FirstResume(q, s, count, events) == if r.exit == BatchOver then FirstPhaseRun(q, r.search, r.rest) else r
  {
    hide FirstBatchRun, FirstPhaseRun;
  }

  lemma TrailStart(q: Query, initial: seq<Contact>, hops: seq<Hop>, holder: Id)
    requires IsTrail(q, initial, hops, holder)
    ensures var s := Started(q, initial);
            && Accounted(s) && s.answered == multiset{} && |s.pending| > 0 && StopAt(hops, holder, 0) in s.seen
  {
    hide Started, Approaches;
    StartedFrom(q, initial);
    var s := Started(q, initial);
    var id := StopAt(hops, holder, 0);
    assert id in IdsOf(s.pending);
    var c :| c in s.pending && c.nodeId == id;
  }
}
