/** How many contacts a lookup returns. Twenty are meant, and the second phase never passes them; the first phase can,
    and this says exactly when. */
module LookupSize {
  import opened Ids
  import opened BucketLists
  import opened PriorityQueue
  import opened CandidateHeap
  import opened LookupRun
  import opened Options
  import opened Sequences

  ghost predicate Exceeds(outcome: Outcome) {
    outcome.Returned? && |outcome.result.activeList| > 20
  }

  ghost predicate Lists(outcome: Outcome, n: nat) {
    outcome.Returned? && outcome.result.success && |outcome.result.activeList| == n
  }

  // ---------- The first phase decides ----------

  lemma {:induction false} BatchLength(key: Id, m: multiset<Contact>, n: nat)
    ensures |Batch(key, m, n)| == if n < |m| then n else |m|
    decreases n
  {
    hide Batch, IsNearest;
    if n > 0 && m != multiset{} {
      var c, rest := BatchParts(key, m, n);
      BatchLength(key, rest, n - 1);
    } else {
      BatchEnds(key, m, n);
    }
  }

  lemma SecondAdds(q: Query, s: Search, c: Contact, reply: Reply)
    ensures |SecondStep(q, s, c, reply).search.answered| <= |s.answered| + 1
  {
  }

  // A batch of the second phase hears no more answers than it has queries, and one when it has none.
  lemma {:induction false} SecondBatchAdds(q: Query, s: Search, count: nat, events: seq<Event>)
    requires count == 0 ==> |s.pending| == 0
    ensures var r := SecondBatchRun(q, s, count, events);
            && |r.search.answered| <= |s.answered| + (if count == 0 then 1 else count)
            && (r.exit.ValueFound? ==> q.findValue && r.exit.result.activeList == [])
    decreases |events|
  {
    hide SecondBatchRun, SecondStep;
    if events == [] {
      SecondDry(q, s, count, events);
    } else {
      SecondTakes(q, s, count, events);
      if events[0].Timeout? || events[0].contact !in s.inflight {
        SecondBatchAdds(q, s, count, events[1..]);
      } else {
        var t := SecondStep(q, s, events[0].contact, events[0].reply);
        SecondAdds(q, s, events[0].contact, events[0].reply);
        if t.verdict == KeepGoing && count > 1 && |s.pending| > 0 {
          SecondBatchAdds(q, t.search, count - 1, events[1..]);
        }
      }
    }
  }

  // The second phase never passes 20 answers.
  lemma {:induction false} SecondPhaseWithin(q: Query, s: Search, events: seq<Event>)
    ensures var r := SecondPhaseRun(q, s, events);
            && |r.search.answered| <= (if |s.answered| <= 20 then 20 else |s.answered|)
            && (|s.answered| > 20 ==> r.search == s)
            && (r.exit.ValueFound? ==> q.findValue && r.exit.result.activeList == [])
    decreases |events|
  {
    hide SecondBatchRun, Batch;
    if |s.answered| < 20 {
      var n := 20 - |s.answered|;
      BatchLength(q.key, s.pending, n);
      NothingLeft(s.pending, Batch(q.key, s.pending, n));
      SecondBatchAdds(q, Dispatched(q, s, n), |Batch(q.key, s.pending, n)|, events);
      var r := SecondBatchRun(q, Dispatched(q, s, n), |Batch(q.key, s.pending, n)|, events);
      if r.exit == BatchOver {
        SecondPhaseWithin(q, r.search, r.rest);
      }
    }
  }

  lemma NothingLeft(pending: multiset<Contact>, batch: seq<Contact>)
    ensures |pending| == 0 ==> |pending - multiset(batch)| == 0
  {
    if |pending| == 0 {
      assert pending - multiset(batch) == pending;
    }
  }

  lemma {:induction false} FirstBatchValue(q: Query, s: Search, count: int, events: seq<Event>)
    ensures var r := FirstBatchRun(q, s, count, events);
            r.exit.ValueFound? ==> q.findValue && r.exit.result.activeList == []
    decreases |events|
  {
    hide FirstBatchRun, FirstStep;
    if events == [] {
      FirstDry(q, s, count, events);
    } else if events[0].Timeout? {
      FirstTimeout(q, s, count, events);
    } else {
      FirstTakes(q, s, count, events);
      FirstBatchValue(q, s, count, events[1..]);
      FirstBatchValue(q, FirstStep(q, s, events[0].contact, events[0].reply).search, count - 1, events[1..]);
    }
  }

  lemma {:induction false} FirstPhaseValue(q: Query, s: Search, events: seq<Event>)
    ensures var r := FirstPhaseRun(q, s, events);
            r.exit.ValueFound? ==> q.findValue && r.exit.result.activeList == []
    ensures FirstPhaseRun(q, s, events).exit != BatchOver
    decreases |events|
  {
    hide FirstBatchRun, Batch, Dispatched;
    if |s.answered| < 20 {
      FirstBatchValue(q, Dispatched(q, s, 3), |Batch(q.key, s.pending, 3)|, events);
      var r := FirstBatchRun(q, Dispatched(q, s, 3), |Batch(q.key, s.pending, 3)|, events);
      if r.exit == BatchOver {
        FirstPhaseValue(q, r.search, r.rest);
      }
    }
  }

  // A returned list is longer than 20 exactly when the first phase of a node lookup has heard more than 20 answers.
  lemma ExceedsIffFirstPhaseDoes(q: Query, initial: seq<Contact>, events: seq<Event>)
    ensures var r := FirstPhaseRun(q, Started(q, initial), events);
            Exceeds(Run(q, initial, events))
            <==> !q.findValue && |Started(q, initial).pending| > 0 && r.exit == PhaseOver && |r.search.answered| > 20
  {
    hide FirstPhaseRun, SecondPhaseRun, Started, Batch, ClosestAnswer;
    var s := Started(q, initial);
    var r := FirstPhaseRun(q, s, events);
    FirstPhaseValue(q, s, events);
    if r.exit == PhaseOver {
      SecondPhaseWithin(q, r.search, r.rest);
      var t := SecondPhaseRun(q, r.search, r.rest);
      BatchLength(q.key, t.search.answered, |t.search.answered|);
      SecondPhaseEnds(q, r.search, r.rest);
    }
  }

  lemma {:induction false} SecondPhaseEnds(q: Query, s: Search, events: seq<Event>)
    ensures |s.answered| > 20 ==> SecondPhaseRun(q, s, events).exit == PhaseOver
  {
  }

  // ---------- When it cannot be exceeded ----------

  // No answer lists a contact nearer to the key than m.
  ghost predicate Offering(q: Query, m: nat, events: seq<Event>) {
    forall i, c: Contact | 0 <= i < |events| && events[i].Response? && events[i].reply.Answer?
                           && c in events[i].reply.contacts :: m <= D(q.key, c)
  }

  // Either nobody has answered and all asked or to be asked are within m, or one within m has.
  ghost predicate Cornered(q: Query, m: nat, s: Search) {
    || (s.answered == multiset{} && forall c: Contact | c in s.pending || c in s.inflight :: D(q.key, c) <= m)
    || (|s.answered| == 1 && exists c: Contact :: c in s.answered && D(q.key, c) <= m)
  }

  lemma CorneredStep(q: Query, m: nat, s: Search, c: Contact, reply: Reply)
    requires Cornered(q, m, s) && c in s.inflight
    requires reply.Answer? ==> forall n: Contact | n in reply.contacts :: m <= D(q.key, n)
    ensures var t := FirstStep(q, s, c, reply);
            match t.verdict
            case Found(_) => true
            case NothingCloser => |t.search.answered| <= 2
            case KeepGoing => Cornered(q, m, t.search)
  {
    hide D, Discovered;
    if reply.Answer? && !q.GivesValue(reply) && s.answered != multiset{} {
      var k: Contact :| k in s.answered && D(q.key, k) <= m;
      forall n: Contact | n in reply.contacts
        ensures D(q.key, k) <= D(q.key, n)
      {
      }
      assert Stalls(q.key, s.answered, reply.contacts);
    } else if reply.Answer? && !q.GivesValue(reply) {
      CorneredFirst(q, m, s, c, reply.contacts);
    }
  }

  // The first answer.
  lemma CorneredFirst(q: Query, m: nat, s: Search, c: Contact, contacts: seq<Contact>)
    requires s.answered == multiset{} && D(q.key, c) <= m
    ensures !Stalls(q.key, s.answered, contacts)
    ensures Cornered(q, m, Discovered(q, Credited(s, c), contacts))
  {
    hide D;
    var t := Discovered(q, Credited(s, c), contacts);
    assert t.answered == multiset{c};
    assert c in t.answered;
  }

  lemma {:induction false} CorneredBatch(q: Query, m: nat, s: Search, count: int, events: seq<Event>)
    requires Cornered(q, m, s) && Offering(q, m, events)
    ensures var r := FirstBatchRun(q, s, count, events);
            && (r.exit == BatchOver ==> Cornered(q, m, r.search) && Offering(q, m, r.rest))
            && (r.exit == PhaseOver ==> |r.search.answered| <= 2)
    decreases |events|
  {
    hide D, FirstBatchRun, FirstStep, Cornered;
    if events == [] {
      FirstDry(q, s, count, events);
    } else {
      OfferingRest(q, m, events);
      if events[0].Timeout? {
        FirstTimeout(q, s, count, events);
      } else {
        FirstTakes(q, s, count, events);
        if events[0].contact !in s.inflight {
          CorneredBatch(q, m, s, count, events[1..]);
        } else {
          CorneredStep(q, m, s, events[0].contact, events[0].reply);
          var t := FirstStep(q, s, events[0].contact, events[0].reply);
          if t.verdict == KeepGoing {
            CorneredBatch(q, m, t.search, count - 1, events[1..]);
          }
        }
      }
    }
  }

  lemma OfferingRest(q: Query, m: nat, events: seq<Event>)
    requires events != [] && Offering(q, m, events)
    ensures Offering(q, m, events[1..])
    ensures events[0].Response? && events[0].reply.Answer? ==>
              forall c: Contact | c in events[0].reply.contacts :: m <= D(q.key, c)
  {
    hide D;
  }

  lemma {:induction false} BatchWithin(key: Id, m: multiset<Contact>, n: nat)
    ensures multiset(Batch(key, m, n)) <= m
    decreases n
  {
    hide Batch, IsNearest;
    if n > 0 && m != multiset{} {
      var c, rest := BatchParts(key, m, n);
      BatchWithin(key, rest, n - 1);
      assert multiset([c] + Batch(key, rest, n - 1)) == multiset{c} + multiset(Batch(key, rest, n - 1));
    } else {
      BatchEnds(key, m, n);
    }
  }

  lemma CorneredDispatch(q: Query, m: nat, s: Search)
    requires Cornered(q, m, s)
    ensures Cornered(q, m, Dispatched(q, s, 3))
  {
    hide D, Batch;
    BatchWithin(q.key, s.pending, 3);
    var batch := multiset(Batch(q.key, s.pending, 3));
    forall c: Contact | c in s.pending - batch || c in s.inflight + batch
      ensures c in s.pending || c in s.inflight
    {
    }
  }

  lemma {:induction false} CorneredPhase(q: Query, m: nat, s: Search, events: seq<Event>)
    requires Cornered(q, m, s) && Offering(q, m, events)
    ensures var r := FirstPhaseRun(q, s, events); r.exit == PhaseOver ==> |r.search.answered| <= 2
    decreases |events|
  {
    hide D, FirstBatchRun, Batch, Dispatched, Offering;
    var d, count := Dispatched(q, s, 3), |Batch(q.key, s.pending, 3)|;
    CorneredDispatch(q, m, s);
    CorneredBatch(q, m, d, count, events);
    var r := FirstBatchRun(q, d, count, events);
    assert |s.answered| <= 1;
    hide Cornered;
    if r.exit == BatchOver {
      CorneredPhase(q, m, r.search, r.rest);
    }
  }

  // Some contact to start with is farther from the key than m, and not the node itself.
  ghost predicate StartsFarther(q: Query, initial: seq<Contact>, m: nat) {
    exists c: Contact :: c in initial && c.nodeId != q.self.nodeId && D(q.key, c) > m
  }

  lemma StartedFrom(q: Query, initial: seq<Contact>)
    ensures var s := Started(q, initial);
            && s.pending == multiset(Fresh(q.self.nodeId, {}, initial)) && s.seen == IdsOf(s.pending)
            && s.inflight == s.answered == multiset{}
    ensures forall id :: id in IdsOf(Started(q, initial).pending)
                         <==> id != q.self.nodeId && exists c: Contact :: c in initial && c.nodeId == id
  {
    hide Fresh;
    FreshIds(q.self.nodeId, {}, initial);
    var m := multiset(Fresh(q.self.nodeId, {}, initial));
    assert multiset{} + m == m;
    assert SeenAfter(q.self.nodeId, {}, initial) - {} == SeenAfter(q.self.nodeId, {}, initial);
    forall c: Contact
      ensures c in multiset(initial) <==> c in initial
    {
    }
  }

  // With nobody farther than m to start with, and no answer listing anyone nearer, two answers are the most that the
  // first phase hears.
  lemma NeverExceeds(q: Query, initial: seq<Contact>, m: nat, events: seq<Event>)
    requires Offering(q, m, events) && (q.findValue || !StartsFarther(q, initial, m))
    ensures !Exceeds(Run(q, initial, events))
  {
    hide D, Started, Run, FirstPhaseRun, Offering, Exceeds;
    ExceedsIffFirstPhaseDoes(q, initial, events);
    if !q.findValue {
      StartedFrom(q, initial);
      var s := Started(q, initial);
      forall c: Contact | c in s.pending
        ensures D(q.key, c) <= m
      {
        assert c.nodeId in IdsOf(s.pending);
        var d: Contact :| d in initial && d.nodeId == c.nodeId;
        SameDistance(q.key, c, d);
      }
      CorneredPhase(q, m, s, events);
    }
  }

  lemma SameDistance(key: Id, c: Contact, d: Contact)
    requires c.nodeId == d.nodeId
    ensures D(key, c) == D(key, d)
  {
  }

  // ---------- Lists without repetitions and what they queue ----------

  ghost predicate DistinctFrom(cs: seq<Contact>, ids: set<Id>) {
    && (forall i, j | 0 <= i < j < |cs| :: cs[i].nodeId != cs[j].nodeId)
    && (forall i | 0 <= i < |cs| :: cs[i].nodeId !in ids)
  }

  lemma OtherIds(cs: seq<Contact>, id: Id)
    requires forall i | 0 <= i < |cs| :: cs[i].nodeId != id
    ensures id !in IdsOf(multiset(cs))
  {
    forall c: Contact | c in multiset(cs)
      ensures c.nodeId != id
    {
      assert c in cs;
    }
  }

  lemma {:induction false} DistinctIsUnique(cs: seq<Contact>, ids: set<Id>)
    requires DistinctFrom(cs, ids)
    ensures Unique(multiset(cs)) && IdsOf(multiset(cs)) !! ids
  {
    hide Unique, IdsOf;
    if cs != [] {
      var last := |cs| - 1;
      DistinctIsUnique(cs[..last], ids);
      OtherIds(cs[..last], cs[last].nodeId);
      UniqueAdd(multiset(cs[..last]), cs[last]);
      assert cs == cs[..last] + [cs[last]];
    } else {
      NothingUnique();
    }
  }

  lemma NothingUnique()
    ensures Unique(multiset([])) && IdsOf(multiset([])) == {}
  {
  }

  lemma UniqueUnion(m: multiset<Contact>, n: multiset<Contact>)
    requires Unique(m) && Unique(n) && IdsOf(m) !! IdsOf(n)
    ensures Unique(m + n) && IdsOf(m + n) == IdsOf(m) + IdsOf(n)
  {
    forall c: Contact | c in m + n
      ensures (m + n)[c] == 1
    {
      assert c in m ==> c.nodeId in IdsOf(m);
      assert c in n ==> c.nodeId in IdsOf(n);
    }
    forall c: Contact, d: Contact | c in m + n && d in m + n && c.nodeId == d.nodeId
      ensures c == d
    {
      assert c in m ==> c.nodeId in IdsOf(m);
      assert c in n ==> c.nodeId in IdsOf(n);
      assert d in m ==> d.nodeId in IdsOf(m);
      assert d in n ==> d.nodeId in IdsOf(n);
    }
  }

  lemma UniquePart(m: multiset<Contact>, n: multiset<Contact>)
    requires Unique(m + n)
    ensures Unique(m) && IdsOf(m) <= IdsOf(m + n)
  {
    forall c: Contact | c in m
      ensures m[c] == 1 && c in m + n
    {
      assert (m + n)[c] == m[c] + n[c];
    }
  }

  // What is queued of one known contact and new ones.
  ghost function Novel(self: Id, seen: set<Id>, near: Contact): seq<Contact> {
    if near.nodeId == self || near.nodeId in seen then [] else [near]
  }

  lemma {:induction false} FreshNear(self: Id, seen: set<Id>, near: Contact, more: seq<Contact>)
    requires DistinctFrom(more, seen + {self, near.nodeId})
    ensures Fresh(self, seen, [near] + more) == Novel(self, seen, near) + more
    ensures SeenAfter(self, seen, [near] + more) == seen + ({near.nodeId} - {self}) + IdsOf(multiset(more))
  {
    hide IdsOf, Fresh, IsFresh, SeenAfter;
    var offered := [near] + more;
    if more == [] {
      NothingOffered(self, seen);
      NothingUnique();
      OneMoreOffered(self, seen, offered, 0);
      assert offered[..0] == [] && offered[..1] == offered;
    } else {
      var last := |more| - 1;
      FreshNear(self, seen, near, more[..last]);
      LastIsNew(seen + {self, near.nodeId}, more);
      hide DistinctFrom, Novel;
      assert offered[..last + 1] == [near] + more[..last] && offered[..|offered|] == offered;
      OneMoreOffered(self, seen, offered, last + 1);
      assert more == more[..last] + [more[last]];
    }
  }

  lemma LastIsNew(ids: set<Id>, cs: seq<Contact>)
    requires cs != [] && DistinctFrom(cs, ids)
    ensures var last := |cs| - 1;
            && cs[last].nodeId !in ids && cs[last].nodeId !in IdsOf(multiset(cs[..last]))
            && IdsOf(multiset(cs)) == IdsOf(multiset(cs[..last])) + {cs[last].nodeId}
  {
    hide IdsOf;
    var last := |cs| - 1;
    OtherIds(cs[..last], cs[last].nodeId);
    assert cs == cs[..last] + [cs[last]];
    assert multiset(cs) == multiset(cs[..last]) + multiset{cs[last]};
    IdsOfMore(multiset(cs[..last]), cs[last]);
  }

  // ---------- Answers that keep the first phase going ----------

  // All are farther from the key than one contact, which those who answer will list.
  ghost predicate AllFarther(q: Query, near: Contact, m: multiset<Contact>) {
    forall c: Contact | c in m :: D(q.key, near) < D(q.key, c)
  }

  // Listing it queues nothing.
  ghost predicate Settled(q: Query, near: Contact, s: Search) {
    near.nodeId == q.self.nodeId || near.nodeId in s.seen
  }

  // More candidates, none of them seen before.
  ghost function WithMore(s: Search, more: seq<Contact>): Search {
    s.(pending := s.pending + multiset(more), seen := s.seen + IdsOf(multiset(more)))
  }

  lemma OfferMore(q: Query, s: Search, near: Contact, more: seq<Contact>)
    requires Settled(q, near, s) && DistinctFrom(more, s.seen + {q.self.nodeId, near.nodeId})
    ensures Discovered(q, s, [near] + more) == WithMore(s, more)
    ensures more == [] ==> WithMore(s, more) == s
  {
    hide IdsOf, Fresh, SeenAfter, DistinctFrom;
    FreshNear(q.self.nodeId, s.seen, near, more);
    NothingUnique();
    assert Novel(q.self.nodeId, s.seen, near) + more == more;
    assert s.pending + multiset([]) == s.pending;
  }

  lemma AnswerStep(q: Query, s: Search, near: Contact, c: Contact, more: seq<Contact>)
    requires !q.findValue && AllFarther(q, near, s.answered)
    ensures FirstStep(q, s, c, Answer([near] + more, None))
         == Step(KeepGoing, Discovered(q, Credited(s, c), [near] + more))
  {
    hide D, Discovered;
    assert near in [near] + more;
    forall t: Contact | t in s.answered
      ensures !(D(q.key, t) <= D(q.key, near))
    {
    }
  }

  ghost function Answers(near: Contact, cs: seq<Contact>): (events: seq<Event>)
    ensures |events| == |cs|
  {
    seq(|cs|, i requires 0 <= i < |cs| => Response(cs[i], Answer([near], None)))
  }

  // All of a batch, or what is left of it, answers in turn.
  ghost function AllCredited(s: Search, cs: seq<Contact>): Search {
    s.(inflight := s.inflight - multiset(cs), answered := s.answered + multiset(cs))
  }

  lemma Uncons<T>(m: multiset<T>, n: multiset<T>, cs: seq<T>)
    requires cs != []
    ensures m - multiset(cs) == (m - multiset{cs[0]}) - multiset(cs[1..])
    ensures n + multiset(cs) == (n + multiset{cs[0]}) + multiset(cs[1..])
    ensures multiset(cs) <= m ==> cs[0] in m && multiset(cs[1..]) <= m - multiset{cs[0]}
  {
    assert cs == [cs[0]] + cs[1..];
    assert multiset(cs) == multiset{cs[0]} + multiset(cs[1..]);
    assert cs[0] in multiset(cs);
  }

  lemma CreditedFirst(s: Search, cs: seq<Contact>)
    requires cs != []
    ensures AllCredited(s, cs) == AllCredited(Credited(s, cs[0]), cs[1..])
    ensures multiset(cs) <= s.inflight ==>
              cs[0] in s.inflight && multiset(cs[1..]) <= Credited(s, cs[0]).inflight
  {
    Uncons(s.inflight, s.answered, cs);
  }

  lemma AnswersFirst(near: Contact, cs: seq<Contact>, rest: seq<Event>)
    requires cs != []
    ensures var events := Answers(near, cs) + rest;
            events[0] == Response(cs[0], Answer([near] + [], None)) && events[1..] == Answers(near, cs[1..]) + rest
  {
    assert [near] + [] == [near];
  }

  lemma FartherTail(q: Query, near: Contact, answered: multiset<Contact>, cs: seq<Contact>)
    requires cs != [] && AllFarther(q, near, answered) && AllFarther(q, near, multiset(cs))
    ensures AllFarther(q, near, answered + multiset{cs[0]}) && AllFarther(q, near, multiset(cs[1..]))
  {
    hide D;
    assert cs[0] in multiset(cs);
    forall c: Contact | c in multiset(cs[1..])
      ensures c in multiset(cs)
    {
      assert c in cs[1..];
    }
  }

  lemma NoneLeft(s: Search, near: Contact, none: seq<Contact>, rest: seq<Event>)
    requires none == []
    ensures AllCredited(s, none) == s && Answers(near, none) + rest == rest
  {
    assert s.inflight - multiset([]) == s.inflight && s.answered + multiset([]) == s.answered;
  }

  // Contacts in flight answer in turn: the batch is over when `count` of them have, and otherwise goes on.
  lemma {:induction false} AnswersRun(q: Query, s: Search, near: Contact, cs: seq<Contact>, count: int,
                                      rest: seq<Event>)
    requires !q.findValue && multiset(cs) <= s.inflight && Settled(q, near, s) && (count >= 1 ==> |cs| <= count)
    requires AllFarther(q, near, s.answered) && AllFarther(q, near, multiset(cs))
    ensures FirstBatchRun(q, s, count, Answers(near, cs) + rest)
         == if cs != [] && |cs| == count then Progress(BatchOver, AllCredited(s, cs), rest)
            else FirstBatchRun(q, AllCredited(s, cs), count - |cs|, rest)
    decreases |cs|
  {
    hide D, FirstStep, Answers, Discovered, FirstBatchRun, AllCredited, AllFarther, WithMore, Settled;
    if cs == [] {
      NoneLeft(s, near, cs, rest);
    } else {
      CreditedFirst(s, cs);
      AnswersFirst(near, cs, rest);
      AnswerStep(q, s, near, cs[0], []);
      var t := Credited(s, cs[0]);
      assert Settled(q, near, t) by { StillSettled(q, near, s, cs[0]); }
      OfferMore(q, t, near, []);
      FirstTakes(q, s, count, Answers(near, cs) + rest);
      FartherTail(q, near, s.answered, cs);
      if |cs| == 1 {
        NoneLeft(t, near, cs[1..], rest);
      } else {
        AnswersRun(q, t, near, cs[1..], count - 1, rest);
      }
    }
  }

  lemma StillSettled(q: Query, near: Contact, s: Search, c: Contact)
    requires Settled(q, near, s)
    ensures Settled(q, near, Credited(s, c))
  {
  }

  // ---------- Rounds of three answers ----------

  ghost function All(s: Search): multiset<Contact> {
    s.pending + (s.inflight + s.answered)
  }

  // Everyone in play is known, once, and farther from the key than the contact that answers list.
  ghost predicate Known(q: Query, near: Contact, s: Search) {
    Unique(All(s)) && IdsOf(All(s)) <= s.seen && AllFarther(q, near, All(s))
  }

  ghost predicate Underway(q: Query, near: Contact, s: Search) {
    Known(q, near, s) && Settled(q, near, s)
  }

  lemma PartsFarther(q: Query, near: Contact, s: Search)
    requires AllFarther(q, near, All(s))
    ensures AllFarther(q, near, s.pending) && AllFarther(q, near, s.inflight) && AllFarther(q, near, s.answered)
  {
    hide D;
    forall c: Contact | c in s.pending || c in s.inflight || c in s.answered
      ensures c in All(s)
    {
    }
  }

  // A batch of three moves from pending to answered.
  lemma BatchMoves<T>(pending: multiset<T>, inflight: multiset<T>, answered: multiset<T>, batch: multiset<T>)
    requires batch <= pending
    ensures (pending - batch) + (inflight + (answered + batch)) == pending + (inflight + answered)
    ensures |pending - batch| == |pending| - |batch| && |answered + batch| == |answered| + |batch|
    ensures (inflight + batch) - batch == inflight && batch <= inflight + batch
  {
    assert pending == (pending - batch) + batch;
  }

  ghost function AfterRound(q: Query, s: Search): Search {
    AllCredited(Dispatched(q, s, 3), Batch(q.key, s.pending, 3))
  }

  lemma FartherBatch(q: Query, near: Contact, m: multiset<Contact>, n: nat)
    requires AllFarther(q, near, m)
    ensures AllFarther(q, near, multiset(Batch(q.key, m, n)))
  {
    hide D, Batch;
    BatchWithin(q.key, m, n);
    forall c: Contact | c in multiset(Batch(q.key, m, n))
      ensures c in m
    {
    }
  }

  lemma RoundFacts(q: Query, near: Contact, s: Search)
    requires Underway(q, near, s) && |s.pending| >= 3
    ensures var cs, t := Batch(q.key, s.pending, 3), AfterRound(q, s);
            && |cs| == 3 && multiset(cs) <= Dispatched(q, s, 3).inflight && AllFarther(q, near, multiset(cs))
            && Underway(q, near, t) && t.seen == s.seen && t.inflight == s.inflight
            && |t.pending| == |s.pending| - 3 && |t.answered| == |s.answered| + 3
  {
    hide D, Unique, AllFarther, Batch, IdsOf;
    PartsFarther(q, near, s);
    BatchLength(q.key, s.pending, 3);
    BatchWithin(q.key, s.pending, 3);
    FartherBatch(q, near, s.pending, 3);
    var cs := Batch(q.key, s.pending, 3);
    SizeOfQueue(cs);
    BatchMoves(s.pending, s.inflight, s.answered, multiset(cs));
  }

  lemma Round(q: Query, near: Contact, s: Search, rest: seq<Event>)
    requires !q.findValue && Underway(q, near, s) && |s.pending| >= 3 && |s.answered| < 20
    ensures FirstPhaseRun(q, s, Answers(near, Batch(q.key, s.pending, 3)) + rest)
         == FirstPhaseRun(q, AfterRound(q, s), rest)
  {
    hide D, Unique, AllFarther, Batch, FirstBatchRun, Answers, AllCredited, IdsOf;
    RoundFacts(q, near, s);
    PartsFarther(q, near, s);
    AnswersRun(q, Dispatched(q, s, 3), near, Batch(q.key, s.pending, 3), 3, rest);
  }

  // No timeouts, and no answer with more than 20 contacts or with one nearer to the key than m.
  ghost predicate Mild(q: Query, m: nat, events: seq<Event>) {
    forall i | 0 <= i < |events| ::
      events[i].Response? && (events[i].reply.Answer? ==> ShortOffer(q, m, events[i].reply.contacts))
  }

  ghost predicate ShortOffer(q: Query, m: nat, contacts: seq<Contact>) {
    |contacts| <= 20 && forall c: Contact | c in contacts :: m <= D(q.key, c)
  }

  lemma MildIsOffering(q: Query, m: nat, events: seq<Event>)
    requires Mild(q, m, events)
    ensures Offering(q, m, events)
  {
    hide D;
    forall i, c: Contact | 0 <= i < |events| && events[i].Response? && events[i].reply.Answer?
                           && c in events[i].reply.contacts
      ensures m <= D(q.key, c)
    {
      assert ShortOffer(q, m, events[i].reply.contacts);
    }
  }

  lemma MildJoin(q: Query, m: nat, events: seq<Event>, rest: seq<Event>)
    requires Mild(q, m, events) && Mild(q, m, rest)
    ensures Mild(q, m, events + rest)
  {
    hide ShortOffer;
  }

  lemma MildAnswers(q: Query, near: Contact, cs: seq<Contact>)
    ensures Mild(q, D(q.key, near), Answers(near, cs))
  {
    hide D;
  }

  // From one state of the first phase to another, whatever comes after.
  ghost predicate Leads(q: Query, s: Search, events: seq<Event>, t: Search) {
    forall rest: seq<Event> :: FirstPhaseRun(q, s, events + rest) == FirstPhaseRun(q, t, rest)
  }

  lemma LeadsJoin(q: Query, s: Search, events: seq<Event>, t: Search, more: seq<Event>, u: Search)
    requires Leads(q, s, events, t) && Leads(q, t, more, u)
    ensures Leads(q, s, events + more, u)
  {
    hide FirstPhaseRun;
    forall rest: seq<Event>
      ensures FirstPhaseRun(q, s, (events + more) + rest) == FirstPhaseRun(q, u, rest)
    {
      assert (events + more) + rest == events + (more + rest);
    }
  }

  lemma LeadsNowhere(q: Query, s: Search)
    ensures Leads(q, s, [], s)
  {
    hide FirstPhaseRun;
    forall rest: seq<Event>
      ensures [] + rest == rest
    {
    }
  }

  lemma LeadsTo(q: Query, s: Search, events: seq<Event>, t: Search)
    requires Leads(q, s, events, t)
    ensures FirstPhaseRun(q, s, events) == FirstPhaseRun(q, t, [])
  {
    hide FirstPhaseRun;
    assert events + [] == events;
  }

  // As many rounds as there are answers to reach.
  lemma {:induction false} Rounds(q: Query, near: Contact, s: Search, n: nat) returns (events: seq<Event>, t: Search)
    requires !q.findValue && Underway(q, near, s) && |s.pending| >= 3 * n && (n > 0 ==> |s.answered| + 3 * (n - 1) < 20)
    ensures Mild(q, D(q.key, near), events)
    ensures Underway(q, near, t) && |t.pending| == |s.pending| - 3 * n && |t.answered| == |s.answered| + 3 * n
    ensures t.inflight == s.inflight && Leads(q, s, events, t)
    decreases n
  {
    hide D, Answers, Batch, Underway, AfterRound, Mild, Leads;
    if n == 0 {
      events, t := [], s;
      LeadsNowhere(q, s);
      NothingMild(q, D(q.key, near));
    } else {
      var u, cs := AfterRound(q, s), Batch(q.key, s.pending, 3);
      RoundFacts(q, near, s);
      RoundLeads(q, near, s);
      var later;
      later, t := Rounds(q, near, u, n - 1);
      events := Answers(near, cs) + later;
      LeadsJoin(q, s, Answers(near, cs), u, later, t);
      MildAnswers(q, near, cs);
      MildJoin(q, D(q.key, near), Answers(near, cs), later);
    }
  }

  lemma RoundLeads(q: Query, near: Contact, s: Search)
    requires !q.findValue && Underway(q, near, s) && |s.pending| >= 3 && |s.answered| < 20
    ensures Leads(q, s, Answers(near, Batch(q.key, s.pending, 3)), AfterRound(q, s))
  {
    hide D, Answers, Batch, Underway, AfterRound, FirstPhaseRun;
    forall rest: seq<Event>
      ensures FirstPhaseRun(q, s, Answers(near, Batch(q.key, s.pending, 3)) + rest)
           == FirstPhaseRun(q, AfterRound(q, s), rest)
    {
      Round(q, near, s, rest);
    }
  }

  lemma NothingMild(q: Query, m: nat)
    ensures Mild(q, m, [])
  {
  }

  // ---------- A round in which more candidates turn up ----------

  ghost function MoreAnswers(near: Contact, cs: seq<Contact>, more: seq<Contact>): seq<Event>
    requires cs != []
  {
    [Response(cs[0], Answer([near] + more, None))] + Answers(near, cs[1..])
  }

  lemma MoreBatch(q: Query, d: Search, near: Contact, cs: seq<Contact>, more: seq<Contact>, rest: seq<Event>)
    requires !q.findValue && |cs| == 3 && multiset(cs) <= d.inflight && Settled(q, near, d)
    requires AllFarther(q, near, d.answered) && AllFarther(q, near, multiset(cs))
    requires DistinctFrom(more, d.seen + {q.self.nodeId, near.nodeId})
    ensures FirstBatchRun(q, d, 3, MoreAnswers(near, cs, more) + rest)
         == Progress(BatchOver, WithMore(AllCredited(d, cs), more), rest)
  {
    hide D, FirstStep, Answers, Discovered, AllFarther, IdsOf, DistinctFrom, FirstBatchRun, AllCredited, WithMore,
         Settled;
    var events := MoreAnswers(near, cs, more) + rest;
    assert events[1..] == Answers(near, cs[1..]) + rest;
    var c := Credited(d, cs[0]);
    AnswerStep(q, d, near, cs[0], more);
    StillSettled(q, near, d, cs[0]);
    OfferMore(q, c, near, more);
    CreditedFirst(d, cs);
    FartherTail(q, near, d.answered, cs);
    FirstTakes(q, d, 3, events);
    MoreThenCredited(q, near, c, cs[1..], more);
    AnswersRun(q, WithMore(c, more), near, cs[1..], 2, rest);
  }

  lemma MoreThenCredited(q: Query, near: Contact, s: Search, cs: seq<Contact>, more: seq<Contact>)
    requires Settled(q, near, s)
    ensures AllCredited(WithMore(s, more), cs) == WithMore(AllCredited(s, cs), more)
    ensures Settled(q, near, WithMore(s, more))
    ensures WithMore(s, more).inflight == s.inflight && WithMore(s, more).answered == s.answered
  {
  }

  lemma MoreRound(q: Query, near: Contact, s: Search, more: seq<Contact>, rest: seq<Event>)
    requires !q.findValue && Underway(q, near, s) && |s.pending| >= 3 && |s.answered| < 20
    requires DistinctFrom(more, s.seen + {q.self.nodeId, near.nodeId})
    ensures var cs := Batch(q.key, s.pending, 3);
            && |cs| == 3
            && FirstPhaseRun(q, s, MoreAnswers(near, cs, more) + rest)
               == FirstPhaseRun(q, WithMore(AfterRound(q, s), more), rest)
  {
    hide D, Unique, AllFarther, Batch, FirstBatchRun, MoreAnswers, AllCredited, IdsOf, DistinctFrom;
    RoundFacts(q, near, s);
    PartsFarther(q, near, s);
    MoreBatch(q, Dispatched(q, s, 3), near, Batch(q.key, s.pending, 3), more, rest);
  }

  lemma MoreUnderway(q: Query, near: Contact, s: Search, more: seq<Contact>)
    requires Underway(q, near, s) && DistinctFrom(more, s.seen) && AllFarther(q, near, multiset(more))
    ensures Underway(q, near, WithMore(s, more)) && |WithMore(s, more).pending| == |s.pending| + |more|
  {
    hide D, Unique, IdsOf, DistinctFrom;
    DistinctIsUnique(more, s.seen);
    UniqueUnion(All(s), multiset(more));
    assert All(WithMore(s, more)) == All(s) + multiset(more);
    SizeOfQueue(more);
  }

  lemma MildMore(q: Query, near: Contact, cs: seq<Contact>, more: seq<Contact>)
    requires cs != [] && |more| <= 19 && AllFarther(q, near, multiset(more))
    ensures Mild(q, D(q.key, near), MoreAnswers(near, cs, more))
  {
    hide D;
    forall c: Contact | c in [near] + more
      ensures D(q.key, near) <= D(q.key, c)
    {
      assert c == near || c in multiset(more);
    }
    assert ShortOffer(q, D(q.key, near), [near] + more);
    MildAnswers(q, near, cs[1..]);
  }

  // ---------- Queries that fail ----------

  ghost function Failures(cs: seq<Contact>): (events: seq<Event>)
    ensures |events| == |cs|
  {
    seq(|cs|, i requires 0 <= i < |cs| => Response(cs[i], Failure))
  }

  ghost function AllHeard(s: Search, cs: seq<Contact>): Search {
    s.(inflight := s.inflight - multiset(cs))
  }

  lemma FailuresFirst(s: Search, cs: seq<Contact>, rest: seq<Event>)
    requires cs != [] && multiset(cs) <= s.inflight
    ensures var events := Failures(cs) + rest;
            events[0] == Response(cs[0], Failure) && events[1..] == Failures(cs[1..]) + rest
    ensures AllHeard(s, cs) == AllHeard(Heard(s, cs[0]), cs[1..])
    ensures cs[0] in s.inflight && multiset(cs[1..]) <= Heard(s, cs[0]).inflight
  {
    Uncons(s.inflight, s.answered, cs);
  }

  lemma NoFailures(s: Search, none: seq<Contact>, rest: seq<Event>)
    requires none == []
    ensures AllHeard(s, none) == s && Failures(none) + rest == rest
  {
    assert s.inflight - multiset([]) == s.inflight;
  }

  lemma FailureStep(q: Query, s: Search, c: Contact)
    ensures FirstStep(q, s, c, Failure) == Step(KeepGoing, Heard(s, c))
  {
  }

  lemma {:induction false} FailuresRun(q: Query, s: Search, cs: seq<Contact>, count: nat, rest: seq<Event>)
    requires multiset(cs) <= s.inflight && |cs| <= count
    ensures FirstBatchRun(q, s, count, Failures(cs) + rest)
         == if cs != [] && |cs| == count then Progress(BatchOver, AllHeard(s, cs), rest)
            else FirstBatchRun(q, AllHeard(s, cs), count - |cs|, rest)
    decreases |cs|
  {
    hide Failures, FirstBatchRun, AllHeard, FirstStep, Heard;
    if cs == [] {
      NoFailures(s, cs, rest);
    } else {
      FailuresFirst(s, cs, rest);
      FailureStep(q, s, cs[0]);
      FirstTakes(q, s, count, Failures(cs) + rest);
      if |cs| == 1 {
        NoFailures(Heard(s, cs[0]), cs[1..], rest);
      } else {
        FailuresRun(q, Heard(s, cs[0]), cs[1..], count - 1, rest);
      }
    }
  }

  lemma MildFailures(q: Query, m: nat, cs: seq<Contact>)
    ensures Mild(q, m, Failures(cs))
  {
  }

  ghost function WithoutBatch(q: Query, s: Search): Search {
    s.(pending := s.pending - multiset(Batch(q.key, s.pending, 3)))
  }

  // A whole batch fails.
  lemma FailedBatch(q: Query, s: Search, rest: seq<Event>)
    requires s.inflight == multiset{} && |s.pending| >= 3 && |s.answered| < 20
    ensures var cs := Batch(q.key, s.pending, 3);
            && |cs| == 3 && multiset(cs) <= s.pending
            && FirstPhaseRun(q, s, Failures(cs) + rest) == FirstPhaseRun(q, WithoutBatch(q, s), rest)
  {
    hide Batch, FirstBatchRun, Failures;
    BatchLength(q.key, s.pending, 3);
    BatchWithin(q.key, s.pending, 3);
    var cs := Batch(q.key, s.pending, 3);
    var d := Dispatched(q, s, 3);
    assert d.inflight == multiset(cs);
    FailuresRun(q, d, cs, 3, rest);
    assert d.inflight - multiset(cs) == multiset{};
  }

  // All of a first batch fail but the last, which answers.
  ghost function FirstEvents(near: Contact, cs: seq<Contact>, more: seq<Contact>): seq<Event>
    requires cs != []
  {
    Failures(cs[..|cs| - 1]) + [Response(cs[|cs| - 1], Answer([near] + more, None))]
  }

  // The search after that, with the answer taken but not yet what it lists.
  ghost function OneAnswer(q: Query, s: Search): Search
    requires s.pending != multiset{}
  {
    var cs := Batch(q.key, s.pending, 3);
    Search(s.pending - multiset(cs), s.seen, multiset{}, multiset{cs[|cs| - 1]})
  }

  // The very first answer stalls nothing.
  lemma OnlyAnswer(q: Query, e: Search, y: Contact, contacts: seq<Contact>, rest: seq<Event>)
    requires !q.findValue && e.inflight == multiset{y} && e.answered == multiset{}
    ensures FirstBatchRun(q, e, 1, [Response(y, Answer(contacts, None))] + rest)
         == Progress(BatchOver, Discovered(q, Search(e.pending, e.seen, multiset{}, multiset{y}), contacts), rest)
  {
    hide D, Discovered, FirstBatchRun;
    var events := [Response(y, Answer(contacts, None))] + rest;
    FirstTakes(q, e, 1, events);
    assert events[1..] == rest;
    assert !Stalls(q.key, e.answered, contacts);
    assert Credited(e, y) == Search(e.pending, e.seen, multiset{}, multiset{y}) by {
      assert multiset{y} - multiset{y} == multiset{} && multiset{} + multiset{y} == multiset{y};
    }
  }

  lemma LastOfBatch(cs: seq<Contact>)
    requires cs != []
    ensures var front, y := cs[..|cs| - 1], cs[|cs| - 1];
            && multiset(front) <= multiset(cs) && multiset(cs) - multiset(front) == multiset{y}
            && multiset{} + multiset(cs) == multiset(cs)
  {
    var front, y := cs[..|cs| - 1], cs[|cs| - 1];
    assert cs == front + [y];
    assert multiset(cs) == multiset(front) + multiset{y};
  }

  lemma LastAnswers(q: Query, d: Search, near: Contact, cs: seq<Contact>, more: seq<Contact>, rest: seq<Event>)
    requires !q.findValue && cs != [] && d.inflight == multiset(cs) && d.answered == multiset{}
    ensures var e := Search(d.pending, d.seen, multiset{}, multiset{cs[|cs| - 1]});
            FirstBatchRun(q, d, |cs|, FirstEvents(near, cs, more) + rest)
            == Progress(BatchOver, Discovered(q, e, [near] + more), rest)
  {
    hide FirstBatchRun, Failures, Discovered;
    var front, y := cs[..|cs| - 1], cs[|cs| - 1];
    var answer := [Response(y, Answer([near] + more, None))];
    LastOfBatch(cs);
    FailuresRun(q, d, front, |cs|, answer + rest);
    assert FirstEvents(near, cs, more) + rest == Failures(front) + (answer + rest);
    OnlyAnswer(q, AllHeard(d, front), y, [near] + more, rest);
  }

  lemma FirstAnswers(q: Query, s: Search, near: Contact, more: seq<Contact>, rest: seq<Event>)
    requires !q.findValue && s.pending != multiset{} && s.inflight == s.answered == multiset{}
    ensures var cs := Batch(q.key, s.pending, 3);
            && cs != [] && multiset(cs) <= s.pending
            && FirstPhaseRun(q, s, FirstEvents(near, cs, more) + rest)
               == FirstPhaseRun(q, Discovered(q, OneAnswer(q, s), [near] + more), rest)
  {
    hide Batch, FirstBatchRun, FirstEvents, Discovered;
    BatchLength(q.key, s.pending, 3);
    BatchWithin(q.key, s.pending, 3);
    var cs := Batch(q.key, s.pending, 3);
    assert multiset{} + multiset(cs) == multiset(cs);
    LastAnswers(q, Dispatched(q, s, 3), near, cs, more, rest);
  }

  // ---------- From the first answer to 22 ----------

  // Of three nearest candidates the last is at distance 2 at least; of fewer, it is the farthest.
  lemma LastIsFarther(q: Query, near: Contact, m: multiset<Contact>, c: Contact)
    requires Unique(m) && D(q.key, near) <= 1 && c in m && D(q.key, near) < D(q.key, c)
    ensures var cs := Batch(q.key, m, 3);
            && cs != [] && multiset(cs) <= m && cs[|cs| - 1] in m
            && AllFarther(q, near, multiset{cs[|cs| - 1]}) && AllFarther(q, near, m - multiset(cs))
  {
    hide D, Batch, Unique;
    BatchFacts(q.key, m, 3);
    var cs := Batch(q.key, m, 3);
    if |cs| < 3 {
      SameSize(multiset(cs), m);
      SizeOfQueue(cs);
      assert c in cs;
      var i :| 0 <= i < |cs| && cs[i] == c;
      assert D(q.key, cs[i]) <= D(q.key, cs[|cs| - 1]);
    } else {
      assert D(q.key, cs[0]) < D(q.key, cs[1]) < D(q.key, cs[2]);
    }
    assert cs[|cs| - 1] in multiset(cs);
  }

  lemma SameSize<T>(small: multiset<T>, large: multiset<T>)
    requires small <= large && |small| == |large|
    ensures small == large
  {
    assert large == small + (large - small);
  }

  lemma KnownAfterFirst(q: Query, near: Contact, s: Search, c: Contact)
    requires Unique(s.pending) && IdsOf(s.pending) <= s.seen && s.inflight == s.answered == multiset{}
    requires D(q.key, near) <= 1 && c in s.pending && D(q.key, near) < D(q.key, c)
    ensures var t := OneAnswer(q, s);
            && Known(q, near, t) && t.inflight == multiset{} && |t.answered| == 1
            && |t.pending| == |s.pending| - if |s.pending| < 3 then |s.pending| else 3
  {
    hide D, Batch, Unique, IdsOf, AllFarther;
    LastIsFarther(q, near, s.pending, c);
    var cs := Batch(q.key, s.pending, 3);
    BatchLength(q.key, s.pending, 3);
    SizeOfQueue(cs);
    var front, y := cs[..|cs| - 1], cs[|cs| - 1];
    LastOfBatch(cs);
    Regroup(s.pending, multiset(cs), multiset(front), y);
    FartherJoin(q, near, s.pending - multiset(cs), multiset{} + multiset{y});
    UniquePart(All(OneAnswer(q, s)), multiset(front));
  }

  lemma Regroup<T>(m: multiset<T>, batch: multiset<T>, front: multiset<T>, y: T)
    requires batch <= m && front <= batch && batch - front == multiset{y}
    ensures m == ((m - batch) + (multiset{} + multiset{y})) + front && |m - batch| == |m| - |batch|
    ensures multiset{} + multiset{y} == multiset{y}
  {
    assert batch == front + multiset{y};
    assert m == (m - batch) + batch;
  }

  lemma FartherJoin(q: Query, near: Contact, m: multiset<Contact>, n: multiset<Contact>)
    requires AllFarther(q, near, m) && AllFarther(q, near, n)
    ensures AllFarther(q, near, m + n)
  {
    hide D;
  }

  // Candidates may be dropped.
  lemma Dropped(q: Query, near: Contact, s: Search, batch: multiset<Contact>)
    requires Underway(q, near, s) && batch <= s.pending
    ensures Underway(q, near, s.(pending := s.pending - batch))
    ensures |s.pending - batch| == |s.pending| - |batch|
  {
    hide D, Unique, IdsOf;
    var t := s.(pending := s.pending - batch);
    assert s.pending == (s.pending - batch) + batch;
    assert All(s) == All(t) + batch;
    UniquePart(All(t), batch);
  }

  // The listed contact, if it is new, is asked in the next batch, which fails as a whole.
  ghost function SecondStart(q: Query, near: Contact, t: Search, more: seq<Contact>): Search {
    WithMore(t.(seen := t.seen + ({near.nodeId} - {q.self.nodeId})), more)
  }

  lemma SecondStartUnderway(q: Query, near: Contact, t: Search, more: seq<Contact>)
    requires Known(q, near, t) && DistinctFrom(more, t.seen + {q.self.nodeId, near.nodeId})
    requires AllFarther(q, near, multiset(more))
    ensures Underway(q, near, SecondStart(q, near, t, more))
    ensures |SecondStart(q, near, t, more).pending| == |t.pending| + |more|
  {
    hide D, Unique, IdsOf, AllFarther;
    var u := t.(seen := t.seen + ({near.nodeId} - {q.self.nodeId}));
    assert All(u) == All(t);
    MoreUnderway(q, near, u, more);
  }

  lemma SecondStartListed(q: Query, near: Contact, t: Search, more: seq<Contact>)
    requires DistinctFrom(more, t.seen + {q.self.nodeId, near.nodeId})
    ensures var u := SecondStart(q, near, t, more);
            Discovered(q, t, [near] + more)
            == u.(pending := u.pending + multiset(Novel(q.self.nodeId, t.seen, near)))
  {
    hide IdsOf, Fresh, SeenAfter, DistinctFrom;
    FreshNear(q.self.nodeId, t.seen, near, more);
    var novel := Novel(q.self.nodeId, t.seen, near);
    assert multiset(novel + more) == multiset(novel) + multiset(more);
    assert t.pending + multiset(novel + more) == t.pending + multiset(more) + multiset(novel);
  }

  lemma NearFirst(q: Query, near: Contact, u: Search)
    requires Underway(q, near, u) && near.nodeId !in IdsOf(All(u))
    ensures var cs := Batch(q.key, u.pending, 2);
            && multiset(cs) <= u.pending
            && (u.pending + multiset{near}) - multiset(Batch(q.key, u.pending + multiset{near}, 3))
               == u.pending - multiset(cs)
  {
    hide D, Batch, IdsOf;
    UniquePart(u.pending, u.inflight + u.answered);
    PartsFarther(q, near, u);
    UniqueAdd(u.pending, near);
    hide Unique;
    assert IsNearest(q.key, u.pending + multiset{near}, near);
    BatchHead(q.key, u.pending + multiset{near}, u.pending, near, 3);
    BatchWithin(q.key, u.pending, 2);
    var cs := Batch(q.key, u.pending, 2);
    ConsOut(u.pending, near, cs);
  }

  lemma SecondBatchFails(q: Query, near: Contact, t: Search, more: seq<Contact>)
    requires Known(q, near, t) && DistinctFrom(more, t.seen + {q.self.nodeId, near.nodeId})
    requires AllFarther(q, near, multiset(more)) && |t.pending| + |more| >= 3
    ensures var s := Discovered(q, t, [near] + more);
            var r := WithoutBatch(q, s);
            && |s.pending| >= 3 && s.inflight == r.inflight == t.inflight && s.answered == r.answered == t.answered
            && Underway(q, near, r)
            && |r.pending| == |t.pending| + |more| + |Novel(q.self.nodeId, t.seen, near)| - 3
            && r.seen == t.seen + ({near.nodeId} - {q.self.nodeId}) + IdsOf(multiset(more))
  {
    hide D, Batch, IdsOf, Unique, AllFarther, DistinctFrom, Discovered, Known, Settled;
    var u := SecondStart(q, near, t, more);
    SecondStartUnderway(q, near, t, more);
    SecondStartListed(q, near, t, more);
    if Novel(q.self.nodeId, t.seen, near) == [] {
      assert u.pending + multiset([]) == u.pending;
      BatchWithin(q.key, u.pending, 3);
      BatchLength(q.key, u.pending, 3);
      SizeOfQueue(Batch(q.key, u.pending, 3));
      Dropped(q, near, u, multiset(Batch(q.key, u.pending, 3)));
    } else {
      NearIsNew(q, near, t, more);
      NearFirst(q, near, u);
      assert multiset([near]) == multiset{near};
      BatchLength(q.key, u.pending, 2);
      SizeOfQueue(Batch(q.key, u.pending, 2));
      Dropped(q, near, u, multiset(Batch(q.key, u.pending, 2)));
    }
  }

  lemma NearIsNew(q: Query, near: Contact, t: Search, more: seq<Contact>)
    requires Known(q, near, t) && DistinctFrom(more, t.seen + {q.self.nodeId, near.nodeId}) && near.nodeId !in t.seen
    ensures near.nodeId !in IdsOf(All(SecondStart(q, near, t, more)))
  {
    hide D, Unique, AllFarther;
    OtherIds(more, near.nodeId);
    var u := SecondStart(q, near, t, more);
    forall c: Contact | c in All(u)
      ensures c in All(t) || c in multiset(more)
    {
    }
  }

  // With one answer, and enough candidates or new ones to hear of, 22 answer.
  lemma Later(q: Query, near: Contact, s: Search, more: seq<Contact>) returns (events: seq<Event>)
    requires !q.findValue && Underway(q, near, s) && |s.answered| == 1 && |s.pending| >= 3
    requires |more| <= 19 && |s.pending| + |more| >= 21
    requires DistinctFrom(more, s.seen + {q.self.nodeId, near.nodeId}) && AllFarther(q, near, multiset(more))
    ensures Mild(q, D(q.key, near), events)
    ensures var r := FirstPhaseRun(q, s, events); r.exit == PhaseOver && |r.search.answered| == 22
  {
    hide D, Batch, IdsOf, Unique, AllFarther, DistinctFrom, Underway, AfterRound, FirstBatchRun, Mild, MoreAnswers;
    var cs := Batch(q.key, s.pending, 3);
    RoundFacts(q, near, s);
    var t := WithMore(AfterRound(q, s), more);
    FewerExcluded(more, s.seen + {q.self.nodeId, near.nodeId}, s.seen);
    MoreUnderway(q, near, AfterRound(q, s), more);
    var later, u := Rounds(q, near, t, 6);
    LeadsTo(q, t, later, u);
    hide Leads;
    MoreRound(q, near, s, more, later);
    events := MoreAnswers(near, cs, more) + later;
    MildMore(q, near, cs, more);
    MildJoin(q, D(q.key, near), MoreAnswers(near, cs, more), later);
  }

  lemma FewerExcluded(cs: seq<Contact>, ids: set<Id>, fewer: set<Id>)
    requires DistinctFrom(cs, ids) && fewer <= ids
    ensures DistinctFrom(cs, fewer)
  {
  }

  // ---------- New contacts to be told of ----------

  lemma {:induction false} PickDistinct(pool: set<Id>, k: nat) returns (ids: seq<Id>)
    requires k <= |pool|
    ensures |ids| == k && Distinct(ids) && forall i | 0 <= i < k :: ids[i] in pool
  {
    if k == 0 {
      ids := [];
    } else {
      var id :| id in pool;
      ids := PickDistinct(pool - {id}, k - 1);
      ids := ids + [id];
    }
  }

  lemma OppositePool(key: Id) returns (pool: set<Id>)
    ensures |pool| == 76 && forall id: Id | id in pool :: Distance(key, id) >= 2
  {
    hide Opposite;
    var ids: seq<Id> := seq(76, n requires 0 <= n < 76 => Opposite(key, n));
    forall i, j | 0 <= i < j < 76
      ensures ids[i] != ids[j]
    {
      OppositeDiffers(key, i, j);
    }
    SizeOfDistinct(ids);
    assert (set h | h in ids) == (set h: Id | h in ids);
    pool := set h: Id | h in ids;
    forall id: Id | id in pool
      ensures Distance(key, id) >= 2
    {
      var i :| 0 <= i < 76 && ids[i] == id;
      OppositeIsFar(key, i);
    }
  }

  lemma SizeWithout<T>(pool: set<T>, taken: set<T>)
    ensures |pool - taken| >= |pool| - |taken|
  {
    assert pool == (pool - taken) + (pool * taken);
    SubsetSize(pool * taken, taken);
  }

  // Contacts at distance 2 or more that nobody has heard of.
  lemma NewContacts(q: Query, near: Contact, taken: set<Id>, k: nat) returns (cs: seq<Contact>)
    requires |taken| + k <= 76 && D(q.key, near) <= 1
    ensures |cs| == k && DistinctFrom(cs, taken) && AllFarther(q, near, multiset(cs))
  {
    var pool := OppositePool(q.key);
    SizeWithout(pool, taken);
    var ids := PickDistinct(pool - taken, k);
    cs := seq(k, i requires 0 <= i < k => Contact(ids[i], [], 0));
    forall c: Contact | c in multiset(cs)
      ensures D(q.key, near) < D(q.key, c)
    {
      assert c in cs;
    }
  }

  lemma SplitNew(q: Query, near: Contact, ids: set<Id>, cs: seq<Contact>, k: nat)
    requires |cs| == 2 * k && DistinctFrom(cs, ids) && AllFarther(q, near, multiset(cs))
    ensures DistinctFrom(cs[..k], ids) && DistinctFrom(cs[k..], ids + IdsOf(multiset(cs[..k])))
    ensures AllFarther(q, near, multiset(cs[..k])) && AllFarther(q, near, multiset(cs[k..]))
  {
    hide D, IdsOf;
    forall i | k <= i < 2 * k
      ensures cs[i].nodeId !in IdsOf(multiset(cs[..k]))
    {
      OtherIds(cs[..k], cs[i].nodeId);
    }
    assert cs == cs[..k] + cs[k..];
    assert multiset(cs) == multiset(cs[..k]) + multiset(cs[k..]);
    hide DistinctFrom;
    FartherParts(q, near, multiset(cs[..k]), multiset(cs[k..]));
  }

  lemma FartherParts(q: Query, near: Contact, m: multiset<Contact>, n: multiset<Contact>)
    requires AllFarther(q, near, m + n)
    ensures AllFarther(q, near, m) && AllFarther(q, near, n)
  {
    hide D;
    forall c: Contact | c in m || c in n
      ensures c in m + n
    {
    }
  }

  lemma {:induction false} IdsSize(m: multiset<Contact>)
    requires Unique(m)
    ensures |IdsOf(m)| == |m|
    decreases |m|
  {
    hide Unique, IdsOf;
    if m == multiset{} {
      NoIds();
    } else {
      var c :| c in m;
      TakeOut(m, c);
      UniqueRemove(m - multiset{c}, c);
      IdsSize(m - multiset{c});
    }
  }

  // ---------- When it can be exceeded ----------

  // The contact that answers list: the key's owner, or its neighbour.
  ghost function Listed(key: Id, m: nat): Contact {
    Contact(if m == 0 then key else Neighbour(key), [], 0)
  }

  lemma ListedDistance(key: Id, m: nat)
    requires m <= 1
    ensures D(key, Listed(key, m)) == m
  {
    DistanceZero(key, key);
    NeighbourDistance(key);
  }

  // A search that starts with somebody farther than m has a run with 22 answers, however many it starts with.
  lemma StartedWell(q: Query, s: Search, m: nat, c: Contact) returns (events: seq<Event>)
    requires !q.findValue && m <= 1 && c in s.pending && D(q.key, c) > m
    requires Unique(s.pending) && s.seen == IdsOf(s.pending) && s.inflight == s.answered == multiset{}
    ensures Mild(q, m, events)
    ensures var r := FirstPhaseRun(q, s, events); r.exit == PhaseOver && |r.search.answered| == 22
  {
    hide D, Batch, IdsOf, Unique, AllFarther, DistinctFrom, Underway, Known, FirstBatchRun, Mild, Discovered, OneAnswer,
         WithoutBatch, Listed, FirstEvents, Failures, FirstPhaseRun;
    var near := Listed(q.key, m);
    ListedDistance(q.key, m);
    var more, extra := SomeNews(q, near, s);
    KnownAfterFirst(q, near, s, c);
    var t := OneAnswer(q, s);
    OneAnswerSeen(q, s);
    SecondBatchFails(q, near, t, more);
    var u := Discovered(q, t, [near] + more);
    var v := WithoutBatch(q, u);
    assert v.seen + {q.self.nodeId, near.nodeId} == s.seen + {q.self.nodeId, near.nodeId} + IdsOf(multiset(more));
    var later := Later(q, near, v, extra);
    var cs := Batch(q.key, u.pending, 3);
    FailedBatch(q, u, later);
    FirstAnswers(q, s, near, more, Failures(cs) + later);
    events := FirstEvents(near, Batch(q.key, s.pending, 3), more) + (Failures(cs) + later);
    MildFirst(q, near, Batch(q.key, s.pending, 3), more);
    MildFailures(q, m, cs);
    MildJoin(q, m, Failures(cs), later);
    MildJoin(q, m, FirstEvents(near, Batch(q.key, s.pending, 3), more), Failures(cs) + later);
  }

  lemma OneAnswerSeen(q: Query, s: Search)
    requires s.pending != multiset{}
    ensures OneAnswer(q, s).seen == s.seen
  {
  }

  lemma MildFirst(q: Query, near: Contact, cs: seq<Contact>, more: seq<Contact>)
    requires cs != [] && |more| <= 19 && AllFarther(q, near, multiset(more))
    ensures Mild(q, D(q.key, near), FirstEvents(near, cs, more))
  {
    hide D;
    MildMore(q, near, cs, more);
    assert MoreAnswers(near, cs, more)[0].reply.contacts == [near] + more;
    MildFailures(q, D(q.key, near), cs[..|cs| - 1]);
  }

  // Twice nineteen new contacts, or none when there are candidates enough.
  lemma SomeNews(q: Query, near: Contact, s: Search) returns (more: seq<Contact>, extra: seq<Contact>)
    requires Unique(s.pending) && s.seen == IdsOf(s.pending) && D(q.key, near) <= 1
    ensures |more| == |extra| == if |s.pending| >= 27 then 0 else 19
    ensures DistinctFrom(more, s.seen + {q.self.nodeId, near.nodeId}) && AllFarther(q, near, multiset(more))
    ensures DistinctFrom(extra, s.seen + {q.self.nodeId, near.nodeId} + IdsOf(multiset(more)))
    ensures AllFarther(q, near, multiset(extra))
  {
    hide D, Unique, IdsOf, DistinctFrom, AllFarther;
    var taken := s.seen + {q.self.nodeId, near.nodeId};
    var k := if |s.pending| >= 27 then 0 else 19;
    var cs: seq<Contact>;
    if k == 0 {
      cs := [];
      NothingNew(q, near, taken);
    } else {
      IdsSize(s.pending);
      SizeOfUnion(s.seen, {q.self.nodeId, near.nodeId});
      cs := NewContacts(q, near, taken, 38);
    }
    SplitNew(q, near, taken, cs, k);
    more, extra := cs[..k], cs[k..];
  }

  lemma NothingNew(q: Query, near: Contact, ids: set<Id>)
    ensures DistinctFrom([], ids) && AllFarther(q, near, multiset([]))
  {
  }

  lemma SizeOfUnion<T>(a: set<T>, b: set<T>)
    ensures |a + b| <= |a| + |b|
  {
    assert a + b == a + (b - a);
    SubsetSize(b - a, b);
  }

  lemma FarStart(q: Query, initial: seq<Contact>, m: nat) returns (c: Contact)
    requires StartsFarther(q, initial, m)
    ensures c in Started(q, initial).pending && D(q.key, c) > m
  {
    hide D, Started;
    StartedFrom(q, initial);
    var d: Contact :| d in initial && d.nodeId != q.self.nodeId && D(q.key, d) > m;
    assert d.nodeId in IdsOf(Started(q, initial).pending);
    c :| c in Started(q, initial).pending && c.nodeId == d.nodeId;
    SameDistance(q.key, c, d);
  }

  lemma StartedUnique(q: Query, initial: seq<Contact>)
    ensures Unique(Started(q, initial).pending)
  {
    hide Unique, IdsOf, Fresh;
    FreshUnique(q.self.nodeId, {}, initial);
    var m := multiset(Fresh(q.self.nodeId, {}, initial));
    assert multiset{} + m == m;
  }

  lemma {:induction false} FreshUnique(self: Id, seen: set<Id>, offered: seq<Contact>)
    ensures Unique(multiset(Fresh(self, seen, offered)))
  {
    hide Unique, IdsOf, Fresh, IsFresh, SeenAfter;
    if offered == [] {
      NothingOffered(self, seen);
      NothingUnique();
    } else {
      var last := |offered| - 1;
      FreshUnique(self, seen, offered[..last]);
      FreshIds(self, seen, offered[..last]);
      assert offered[..|offered|] == offered;
      OneMoreOffered(self, seen, offered, last);
      var queued := Fresh(self, seen, offered[..last]);
      if IsFresh(self, seen, offered, last) {
        assert multiset(queued + [offered[last]]) == multiset(queued) + multiset{offered[last]};
        UniqueAdd(multiset(queued), offered[last]);
      } else {
        assert queued + [] == queued;
      }
    }
  }

  lemma SomeRunExceeds(q: Query, initial: seq<Contact>, m: nat) returns (events: seq<Event>)
    requires m <= 1 && !q.findValue && StartsFarther(q, initial, m)
    ensures Mild(q, m, events) && Lists(Run(q, initial, events), 22)
  {
    hide D, Started, Run, FirstPhaseRun, Mild, StartsFarther, Unique, IdsOf;
    var c := FarStart(q, initial, m);
    StartedUnique(q, initial);
    StartedFrom(q, initial);
    events := StartedWell(q, Started(q, initial), m, c);
    ReturnedAll(q, initial, events);
  }

  // Exactly when a lookup can return more than 20 contacts, for answers that list nobody nearer to the key than m: it
  // is a node lookup, and some contact that it starts with is farther from the key and not the node itself. Then 22
  // come back even without timeouts and with answers of at most 20 contacts. For m = 0 this is about all answers, for
  // m = 1 about those that never list the key's owner, as the answers of a node that runs this program do not.
  lemma CanExceedIff(q: Query, initial: seq<Contact>, m: nat)
    requires m <= 1
    ensures (exists events: seq<Event> :: Offering(q, m, events) && Exceeds(Run(q, initial, events)))
            <==> !q.findValue && StartsFarther(q, initial, m)
    ensures !q.findValue && StartsFarther(q, initial, m)
            ==> exists events: seq<Event> :: Mild(q, m, events) && Lists(Run(q, initial, events), 22)
  {
    hide D, Run, Offering, Mild, StartsFarther;
    if !q.findValue && StartsFarther(q, initial, m) {
      var events := SomeRunExceeds(q, initial, m);
      MildIsOffering(q, m, events);
      assert Exceeds(Run(q, initial, events));
    } else {
      forall events: seq<Event> | Offering(q, m, events)
        ensures !Exceeds(Run(q, initial, events))
      {
        NeverExceeds(q, initial, m, events);
      }
    }
  }

  // Whatever is answered, a lookup can return more than 20 contacts if and only if it looks for nodes and starts with a
  // contact that is neither the node itself nor the owner of the key.
  lemma CanExceedTwenty(q: Query, initial: seq<Contact>)
    ensures (exists events: seq<Event> :: Exceeds(Run(q, initial, events)))
            <==> !q.findValue && exists c: Contact :: c in initial && c.nodeId != q.self.nodeId && c.nodeId != q.key
  {
    hide Run, Exceeds;
    forall events: seq<Event>
      ensures Offering(q, 0, events)
    {
    }
    CanExceedIff(q, initial, 0);
    forall c: Contact
      ensures D(q.key, c) > 0 <==> c.nodeId != q.key
    {
      DistanceZero(q.key, c.nodeId);
    }
  }

  // ---------- The bound for a number of timeouts is reached ----------

  lemma {:induction false} TimeoutsOfJoin(events: seq<Event>, rest: seq<Event>)
    ensures Timeouts(events + rest) == Timeouts(events) + Timeouts(rest)
    decreases |rest|
  {
    if rest == [] {
      assert events + rest == events;
    } else {
      var last := |rest| - 1;
      TimeoutsOfJoin(events, rest[..last]);
      assert events + rest == (events + rest[..last]) + [rest[last]];
      OneMoreTimeout(events + rest[..last], rest[last]);
    }
  }

  lemma {:induction false} NoTimeouts(events: seq<Event>)
    requires forall i | 0 <= i < |events| :: events[i].Response?
    ensures Timeouts(events) == 0
  {
    if events != [] {
      NoTimeouts(events[..|events| - 1]);
    }
  }

  // A batch that nobody answers in time stays in flight.
  lemma TimeoutRound(q: Query, near: Contact, s: Search, rest: seq<Event>)
    requires Underway(q, near, s) && |s.pending| >= 3 && |s.answered| < 20
    ensures var t := Dispatched(q, s, 3);
            && Underway(q, near, t) && |t.pending| == |s.pending| - 3 && |t.inflight| == |s.inflight| + 3
            && t.answered == s.answered && FirstPhaseRun(q, s, [Timeout] + rest) == FirstPhaseRun(q, t, rest)
  {
    hide D, Unique, AllFarther, Batch, IdsOf, FirstBatchRun;
    BatchLength(q.key, s.pending, 3);
    BatchWithin(q.key, s.pending, 3);
    var cs, t := Batch(q.key, s.pending, 3), Dispatched(q, s, 3);
    SizeOfQueue(cs);
    assert s.pending == (s.pending - multiset(cs)) + multiset(cs);
    assert All(t) == All(s);
    FirstTimeout(q, t, 3, [Timeout] + rest);
    assert ([Timeout] + rest)[1..] == rest;
  }

  lemma TimeoutLeads(q: Query, near: Contact, s: Search)
    requires Underway(q, near, s) && |s.pending| >= 3 && |s.answered| < 20
    ensures Leads(q, s, [Timeout], Dispatched(q, s, 3))
  {
    hide D, Underway, FirstPhaseRun, Dispatched;
    forall rest: seq<Event>
      ensures FirstPhaseRun(q, s, [Timeout] + rest) == FirstPhaseRun(q, Dispatched(q, s, 3), rest)
    {
      TimeoutRound(q, near, s, rest);
    }
  }

  lemma {:induction false} TimeoutRounds(q: Query, near: Contact, s: Search, n: nat)
    returns (events: seq<Event>, t: Search)
    requires Underway(q, near, s) && |s.pending| >= 3 * n && |s.answered| < 20
    ensures Timeouts(events) == n && Underway(q, near, t) && |t.pending| == |s.pending| - 3 * n
    ensures |t.inflight| == |s.inflight| + 3 * n && t.answered == s.answered
    ensures Leads(q, s, events, t)
    decreases n
  {
    hide D, Underway, FirstPhaseRun, Dispatched, Leads;
    if n == 0 {
      events, t := [], s;
      LeadsNowhere(q, s);
    } else {
      var u := Dispatched(q, s, 3);
      TimeoutRound(q, near, s, []);
      TimeoutLeads(q, near, s);
      var later;
      later, t := TimeoutRounds(q, near, u, n - 1);
      events := [Timeout] + later;
      LeadsJoin(q, s, [Timeout], u, later, t);
      TimeoutsOfJoin([Timeout], later);
    }
  }

  lemma {:induction false} ListOf<T>(m: multiset<T>) returns (s: seq<T>)
    ensures multiset(s) == m
    decreases |m|
  {
    if m == multiset{} {
      s := [];
    } else {
      var x :| x in m;
      s := ListOf(m - multiset{x});
      s := s + [x];
      assert m == (m - multiset{x}) + multiset{x};
    }
  }

  // With nothing pending a batch waits for all that is in flight, until an answer lists nobody.
  lemma Leftovers(q: Query, near: Contact, s: Search) returns (events: seq<Event>)
    requires !q.findValue && Underway(q, near, s) && s.pending == multiset{}
    requires |s.inflight| > 0 && 0 < |s.answered| < 20
    ensures Timeouts(events) == 0
    ensures var r := FirstPhaseRun(q, s, events);
            r.exit == PhaseOver && |r.search.answered| == |s.answered| + |s.inflight|
  {
    hide D, Unique, AllFarther, IdsOf, FirstBatchRun, Answers, Settled;
    var cs := ListOf(s.inflight);
    SizeOfQueue(cs);
    var front, z := cs[..|cs| - 1], cs[|cs| - 1];
    LastOfBatch(cs);
    var last := [Response(z, Answer([], None))];
    events := Answers(near, front) + last;
    NoTimeoutsInAnswers(near, front, last);
    BatchEnds(q.key, s.pending, 3);
    NothingDispatched(q, s);
    PartsFarther(q, near, s);
    FartherFront(q, near, cs);
    AnswersRun(q, s, near, front, 0, last);
    SizeOfQueue(front);
    var t := AllCredited(s, front);
    assert t.inflight == multiset{z};
    LastStalls(q, t, 0 - |front|, z);
  }

  lemma NoTimeoutsInAnswers(near: Contact, cs: seq<Contact>, last: seq<Event>)
    requires |last| == 1 && last[0].Response?
    ensures Timeouts(Answers(near, cs) + last) == 0
  {
    NoTimeouts(Answers(near, cs) + last);
  }

  lemma FartherFront(q: Query, near: Contact, cs: seq<Contact>)
    requires cs != [] && AllFarther(q, near, multiset(cs))
    ensures AllFarther(q, near, multiset(cs[..|cs| - 1]))
  {
    assert cs == cs[..|cs| - 1] + [cs[|cs| - 1]];
    assert multiset(cs) == multiset(cs[..|cs| - 1]) + multiset{cs[|cs| - 1]};
    FartherParts(q, near, multiset(cs[..|cs| - 1]), multiset{cs[|cs| - 1]});
  }

  lemma NothingDispatched(q: Query, s: Search)
    requires s.pending == multiset{}
    ensures Dispatched(q, s, 3) == s
  {
    BatchEnds(q.key, s.pending, 3);
    assert s.pending - multiset([]) == s.pending && s.inflight + multiset([]) == s.inflight;
  }

  lemma LastStalls(q: Query, s: Search, count: int, z: Contact)
    requires !q.findValue && s.inflight == multiset{z} && s.answered != multiset{}
    ensures var r := FirstBatchRun(q, s, count, [Response(z, Answer([], None))]);
            r.exit == PhaseOver && |r.search.answered| == |s.answered| + 1
  {
    hide D, FirstBatchRun;
    var t: Contact :| t in s.answered;
    assert Stalls(q.key, s.answered, []);
    FirstTakes(q, s, count, [Response(z, Answer([], None))]);
  }

  lemma MildHasNoTimeouts(q: Query, m: nat, events: seq<Event>)
    requires Mild(q, m, events)
    ensures Timeouts(events) == 0
  {
    NoTimeouts(events);
  }

  // n batches time out, 18 contacts answer, and then all that was left behind does.
  lemma AfterTimeouts(q: Query, near: Contact, s: Search, n: nat) returns (events: seq<Event>)
    requires !q.findValue && n > 0 && Underway(q, near, s) && |s.answered| == 1 && s.inflight == multiset{}
    requires |s.pending| == 3 * n + 18
    ensures Timeouts(events) == n
    ensures var r := FirstPhaseRun(q, s, events); r.exit == PhaseOver && |r.search.answered| == 19 + 3 * n
  {
    hide D, Underway, FirstPhaseRun;
    var first, t := TimeoutRounds(q, near, s, n);
    var second, u := Rounds(q, near, t, 6);
    var third := Leftovers(q, near, u);
    MildHasNoTimeouts(q, D(q.key, near), second);
    TimeoutsOfJoin(first, second + third);
    TimeoutsOfJoin(second, third);
    events := first + (second + third);
  }

  // For every number of timeouts the bound is the best one: given contacts enough, none of them the node itself or the
  // key's owner, there is a run with just so many timeouts that returns just so many contacts.
  lemma BoundIsReached(q: Query, first: Contact, more: seq<Contact>, n: nat) returns (events: seq<Event>)
    requires !q.findValue && n > 0 && q.key != q.self.nodeId && |more| == 3 * n + 20
    requires DistinctFrom([first] + more, {q.self.nodeId, q.key})
    ensures Timeouts(events) == n
    ensures Lists(Run(q, [first], events), MaxAnswers(n))
  {
    hide D, Batch, IdsOf, Unique, AllFarther, Underway, Known, FirstBatchRun, Discovered, OneAnswer,
         WithoutBatch, Listed, FirstEvents, Failures, FirstPhaseRun, DistinctFrom;
    var near := Listed(q.key, 0);
    ListedDistance(q.key, 0);
    var s := Search(multiset{first}, {first.nodeId}, multiset{}, multiset{});
    OneOthers(q, first, more);
    StartedOne(q, first);
    assert first in multiset{first};
    assert AllFarther(q, near, multiset{first}) ==> D(q.key, near) < D(q.key, first) by { FartherOne(q, near, first); }
    KnownAfterFirst(q, near, s, first);
    OneAnswerSeen(q, s);
    var t := OneAnswer(q, s);
    SecondBatchFails(q, near, t, more);
    var u := Discovered(q, t, [near] + more);
    var v := WithoutBatch(q, u);
    var later := AfterTimeouts(q, near, v, n);
    var cs, ds := Batch(q.key, s.pending, 3), Batch(q.key, u.pending, 3);
    FailedBatch(q, u, later);
    FirstAnswers(q, s, near, more, Failures(ds) + later);
    events := FirstEvents(near, cs, more) + (Failures(ds) + later);
    assert Timeouts(events) == n by {
      TimeoutsOfJoin(FirstEvents(near, cs, more), Failures(ds) + later);
      TimeoutsOfJoin(Failures(ds), later);
      NoTimeoutsFirst(near, cs, more, ds);
    }
    ReturnedAll(q, [first], events);
  }

  lemma NoTimeoutsFirst(near: Contact, cs: seq<Contact>, more: seq<Contact>, ds: seq<Contact>)
    requires cs != []
    ensures Timeouts(FirstEvents(near, cs, more)) == 0 && Timeouts(Failures(ds)) == 0
  {
    NoTimeouts(FirstEvents(near, cs, more));
    NoTimeouts(Failures(ds));
  }

  lemma StartedOne(q: Query, first: Contact)
    requires first.nodeId != q.self.nodeId
    ensures Started(q, [first]) == Search(multiset{first}, {first.nodeId}, multiset{}, multiset{})
    ensures Unique(multiset{first}) && IdsOf(multiset{first}) == {first.nodeId}
  {
    StartedFrom(q, [first]);
    FreshUnique(q.self.nodeId, {}, [first]);
    FreshOne(q.self.nodeId, first);
  }

  lemma FreshOne(self: Id, c: Contact)
    requires c.nodeId != self
    ensures Fresh(self, {}, [c]) == [c] && multiset([c]) == multiset{c} && IdsOf(multiset{c}) == {c.nodeId}
  {
    hide Fresh, IsFresh;
    NothingOffered(self, {});
    OneMoreOffered(self, {}, [c], 0);
    assert [c][..0] == [] && [c][..1] == [c];
  }

  lemma OneOthers(q: Query, first: Contact, more: seq<Contact>)
    requires DistinctFrom([first] + more, {q.self.nodeId, q.key})
    ensures first.nodeId != q.self.nodeId && first.nodeId != q.key
    ensures DistinctFrom(more, {first.nodeId} + {q.self.nodeId, q.key})
    ensures AllFarther(q, Listed(q.key, 0), multiset{first}) && AllFarther(q, Listed(q.key, 0), multiset(more))
    ensures Listed(q.key, 0).nodeId == q.key
  {
    hide D;
    var all := [first] + more;
    assert all[0] == first && forall i | 0 <= i < |more| :: all[i + 1] == more[i];
    ListedDistance(q.key, 0);
    forall c: Contact | c == first || c in multiset(more)
      ensures D(q.key, Listed(q.key, 0)) < D(q.key, c)
    {
      assert c == first || c in more;
      NotOwner(q.key, c);
    }
  }

  lemma FartherOne(q: Query, near: Contact, c: Contact)
    ensures AllFarther(q, near, multiset{c}) ==> D(q.key, near) < D(q.key, c)
  {
    hide D;
    assert c in multiset{c};
  }

  lemma NotOwner(key: Id, c: Contact)
    requires c.nodeId != key
    ensures D(key, c) > 0
  {
    DistanceZero(key, c.nodeId);
  }

  // More than 20 answers in the first phase are all returned.
  lemma ReturnedAll(q: Query, initial: seq<Contact>, events: seq<Event>)
    requires !q.findValue && |Started(q, initial).pending| > 0
    requires var r := FirstPhaseRun(q, Started(q, initial), events); r.exit == PhaseOver && |r.search.answered| > 20
    ensures Lists(Run(q, initial, events), |FirstPhaseRun(q, Started(q, initial), events).search.answered|)
  {
    hide FirstPhaseRun, SecondPhaseRun, Started, Batch;
    var r := FirstPhaseRun(q, Started(q, initial), events);
    SecondPhaseWithin(q, r.search, r.rest);
    SecondPhaseEnds(q, r.search, r.rest);
    BatchLength(q.key, r.search.answered, |r.search.answered|);
  }
}
