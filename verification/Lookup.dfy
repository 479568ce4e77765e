/** The iterative lookup: queries in flight to the closest candidates, replies in any order, late replies and
    timeouts, in two phases. The methods carry out the run that `LookupRun` defines, and the bookkeeping shows where
    every identifier is at each moment. A schedule that ends early leaves the run waiting. */
module Lookup {
  import opened Bytes
  import opened Ids
  import opened BucketLists
  import opened PriorityQueue
  import opened CandidateHeap
  import opened LookupRun
  import opened Sequences
  import opened Options

  // ---------- The fate of every discovered identifier ----------

  // Each identifier ever seen is in exactly one of: pending, in flight, answered, failed, value returned. Those
  // past pending were queried, once each, and the node itself is none of them.
  ghost predicate Partition(self: Id, pending: set<Id>, inflight: set<Id>, answered: set<Id>, failed: set<Id>,
                            valued: set<Id>, seen: set<Id>, queried: seq<Id>) {
    && pending !! inflight !! answered !! failed !! valued
    && seen == pending + inflight + answered + failed + valued
    && self !in seen
    && Distinct(queried)
    && (forall id: Id :: id in queried <==> id in inflight + answered + failed + valued)
  }

  lemma PartitionStart(self: Id)
    ensures Partition(self, {}, {}, {}, {}, {}, {}, [])
  {
  }

  // Newly seen identifiers join those pending.
  lemma PartitionDiscover(self: Id, p: set<Id>, f: set<Id>, a: set<Id>, x: set<Id>, v: set<Id>, seen: set<Id>,
                          queried: seq<Id>, p': set<Id>, seen': set<Id>)
    requires Partition(self, p, f, a, x, v, seen, queried)
    requires seen <= seen' && self !in seen' && p' == p + (seen' - seen)
    ensures Partition(self, p', f, a, x, v, seen', queried)
  {
  }

  lemma IdsOfSum(m: multiset<Contact>, n: multiset<Contact>)
    ensures IdsOf(m + n) == IdsOf(m) + IdsOf(n)
  {
  }

  lemma PartitionQuery(self: Id, id: Id, p: set<Id>, f: set<Id>, a: set<Id>, x: set<Id>, v: set<Id>, seen: set<Id>,
                       queried: seq<Id>)
    requires Partition(self, p + {id}, f, a, x, v, seen, queried) && id !in p
    ensures Partition(self, p, f + {id}, a, x, v, seen, queried + [id])
  {
    assert id !in queried;
  }

  lemma PartitionReply(self: Id, id: Id, p: set<Id>, f: set<Id>, a: set<Id>, x: set<Id>, v: set<Id>, seen: set<Id>,
                       queried: seq<Id>)
    requires Partition(self, p, f + {id}, a, x, v, seen, queried) && id !in f
    ensures Partition(self, p, f, a + {id}, x, v, seen, queried)
    ensures Partition(self, p, f, a, x + {id}, v, seen, queried)
    ensures Partition(self, p, f, a, x, v + {id}, seen, queried)
    ensures id !in a
  {
  }

  lemma NoContacts()
    ensures IdsOf(multiset{}) == {} && Unique(multiset{})
  {
  }

  // Taking a contact out of a collection without repetitions.
  lemma TakeOne(m: multiset<Contact>, c: Contact)
    requires Unique(m) && c in m
    ensures Unique(m - multiset{c}) && c.nodeId !in IdsOf(m - multiset{c})
    ensures IdsOf(m) == IdsOf(m - multiset{c}) + {c.nodeId}
    ensures m == (m - multiset{c}) + multiset{c} && |m| == |m - multiset{c}| + 1
  {
    assert m == (m - multiset{c}) + multiset{c};
    UniqueRemove(m - multiset{c}, c);
  }

  // Closest of the answers so far, or the node itself when there are none.
  ghost predicate IsClosest(key: Id, self: Contact, answered: multiset<Contact>, target: Contact) {
    if answered == multiset{} then target == self
    else target in answered && forall y: Contact | y in answered :: D(key, target) <= D(key, y)
  }

  lemma ClosestAnswerIsClosest(q: Query, answered: multiset<Contact>)
    ensures IsClosest(q.key, q.self, answered, ClosestAnswer(q, answered))
  {
  }

  lemma StallsAtClosest(q: Query, answered: multiset<Contact>, contacts: seq<Contact>)
    requires answered != multiset{}
    ensures Stalls(q.key, answered, contacts)
            <==> !exists n: Contact :: n in contacts && D(q.key, n) < D(q.key, ClosestAnswer(q, answered))
  {
    hide D;
    assert IsNearest(q.key, answered, ClosestAnswer(q, answered));
  }

  // Some event is a successful reply of the contact that brings no value.
  ghost predicate AnsweredIn(events: seq<Event>, findValue: bool, c: Contact) {
    exists i :: 0 <= i < |events| && events[i].Response? && events[i].contact == c
                && events[i].reply.Answer? && !(findValue && events[i].reply.value.Some?)
  }

  ghost predicate AllAnsweredIn(events: seq<Event>, findValue: bool, answered: multiset<Contact>) {
    forall c: Contact | c in answered :: AnsweredIn(events, findValue, c)
  }

  lemma OneMoreAnswer(events: seq<Event>, findValue: bool, answered: multiset<Contact>, c: Contact)
    requires AllAnsweredIn(events, findValue, answered) && AnsweredIn(events, findValue, c)
    ensures AllAnsweredIn(events, findValue, answered + multiset{c})
  {
  }

  lemma OneMoreEvent(events: seq<Event>, e: Event, findValue: bool, answered: multiset<Contact>)
    requires AllAnsweredIn(events, findValue, answered)
    ensures AllAnsweredIn(events + [e], findValue, answered)
    ensures e.Response? && e.reply.Answer? && !(findValue && e.reply.value.Some?)
            ==> AnsweredIn(events + [e], findValue, e.contact)
  {
    forall c: Contact | c in answered
      ensures AnsweredIn(events + [e], findValue, c)
    {
      var i :| 0 <= i < |events| && events[i].Response? && events[i].contact == c
               && events[i].reply.Answer? && !(findValue && events[i].reply.value.Some?);
      assert (events + [e])[i] == events[i];
    }
    assert (events + [e])[|events|] == e;
  }

  class Lookup {
    const q: Query
    const heap: CandidateHeap
    const active: PriorityQueue
    var inflight: multiset<Contact>
    var schedule: seq<Event>
    ghost var past: seq<Event>
    ghost var answered: multiset<Contact>
    ghost var failed: set<Id>
    ghost var valued: set<Id>
    ghost var queried: seq<Id>
    ghost var timeouts: nat

    ghost predicate Books()
      reads this, heap, heap.pq
    {
      && heap.Valid() && heap.self == q.self.nodeId && heap.pq.nodeId == q.key
      && Unique(inflight) && Unique(answered)
      && AllAnsweredIn(past, q.findValue, answered)
      && Partition(q.self.nodeId, IdsOf(heap.Pending()), IdsOf(inflight), IdsOf(answered), failed, valued, heap.nodeSet,
                   queried)
    }

    ghost predicate Valid()
      reads this, heap, heap.pq, active
    {
      && heap.pq != active && active.nodeId == q.key && active.selfContact == q.self
      && active.Valid() && multiset(active.list) == answered
      && timeouts <= Timeouts(past)
      && Books()
    }

    ghost function State(): Search
      reads this, heap, heap.pq
    {
      Search(heap.Pending(), heap.nodeSet, inflight, answered)
    }

    constructor (q: Query, schedule: seq<Event>)
      ensures Valid() && fresh(heap) && fresh(heap.pq) && fresh(active)
      ensures this.q == q && past == [] && this.schedule == schedule && valued == {} && timeouts == 0
      ensures State() == Search(multiset{}, {}, multiset{}, multiset{})
    {
      hide Partition, IdsOf, Unique;
      NoContacts();
      PartitionStart(q.self.nodeId);
      this.q := q;
      this.schedule := schedule;
      past := [];
      heap := new CandidateHeap(q.self, q.key);
      active := new PriorityQueue(q.self, q.key);
      inflight, answered := multiset{}, multiset{};
      failed, valued, queried, timeouts := {}, {}, [], 0;
    }

    lemma SizeOfActive()
      requires Valid()
      ensures |active.list| == |answered|
    {
      SizeOfQueue(active.list);
    }

    lemma KeepsBooks()
      requires Valid()
      ensures Books()
    {
    }

    // Queue what a reply, or the routing table at the start, has to offer.
    method Discover(contacts: seq<Contact>)
      requires Valid()
      modifies heap, heap.pq
      ensures Valid() && State() == Discovered(q, old(State()), contacts)
      ensures old(heap.nodeSet) <= heap.nodeSet
    {
      hide Partition, IdsOf, Unique, AllAnsweredIn, Fresh, SeenAfter, HeapOrdered, D;
      ghost var p, seen := heap.Pending(), heap.nodeSet;
      var n := heap.Push(contacts);
      FreshIds(q.self.nodeId, seen, contacts);
      SeenGrows(q.self.nodeId, seen, contacts);
      IdsOfSum(p, multiset(Fresh(q.self.nodeId, seen, contacts)));
      PartitionDiscover(q.self.nodeId, IdsOf(p), IdsOf(inflight), IdsOf(answered), failed, valued, seen, queried,
                        IdsOf(heap.Pending()), heap.nodeSet);
    }

    // One query for each contact of a popped batch.
    method StartQueries(con: seq<Contact>) returns (count: nat)
      requires Unique(inflight) && Unique(heap.Pending() + multiset(con))
      requires Partition(q.self.nodeId, IdsOf(heap.Pending() + multiset(con)), IdsOf(inflight), IdsOf(answered), failed,
                         valued, heap.nodeSet, queried)
      modifies this`inflight, this`queried
      ensures Unique(inflight) && count == |con| && inflight == old(inflight) + multiset(con)
      ensures Partition(q.self.nodeId, IdsOf(heap.Pending()), IdsOf(inflight), IdsOf(answered), failed, valued,
                        heap.nodeSet, queried)
    {
      hide Partition, IdsOf, Unique;
      count := 0;
      ghost var rest := heap.Pending();
      assert con[0..] == con;
      assert multiset(con[..0]) == multiset{};
      for i := 0 to |con|
        invariant count == i
        invariant inflight == old(inflight) + multiset(con[..i])
        invariant Unique(inflight) && Unique(rest + multiset(con[i..]))
        invariant Partition(q.self.nodeId, IdsOf(rest + multiset(con[i..])), IdsOf(inflight), IdsOf(answered), failed,
                            valued, heap.nodeSet, queried)
      {
        var node := con[i];
        ghost var p := rest + multiset(con[i + 1..]);
        QueryOne(con, i, rest);
        QueryStep(q.self.nodeId, node, p, inflight, IdsOf(answered), failed, valued, heap.nodeSet, queried);
        inflight := inflight + multiset{node};
        queried := queried + [node.nodeId];
        count := count + 1;
      }
      assert con[..|con|] == con;
      assert rest + multiset(con[|con|..]) == rest;
    }

    // Pop a batch of the closest candidates and start a query to each.
    method Dispatch(n: nat) returns (count: nat)
      requires Valid()
      modifies this`inflight, this`queried, heap.pq
      ensures Valid() && State() == Dispatched(q, old(State()), n)
      ensures count == |Batch(q.key, old(heap.Pending()), n)|
      ensures count == (if n < |old(heap.Pending())| then n else |old(heap.Pending())|)
      ensures count == 0 && n > 0 ==> heap.Pending() == multiset{}
      ensures |inflight| == |old(inflight)| + count
    {
      hide Partition, IdsOf, Unique, HeapOrdered, D, Batch, AllAnsweredIn;
      BatchSize(q.key, heap.Pending(), n);
      ghost var before := heap.Pending();
      var length, con := heap.PopClosest(n);
      TakeBatch(before, heap.Pending(), inflight, con);
      count := StartQueries(con);
    }

    // The next event of the schedule.
    method Next() returns (event: Event)
      requires Valid() && schedule != []
      modifies this`schedule, this`past
      ensures Valid() && State() == old(State())
      ensures event == old(schedule)[0] && schedule == old(schedule)[1..] && past == old(past) + [event]
      ensures timeouts + (if event.Timeout? then 1 else 0) <= Timeouts(past)
      ensures event.Response? && event.reply.Answer? && !q.GivesValue(event.reply)
              ==> AnsweredIn(past, q.findValue, event.contact)
    {
      hide Partition, IdsOf, Unique, HeapOrdered, AllAnsweredIn, AnsweredIn;
      event := schedule[0];
      OneMoreEvent(past, event, q.findValue, answered);
      OneMoreTimeout(past, event);
      schedule := schedule[1..];
      past := past + [event];
    }

    // The timer of the first phase expires.
    method GiveUpWaiting()
      requires Valid() && timeouts + 1 <= Timeouts(past)
      modifies this`timeouts
      ensures Valid() && State() == old(State()) && timeouts == old(timeouts) + 1
    {
      hide Partition, IdsOf, Unique, HeapOrdered, AllAnsweredIn, Timeouts;
      timeouts := timeouts + 1;
    }

    // ---------- Replies ----------

    method Failed(c: Contact)
      requires Valid() && c in inflight
      modifies this`inflight, this`failed
      ensures Valid() && State() == Heard(old(State()), c) && |inflight| == |old(inflight)| - 1
      ensures failed == old(failed) + {c.nodeId}
    {
      hide Partition, IdsOf, Unique, HeapOrdered, AnsweredIn, AllAnsweredIn;
      TakeOne(inflight, c);
      inflight := inflight - multiset{c};
      PartitionReply(q.self.nodeId, c.nodeId, IdsOf(heap.Pending()), IdsOf(inflight), IdsOf(answered), failed, valued,
                     heap.nodeSet, queried);
      failed := failed + {c.nodeId};
    }

    method GaveValue(c: Contact)
      requires Valid() && c in inflight
      modifies this`inflight, this`valued
      ensures Valid() && State() == Heard(old(State()), c) && |inflight| == |old(inflight)| - 1
      ensures valued == old(valued) + {c.nodeId}
    {
      hide Partition, IdsOf, Unique, HeapOrdered, AnsweredIn, AllAnsweredIn;
      TakeOne(inflight, c);
      inflight := inflight - multiset{c};
      PartitionReply(q.self.nodeId, c.nodeId, IdsOf(heap.Pending()), IdsOf(inflight), IdsOf(answered), failed, valued,
                     heap.nodeSet, queried);
      valued := valued + {c.nodeId};
    }

    // The contact joins the queue of those that answered.
    method Answered(c: Contact)
      requires Valid() && c in inflight && AnsweredIn(past, q.findValue, c)
      modifies this`inflight, this`answered, active
      ensures Valid() && State() == Credited(old(State()), c)
      ensures |inflight| == |old(inflight)| - 1 && |answered| == |old(answered)| + 1
    {
      hide Partition, IdsOf, Unique, HeapOrdered, AnsweredIn, AllAnsweredIn;
      TakeOne(inflight, c);
      inflight := inflight - multiset{c};
      PartitionReply(q.self.nodeId, c.nodeId, IdsOf(heap.Pending()), IdsOf(inflight), IdsOf(answered), failed, valued,
                     heap.nodeSet, queried);
      UniqueAdd(answered, c);
      OneMoreAnswer(past, q.findValue, answered, c);
      active.HeapPush(c);
      answered := answered + multiset{c};
    }

    // The nearest of those that answered, from the root of their queue.
    method Closest() returns (ok: bool, c: Contact)
      requires Valid()
      ensures ok == (answered != multiset{}) && c == ClosestAnswer(q, answered)
    {
      hide D, Partition, IdsOf, Unique, HeapOrdered, AllAnsweredIn, IsNearest;
      ok, c := active.Peek();
      if ok {
        RootIsLeast(q.key, active.list);
        RootIsNearest(q.key, active.list, c);
        NearestIsUnique(q.key, answered, c);
        SizeOfQueue(active.list);
      } else {
        assert active.list == [];
      }
    }

    static method AnyCloser(key: Id, contacts: seq<Contact>, c: Contact) returns (flag: bool)
      ensures flag == exists n: Contact :: n in contacts && D(key, n) < D(key, c)
    {
      hide D;
      flag := false;
      for i := 0 to |contacts|
        invariant flag == exists n: Contact :: n in contacts[..i] && D(key, n) < D(key, c)
      {
        assert contacts[..i + 1] == contacts[..i] + [contacts[i]];
        var closer := PriorityQueue.ContactLess(contacts[i], c, key);
        if closer {
          flag := true;
        }
      }
      assert contacts[..|contacts|] == contacts;
    }

    // What both phases do with a value: the target is the closest answer without it.
    method Finish(c: Contact, reply: Reply) returns (r: IterativeResult)
      requires Valid() && c in inflight && q.GivesValue(reply)
      modifies this`inflight, this`valued
      ensures Valid() && State() == Heard(old(State()), c) && |inflight| == |old(inflight)| - 1
      ensures valued == old(valued) + {c.nodeId}
      ensures r == ValueResult(q, old(State()), reply)
    {
      hide D, Partition, IdsOf, Unique, HeapOrdered, AnsweredIn, AllAnsweredIn, Nearest;
      GaveValue(c);
      var ok, target := Closest();
      r := IterativeResult(true, target, [], reply.value);
    }

    // The first phase's treatment of one reply.
    method FirstReply(c: Contact, reply: Reply) returns (v: Verdict)
      requires Valid() && c in inflight
      requires reply.Answer? && !q.GivesValue(reply) ==> AnsweredIn(past, q.findValue, c)
      modifies this`inflight, this`answered, this`failed, this`valued, heap, heap.pq, active
      ensures Valid() && Step(v, State()) == FirstStep(q, old(State()), c, reply)
      ensures old(heap.nodeSet) <= heap.nodeSet && |inflight| == |old(inflight)| - 1
      ensures failed == old(failed) + if reply.Failure? then {c.nodeId} else {}
      ensures valued == old(valued) + if q.GivesValue(reply) then {c.nodeId} else {}
      ensures |answered| == |old(answered)| + if reply.Answer? && !q.GivesValue(reply) then 1 else 0
    {
      hide Valid, Stalls, AnsweredIn, Discovered, Heard, Credited, ValueResult;
      if reply.Failure? {
        Failed(c);
        return KeepGoing;
      }
      if q.GivesValue(reply) {
        var r := Finish(c, reply);
        return Found(r);
      }
      v := FirstAnswer(c, reply.contacts);
    }

    // An answer without a value: if nothing it offers is closer than the closest earlier answer, the phase is over.
    method FirstAnswer(c: Contact, contacts: seq<Contact>) returns (v: Verdict)
      requires Valid() && c in inflight && AnsweredIn(past, q.findValue, c)
      modifies this`inflight, this`answered, heap, heap.pq, active
      ensures Valid() && old(heap.nodeSet) <= heap.nodeSet
      ensures |inflight| == |old(inflight)| - 1 && |answered| == |old(answered)| + 1
      ensures if Stalls(q.key, old(answered), contacts)
              then v == NothingCloser && State() == Credited(old(State()), c)
              else v == KeepGoing && State() == Discovered(q, Credited(old(State()), c), contacts)
    {
      hide D, Partition, IdsOf, Unique, HeapOrdered, Stalls, AnsweredIn, AllAnsweredIn, Discovered, ClosestAnswer;
      var ok, cnode := Closest();
      Answered(c);
      if ok {
        StallsAtClosest(q, old(answered), contacts);
        var flag := AnyCloser(q.key, contacts, cnode);
        if !flag {
          return NothingCloser;
        }
      } else {
        NoStall(q.key, contacts);
      }
      Discover(contacts);
      return KeepGoing;
    }

    // The second phase discards what a reply offers.
    method SecondReply(c: Contact, reply: Reply) returns (v: Verdict)
      requires Valid() && c in inflight
      requires reply.Answer? && !q.GivesValue(reply) ==> AnsweredIn(past, q.findValue, c)
      modifies this`inflight, this`answered, this`failed, this`valued, active
      ensures Valid() && Step(v, State()) == SecondStep(q, old(State()), c, reply)
      ensures failed == old(failed) + if reply.Failure? then {c.nodeId} else {}
      ensures valued == old(valued) + if q.GivesValue(reply) then {c.nodeId} else {}
      ensures |answered| == |old(answered)| + if reply.Answer? && !q.GivesValue(reply) then 1 else 0
    {
      hide Valid, AnsweredIn, Heard, Credited, ValueResult;
      if reply.Failure? {
        Failed(c);
      } else if q.GivesValue(reply) {
        var r := Finish(c, reply);
        return Found(r);
      } else {
        Answered(c);
      }
      return KeepGoing;
    }

    // ---------- The loops ----------

    ghost predicate Bounded()
      reads this
    {
      |answered| <= MaxAnswers(timeouts)
    }

    // The last event was a reply with this value, from the one contact that gave one.
    ghost predicate GaveLast(value: Option<seq<byte>>)
      reads this
    {
      && past != [] && value.Some?
      && var e := past[|past| - 1];
         e.Response? && e.reply.Answer? && e.reply.value == value && valued == {e.contact.nodeId}
    }

    // A value ends the lookup with the target nearest among the answers.
    ghost predicate Ended(exit: Exit)
      reads this
    {
      if exit.ValueFound? then
        && q.findValue && GaveLast(exit.result.value)
        && exit.result == IterativeResult(true, ClosestAnswer(q, answered), [], exit.result.value)
      else valued == {}
    }

    // One turn of the first phase's inner loop.
    method TakeFirst(count: int) returns (more: bool, exit: Exit, left: int)
      requires Valid() && schedule != [] && valued == {}
      modifies this`inflight, this`schedule, this`past, this`timeouts, this`answered, this`failed, this`valued
      modifies heap, heap.pq, active
      ensures Valid() && old(heap.nodeSet) <= heap.nodeSet
      ensures old(past) + old(schedule) == past + schedule && |schedule| < |old(schedule)|
      ensures if more
              then valued == {} && timeouts == old(timeouts)
                   && FirstBatchRun(q, State(), left, schedule) == FirstBatchRun(q, old(State()), count, old(schedule))
              else Ended(exit)
                   && Progress(exit, State(), schedule) == FirstBatchRun(q, old(State()), count, old(schedule))
      ensures if left == count
              then |inflight| == |old(inflight)| && answered == old(answered)
                   && (more || (exit == BatchOver && timeouts == old(timeouts) + 1))
              else left == count - 1 && |inflight| == |old(inflight)| - 1 && |answered| <= |old(answered)| + 1
                   && timeouts == old(timeouts) && (more ==> left != 0) && (!more && exit == BatchOver ==> left == 0)
    {
      hide Valid, AnsweredIn, FirstBatchRun, FirstStep, ClosestAnswer, Timeouts;
      left := count;
      var event := Next();
      if event.Timeout? {
        FirstTimeout(q, State(), count, old(schedule));
        GiveUpWaiting();
        return false, BatchOver, left;
      }
      FirstTakes(q, State(), count, old(schedule));
      if event.contact !in inflight {
        return true, BatchOver, left;
      }
      left := left - 1;
      var v := FirstReply(event.contact, event.reply);
      if v.Found? {
        return false, ValueFound(v.result), left;
      }
      if v.NothingCloser? {
        return false, PhaseOver, left;
      }
      return left != 0, BatchOver, left;
    }

    // The first phase's inner loop. Late replies to earlier batches are counted as if they belonged to this one, so a
    // batch that was not empty takes no more replies than it has queries.
    method FirstBatch(batch: nat) returns (exit: Exit)
      requires Valid() && |answered| < 20 && batch <= 3 && |inflight| <= batch + 3 * timeouts && valued == {}
      modifies this`inflight, this`schedule, this`past, this`timeouts, this`answered, this`failed, this`valued
      modifies heap, heap.pq, active
      ensures Valid() && Bounded() && Ended(exit) && old(heap.nodeSet) <= heap.nodeSet
      ensures old(past) + old(schedule) == past + schedule
      ensures Progress(exit, State(), schedule) == FirstBatchRun(q, old(State()), batch, old(schedule))
      ensures exit == BatchOver ==> |inflight| <= 3 * timeouts
    {
      hide Valid, State, FirstBatchRun;
      var count: int := batch;
      while |schedule| > 0
        invariant Valid() && valued == {} && old(heap.nodeSet) <= heap.nodeSet && timeouts == old(timeouts)
        invariant old(past) + old(schedule) == past + schedule
        invariant FirstBatchRun(q, State(), count, schedule) == FirstBatchRun(q, old(State()), batch, old(schedule))
        invariant count <= 3 && |inflight| <= count + 3 * timeouts
        invariant batch > 0 ==> 1 <= count && |answered| <= |old(answered)| + batch - count
        invariant batch == 0 ==> |answered| + |inflight| <= |old(answered)| + 3 * timeouts
        decreases |schedule|
      {
        var more;
        more, exit, count := TakeFirst(count);
        if !more {
          return;
        }
      }
      FirstDry(q, State(), count, schedule);
      return Dry;
    }

    method FirstPhase() returns (exit: Exit)
      requires Valid() && Bounded() && |inflight| <= 3 * timeouts && valued == {}
      modifies this`inflight, this`schedule, this`past, this`timeouts, this`answered, this`failed, this`valued,
          this`queried
      modifies heap, heap.pq, active
      ensures Valid() && Bounded() && Ended(exit) && exit != BatchOver && old(heap.nodeSet) <= heap.nodeSet
      ensures old(past) + old(schedule) == past + schedule
      ensures Progress(exit, State(), schedule) == FirstPhaseRun(q, old(State()), old(schedule))
    {
      hide Valid, FirstPhaseRun, FirstBatchRun, Batch, Dispatched, ClosestAnswer, Timeouts;
      SizeOfActive();
      while |active.list| < 20
        invariant Valid() && Bounded() && |inflight| <= 3 * timeouts && valued == {}
            && old(heap.nodeSet) <= heap.nodeSet
        invariant |active.list| == |answered| && old(past) + old(schedule) == past + schedule
        invariant FirstPhaseRun(q, State(), schedule) == FirstPhaseRun(q, old(State()), old(schedule))
        decreases |schedule|
      {
        FirstPhaseTurn(q, State(), schedule);
        var count := Dispatch(3);
        exit := FirstBatch(count);
        if exit != BatchOver {
          return;
        }
        SizeOfActive();
      }
      PhasesStop(q, State(), schedule);
      return PhaseOver;
    }

    // One turn of the second phase's inner loop.
    method TakeSecond(count: int) returns (more: bool, exit: Exit, left: int)
      requires Valid() && schedule != [] && valued == {}
      modifies this`inflight, this`schedule, this`past, this`answered, this`failed, this`valued, active
      ensures Valid() && old(past) + old(schedule) == past + schedule && |schedule| < |old(schedule)|
      ensures if more
              then valued == {}
                   && SecondBatchRun(q, State(), left, schedule)
                       == SecondBatchRun(q, old(State()), count, old(schedule))
              else Ended(exit)
                   && Progress(exit, State(), schedule) == SecondBatchRun(q, old(State()), count, old(schedule))
      ensures if left == count then more && answered == old(answered)
              else left == count - 1 && |answered| <= |old(answered)| + 1
                   && (more ==> left != 0 && heap.Pending() != multiset{})
                   && (!more && exit == PhaseOver ==> heap.Pending() == multiset{})
      ensures heap.Pending() == old(heap.Pending())
    {
      hide Valid, AnsweredIn, SecondBatchRun, SecondStep, ClosestAnswer, Timeouts;
      left := count;
      var event := Next();
      SecondTakes(q, State(), count, old(schedule));
      if event.Timeout? || event.contact !in inflight {
        return true, BatchOver, left;
      }
      var v := SecondReply(event.contact, event.reply);
      if v.Found? {
        return false, ValueFound(v.result), left - 1;
      }
      left := left - 1;
      if left == 0 {
        return false, BatchOver, left;
      }
      var length := heap.Length();
      return length > 0, PhaseOver, left;
    }

    // The second phase's inner loop: it waits without a timer, and gives up when nothing is pending.
    method SecondBatch(batch: nat) returns (exit: Exit)
      requires Valid() && |answered| < 20 && |answered| + batch <= 20 && valued == {}
      requires batch == 0 ==> heap.Pending() == multiset{}
      modifies this`inflight, this`schedule, this`past, this`answered, this`failed, this`valued, active
      ensures Valid() && |answered| <= 20 && Ended(exit)
      ensures old(past) + old(schedule) == past + schedule
      ensures Progress(exit, State(), schedule) == SecondBatchRun(q, old(State()), batch, old(schedule))
      ensures exit == PhaseOver ==> heap.Pending() == multiset{}
    {
      hide Valid, State, SecondBatchRun;
      var count: int := batch;
      while |schedule| > 0
        invariant Valid() && valued == {} && |answered| <= 20 && heap.Pending() == old(heap.Pending())
        invariant old(past) + old(schedule) == past + schedule
        invariant SecondBatchRun(q, State(), count, schedule) == SecondBatchRun(q, old(State()), batch, old(schedule))
        invariant if batch > 0 then 1 <= count && |answered| <= |old(answered)| + batch - count
                  else count == 0 && |answered| == |old(answered)|
        decreases |schedule|
      {
        var more;
        more, exit, count := TakeSecond(count);
        if !more {
          return;
        }
      }
      SecondDry(q, State(), count, schedule);
      return Dry;
    }

    method SecondPhase() returns (exit: Exit)
      requires Valid() && Bounded() && valued == {}
      modifies this`inflight, this`schedule, this`past, this`answered, this`failed, this`valued, this`queried,
          heap.pq, active
      ensures Valid() && Bounded() && Ended(exit) && exit != BatchOver
      ensures old(past) + old(schedule) == past + schedule
      ensures Progress(exit, State(), schedule) == SecondPhaseRun(q, old(State()), old(schedule))
      ensures exit == PhaseOver ==> |answered| >= 20 || heap.Pending() == multiset{}
    {
      hide Valid, SecondPhaseRun, SecondBatchRun, Batch, Dispatched, ClosestAnswer, Timeouts;
      SizeOfActive();
      while |active.list| < 20
        invariant Valid() && Bounded() && valued == {}
        invariant |active.list| == |answered| && old(past) + old(schedule) == past + schedule
        invariant SecondPhaseRun(q, State(), schedule) == SecondPhaseRun(q, old(State()), old(schedule))
        decreases |schedule|
      {
        SecondPhaseTurn(q, State(), schedule);
        var count := Dispatch(20 - |active.list|);
        exit := SecondBatch(count);
        if exit != BatchOver {
          return;
        }
        SizeOfActive();
      }
      PhasesStop(q, State(), schedule);
      return PhaseOver;
    }

    method RunPhases() returns (exit: Exit)
      requires Valid() && Bounded() && |inflight| <= 3 * timeouts && valued == {}
      modifies this`inflight, this`schedule, this`past, this`timeouts, this`answered, this`failed, this`valued,
          this`queried
      modifies heap, heap.pq, active
      ensures Valid() && Bounded() && Ended(exit) && exit != BatchOver && old(heap.nodeSet) <= heap.nodeSet
      ensures old(past) + old(schedule) == past + schedule
      ensures Progress(exit, State(), schedule) == PhasesRun(q, old(State()), old(schedule))
      ensures exit == PhaseOver ==> |answered| >= 20 || heap.Pending() == multiset{}
    {
      hide Valid, State, FirstPhaseRun, SecondPhaseRun;
      exit := FirstPhase();
      if exit == PhaseOver {
        exit := SecondPhase();
      }
    }

    // Emptying the queue of answers lists them in increasing distance.
    method Drain() returns (list: seq<Contact>)
      requires Valid()
      modifies active
      ensures list == Batch(q.key, answered, |answered|)
      ensures multiset(list) == answered && Ascending(q.key, list)
    {
      hide D, Partition, IdsOf, HeapOrdered, Ascending, AllCloser, Unique, AllAnsweredIn, Batch, Popping;
      list := [];
      BatchFacts(q.key, answered, |answered|);
      PopNone(q.key, answered, |answered|);
      while |active.list| > 0
        invariant active.Valid() && Unique(multiset(active.list))
        invariant Popping(q.key, answered, |answered|, list, multiset(active.list))
        decreases |active.list|
      {
        ghost var before := multiset(active.list);
        PoppingRoom(q.key, answered, list, active.list);
        var x := active.HeapPop();
        PopOne(q.key, answered, |answered|, list, x, before, multiset(active.list));
        StaysUnique(before, multiset(active.list), x);
        SizeOfQueue(active.list);
        list := list + [x];
      }
      PopDone(q.key, answered, |answered|, list, multiset(active.list));
    }

    // What the result says about the run: how it relates to the answers, how many contacts it can list, and why the
    // lookup stopped.
    ghost predicate Explains(r: IterativeResult)
      reads this, heap, heap.pq
    {
      if heap.nodeSet == {} then r == IterativeResult(false, q.self, [], None)
      else
        && r.success
        && (q.findValue ==>
              r.activeList == [] && IsClosest(q.key, q.self, answered, r.target) && (r.value.Some? <==> valued != {}))
        && (!q.findValue ==>
              && r.value == None && r.target == q.self && valued == {}
              && multiset(r.activeList) == answered && Ascending(q.key, r.activeList)
              && |r.activeList| <= MaxAnswers(Timeouts(past)))
        && (r.value == None ==> |answered| >= 20 || heap.Pending() == multiset{})
        && (r.value.Some? ==> GaveLast(r.value) && past[|past| - 1].contact.nodeId in queried)
    }

    lemma ValuedWasQueried()
      requires Valid()
      ensures forall id: Id | id in valued :: id in queried
    {
    }

    lemma FailureExplained()
      requires heap.nodeSet == {}
      ensures Explains(IterativeResult(false, q.self, [], None))
    {
    }

    lemma ValueExplained(exit: Exit)
      requires Valid() && Ended(exit) && exit.ValueFound? && heap.nodeSet != {}
      ensures Explains(exit.result)
    {
      hide Valid, ClosestAnswer, IsClosest;
      ClosestAnswerIsClosest(q, answered);
      ValuedWasQueried();
    }

    // The result once both phases are over.
    method Conclude() returns (r: IterativeResult)
      requires Valid() && Bounded() && valued == {} && heap.nodeSet != {}
      requires |answered| >= 20 || heap.Pending() == multiset{}
      modifies active
      ensures Books() && State() == old(State()) && r == Final(q, answered) && Explains(r)
    {
      hide D, Partition, IdsOf, Unique, HeapOrdered, IsClosest, Ascending, AllAnsweredIn, ClosestAnswer, Batch,
          Timeouts;
      ClosestAnswerIsClosest(q, answered);
      if q.findValue {
        var ok, target := Closest();
        return IterativeResult(true, target, [], None);
      }
      var list := Drain();
      SizeOfQueue(list);
      return IterativeResult(true, q.self, list, None);
    }

    method Report(exit: Exit) returns (outcome: Outcome)
      requires Valid() && Bounded() && Ended(exit) && exit != BatchOver && heap.nodeSet != {}
      requires exit == PhaseOver ==> |answered| >= 20 || heap.Pending() == multiset{}
      modifies active
      ensures Books()
      ensures outcome == match exit
                         case Dry => Waiting
                         case ValueFound(result) => Returned(result)
                         case _ => Returned(Final(q, answered))
      ensures outcome.Returned? ==> Explains(outcome.result)
    {
      hide Valid, Books, Explains, Final;
      KeepsBooks();
      if exit == Dry {
        return Waiting;
      }
      if exit.ValueFound? {
        ValueExplained(exit);
        return Returned(exit.result);
      }
      var r := Conclude();
      return Returned(r);
    }
  }

  lemma SeenGrows(self: Id, seen: set<Id>, contacts: seq<Contact>)
    ensures seen <= SeenAfter(self, seen, contacts) && (self !in seen ==> self !in SeenAfter(self, seen, contacts))
  {
  }

  lemma TakeBatch(before: multiset<Contact>, rest: multiset<Contact>, inflight: multiset<Contact>, con: seq<Contact>)
    requires before == rest + multiset(con)
    ensures before - multiset(con) == rest && (con == [] ==> rest == before)
    ensures |inflight + multiset(con)| == |inflight| + |con|
  {
    SizeOfQueue(con);
  }

  lemma BatchSize(key: Id, m: multiset<Contact>, n: nat)
    requires Unique(m)
    ensures |Batch(key, m, n)| == (if n < |m| then n else |m|)
    ensures Batch(key, m, n) == [] && n > 0 ==> m == multiset{}
  {
    hide Unique, Batch;
    BatchFacts(key, m, n);
  }

  lemma RootIsNearest(key: Id, list: seq<Contact>, c: Contact)
    requires list != [] && c == list[0] && forall y: Contact | y in list :: D(key, list[0]) <= D(key, y)
    ensures IsNearest(key, multiset(list), c)
  {
    hide D;
    forall y: Contact | y in multiset(list)
      ensures y in list
    {
    }
  }

  lemma NoStall(key: Id, contacts: seq<Contact>)
    ensures !Stalls(key, multiset{}, contacts)
  {
  }

  // While answers remain queued, not all have been listed.
  lemma PoppingRoom(key: Id, all: multiset<Contact>, con: seq<Contact>, left: seq<Contact>)
    requires Popping(key, all, |all|, con, multiset(left)) && left != []
    ensures |con| < |all|
  {
    hide Batch;
    SizeOfQueue(left);
    SizeOfQueue(con);
  }

  lemma QueryOne(con: seq<Contact>, i: nat, rest: multiset<Contact>)
    requires i < |con|
    ensures rest + multiset(con[i..]) == rest + multiset(con[i + 1..]) + multiset{con[i]}
    ensures multiset(con[..i + 1]) == multiset(con[..i]) + multiset{con[i]}
  {
    assert con[i..] == [con[i]] + con[i + 1..];
    assert con[..i + 1] == con[..i] + [con[i]];
  }

  // One query: the contact goes from pending to in flight.
  lemma QueryStep(self: Id, node: Contact, p: multiset<Contact>, f: multiset<Contact>, a: set<Id>, x: set<Id>,
      v: set<Id>,
                  seen: set<Id>, queried: seq<Id>)
    requires Unique(p + multiset{node}) && Unique(f)
    requires Partition(self, IdsOf(p + multiset{node}), IdsOf(f), a, x, v, seen, queried)
    ensures Unique(p) && Unique(f + multiset{node})
    ensures Partition(self, IdsOf(p), IdsOf(f + multiset{node}), a, x, v, seen, queried + [node.nodeId])
  {
    hide Unique, IdsOf;
    UniqueRemove(p, node);
    QueriedIsNew(self, node.nodeId, IdsOf(p), IdsOf(f), a, x, v, seen, queried);
    PartitionQuery(self, node.nodeId, IdsOf(p), IdsOf(f), a, x, v, seen, queried);
    UniqueAdd(f, node);
  }

  lemma QueriedIsNew(self: Id, id: Id, p: set<Id>, f: set<Id>, a: set<Id>, x: set<Id>, v: set<Id>, seen: set<Id>,
                     queried: seq<Id>)
    requires Partition(self, p + {id}, f, a, x, v, seen, queried)
    ensures id !in f
  {
  }

  // The whole lookup, with the contacts that the routing table gives and the schedule of events as parameters. It is
  // the run that the schedule determines, and however it ends every discovered identifier is accounted for.
  method Iterative(self: Contact, key: Id, findValue: bool, initial: seq<Contact>, schedule: seq<Event>)
    returns (outcome: Outcome, l: Lookup)
    ensures outcome == Run(Query(self, key, findValue), initial, schedule)
    ensures l.q == Query(self, key, findValue) && l.past + l.schedule == schedule
    ensures l.Books()
    ensures outcome.Returned? ==> l.Explains(outcome.result)
  {
    hide Lookup.Valid, Lookup.Books, Lookup.Explains, PhasesRun, Started, Final;
    var q := Query(self, key, findValue);
    l := new Lookup(q, schedule);
    l.Discover(initial);
    StartedIs(q, initial);
    var length := l.heap.Length();
    StartedEmpty(q, initial);
    if length <= 0 {
      l.KeepsBooks();
      l.FailureExplained();
      return Returned(IterativeResult(false, self, [], None)), l;
    }
    var exit := l.RunPhases();
    outcome := l.Report(exit);
  }

  lemma StartedIs(q: Query, initial: seq<Contact>)
    ensures Started(q, initial) == Discovered(q, Search(multiset{}, {}, multiset{}, multiset{}), initial)
  {
  }

  // Nothing is pending at the start exactly when nothing was seen.
  lemma StartedEmpty(q: Query, initial: seq<Contact>)
    ensures |Started(q, initial).pending| == 0 <==> Started(q, initial).seen == {}
  {
    hide Fresh, SeenAfter;
    FreshIds(q.self.nodeId, {}, initial);
    var m := multiset(Fresh(q.self.nodeId, {}, initial));
    assert Started(q, initial).pending == m && Started(q, initial).seen == IdsOf(m) by {
      assert multiset{} + m == m;
      assert SeenAfter(q.self.nodeId, {}, initial) - {} == SeenAfter(q.self.nodeId, {}, initial);
    }
    if |m| > 0 {
      var c :| c in m;
      assert c.nodeId in IdsOf(m);
    }
  }
}
