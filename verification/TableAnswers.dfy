/** What the table's goroutine answers: for each of the four commands, what a client receives in terms of the updates
    and the stored values that came before it. */
module TableAnswers {
  import opened Bytes
  import opened Ids
  import opened BucketLists
  import opened Options
  import opened TableActor
  import RT = RoutingTable

  // ---------- What the store and the table are after a run ----------

  // The value that was last stored under a key, if any was.
  ghost function LastPut(steps: seq<Step>, key: Id): Option<seq<byte>> {
    if steps == [] then None
    else if LastPut(steps[1..], key).Some? then LastPut(steps[1..], key)
    else if steps[0].Put? && steps[0].key == key then Some(steps[0].value)
    else None
  }

  ghost function Stored(store: Store, key: Id): Option<seq<byte>> {
    if key in store then Some(store[key]) else None
  }

  // A key holds what was last put there, and otherwise what it held at the start.
  lemma {:induction false} StoreHoldsLastPut(start: System, steps: seq<Step>, s: System, key: Id)
    requires IsRun(start, steps, s)
    ensures Stored(s.store, key) == if LastPut(steps, key).Some? then LastPut(steps, key) else Stored(start.store, key)
    decreases |steps|
  {
    hide AnswerTo, ReplyChannel, Registered, Unregistered;
    if steps != [] {
      StoreHoldsLastPut(Next(start, steps[0]), steps[1..], s, key);
    }
  }

  // The updates among the steps.
  ghost function UpdatesOf(steps: seq<Step>): seq<RT.Event> {
    if steps == [] then []
    else (if steps[0].Update? then [RT.Event(steps[0].contact, steps[0].alive)] else []) + UpdatesOf(steps[1..])
  }

  // The table is the one that those updates make.
  lemma {:induction false} TableFollowsUpdates(start: System, before: seq<RT.Event>, steps: seq<Step>, s: System)
    requires IsRun(start, steps, s) && start.table == RT.Run(start.self, before)
    ensures s.self == start.self && s.table == RT.Run(s.self, before + UpdatesOf(steps))
    decreases |steps|
  {
    hide AnswerTo, ReplyChannel, Registered, Unregistered, RT.Run, RT.Updated;
    if steps == [] {
      assert before + [] == before;
    } else {
      var next := Next(start, steps[0]);
      if steps[0].Update? {
        var e := RT.Event(steps[0].contact, steps[0].alive);
        RunMore(start.self, before, e);
        TableFollowsUpdates(next, before + [e], steps[1..], s);
        assert (before + [e]) + UpdatesOf(steps[1..]) == before + UpdatesOf(steps);
      } else {
        TableFollowsUpdates(next, before, steps[1..], s);
        assert UpdatesOf(steps) == UpdatesOf(steps[1..]);
      }
    }
  }

  lemma RunMore(self: Id, before: seq<RT.Event>, e: RT.Event)
    ensures RT.Run(self, before + [e]) == RT.Updated(self, RT.Run(self, before), e.contact, e.alive)
  {
    hide RT.Updated;
    assert (before + [e])[..|before|] == before;
  }

  // ---------- What each command receives ----------

  // Twenty contacts of the table, or all there are, each identifier once; without the key's own when it is skipped.
  ghost predicate IsNearList(table: seq<Bucket>, key: Id, skipKey: bool, nodes: seq<Contact>) {
    && (forall i, j | 0 <= i < j < |nodes| :: nodes[i].nodeId != nodes[j].nodeId)
    && (forall i | 0 <= i < |nodes| :: nodes[i] in RT.TableContacts(table) && (skipKey ==> nodes[i].nodeId != key))
    && var n := |set c | c in RT.TableContacts(table) && (skipKey ==> c.nodeId != key)|;
       |nodes| == if n < 20 then n else 20
  }

  // The contact that some bucket holds under the identifier, or none when no bucket does.
  ghost predicate IsHeldContact(table: seq<Bucket>, key: Id, found: Option<Contact>) {
    match found
    case None => forall p: nat, i: nat :: !RT.At(table, p, i, key)
    case Some(c) => exists p: nat, i: nat :: RT.At(table, p, i, key) && table[p].contacts[i] == c
  }

  // Lists are in the order of the walk from the key's bucket.
  ghost predicate IsAnswer(self: Id, table: seq<Bucket>, value: Option<seq<byte>>, request: Request, answer: Answer)
    requires |table| == ID_BITS
  {
    match request
    case FindNode(key) =>
      answer.Nodes? && IsNearList(table, key, true, answer.nodes) && IsInWalkOrder(self, table, key, true, answer.nodes)
    case FindValue(key) =>
      && answer.NodesAndValue? && answer.value == value
      && IsNearList(table, key, true, answer.nodes) && IsInWalkOrder(self, table, key, true, answer.nodes)
    case FindContact(key) =>
      answer.Node? && IsHeldContact(table, key, answer.node)
    case FindAlpha(key) =>
      && answer.Nodes?
      && IsNearList(table, key, false, answer.nodes) && IsInWalkOrder(self, table, key, false, answer.nodes)
  }

  // Each contact stands at the place that the complete walk gives it.
  ghost predicate IsInWalkOrder(self: Id, table: seq<Bucket>, key: Id, skipKey: bool, nodes: seq<Contact>)
    requires |table| == ID_BITS
  {
    forall i | 0 <= i < |nodes| :: RT.Preceding(self, table, key, !skipKey, nodes[i]) == i
  }

  lemma ShortlistIsNear(self: Id, table: seq<Bucket>, key: Id, includeKey: bool)
    requires RT.TableOk(self, table)
    ensures IsNearList(table, key, !includeKey, RT.Shortlist(self, table, key, includeKey))
    ensures IsInWalkOrder(self, table, key, !includeKey, RT.Shortlist(self, table, key, includeKey))
  {
    hide RT.Shortlist, RT.TableContacts, RT.BucketOk, RT.Preceding;
    RT.ShortlistFacts(self, table, key, includeKey);
    var r := RT.Shortlist(self, table, key, includeKey);
    assert (set c | c in RT.TableContacts(table) && (!includeKey ==> c.nodeId != key))
        == RT.Eligible(table, key, includeKey);
    forall i | 0 <= i < |r|
      ensures r[i] in RT.TableContacts(table) && (!includeKey ==> r[i].nodeId != key)
    {
      assert r[i] in RT.Eligible(table, key, includeKey);
    }
    forall i | 0 <= i < |r|
      ensures RT.Preceding(self, table, key, includeKey, r[i]) == i
    {
      RT.PlaceInShortlist(self, table, key, includeKey, i);
    }
  }

  lemma LookupIsHeld(self: Id, table: seq<Bucket>, key: Id)
    requires RT.TableOk(self, table)
    ensures IsHeldContact(table, key, Lookup(self, table, key))
  {
    hide RT.TableOk, RT.Index, RT.Position;
    RT.FoundIffHeld(self, table, key);
  }

  lemma AnswerIsRight(self: Id, table: seq<Bucket>, store: Store, request: Request)
    requires RT.TableOk(self, table)
    ensures var value := Stored(store, request.key);
            IsAnswer(self, table, value, request, AnswerTo(self, table, store, request))
  {
    hide RT.TableOk, RT.Shortlist, IsNearList, IsInWalkOrder, IsHeldContact, Lookup;
    match request
    case FindNode(key) => ShortlistIsNear(self, table, key, false);
    case FindValue(key) => ShortlistIsNear(self, table, key, false);
    case FindContact(key) => LookupIsHeld(self, table, key);
    case FindAlpha(key) => ShortlistIsNear(self, table, key, true);
  }

  // Over every interleaving, a command receives the right answer for the table that the updates so far have made and
  // for the value last stored under its key.
  lemma AnswerDelivered(start: System, before: seq<RT.Event>, steps: seq<Step>, s: System)
    returns (i: nat, answer: Answer)
    requires IsStart(start) && IsRun(start, steps, s) && s.busy.Some? && start.table == RT.Run(start.self, before)
    ensures |s.table| == ID_BITS && Enabled(s, Deliver) && i < |s.sessions| && s.sessions[i].phase == Asked
    ensures Next(s, Deliver).sessions[i] == s.sessions[i].(phase := Done(answer))
    ensures var request := s.sessions[i].request;
            var put := LastPut(steps, request.key);
            IsAnswer(start.self, RT.Run(start.self, before + UpdatesOf(steps)),
                     if put.Some? then put else Stored(start.store, request.key), request, answer)
  {
    hide AnswerTo, RT.TableOk, RT.Run, IsAnswer, Stored, LastPut;
    i := AnswerReachesAsker(start, steps, s);
    var request := s.sessions[i].request;
    answer := AnswerTo(s.self, s.table, s.store, request);
    StartInv(start);
    RunInv(start, steps, s);
    AnswerIsRight(s.self, s.table, s.store, request);
    StoreHoldsLastPut(start, steps, s, request.key);
    TableFollowsUpdates(start, before, steps, s);
  }
}
