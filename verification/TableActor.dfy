/** The goroutine that owns the routing table, and its clients: each registers a channel under its identifier,
    sends one command and waits for the answer. Every interleaving is a sequence of steps. */
module TableActor {
  import opened Bytes
  import opened Ids
  import opened BucketLists
  import opened Options
  import RT = RoutingTable

  // The two channels that session i makes.
  datatype Channel = FindChannel(session: nat) | ContactChannel(session: nat)

  // Commands 1 to 4.
  datatype Request = FindNode(key: Id) | FindValue(key: Id) | FindContact(key: Id) | FindAlpha(key: Id)

  datatype Answer = Nodes(nodes: seq<Contact>) | NodesAndValue(nodes: seq<Contact>, value: Option<seq<byte>>)
      | Node(node: Option<Contact>)

  datatype Command = Command(clientId: Id, request: Request)

  type Store = map<Id, seq<byte>>

  ghost function Lookup(self: Id, table: seq<Bucket>, id: Id): Option<Contact>
    requires |table| == ID_BITS
  {
    var cs := table[RT.Index(self, id)].contacts;
    var i := RT.Position(cs, id);
    if i < |cs| then Some(cs[i]) else None
  }

  ghost function AnswerTo(self: Id, table: seq<Bucket>, store: Store, request: Request): Answer
    requires |table| == ID_BITS
  {
    match request
    case FindNode(key) => Nodes(RT.Shortlist(self, table, key, false))
    case FindValue(key) => NodesAndValue(RT.Shortlist(self, table, key, false),
        if key in store then Some(store[key]) else None)
    case FindContact(key) => Node(Lookup(self, table, key))
    case FindAlpha(key) => Nodes(RT.Shortlist(self, table, key, true))
  }

  // ---------- The actor ----------

  datatype Registry = Registry(forFind: map<Id, Channel>, forContact: map<Id, Channel>)

  function Registered(r: Registry, id: Id, request: Request, session: nat): Registry {
    if request.FindContact? then r.(forContact := r.forContact[id := ContactChannel(session)])
    else r.(forFind := r.forFind[id := FindChannel(session)])
  }

  // The channel an answer goes to; a missing entry is a nil channel, on which the actor would block for ever.
  function ReplyChannel(r: Registry, c: Command): Option<Channel> {
    var m := if c.request.FindContact? then r.forContact else r.forFind;
    if c.clientId in m then Some(m[c.clientId]) else None
  }

  function Unregistered(r: Registry, c: Command): Registry {
    if c.request.FindContact? then r.(forContact := r.forContact - {c.clientId})
        else r.(forFind := r.forFind - {c.clientId})
  }

  // ---------- Sessions and steps ----------

  datatype Phase = Start | Waiting | Asked | Done(answer: Answer)

  datatype Session = Session(id: Id, request: Request, phase: Phase)

  // `busy` is the command that the actor has taken and not yet answered.
  datatype System = System(self: Id, table: seq<Bucket>, store: Store, registry: Registry, busy: Option<Command>,
      sessions: seq<Session>)

  datatype Step = Register(i: nat) | Ask(i: nat) | Deliver | Update(contact: Contact, alive: bool)
      | Put(key: Id, value: seq<byte>)

  // Channels are unbuffered: while it answers a command the actor receives nothing, and it delivers only to a
  // session that waits on the channel.
  ghost predicate Enabled(s: System, step: Step) {
    match step
    case Register(i) => s.busy.None? && i < |s.sessions| && s.sessions[i].phase == Start
    case Ask(i) => s.busy.None? && i < |s.sessions| && s.sessions[i].phase == Waiting
    case Update(_, _) => s.busy.None?
    case Put(_, _) => true
    case Deliver =>
      && s.busy.Some?
      && var ch := ReplyChannel(s.registry, s.busy.value);
         ch.Some? && ch.value.session < |s.sessions| && s.sessions[ch.value.session].phase == Asked
         && ch.value.ContactChannel? == s.sessions[ch.value.session].request.FindContact?
  }

  ghost function Next(s: System, step: Step): (t: System)
    requires |s.table| == ID_BITS && Enabled(s, step)
    ensures |t.table| == ID_BITS
  {
    match step
    case Register(i) =>
      var c := s.sessions[i];
      s.(registry := Registered(s.registry, c.id, c.request, i), sessions := s.sessions[i := c.(phase := Waiting)])
    case Ask(i) =>
      var c := s.sessions[i];
      s.(busy := Some(Command(c.id, c.request)), sessions := s.sessions[i := c.(phase := Asked)])
    case Update(contact, alive) => s.(table := RT.Updated(s.self, s.table, contact, alive))
    case Put(key, value) => s.(store := s.store[key := value])
    case Deliver =>
      var c := s.busy.value;
      var j := ReplyChannel(s.registry, c).value.session;
      s.(registry := Unregistered(s.registry, c), busy := None,
         sessions := s.sessions[j := s.sessions[j].(phase := Done(AnswerTo(s.self, s.table, s.store, c.request)))])
  }

  ghost predicate IsRun(s: System, steps: seq<Step>, t: System)
    decreases |steps|
  {
    |s.table| == ID_BITS &&
    if steps == [] then s == t else Enabled(s, steps[0]) && IsRun(Next(s, steps[0]), steps[1..], t)
  }

  ghost predicate IsStart(s: System) {
    && RT.TableOk(s.self, s.table) && s.busy == None && s.registry == Registry(map[], map[])
    && (forall i | 0 <= i < |s.sessions| :: s.sessions[i].phase == Start)
    && (forall i, j | 0 <= i < j < |s.sessions| :: s.sessions[i].id != s.sessions[j].id)
  }

  // ---------- What every reachable state keeps ----------

  ghost predicate IsRegistered(s: System, i: nat)
    requires i < |s.sessions|
  {
    var c := s.sessions[i];
    if c.request.FindContact?
    then c.id in s.registry.forContact && s.registry.forContact[c.id] == ContactChannel(i)
    else c.id in s.registry.forFind && s.registry.forFind[c.id] == FindChannel(i)
  }

  ghost predicate Awaits(c: Session) {
    c.phase == Waiting || c.phase == Asked
  }

  ghost predicate DistinctSessions(s: System) {
    forall i, j | 0 <= i < j < |s.sessions| :: s.sessions[i].id != s.sessions[j].id
  }

  ghost predicate WaitingIsRegistered(s: System) {
    forall i | 0 <= i < |s.sessions| && Awaits(s.sessions[i]) :: IsRegistered(s, i)
  }

  ghost predicate RegisteredIsWaiting(s: System) {
    forall id, contact | (if contact then id in s.registry.forContact else id in s.registry.forFind) ::
        HeldBy(s, id, contact)
  }

  ghost predicate BusyWithAsked(s: System) {
    && (forall i | 0 <= i < |s.sessions| && s.sessions[i].phase == Asked ::
          s.busy == Some(Command(s.sessions[i].id, s.sessions[i].request)))
    && (s.busy.Some? ==> exists i :: 0 <= i < |s.sessions| && s.sessions[i].phase == Asked)
  }

  // A registration is held exactly for the sessions between registering and being answered, and the actor is
  // busy exactly with the one session that has asked.
  ghost predicate Inv(s: System) {
    && |s.table| == ID_BITS && RT.TableOk(s.self, s.table)
    && DistinctSessions(s) && WaitingIsRegistered(s) && RegisteredIsWaiting(s) && BusyWithAsked(s)
  }

  ghost predicate HeldBy(s: System, id: Id, contact: bool) {
    exists i :: 0 <= i < |s.sessions| && s.sessions[i].id == id && Awaits(s.sessions[i])
                && s.sessions[i].request.FindContact? == contact
  }

  lemma StartInv(s: System)
    requires IsStart(s)
    ensures Inv(s)
  {
  }

  lemma RegisterInv(s: System, i: nat)
    requires Inv(s) && Enabled(s, Register(i))
    ensures Inv(Next(s, Register(i)))
  {
    hide RT.TableOk;
    var t := Next(s, Register(i));
    forall j | 0 <= j < |t.sessions| && Awaits(t.sessions[j])
      ensures IsRegistered(t, j)
    {
      if j != i {
        assert IsRegistered(s, j);
        assert t.sessions[j].id != t.sessions[i].id;
      }
    }
    forall id, contact | if contact then id in t.registry.forContact else id in t.registry.forFind
      ensures HeldBy(t, id, contact)
    {
      if id == s.sessions[i].id && contact == s.sessions[i].request.FindContact? {
        assert Awaits(t.sessions[i]);
      } else {
        HeldElsewhere(s, t, id, contact, i);
      }
    }
  }

  // A registration of another identifier is untouched by what happens to session i.
  lemma HeldElsewhere(s: System, t: System, id: Id, contact: bool, i: nat)
    requires HeldBy(s, id, contact) && i < |s.sessions| == |t.sessions|
    requires forall j | 0 <= j < |s.sessions| && j != i :: t.sessions[j] == s.sessions[j]
    requires s.sessions[i].id == t.sessions[i].id && s.sessions[i].request == t.sessions[i].request
    requires Awaits(t.sessions[i]) || id != s.sessions[i].id || contact != s.sessions[i].request.FindContact?
    ensures HeldBy(t, id, contact)
  {
    var j :| 0 <= j < |s.sessions| && s.sessions[j].id == id && Awaits(s.sessions[j])
             && s.sessions[j].request.FindContact? == contact;
    assert t.sessions[j].id == id && Awaits(t.sessions[j]);
  }

  lemma AskInv(s: System, i: nat)
    requires Inv(s) && Enabled(s, Ask(i))
    ensures Inv(Next(s, Ask(i)))
  {
    hide RT.TableOk;
    var t := Next(s, Ask(i));
    forall j | 0 <= j < |t.sessions| && Awaits(t.sessions[j])
      ensures IsRegistered(t, j)
    {
      assert IsRegistered(s, j);
    }
    forall id, contact | if contact then id in t.registry.forContact else id in t.registry.forFind
      ensures HeldBy(t, id, contact)
    {
      HeldElsewhere(s, t, id, contact, i);
    }
    assert t.sessions[i].phase == Asked;
  }

  // The session that asked, and its place.
  lemma BusySession(s: System) returns (i: nat)
    requires Inv(s) && s.busy.Some?
    ensures i < |s.sessions| && s.sessions[i].phase == Asked && IsRegistered(s, i)
    ensures s.busy.value == Command(s.sessions[i].id, s.sessions[i].request)
    ensures forall j | 0 <= j < |s.sessions| && s.sessions[j].phase == Asked :: j == i
    ensures ReplyChannel(s.registry, s.busy.value)
         == Some(if s.sessions[i].request.FindContact? then ContactChannel(i) else FindChannel(i))
  {
    i :| 0 <= i < |s.sessions| && s.sessions[i].phase == Asked;
  }

  lemma OthersStayRegistered(s: System, i: nat, j: nat)
    requires Inv(s) && s.busy.Some? && Enabled(s, Deliver) && i < |s.sessions| && j < |s.sessions|
    requires s.busy.value == Command(s.sessions[i].id, s.sessions[i].request) && s.sessions[i].phase == Asked
    requires ReplyChannel(s.registry, s.busy.value).value.session == i
    requires Awaits(Next(s, Deliver).sessions[j])
    ensures IsRegistered(Next(s, Deliver), j)
  {
    hide RT.TableOk, AnswerTo;
    assert IsRegistered(s, j);
    assert j != i && s.sessions[j].id != s.sessions[i].id;
  }

  lemma DeliverInv(s: System)
    requires Inv(s) && Enabled(s, Deliver)
    ensures Inv(Next(s, Deliver))
  {
    hide RT.TableOk, AnswerTo;
    var t := Next(s, Deliver);
    var i := BusySession(s);
    forall j | 0 <= j < |t.sessions| && Awaits(t.sessions[j])
      ensures IsRegistered(t, j)
    {
      OthersStayRegistered(s, i, j);
    }
    hide IsRegistered;
    forall id, contact | if contact then id in t.registry.forContact else id in t.registry.forFind
      ensures HeldBy(t, id, contact)
    {
      HeldElsewhere(s, t, id, contact, i);
    }
  }

  lemma NextInv(s: System, step: Step)
    requires Inv(s) && Enabled(s, step)
    ensures Inv(Next(s, step))
  {
    hide AnswerTo;
    match step
    case Register(i) => RegisterInv(s, i);
    case Ask(i) => AskInv(s, i);
    case Deliver => DeliverInv(s);
    case Update(contact, alive) => TableInv(s, contact, alive);
    case Put(key, value) => StoreInv(s, key, value);
  }

  lemma TableInv(s: System, contact: Contact, alive: bool)
    requires Inv(s) && Enabled(s, Update(contact, alive))
    ensures Inv(Next(s, Update(contact, alive)))
  {
    RT.UpdatedOk(s.self, s.table, contact, alive);
    hide RT.TableOk, RT.Updated;
    SameSessions(s, Next(s, Update(contact, alive)));
  }

  lemma StoreInv(s: System, key: Id, value: seq<byte>)
    requires Inv(s)
    ensures Inv(Next(s, Put(key, value)))
  {
    hide RT.TableOk;
    SameSessions(s, Next(s, Put(key, value)));
  }

  lemma SameSessions(s: System, t: System)
    requires Inv(s) && |t.table| == ID_BITS && RT.TableOk(t.self, t.table)
    requires t.sessions == s.sessions && t.registry == s.registry && t.busy == s.busy
    ensures Inv(t)
  {
    hide RT.TableOk;
    forall i | 0 <= i < |t.sessions| && Awaits(t.sessions[i])
      ensures IsRegistered(t, i)
    {
      assert IsRegistered(s, i);
    }
    forall id, contact | if contact then id in t.registry.forContact else id in t.registry.forFind
      ensures HeldBy(t, id, contact)
    {
      assert HeldBy(s, id, contact);
    }
  }

  // Over every interleaving of sessions with distinct identifiers.
  lemma {:induction false} RunInv(s: System, steps: seq<Step>, t: System)
    requires Inv(s) && IsRun(s, steps, t)
    ensures Inv(t)
    decreases |steps|
  {
    if steps != [] {
      NextInv(s, steps[0]);
      RunInv(Next(s, steps[0]), steps[1..], t);
    }
  }

  // The actor never blocks: for the command it has taken there is a registered channel with its receiver waiting.
  // The answer goes to the session that asked, to no other, and is the answer to its request; its registration
  // ends, and no other does.
  lemma AnswerReachesAsker(start: System, steps: seq<Step>, s: System) returns (i: nat)
    requires IsStart(start) && IsRun(start, steps, s) && s.busy.Some?
    ensures |s.table| == ID_BITS && Enabled(s, Deliver)
    ensures i < |s.sessions| && s.sessions[i].phase == Asked
    ensures var t, answer := Next(s, Deliver), AnswerTo(s.self, s.table, s.store, s.sessions[i].request);
            && t.busy == None
            && t.sessions == s.sessions[i := s.sessions[i].(phase := Done(answer))]
            && (forall id :: id in t.registry.forFind <==>
                  id in s.registry.forFind && (id != s.sessions[i].id || s.sessions[i].request.FindContact?))
            && (forall id :: id in t.registry.forContact <==>
                  id in s.registry.forContact && (id != s.sessions[i].id || !s.sessions[i].request.FindContact?))
  {
    hide RT.TableOk, AnswerTo;
    StartInv(start);
    RunInv(start, steps, s);
    i := BusySession(s);
  }

  // Registrations are exactly the sessions that wait for an answer.
  lemma RegisteredWhileWaiting(start: System, steps: seq<Step>, s: System, i: nat)
    requires IsStart(start) && IsRun(start, steps, s) && i < |s.sessions|
    ensures var c := s.sessions[i];
            && (Awaits(c) ==> IsRegistered(s, i))
            && (!Awaits(c) ==> c.id !in s.registry.forFind && c.id !in s.registry.forContact)
  {
    hide RT.TableOk;
    StartInv(start);
    RunInv(start, steps, s);
    if !Awaits(s.sessions[i]) {
      NotHeld(s, i, true);
      NotHeld(s, i, false);
    }
  }

  lemma NotHeld(s: System, i: nat, contact: bool)
    requires forall i, j | 0 <= i < j < |s.sessions| :: s.sessions[i].id != s.sessions[j].id
    requires i < |s.sessions| && !Awaits(s.sessions[i])
    ensures !HeldBy(s, s.sessions[i].id, contact)
  {
    if HeldBy(s, s.sessions[i].id, contact) {
      var j :| 0 <= j < |s.sessions| && s.sessions[j].id == s.sessions[i].id && Awaits(s.sessions[j])
               && s.sessions[j].request.FindContact? == contact;
      assert false;
    }
  }

  // ---------- The actor as a class ----------

  class TableActor {
    const table: RT.RoutingTable
    var forFind: map<Id, Channel>
    var forContact: map<Id, Channel>

    constructor (table: RT.RoutingTable)
      ensures this.table == table && Maps() == Registry(map[], map[])
    {
      this.table := table;
      forFind, forContact := map[], map[];
    }

    ghost function Maps(): Registry
      reads this
    {
      Registry(forFind, forContact)
    }

    // A client registers the channel on which it will wait.
    method RegisterClient(id: Id, request: Request, session: nat)
      modifies this
      ensures Maps() == Registered(old(Maps()), id, request, session)
    {
      if request.FindContact? {
        forContact := forContact[id := ContactChannel(session)];
      } else {
        forFind := forFind[id := FindChannel(session)];
      }
    }

    // A contact was seen, and the table is told.
    method UpdateTable(contact: Contact, alive: bool)
      requires table.Valid()
      modifies table.buckets[RT.Index(table.selfId, contact.nodeId)],
          table.buckets[RT.Index(table.selfId, contact.nodeId)].nodes
      ensures table.Valid() && table.State() == RT.Updated(table.selfId, old(table.State()), contact, alive)
    {
      table.UpDate(contact, alive);
    }

    method ComputeAnswer(store: Store, request: Request) returns (answer: Answer)
      requires table.Valid()
      ensures answer == AnswerTo(table.selfId, table.State(), store, request)
    {
      hide RT.Index, RT.Shortlist, RT.TableOk;
      match request {
        case FindNode(key) =>
          var nodes := table.FindNear(key, false);
          answer := Nodes(nodes);
        case FindValue(key) =>
          var nodes := table.FindNear(key, false);
          answer := NodesAndValue(nodes, if key in store then Some(store[key]) else None);
        case FindContact(key) =>
          var node := table.FindContact(key);
          answer := Node(if node == null then None else Some(node.contact));
        case FindAlpha(key) =>
          var nodes := table.FindNear(key, true);
          answer := Nodes(nodes);
      }
    }

    // A command is answered on the channel registered for it, and the registration is forgotten.
    method Find(cmd: Command, store: Store) returns (channel: Option<Channel>, answer: Answer)
      requires table.Valid()
      modifies this
      ensures channel == ReplyChannel(old(Maps()), cmd)
      ensures answer == AnswerTo(table.selfId, old(table.State()), store, cmd.request)
      ensures Maps() == if channel.Some? then Unregistered(old(Maps()), cmd) else old(Maps())
    {
      hide AnswerTo;
      ghost var before := table.State();
      answer := ComputeAnswer(store, cmd.request);
      assert table.State() == before;
      if cmd.request.FindContact? {
        channel := if cmd.clientId in forContact then Some(forContact[cmd.clientId]) else None;
        forContact := forContact - {cmd.clientId};
      } else {
        channel := if cmd.clientId in forFind then Some(forFind[cmd.clientId]) else None;
        forFind := forFind - {cmd.clientId};
      }
    }
  }
}
