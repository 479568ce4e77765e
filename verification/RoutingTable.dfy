/** The routing table: 160 buckets indexed by prefix length, what every update keeps, and look-up by identifier. */
module RoutingTable {
  import opened Bytes
  import opened Ids
  import opened BucketLists
  import opened Sequences

  // ---------- Updates on the value of a table ----------

  // The bucket that an identifier belongs to.
  ghost function Index(self: Id, id: Id): (p: nat)
    ensures p < ID_BITS
  {
    PrefixLength(XorOf(id, self))
  }

  // The position of the first contact with the identifier, or the number of contacts.
  ghost function Position(cs: seq<Contact>, id: Id): (i: nat)
    ensures i <= |cs|
    ensures i < |cs| ==> cs[i].nodeId == id
    ensures forall j | 0 <= j < i :: cs[j].nodeId != id
  {
    if cs == [] || cs[0].nodeId == id then 0 else 1 + Position(cs[1..], id)
  }

  // A full bucket whose head does not answer the ping loses its head.
  ghost predicate Evicts(bucket: Bucket, contact: Contact, alive: bool) {
    Position(bucket.contacts, contact.nodeId) == |bucket.contacts| && bucket.length > 20 && !alive
  }

  ghost function UpdatedBucket(bucket: Bucket, contact: Contact, alive: bool): Bucket {
    var i := Position(bucket.contacts, contact.nodeId);
    if i < |bucket.contacts| then Touched(bucket, i)
    else if bucket.length <= 20 then Pushed(bucket, contact)
    else if !alive && bucket.contacts != [] then FrontReplaced(bucket, contact)
    else bucket
  }

  ghost function Updated(self: Id, table: seq<Bucket>, contact: Contact, alive: bool): (t: seq<Bucket>)
    requires |table| == ID_BITS
    ensures |t| == ID_BITS
  {
    var p := Index(self, contact.nodeId);
    table[p := UpdatedBucket(table[p], contact, alive)]
  }

  ghost predicate DistinctIds(cs: seq<Contact>) {
    forall i, j | 0 <= i < j < |cs| :: cs[i].nodeId != cs[j].nodeId
  }

  // What holds of the bucket at index p. The length field only ever overstates a bucket that is full.
  ghost predicate BucketOk(self: Id, p: nat, bucket: Bucket) {
    && (forall i | 0 <= i < |bucket.contacts| :: Index(self, bucket.contacts[i].nodeId) == p)
    && DistinctIds(bucket.contacts)
    && |bucket.contacts| <= 21
    && |bucket.contacts| <= bucket.length
    && (bucket.length > 20 ==> |bucket.contacts| == 21)
    && (bucket.length <= 20 ==> |bucket.contacts| == bucket.length)
  }

  ghost predicate TableOk(self: Id, table: seq<Bucket>) {
    && |table| == ID_BITS
    && forall p | 0 <= p < ID_BITS :: BucketOk(self, p, table[p])
  }

  lemma UpdatedBucketOk(self: Id, bucket: Bucket, contact: Contact, alive: bool)
    requires BucketOk(self, Index(self, contact.nodeId), bucket)
    ensures BucketOk(self, Index(self, contact.nodeId), UpdatedBucket(bucket, contact, alive))
  {
    hide Index, Position;
    var updated := UpdatedBucket(bucket, contact, alive);
    var i := Position(bucket.contacts, contact.nodeId);
    PositionFacts(bucket.contacts, contact.nodeId);
    if i < |bucket.contacts| && updated != bucket {
      var cs := bucket.contacts;
      forall j | 0 <= j < |cs|
        ensures updated.contacts[j] == if j < i then cs[j] else if j < |cs| - 1 then cs[j + 1] else cs[i]
      {
      }
    }
  }

  lemma PositionFacts(cs: seq<Contact>, id: Id)
    ensures Position(cs, id) <= |cs|
    ensures forall j | 0 <= j < Position(cs, id) :: cs[j].nodeId != id
  {
  }

  lemma {:induction false} PositionIsFirst(cs: seq<Contact>, id: Id, i: nat)
    requires i <= |cs| && forall j | 0 <= j < i :: cs[j].nodeId != id
    requires i < |cs| ==> cs[i].nodeId == id
    ensures Position(cs, id) == i
    decreases i
  {
    if i > 0 {
      PositionIsFirst(cs[1..], id, i - 1);
    }
  }

  lemma UpdatedOk(self: Id, table: seq<Bucket>, contact: Contact, alive: bool)
    requires TableOk(self, table)
    ensures TableOk(self, Updated(self, table, contact, alive))
  {
    hide Index, UpdatedBucket;
    UpdatedBucketOk(self, table[Index(self, contact.nodeId)], contact, alive);
  }

  // A bucket that turns contacts away has a second node to become the head.
  lemma FullBucketHasSuccessor(self: Id, table: seq<Bucket>, p: nat)
    requires TableOk(self, table) && p < ID_BITS
    ensures table[p].length > 20 ==> |table[p].contacts| >= 2
  {
    hide Index;
    assert BucketOk(self, p, table[p]);
  }

  // ---------- Whole runs ----------

  // One call of the update, with what the ping would say if it were sent.
  datatype Event = Event(contact: Contact, alive: bool)

  ghost function Run(self: Id, events: seq<Event>): (table: seq<Bucket>)
    ensures |table| == ID_BITS
  {
    if events == [] then seq(ID_BITS, _ => Bucket([], 0)) else
      var last := |events| - 1;
      Updated(self, Run(self, events[..last]), events[last].contact, events[last].alive)
  }

  // How many heads bucket p has lost.
  ghost function Evictions(self: Id, events: seq<Event>, p: nat): nat
    requires p < ID_BITS
  {
    if events == [] then 0 else
      var last := |events| - 1;
      var e, before := events[last], Run(self, events[..last]);
      Evictions(self, events[..last], p)
        + if Index(self, e.contact.nodeId) == p && Evicts(before[p], e.contact, e.alive) then 1 else 0
  }

  // After any run: every contact is in the bucket of its prefix length, no identifier occurs twice, no bucket
  // holds more than 21, and the length field is the real count plus the evictions so far.
  lemma {:induction false} RunOk(self: Id, events: seq<Event>, p: nat)
    requires p < ID_BITS
    ensures TableOk(self, Run(self, events))
    ensures Run(self, events)[p].length == |Run(self, events)[p].contacts| + Evictions(self, events, p)
  {
    hide Index, Position;
    if events != [] {
      RunOk(self, events[..|events| - 1], p);
      var e := events[|events| - 1];
      UpdatedOk(self, Run(self, events[..|events| - 1]), e.contact, e.alive);
    }
  }

  ghost function ContactIds(cs: seq<Contact>): set<Id> {
    set c | c in cs :: c.nodeId
  }

  // The distinct identifiers that a run has offered to bucket p.
  ghost function Offered(self: Id, events: seq<Event>, p: nat): set<Id> {
    set i | 0 <= i < |events| && Index(self, events[i].contact.nodeId) == p :: events[i].contact.nodeId
  }

  lemma ContactIdsSize(cs: seq<Contact>)
    requires DistinctIds(cs)
    ensures |ContactIds(cs)| == |cs|
  {
    var ids := seq(|cs|, i requires 0 <= i < |cs| => cs[i].nodeId);
    SizeOfDistinct(ids);
    assert (set h | h in ids) == ContactIds(cs) by {
      forall i | 0 <= i < |cs|
        ensures cs[i].nodeId in ids && ids[i] in ContactIds(cs)
      {
        assert ids[i] == cs[i].nodeId && cs[i] in cs;
      }
    }
  }

  // A bucket holds only what was offered, and all of it while there is room.
  ghost predicate Tracks(bucket: Bucket, offered: set<Id>) {
    ContactIds(bucket.contacts) <= offered && (|bucket.contacts| <= 20 ==> ContactIds(bucket.contacts) == offered)
  }

  lemma TracksUpdate(self: Id, bucket: Bucket, contact: Contact, alive: bool, offered: set<Id>)
    requires BucketOk(self, Index(self, contact.nodeId), bucket) && Tracks(bucket, offered)
    ensures Tracks(UpdatedBucket(bucket, contact, alive), offered + {contact.nodeId})
  {
    hide Index;
    var i := Position(bucket.contacts, contact.nodeId);
    if i < |bucket.contacts| {
      TouchedKeepsContacts(bucket, i);
      SameContactIds(Touched(bucket, i).contacts, bucket.contacts);
      assert bucket.contacts[i] in bucket.contacts;
    }
  }

  lemma SameContactIds(cs: seq<Contact>, ds: seq<Contact>)
    requires multiset(cs) == multiset(ds)
    ensures ContactIds(cs) == ContactIds(ds) && |cs| == |ds|
  {
    assert forall c: Contact :: c in cs <==> c in multiset(cs);
    assert forall c: Contact :: c in ds <==> c in multiset(ds);
    assert |multiset(cs)| == |cs| && |multiset(ds)| == |ds|;
  }

  lemma OfferedMore(self: Id, events: seq<Event>, p: nat)
    requires events != []
    ensures var front, id := events[..|events| - 1], events[|events| - 1].contact.nodeId;
            Offered(self, events, p) == if Index(self, id) == p then Offered(self, front, p) + {id}
                else Offered(self, front, p)
  {
    hide Index;
    var last := |events| - 1;
    forall i | 0 <= i < last
      ensures events[i] == events[..last][i]
    {
    }
  }

  lemma {:induction false} RunTracks(self: Id, events: seq<Event>, p: nat)
    requires p < ID_BITS
    ensures Tracks(Run(self, events)[p], Offered(self, events, p))
  {
    hide Index, UpdatedBucket, Tracks;
    if events == [] {
      TracksEmpty(self, p);
    } else {
      var last := |events| - 1;
      var e := events[last];
      RunTracks(self, events[..last], p);
      OfferedMore(self, events, p);
      RunOk(self, events[..last], p);
      if Index(self, e.contact.nodeId) == p {
        TracksUpdate(self, Run(self, events[..last])[p], e.contact, e.alive, Offered(self, events[..last], p));
      }
    }
  }

  lemma TracksEmpty(self: Id, p: nat)
    ensures Tracks(Bucket([], 0), Offered(self, [], p))
  {
  }

  // How many contacts a bucket holds after any run: as many as distinct identifiers were offered to it, up to 21.
  lemma Occupancy(self: Id, events: seq<Event>, p: nat)
    requires p < ID_BITS
    ensures var offered := |Offered(self, events, p)|;
            |Run(self, events)[p].contacts| == if offered <= 21 then offered else 21
  {
    hide Index, Offered, Run;
    var bucket := Run(self, events)[p];
    RunTracks(self, events, p);
    RunOk(self, events, p);
    assert BucketOk(self, p, bucket);
    ContactIdsSize(bucket.contacts);
    SubsetSize(ContactIds(bucket.contacts), Offered(self, events, p));
  }

  lemma OppositeIndex(self: Id, n: nat)
    requires n < 76
    ensures Index(self, Opposite(self, n)) == 0
  {
    XorSymmetric(Opposite(self, n), self);
    XorInvolution(self, FarDistance(n));
  }

  // The bound of 21 is reached, in every table.
  lemma BucketOf21(self: Id) returns (events: seq<Event>)
    ensures |Run(self, events)[0].contacts| == 21
  {
    hide Index, Run, Opposite;
    events := seq(21, i requires 0 <= i < 21 => Event(Contact(Opposite(self, i), [], 0), true));
    var ids: seq<Id> := seq(21, i requires 0 <= i < 21 => Opposite(self, i));
    forall i, j | 0 <= i < j < 21
      ensures ids[i] != ids[j]
    {
      OppositeDiffers(self, i, j);
    }
    SizeOfDistinct(ids);
    forall i | 0 <= i < 21
      ensures ids[i] in Offered(self, events, 0)
    {
      OppositeIndex(self, i);
      assert events[i].contact.nodeId == ids[i];
    }
    assert (set h | h in ids) == (set h: Id | h in ids);
    var all := set h: Id | h in ids;
    assert |all| == 21;
    SubsetSize(all, Offered(self, events, 0));
    assert |Offered(self, events, 0)| >= 21;
    Occupancy(self, events, 0);
  }

  // The drift never changes a decision: the length field admits exactly when the real count would.
  lemma LengthDecidesAsCount(self: Id, events: seq<Event>, p: nat)
    requires p < ID_BITS
    ensures var bucket := Run(self, events)[p];
            && (bucket.length <= 20 <==> |bucket.contacts| <= 20)
            && (bucket.length > 20 ==> |bucket.contacts| >= 2)
  {
    RunOk(self, events, p);
  }

  ghost predicate At(table: seq<Bucket>, p: nat, i: nat, id: Id) {
    p < |table| && i < |table[p].contacts| && table[p].contacts[i].nodeId == id
  }

  lemma OnePlace(self: Id, table: seq<Bucket>, p: nat, i: nat, q: nat, j: nat, id: Id)
    requires TableOk(self, table) && At(table, p, i, id) && At(table, q, j, id)
    ensures p == q == Index(self, id) && i == j
  {
    hide Index;
    assert BucketOk(self, p, table[p]) && BucketOk(self, q, table[q]);
  }

  // The first position in its own bucket tells where in the table an identifier is, if anywhere.
  lemma FoundIffHeld(self: Id, table: seq<Bucket>, id: Id)
    requires TableOk(self, table)
    ensures var p := Index(self, id);
            var i := Position(table[p].contacts, id);
            if i < |table[p].contacts| then At(table, p, i, id) else forall q: nat, j: nat :: !At(table, q, j, id)
  {
    hide Index;
    var p := Index(self, id);
    forall q: nat, j: nat | At(table, q, j, id)
      ensures q == p
    {
      OnePlace(self, table, q, j, q, j, id);
    }
  }

  // Moving a contact to the tail keeps the contacts, their number, the length field and the head. The contact
  // ends up last unless it heads a longer bucket.
  lemma TouchedKeepsContacts(bucket: Bucket, i: nat)
    requires i < |bucket.contacts|
    ensures var t := Touched(bucket, i);
            && multiset(t.contacts) == multiset(bucket.contacts)
            && t.length == bucket.length && t.contacts[0] == bucket.contacts[0]
            && (DistinctIds(bucket.contacts) ==>
                  (t.contacts[|t.contacts| - 1] == bucket.contacts[i] <==> i != 0 || |bucket.contacts| == 1))
  {
    var cs := bucket.contacts;
    assert cs == cs[..i] + [cs[i]] + cs[i + 1..];
  }

  // ---------- The two-sided walk over the buckets ----------

  // The buckets at distance i from p: the lower one first, where they exist.
  function Ring(p: nat, i: nat): seq<nat> {
    (if p >= i then [p - i] else []) + (if p + i < ID_BITS then [p + i] else [])
  }

  ghost function Walk(p: nat, i: nat): seq<nat> {
    if i == 0 then [p] else Walk(p, i - 1) + Ring(p, i)
  }

  // The last distance at which there is a bucket on either side.
  ghost function Reach(p: nat): nat
    requires p < ID_BITS
  {
    if p > ID_BITS - 1 - p then p else ID_BITS - 1 - p
  }

  lemma {:induction false} WalkMembers(p: nat, i: nat)
    requires p < ID_BITS
    ensures forall q: nat :: q in Walk(p, i) <==> q < ID_BITS && p <= q + i && q <= p + i
    ensures Distinct(Walk(p, i))
  {
    if i > 0 {
      WalkMembers(p, i - 1);
      var w, r := Walk(p, i - 1), Ring(p, i);
      forall a, b | 0 <= a < b < |w + r|
        ensures (w + r)[a] != (w + r)[b]
      {
        if b < |w| {
          assert w[a] != w[b];
        } else if a < |w| {
          assert w[a] in w;
        }
      }
    }
  }

  // From every start the walk visits each of the 160 buckets exactly once.
  lemma WalkVisitsEachOnce(p: nat)
    requires p < ID_BITS
    ensures forall q: nat :: q < ID_BITS <==> q in Walk(p, Reach(p))
    ensures Distinct(Walk(p, Reach(p))) && InRange(Walk(p, Reach(p)), ID_BITS)
  {
    var w := Walk(p, Reach(p));
    WalkMembers(p, Reach(p));
    forall j | 0 <= j < |w|
      ensures w[j] < ID_BITS
    {
      assert w[j] in w;
    }
  }

  // ---------- What the walk collects ----------

  const K := 20

  // A bucket's contacts in order, without the target unless it is included.
  ghost function Kept(cs: seq<Contact>, id: Id, includeKey: bool): (kept: seq<Contact>) {
    if cs == [] then [] else
      var last := |cs| - 1;
      Kept(cs[..last], id, includeKey) + if includeKey || cs[last].nodeId != id then [cs[last]] else []
  }

  ghost predicate InRange(order: seq<nat>, n: nat) {
    forall j | 0 <= j < |order| :: order[j] < n
  }

  ghost function Collected(table: seq<Bucket>, order: seq<nat>, id: Id, includeKey: bool): seq<Contact>
    requires InRange(order, |table|)
  {
    if order == [] then [] else
      var last := |order| - 1;
      Collected(table, order[..last], id, includeKey) + Kept(table[order[last]].contacts, id, includeKey)
  }

  ghost function FirstK(cs: seq<Contact>): (first: seq<Contact>)
    ensures |first| == if |cs| < K then |cs| else K
  {
    if |cs| < K then cs else cs[..K]
  }

  // The order of a complete walk for the target.
  ghost function Route(self: Id, id: Id): (order: seq<nat>)
    ensures InRange(order, ID_BITS)
  {
    WalkVisitsEachOnce(Index(self, id));
    Walk(Index(self, id), Reach(Index(self, id)))
  }

  function Apart(p: nat, q: nat): nat {
    if p < q then q - p else p - q
  }

  lemma {:induction false} WalkByDistance(p: nat, i: nat, a: nat, b: nat)
    requires p < ID_BITS && a < b < |Walk(p, i)|
    ensures var x, y := Walk(p, i)[a], Walk(p, i)[b];
            Apart(p, x) < Apart(p, y) || (Apart(p, x) == Apart(p, y) && x < p < y)
    decreases i
  {
    if i > 0 {
      var w := Walk(p, i - 1);
      WalkMembers(p, i - 1);
      if b < |w| {
        WalkByDistance(p, i - 1, a, b);
      } else if a < |w| {
        assert w[a] in w;
      }
    }
  }

  // The complete walk goes outwards from the target's bucket, at each distance the lower bucket first.
  lemma RouteOrder(self: Id, id: Id, a: nat, b: nat)
    requires a < b < |Route(self, id)|
    ensures var p, x, y := Index(self, id), Route(self, id)[a], Route(self, id)[b];
            Apart(p, x) < Apart(p, y) || (Apart(p, x) == Apart(p, y) && x < p < y)
    ensures forall q: nat :: q in Route(self, id) <==> q < ID_BITS
  {
    hide Index;
    WalkVisitsEachOnce(Index(self, id));
    WalkByDistance(Index(self, id), Reach(Index(self, id)), a, b);
  }

  // What a complete walk returns: the first 20 contacts in the order of the walk.
  ghost function Shortlist(self: Id, table: seq<Bucket>, id: Id, includeKey: bool): (r: seq<Contact>)
    requires |table| == ID_BITS
  {
    FirstK(Collected(table, Route(self, id), id, includeKey))
  }

  lemma {:induction false} KeptMembers(cs: seq<Contact>, id: Id, includeKey: bool)
    ensures forall c: Contact :: c in Kept(cs, id, includeKey) <==> c in cs && (includeKey || c.nodeId != id)
    ensures DistinctIds(cs) ==> DistinctIds(Kept(cs, id, includeKey))
  {
    if cs != [] {
      var last := |cs| - 1;
      KeptMembers(cs[..last], id, includeKey);
      assert cs == cs[..last] + [cs[last]];
      forall c: Contact | c in Kept(cs[..last], id, includeKey) && DistinctIds(cs)
        ensures c.nodeId != cs[last].nodeId
      {
        assert c in cs[..last];
      }
    }
  }

  ghost function TableContacts(table: seq<Bucket>): set<Contact> {
    set p, i | 0 <= p < |table| && 0 <= i < |table[p].contacts| :: table[p].contacts[i]
  }

  lemma {:induction false} CollectedMembers(table: seq<Bucket>, order: seq<nat>, id: Id, includeKey: bool, c: Contact)
    requires InRange(order, |table|)
    ensures c in Collected(table, order, id, includeKey)
            <==> (includeKey || c.nodeId != id) && exists j :: 0 <= j < |order| && c in table[order[j]].contacts
  {
    if order != [] {
      var last := |order| - 1;
      CollectedMembers(table, order[..last], id, includeKey, c);
      KeptMembers(table[order[last]].contacts, id, includeKey);
      if j :| 0 <= j < |order| && c in table[order[j]].contacts {
        assert j < last ==> order[..last][j] == order[j];
      }
    }
  }

  lemma InDifferentBuckets(self: Id, table: seq<Bucket>, q: nat, q': nat, c: Contact, d: Contact)
    requires TableOk(self, table) && q < ID_BITS && q' < ID_BITS && q != q'
    requires c in table[q'].contacts && d in table[q].contacts
    ensures c.nodeId != d.nodeId
  {
    hide Index;
    assert BucketOk(self, q, table[q]) && BucketOk(self, q', table[q']);
  }

  lemma DistinctJoin(cs: seq<Contact>, ds: seq<Contact>)
    requires DistinctIds(cs) && DistinctIds(ds)
    requires forall c: Contact, d: Contact | c in cs && d in ds :: c.nodeId != d.nodeId
    ensures DistinctIds(cs + ds)
  {
  }

  lemma {:induction false} CollectedDistinct(self: Id, table: seq<Bucket>, order: seq<nat>, id: Id, includeKey: bool)
    requires TableOk(self, table) && InRange(order, ID_BITS)
    requires Distinct(order)
    ensures DistinctIds(Collected(table, order, id, includeKey))
  {
    hide Index, DistinctIds;
    if order != [] {
      var last := |order| - 1;
      var front, q := order[..last], order[last];
      var cs, kept := Collected(table, front, id, includeKey), Kept(table[q].contacts, id, includeKey);
      CollectedDistinct(self, table, front, id, includeKey);
      KeptMembers(table[q].contacts, id, includeKey);
      assert BucketOk(self, q, table[q]);
      forall c: Contact, d: Contact | c in cs && d in kept
        ensures c.nodeId != d.nodeId
      {
        CollectedMembers(table, front, id, includeKey, c);
        var j :| 0 <= j < |front| && c in table[front[j]].contacts;
        InDifferentBuckets(self, table, q, front[j], c, d);
      }
      DistinctJoin(cs, kept);
    } else {
      assert DistinctIds([]) by {
        DistinctEmpty();
      }
    }
  }

  lemma DistinctEmpty()
    ensures DistinctIds([])
  {
  }

  // The contacts that a walk may return.
  ghost function Eligible(table: seq<Bucket>, id: Id, includeKey: bool): set<Contact> {
    set c | c in TableContacts(table) && (includeKey || c.nodeId != id)
  }

  // A complete walk meets exactly the eligible contacts.
  lemma WalkMeetsAll(table: seq<Bucket>, p: nat, id: Id, includeKey: bool, c: Contact)
    requires |table| == ID_BITS && p < ID_BITS && InRange(Walk(p, Reach(p)), ID_BITS)
    ensures c in Collected(table, Walk(p, Reach(p)), id, includeKey) <==> c in Eligible(table, id, includeKey)
  {
    hide Walk, Reach;
    var order := Walk(p, Reach(p));
    WalkVisitsEachOnce(p);
    CollectedMembers(table, order, id, includeKey, c);
    if c in TableContacts(table) {
      var q, i :| 0 <= q < |table| && 0 <= i < |table[q].contacts| && table[q].contacts[i] == c;
      assert q in order;
      var j :| 0 <= j < |order| && order[j] == q;
      assert c in table[order[j]].contacts;
    }
  }

  // The walk returns 20 of the eligible contacts, or all of them if there are fewer, with distinct identifiers.
  lemma ShortlistFacts(self: Id, table: seq<Bucket>, id: Id, includeKey: bool)
    requires TableOk(self, table)
    ensures var r, n := Shortlist(self, table, id, includeKey), |Eligible(table, id, includeKey)|;
            && |r| == (if n < 20 then n else 20)
            && DistinctIds(r)
            && forall c: Contact | c in r :: c in Eligible(table, id, includeKey)
  {
    hide Index, Walk, Reach, Eligible;
    var p := Index(self, id);
    var order := Walk(p, Reach(p));
    WalkVisitsEachOnce(p);
    var all := Collected(table, order, id, includeKey);
    CollectedDistinct(self, table, order, id, includeKey);
    forall c: Contact
      ensures c in all <==> c in Eligible(table, id, includeKey)
    {
      WalkMeetsAll(table, p, id, includeKey, c);
    }
    assert (set c | c in all) == Eligible(table, id, includeKey);
    SizeOfDistinct(all);
  }

  lemma {:induction false} WalkStartsAtHome(table: seq<Bucket>, p: nat, i: nat, id: Id, includeKey: bool)
    requires p < |table| && InRange(Walk(p, i), |table|)
    ensures Kept(table[p].contacts, id, includeKey) <= Collected(table, Walk(p, i), id, includeKey)
    decreases i
  {
    if i == 0 {
      assert Walk(p, 0)[..0] == [];
    } else {
      var w, r := Walk(p, i - 1), Ring(p, i);
      assert forall j | 0 <= j < |w| :: Walk(p, i)[j] == w[j];
      WalkStartsAtHome(table, p, i - 1, id, includeKey);
      CollectedGrows(table, w, r, id, includeKey);
    }
  }

  lemma {:induction false} CollectedGrows(table: seq<Bucket>, w: seq<nat>, r: seq<nat>, id: Id, includeKey: bool)
    requires InRange(w + r, |table|) && InRange(w, |table|)
    ensures Collected(table, w, id, includeKey) <= Collected(table, w + r, id, includeKey)
    decreases |r|
  {
    if r == [] {
      assert w + r == w;
    } else {
      var front := r[..|r| - 1];
      assert (w + r)[..|w + r| - 1] == w + front;
      CollectedGrows(table, w, front, id, includeKey);
    }
  }

  // Up to 20 contacts of the target's own bucket are all returned.
  lemma OwnBucketReturned(self: Id, table: seq<Bucket>, id: Id, c: Contact)
    requires TableOk(self, table)
    requires |Kept(table[Index(self, id)].contacts, id, false)| <= K
    requires c in table[Index(self, id)].contacts && c.nodeId != id
    ensures c in Shortlist(self, table, id, false)
  {
    hide Index, Walk, Reach;
    var p := Index(self, id);
    var own := Kept(table[p].contacts, id, false);
    WalkVisitsEachOnce(p);
    WalkStartsAtHome(table, p, Reach(p), id, false);
    KeptMembers(table[p].contacts, id, false);
    var i :| 0 <= i < |own| && own[i] == c;
    assert Collected(table, Walk(p, Reach(p)), id, false)[i] == c;
    assert Shortlist(self, table, id, false)[i] == c;
  }

  // When the target's own bucket has between 1 and 20 other contacts, no known contact is closer to the target
  // than every contact returned.
  lemma ClosestReturned(self: Id, table: seq<Bucket>, id: Id, far: Contact) returns (near: Contact)
    requires TableOk(self, table) && far in Eligible(table, id, false)
    requires 1 <= |Kept(table[Index(self, id)].contacts, id, false)| <= K
    ensures near in Shortlist(self, table, id, false)
    ensures Distance(id, near.nodeId) <= Distance(id, far.nodeId)
  {
    hide Walk, Reach;
    var p := Index(self, id);
    var own := Kept(table[p].contacts, id, false);
    KeptMembers(table[p].contacts, id, false);
    near := if far in table[p].contacts then far else own[0];
    assert near in own || near == far;
    OwnBucketReturned(self, table, id, near);
    if near != far {
      var q, i :| 0 <= q < |table| && 0 <= i < |table[q].contacts| && table[q].contacts[i] == far;
      assert BucketOk(self, q, table[q]) && BucketOk(self, p, table[p]);
      OwnPrefixIsCloser(self, id, near.nodeId, far.nodeId);
    }
  }

  // Everything eligible comes back exactly when there is room for it.
  lemma AllReturnedIffRoom(self: Id, table: seq<Bucket>, id: Id, includeKey: bool)
    requires TableOk(self, table)
    ensures (forall c: Contact | c in Eligible(table, id, includeKey) :: c in Shortlist(self, table, id, includeKey))
            <==> |Eligible(table, id, includeKey)| <= K
  {
    hide Shortlist, Eligible, Index;
    ShortlistFacts(self, table, id, includeKey);
    var r, e := Shortlist(self, table, id, includeKey), Eligible(table, id, includeKey);
    var returned := set c | c in r;
    DistinctContacts(r);
    SizeOfDistinct(r);
    if |e| <= K {
      SubsetOfSameSize(returned, e);
    } else if forall c: Contact | c in e :: c in r {
      SubsetSize(e, returned);
    }
  }

  lemma DistinctContacts(cs: seq<Contact>)
    requires DistinctIds(cs)
    ensures Distinct(cs)
  {
  }

  // ---------- What a list cut short leaves out ----------

  // How many eligible contacts a complete walk meets before a given one.
  ghost function Preceding(self: Id, table: seq<Bucket>, id: Id, includeKey: bool, c: Contact): nat
    requires |table| == ID_BITS
  {
    Position(Collected(table, Route(self, id), id, includeKey), c.nodeId)
  }

  // A contact comes back exactly when fewer than 20 eligible contacts precede it on the walk.
  lemma ReturnedIffFewPrecede(self: Id, table: seq<Bucket>, id: Id, includeKey: bool, c: Contact)
    requires TableOk(self, table) && c in Eligible(table, id, includeKey)
    ensures c in Shortlist(self, table, id, includeKey) <==> Preceding(self, table, id, includeKey, c) < K
  {
    hide Index, Walk, Reach, Eligible, Collected, Position;
    var p := Index(self, id);
    var all := Collected(table, Route(self, id), id, includeKey);
    WalkVisitsEachOnce(p);
    WalkMeetsAll(table, p, id, includeKey, c);
    CollectedDistinct(self, table, Route(self, id), id, includeKey);
    FirstKMembers(all, c);
  }

  // The contact at place i of the result has i eligible ones before it.
  lemma PlaceInShortlist(self: Id, table: seq<Bucket>, id: Id, includeKey: bool, i: nat)
    requires TableOk(self, table) && i < |Shortlist(self, table, id, includeKey)|
    ensures Preceding(self, table, id, includeKey, Shortlist(self, table, id, includeKey)[i]) == i
  {
    hide Index, Walk, Reach, Collected, Position;
    WalkVisitsEachOnce(Index(self, id));
    var all := Collected(table, Route(self, id), id, includeKey);
    CollectedDistinct(self, table, Route(self, id), id, includeKey);
    PositionIsFirst(all, all[i].nodeId, i);
  }

  // The result is the 20 nearest eligible contacts, or all of them, exactly when each of those has fewer than 20 before
  // it on the walk.
  lemma NearestReturnedIff(self: Id, table: seq<Bucket>, id: Id, includeKey: bool, nearest: set<Contact>)
    requires TableOk(self, table) && nearest <= Eligible(table, id, includeKey)
    requires |nearest| == if |Eligible(table, id, includeKey)| < K then |Eligible(table, id, includeKey)| else K
    requires forall c: Contact, d: Contact | c in nearest && d in Eligible(table, id, includeKey) && d !in nearest ::
               Distance(id, c.nodeId) < Distance(id, d.nodeId)
    ensures (set c | c in Shortlist(self, table, id, includeKey)) == nearest
            <==> forall c: Contact | c in nearest :: Preceding(self, table, id, includeKey, c) < K
  {
    hide Shortlist, Preceding, Eligible, Index;
    ShortlistFacts(self, table, id, includeKey);
    var r := Shortlist(self, table, id, includeKey);
    DistinctContacts(r);
    SizeOfDistinct(r);
    forall c: Contact | c in nearest
      ensures c in r <==> Preceding(self, table, id, includeKey, c) < K
    {
      ReturnedIffFewPrecede(self, table, id, includeKey, c);
    }
    var returned := set c | c in r;
    assert |returned| == |r|;
    if forall c: Contact | c in nearest :: c in r {
      SubsetOfSameSize(nearest, returned);
    }
  }

  lemma FirstKMembers(all: seq<Contact>, c: Contact)
    requires DistinctIds(all) && c in all
    ensures Position(all, c.nodeId) < |all| && all[Position(all, c.nodeId)] == c
    ensures c in FirstK(all) <==> Position(all, c.nodeId) < K
  {
    PrefixPosition(all, FirstK(all), c);
    PrefixPosition(all, all, c);
  }

  // In a list without repetitions, a first part holds what is at positions before its end.
  lemma PrefixPosition(all: seq<Contact>, part: seq<Contact>, c: Contact)
    requires DistinctIds(all) && part <= all && c in all
    ensures Position(all, c.nodeId) < |all| && all[Position(all, c.nodeId)] == c
    ensures Position(all, c.nodeId) < |part| <==> c in part
  {
    hide Position;
    var a :| 0 <= a < |all| && all[a] == c;
    PositionIsFirst(all, c.nodeId, a);
    assert forall b | 0 <= b < |part| :: part[b] == all[b];
  }

  // That number is known from the buckets alone: all that is kept of the buckets visited earlier, and what is kept
  // before the contact in its own.
  lemma PrecedingCount(self: Id, table: seq<Bucket>, id: Id, includeKey: bool, j: nat, i: nat)
    requires TableOk(self, table) && j < |Route(self, id)|
    requires i < |Kept(table[Route(self, id)[j]].contacts, id, includeKey)|
    ensures InRange(Route(self, id)[..j], ID_BITS)
    ensures Preceding(self, table, id, includeKey, Kept(table[Route(self, id)[j]].contacts, id, includeKey)[i])
         == |Collected(table, Route(self, id)[..j], id, includeKey)| + i
  {
    hide Index, Walk, Reach, Position, Kept;
    var w := Route(self, id);
    WalkVisitsEachOnce(Index(self, id));
    var all := Collected(table, w, id, includeKey);
    var kept := Kept(table[w[j]].contacts, id, includeKey);
    assert w == w[..j + 1] + w[j + 1..] && w[..j + 1][..j] == w[..j];
    CollectedGrows(table, w[..j + 1], w[j + 1..], id, includeKey);
    CollectedDistinct(self, table, w, id, includeKey);
    var a := |Collected(table, w[..j], id, includeKey)| + i;
    assert all[a] == kept[i];
    PositionIsFirst(all, kept[i].nodeId, a);
  }

  // Where the contact closest to the target is, and that it comes back exactly when fewer than 20 eligible contacts
  // precede it: it is in the target's own bucket unless nothing is, then in one above, then in one below.
  lemma ClosestReturnedIff(self: Id, table: seq<Bucket>, id: Id, closest: Contact)
    requires TableOk(self, table) && closest in Eligible(table, id, false)
    requires forall d: Contact | d in Eligible(table, id, false) ::
        Distance(id, closest.nodeId) <= Distance(id, d.nodeId)
    ensures (exists c: Contact :: c in Shortlist(self, table, id, false)
                                  && Distance(id, c.nodeId) == Distance(id, closest.nodeId))
            <==> Preceding(self, table, id, false, closest) < K
    ensures forall d: Contact | d in Eligible(table, id, false) ::
              var p, q, r := Index(self, id), Index(self, closest.nodeId), Index(self, d.nodeId);
              (r == p ==> q == p) && (r > p ==> q >= p)
  {
    hide Index, Eligible, Shortlist, Preceding;
    ReturnedIffFewPrecede(self, table, id, false, closest);
    ShortlistFacts(self, table, id, false);
    forall c: Contact | c in Shortlist(self, table, id, false) && Distance(id, c.nodeId) == Distance(id, closest.nodeId)
      ensures c == closest
    {
      DistanceInjective(id, c.nodeId, closest.nodeId);
      SameIdSameContact(self, table, id, c, closest);
    }
    forall d: Contact | d in Eligible(table, id, false)
      ensures var p, q, r := Index(self, id), Index(self, closest.nodeId), Index(self, d.nodeId);
              (r == p ==> q == p) && (r > p ==> q >= p)
    {
      NearerByIndex(self, id, d.nodeId, closest.nodeId);
    }
  }

  // The target's own bucket holds nearer contacts than any other, and those above it nearer ones than those below.
  lemma NearerByIndex(self: Id, id: Id, near: Id, far: Id)
    ensures var p, r, q := Index(self, id), Index(self, near), Index(self, far);
            (r == p && q != p) || q < p < r ==> Distance(id, near) < Distance(id, far)
  {
    var p, r, q := Index(self, id), Index(self, near), Index(self, far);
    if r == p && q != p {
      OwnPrefixIsCloser(self, id, near, far);
    } else if q < p < r {
      LongerPrefixIsCloser(self, id, near, far);
    }
  }

  lemma EligiblePlace(self: Id, table: seq<Bucket>, id: Id, c: Contact)
    requires TableOk(self, table) && c in Eligible(table, id, false)
    ensures c in table[Index(self, c.nodeId)].contacts && c.nodeId != id
  {
    hide Index;
    var q, i :| 0 <= q < |table| && 0 <= i < |table[q].contacts| && table[q].contacts[i] == c;
    assert BucketOk(self, q, table[q]);
  }

  lemma SameIdSameContact(self: Id, table: seq<Bucket>, id: Id, c: Contact, d: Contact)
    requires TableOk(self, table) && c in Eligible(table, id, false) && d in Eligible(table, id, false)
    requires c.nodeId == d.nodeId
    ensures c == d
  {
    hide Index, Eligible;
    EligiblePlace(self, table, id, c);
    EligiblePlace(self, table, id, d);
    assert BucketOk(self, Index(self, c.nodeId), table[Index(self, c.nodeId)]);
  }

  // The walk goes through one more bucket below p before it reaches any at the same distance above, or beyond.
  lemma {:induction false} WalkPrefix(p: nat, i: nat, n: nat)
    requires i <= n
    ensures Walk(p, i) <= Walk(p, n)
    decreases n
  {
    if i < n {
      WalkPrefix(p, i, n - 1);
    }
  }

  // The part of the walk up to and including the lower bucket at distance i, if there is one.
  ghost function DownTo(p: nat, i: nat): seq<nat>
    requires i > 0
  {
    Walk(p, i - 1) + if p >= i then [p - i] else []
  }

  lemma DownToPrefix(p: nat, i: nat)
    requires p < ID_BITS && 0 < i <= Reach(p)
    ensures DownTo(p, i) <= Walk(p, Reach(p))
    ensures forall q | q in DownTo(p, i) :: q < p + i
    ensures p >= i ==> DownTo(p, i)[|DownTo(p, i)| - 1] == p - i
  {
    WalkPrefix(p, i, Reach(p));
    assert DownTo(p, i) <= Walk(p, i);
    WalkMembers(p, i - 1);
  }

  // The contacts met on a first part of the walk precede all those of other buckets.
  lemma EarlierPrecedes(self: Id, table: seq<Bucket>, id: Id, u: seq<nat>, far: Contact, near: Contact)
    requires TableOk(self, table) && u <= Route(self, id)
    requires far in Eligible(table, id, false) && near in Eligible(table, id, false)
    requires Index(self, far.nodeId) in u && Index(self, near.nodeId) !in u
    ensures InRange(u, ID_BITS)
    ensures Preceding(self, table, id, false, far) < |Collected(table, u, id, false)|
    ensures |Collected(table, u, id, false)| <= Preceding(self, table, id, false, near)
  {
    hide Index, Walk, Reach, Collected, Eligible, Position;
    var w := Route(self, id);
    WalkVisitsEachOnce(Index(self, id));
    var all, part := Collected(table, w, id, false), Collected(table, u, id, false);
    assert w == u + w[|u|..];
    assert InRange(u, ID_BITS) by {
      assert forall j | 0 <= j < |u| :: u[j] == w[j];
    }
    CollectedGrows(table, u, w[|u|..], id, false);
    CollectedDistinct(self, table, w, id, false);
    WalkMeetsAll(table, Index(self, id), id, false, far);
    WalkMeetsAll(table, Index(self, id), id, false, near);
    CollectedByIndex(self, table, u, id, far);
    CollectedByIndex(self, table, u, id, near);
    PrefixPosition(all, part, far);
    PrefixPosition(all, part, near);
  }

  lemma CollectedByIndex(self: Id, table: seq<Bucket>, u: seq<nat>, id: Id, c: Contact)
    requires TableOk(self, table) && InRange(u, ID_BITS) && c in Eligible(table, id, false)
    ensures c in Collected(table, u, id, false) <==> Index(self, c.nodeId) in u
  {
    hide Index, Collected, Eligible;
    CollectedMembers(table, u, id, false, c);
    EligiblePlace(self, table, id, c);
    forall j | 0 <= j < |u| && c in table[u[j]].contacts
      ensures u[j] == Index(self, c.nodeId)
    {
      assert BucketOk(self, u[j], table[u[j]]);
    }
  }

  // The order of the walk is not the order of the distances: a bucket at distance i below the target's own precedes
  // every bucket at distance i or more above it, although all contacts of the latter are nearer to the target. So a
  // nearer contact comes back only if every such farther one does.
  lemma LowerBucketFirst(self: Id, table: seq<Bucket>, id: Id, far: Contact, near: Contact)
    requires TableOk(self, table) && far in Eligible(table, id, false) && near in Eligible(table, id, false)
    requires var p := Index(self, id);
             Index(self, far.nodeId) < p && Index(self, near.nodeId) - p >= p - Index(self, far.nodeId)
    ensures Distance(id, near.nodeId) < Distance(id, far.nodeId)
    ensures Preceding(self, table, id, false, far) < Preceding(self, table, id, false, near)
    ensures near in Shortlist(self, table, id, false) ==> far in Shortlist(self, table, id, false)
  {
    hide Index, Walk, Preceding, Shortlist, Eligible;
    var p := Index(self, id);
    var i := p - Index(self, far.nodeId);
    NearerByIndex(self, id, near.nodeId, far.nodeId);
    DownToPrefix(p, i);
    EarlierPrecedes(self, table, id, DownTo(p, i), far, near);
    ReturnedIffFewPrecede(self, table, id, false, far);
    ReturnedIffFewPrecede(self, table, id, false, near);
  }

  // A nearest contact left out: when the buckets from the target's own up to the nearest contact's hold nothing else,
  // and the walk meets 20 contacts below before it gets there, everything returned is farther than that contact.
  lemma LowerBucketsCrowdOut(self: Id, table: seq<Bucket>, id: Id, near: Contact)
    requires TableOk(self, table) && near in Eligible(table, id, false) && Index(self, id) < Index(self, near.nodeId)
    requires forall q | Index(self, id) <= q < Index(self, near.nodeId) :: Kept(table[q].contacts, id, false) == []
    requires var order := DownTo(Index(self, id), Index(self, near.nodeId) - Index(self, id));
             InRange(order, ID_BITS) && |Collected(table, order, id, false)| >= K
    ensures near !in Shortlist(self, table, id, false)
    ensures forall c: Contact | c in Shortlist(self, table, id, false) ::
              Distance(id, near.nodeId) < Distance(id, c.nodeId)
  {
    hide Index, Walk, Collected, Kept, Eligible;
    var p, r := Index(self, id), Index(self, near.nodeId);
    var u := DownTo(p, r - p);
    DownToPrefix(p, r - p);
    ShortlistFacts(self, table, id, false);
    ShortlistFromPrefix(self, table, id, u);
    forall c: Contact | c in Shortlist(self, table, id, false)
      ensures Distance(id, near.nodeId) < Distance(id, c.nodeId)
    {
      CollectedByIndex(self, table, u, id, c);
      EligiblePlace(self, table, id, c);
      KeptMembers(table[Index(self, c.nodeId)].contacts, id, false);
      NearerByIndex(self, id, near.nodeId, c.nodeId);
    }
  }

  // Distances with only one bit set.
  ghost function OneBit(b: byte): Id {
    [b] + seq(ID_BYTES - 1, _ => 0)
  }

  lemma OneBitIndex(self: Id, b: byte)
    requires b == 0x40 || b == 0x20
    ensures Index(self, XorOf(self, OneBit(b))) == if b == 0x40 then 1 else 2
  {
    XorSymmetric(XorOf(self, OneBit(b)), self);
    XorInvolution(self, OneBit(b));
    assert OneBit(b)[0] == b;
  }

  // The first 20 contacts differ from self in the first bit, and the last one in the third.
  ghost function CrowdingEvents(self: Id): (events: seq<Event>)
    ensures |events| == 21
  {
    seq(20, i requires 0 <= i < 20 => Event(Contact(Opposite(self, i), [], 0), true))
      + [Event(Contact(XorOf(self, OneBit(0x20)), [], 0), true)]
  }

  lemma CrowdingBuckets(self: Id)
    ensures var table := Run(self, CrowdingEvents(self));
            |table[0].contacts| >= 20 && |table[1].contacts| == 0 && |table[2].contacts| == 1
  {
    hide Index, Run, Opposite, OneBit;
    var events := CrowdingEvents(self);
    forall i | 0 <= i < 20
      ensures events[i].contact.nodeId == Opposite(self, i) && Index(self, Opposite(self, i)) == 0
    {
      OppositeIndex(self, i);
    }
    OneBitIndex(self, 0x20);
    var far := XorOf(self, OneBit(0x20));
    assert events[20].contact.nodeId == far;
    assert Offered(self, events, 1) == {};
    assert Offered(self, events, 2) == {far};
    OppositeOffered(self, events);
    Occupancy(self, events, 0);
    Occupancy(self, events, 1);
    Occupancy(self, events, 2);
  }

  lemma OppositeOffered(self: Id, events: seq<Event>)
    requires |events| >= 20 && forall i | 0 <= i < 20 ::
               events[i].contact.nodeId == Opposite(self, i) && Index(self, Opposite(self, i)) == 0
    ensures |Offered(self, events, 0)| >= 20
  {
    hide Index, Opposite;
    var ids: seq<Id> := seq(20, i requires 0 <= i < 20 => Opposite(self, i));
    forall i, j | 0 <= i < j < 20
      ensures ids[i] != ids[j]
    {
      OppositeDiffers(self, i, j);
    }
    SizeOfDistinct(ids);
    assert (set h | h in ids) == (set h: Id | h in ids);
    var all := set h: Id | h in ids;
    forall i | 0 <= i < 20
      ensures ids[i] in Offered(self, events, 0)
    {
      assert events[i].contact.nodeId == ids[i];
    }
    SubsetSize(all, Offered(self, events, 0));
  }

  // When no contact has the target's identifier, a bucket is kept as it is.
  lemma {:induction false} KeptAll(cs: seq<Contact>, id: Id)
    requires forall i | 0 <= i < |cs| :: cs[i].nodeId != id
    ensures Kept(cs, id, false) == cs
  {
    if cs != [] {
      KeptAll(cs[..|cs| - 1], id);
    }
  }

  // A target of bucket 1 that is empty, with 20 contacts in bucket 0 and one in bucket 2.
  lemma CrowdedTable(self: Id, table: seq<Bucket>, id: Id, near: Contact)
    requires TableOk(self, table) && Index(self, id) == 1
    requires |table[0].contacts| >= K && table[1].contacts == [] && near in table[2].contacts
    ensures near in Eligible(table, id, false) && near !in Shortlist(self, table, id, false)
    ensures forall c: Contact | c in Shortlist(self, table, id, false) ::
              Distance(id, near.nodeId) < Distance(id, c.nodeId)
  {
    hide Index, Shortlist, Collected, DownTo;
    assert BucketOk(self, 0, table[0]) && BucketOk(self, 2, table[2]);
    assert near in TableContacts(table);
    KeptAll(table[0].contacts, id);
    CollectedPair(table, id);
    hide Kept, Eligible;
    LowerBucketsCrowdOut(self, table, id, near);
  }

  // Every node can come to leave out the nearest contact it knows: a run of updates and a target for which everything
  // returned is farther than a contact that is not.
  lemma NearestLeftOut(self: Id) returns (events: seq<Event>, id: Id, near: Contact)
    ensures near in Eligible(Run(self, events), id, false) && near !in Shortlist(self, Run(self, events), id, false)
    ensures forall c: Contact | c in Shortlist(self, Run(self, events), id, false) ::
              Distance(id, near.nodeId) < Distance(id, c.nodeId)
  {
    hide Index, Run, OneBit, Shortlist, CrowdingEvents, TableOk, Eligible;
    events, id := CrowdingEvents(self), XorOf(self, OneBit(0x40));
    var table := Run(self, events);
    OneBitIndex(self, 0x40);
    CrowdingBuckets(self);
    RunOk(self, events, 0);
    near := table[2].contacts[0];
    CrowdedTable(self, table, id, near);
  }

  lemma CollectedPair(table: seq<Bucket>, id: Id)
    requires |table| == ID_BITS && table[1].contacts == [] && Kept(table[0].contacts, id, false) == table[0].contacts
    ensures InRange(DownTo(1, 1), ID_BITS) && Collected(table, DownTo(1, 1), id, false) == table[0].contacts
    ensures Kept(table[1].contacts, id, false) == []
  {
    hide Kept;
    assert DownTo(1, 1) == [1, 0];
    assert [1, 0][..1] == [1] && [1][..0] == [];
    assert Kept([], id, false) == [] by { NothingKept(id); }
    assert Collected(table, [1], id, false) == [];
    assert Collected(table, [1, 0], id, false) == [] + table[0].contacts;
  }

  lemma NothingKept(id: Id)
    ensures Kept([], id, false) == []
  {
  }

  // A part of the walk with 20 contacts decides the result.
  lemma ShortlistFromPrefix(self: Id, table: seq<Bucket>, id: Id, u: seq<nat>)
    requires |table| == ID_BITS && u <= Route(self, id) && InRange(u, ID_BITS)
    requires |Collected(table, u, id, false)| >= K
    ensures Shortlist(self, table, id, false) == Collected(table, u, id, false)[..K]
  {
    hide Index, Walk, Reach, Collected;
    var w := Route(self, id);
    assert w == u + w[|u|..];
    CollectedGrows(table, u, w[|u|..], id, false);
  }

  // ---------- Filling the shortlist ----------

  lemma {:induction false} KeptPrefix(cs: seq<Contact>, i: nat, id: Id, includeKey: bool)
    requires i <= |cs|
    ensures Kept(cs[..i], id, includeKey) <= Kept(cs, id, includeKey)
    decreases |cs|
  {
    if i < |cs| {
      assert cs[..|cs| - 1][..i] == cs[..i];
      KeptPrefix(cs[..|cs| - 1], i, id, includeKey);
    } else {
      assert cs[..i] == cs;
    }
  }

  lemma FirstKJoin(cs: seq<Contact>, ds: seq<Contact>)
    ensures FirstK(FirstK(cs) + ds) == FirstK(cs + ds)
    ensures |FirstK(cs)| == K ==> FirstK(cs + ds) == FirstK(cs)
  {
  }

  lemma KeptSnoc(cs: seq<Contact>, i: nat, id: Id, includeKey: bool)
    requires i < |cs|
    ensures Kept(cs[..i + 1], id, includeKey)
         == Kept(cs[..i], id, includeKey) + (if includeKey || cs[i].nodeId != id then [cs[i]] else [])
  {
    assert cs[..i + 1][..i] == cs[..i];
  }

  lemma FirstKSnoc(cs: seq<Contact>, ds: seq<Contact>)
    requires |ds| <= 1
    ensures FirstK(cs + ds) == if |FirstK(cs)| < K then FirstK(cs) + ds else FirstK(cs)
  {
  }

  // One more contact of the bucket, kept only while there is room.
  lemma ShortlistStep(start: seq<Contact>, cs: seq<Contact>, i: nat, id: Id, includeKey: bool)
    requires i < |cs|
    ensures var before := FirstK(start + Kept(cs[..i], id, includeKey));
            FirstK(start + Kept(cs[..i + 1], id, includeKey))
            == if |before| < K && (includeKey || cs[i].nodeId != id) then before + [cs[i]] else before
  {
    hide Kept, FirstK;
    var kept := Kept(cs[..i], id, includeKey);
    var one := if includeKey || cs[i].nodeId != id then [cs[i]] else [];
    KeptSnoc(cs, i, id, includeKey);
    assert start + (kept + one) == start + kept + one;
    FirstKSnoc(start + kept, one);
    assert FirstK(start + kept) + [] == FirstK(start + kept);
  }

  // A full shortlist takes no more.
  lemma ShortlistFull(start: seq<Contact>, cs: seq<Contact>, i: nat, id: Id, includeKey: bool)
    requires i <= |cs| && |FirstK(start + Kept(cs[..i], id, includeKey))| == K
    ensures FirstK(start + Kept(cs, id, includeKey)) == FirstK(start + Kept(cs[..i], id, includeKey))
  {
    hide Kept, FirstK;
    var kept, all := Kept(cs[..i], id, includeKey), Kept(cs, id, includeKey);
    KeptPrefix(cs, i, id, includeKey);
    assert start + all == start + kept + all[|kept|..];
    FirstKJoin(start + kept, all[|kept|..]);
  }

  lemma ShortlistStart(start: seq<Contact>, cs: seq<Contact>, id: Id, includeKey: bool)
    requires |start| <= K
    ensures start == FirstK(start + Kept(cs[..0], id, includeKey))
  {
    assert start + Kept(cs[..0], id, includeKey) == start;
  }

  lemma NothingCollected(table: seq<Bucket>, id: Id, includeKey: bool)
    ensures InRange([], |table|) && FirstK(Collected(table, [], id, includeKey)) == []
  {
  }

  lemma WalkStart(p: nat)
    ensures Walk(p, 0) == [p] == [] + [p]
  {
  }

  lemma WalkRing(p: nat, i: nat)
    requires i > 0
    ensures var w, lower, upper := Walk(p, i - 1), p >= i, p + i < ID_BITS;
            && (lower && upper ==> Walk(p, i) == w + [p - i] + [p + i])
            && (lower && !upper ==> Walk(p, i) == w + [p - i])
            && (!lower && upper ==> Walk(p, i) == w + [p + i])
  {
  }

  lemma RingStep(table: seq<Bucket>, start: seq<Contact>, order: seq<nat>, q: nat, id: Id, includeKey: bool)
    requires InRange(order, |table|) && q < |table| && start == FirstK(Collected(table, order, id, includeKey))
    ensures InRange(order + [q], |table|)
    ensures FirstK(start + Kept(table[q].contacts, id, includeKey))
         == FirstK(Collected(table, order + [q], id, includeKey))
  {
    assert (order + [q])[..|order|] == order;
    FirstKJoin(Collected(table, order, id, includeKey), Kept(table[q].contacts, id, includeKey));
  }

  // ---------- The table as a structure of lists ----------

  class RoutingTable {
    const selfId: Id
    const buckets: seq<BucketList>

    ghost function Footprint(): set<object>
      reads buckets
    {
      (set p | 0 <= p < |buckets| :: buckets[p] as object)
      + (set p, i | 0 <= p < |buckets| && 0 <= i < |buckets[p].nodes| :: buckets[p].nodes[i] as object)
    }

    ghost predicate Shaped()
      reads buckets, Footprint()
    {
      && |buckets| == ID_BITS
      && (forall p, q | 0 <= p < q < |buckets| :: buckets[p] != buckets[q])
      && (forall p | 0 <= p < |buckets| :: buckets[p].Valid())
    }

    ghost function State(): (table: seq<Bucket>)
      reads buckets, Footprint()
      ensures |table| == |buckets|
    {
      seq(|buckets|, p requires 0 <= p < |buckets| reads buckets, Footprint() => buckets[p].Value())
    }

    ghost predicate Valid()
      reads buckets, Footprint()
    {
      Shaped() && TableOk(selfId, State())
    }

    constructor (id: Id)
      ensures selfId == id && Valid() && State() == Run(id, [])
    {
      hide Index;
      selfId := id;
      var lists: seq<BucketList> := [];
      for i := 0 to ID_BITS
        invariant |lists| == i
        invariant forall p | 0 <= p < i :: fresh(lists[p]) && lists[p].Valid() && lists[p].nodes == []
                                           && lists[p].Value() == Bucket([], 0)
        invariant forall p, q | 0 <= p < q < i :: lists[p] != lists[q]
      {
        var l := new BucketList();
        lists := lists + [l];
      }
      buckets := lists;
    }

    // The choice that UpDate makes in the contact's bucket; the ping is sent only in the third branch.
    static method UpDateBucket(bucket: BucketList, contact: Contact, alive: bool)
      requires bucket.Valid() && (bucket.length > 20 ==> |bucket.nodes| >= 2)
      modifies bucket, bucket.nodes
      ensures bucket.Valid() && bucket.Value() == UpdatedBucket(old(bucket.Value()), contact, alive)
      ensures forall n: BucketNode | n in bucket.nodes :: n in old(bucket.nodes) || fresh(n)
    {
      hide Pushed, FrontReplaced, Touched;
      var element, i := bucket.Find(contact);
      PositionIsFirst(bucket.Contacts(), contact.nodeId, if element == null then |bucket.nodes| else i);
      if element == null {
        if bucket.length <= 20 {
          bucket.Push(contact);
        } else if !alive {
          bucket.DeleteFrontInsert(contact);
        }
      } else {
        bucket.MoveToTail(element, i);
      }
    }

    // The index of the bucket for an identifier.
    method IndexOf(id: Id) returns (p: nat)
      ensures p == Index(selfId, id)
    {
      var distance := Xor(id, selfId);
      p := PrefixLen(distance);
    }

    method UpDate(contact: Contact, alive: bool)
      requires Valid()
      modifies buckets[Index(selfId, contact.nodeId)], buckets[Index(selfId, contact.nodeId)].nodes
      ensures Valid() && State() == Updated(selfId, old(State()), contact, alive)
    {
      hide Index, TableOk, UpdatedBucket;
      ghost var before := State();
      var prefixlen := IndexOf(contact.nodeId);
      var bucket := buckets[prefixlen];
      FullBucketHasSuccessor(selfId, before, prefixlen);
      UpDateBucket(bucket, contact, alive);
      forall q | 0 <= q < ID_BITS && q != prefixlen
        ensures buckets[q].Valid() && buckets[q].Value() == before[q]
      {
      }
      assert State() == Updated(selfId, before, contact, alive);
      UpdatedOk(selfId, before, contact, alive);
    }

    // The search of one bucket for an identifier.
    static method FindIn(bucket: BucketList, nodeId: Id) returns (found: BucketNode?)
      requires bucket.Valid()
      ensures var i := Position(bucket.Contacts(), nodeId);
              if found == null then i == |bucket.nodes| else i < |bucket.nodes| && found == bucket.nodes[i]
    {
      hide Position;
      found := bucket.head;
      ghost var i := 0;
      while found != null
        invariant i <= |bucket.nodes| && found == (if i == |bucket.nodes| then null else bucket.nodes[i])
        invariant forall j | 0 <= j < i :: bucket.nodes[j].contact.nodeId != nodeId
        decreases |bucket.nodes| - i
      {
        var c := Compare(found.contact.nodeId, nodeId);
        if c == 0 {
          break;
        }
        found := found.next;
        i := i + 1;
      }
      PositionIsFirst(bucket.Contacts(), nodeId, i);
    }

    method FindContact(nodeId: Id) returns (found: BucketNode?)
      requires Valid()
      ensures found != null ==>
                && found.contact.nodeId == nodeId
                && exists p: nat, i: nat :: At(State(), p, i, nodeId) && State()[p].contacts[i] == found.contact
      ensures found == null ==> forall p: nat, i: nat :: !At(State(), p, i, nodeId)
      ensures var own := State()[Index(selfId, nodeId)].contacts;
              if found == null then Position(own, nodeId) == |own|
              else Position(own, nodeId) < |own| && found.contact == own[Position(own, nodeId)]
    {
      hide Index, Position, TableOk;
      ghost var table := State();
      var prefixlen := IndexOf(nodeId);
      assert buckets[prefixlen].Contacts() == table[prefixlen].contacts;
      var bucket := buckets[prefixlen];
      found := FindIn(bucket, nodeId);
      FoundIffHeld(selfId, table, nodeId);
      assert State() == table;
    }

    // CreateShortList, and with includeKey CreateShortListIncludeKey, which does not skip the target.
    static method CreateShortList(start: seq<Contact>, list: BucketList, id: Id, includeKey: bool)
      returns (contacts: seq<Contact>)
      requires list.Valid() && |start| <= K
      ensures contacts == FirstK(start + Kept(list.Contacts(), id, includeKey))
    {
      hide Kept, FirstK;
      contacts := start;
      var e := list.head;
      ghost var i := 0;
      ghost var cs := list.Contacts();
      ShortlistStart(start, cs, id, includeKey);
      while e != null
        invariant i <= |cs| && e == (if i == |cs| then null else list.nodes[i])
        invariant contacts == FirstK(start + Kept(cs[..i], id, includeKey))
        decreases |cs| - i
      {
        if |contacts| >= K {
          ShortlistFull(start, cs, i, id, includeKey);
          return;
        }
        ShortlistStep(start, cs, i, id, includeKey);
        var c := Compare(id, e.contact.nodeId);
        if includeKey || c != 0 {
          contacts := contacts + [e.contact];
        }
        e := e.next;
        i := i + 1;
      }
      assert cs[..i] == cs;
    }

    // One more bucket of the walk.
    method Visit(q: nat, start: seq<Contact>, ghost order: seq<nat>, id: Id, includeKey: bool)
      returns (contacts: seq<Contact>)
      requires Valid() && q < ID_BITS && InRange(order, ID_BITS)
      requires start == FirstK(Collected(State(), order, id, includeKey))
      ensures InRange(order + [q], ID_BITS)
      ensures contacts == FirstK(Collected(State(), order + [q], id, includeKey))
      ensures Valid() && State() == old(State())
    {
      hide Kept, Collected, FirstK, Index, TableOk;
      ghost var table := State();
      RingStep(table, start, order, q, id, includeKey);
      assert buckets[q].Contacts() == table[q].contacts;
      contacts := CreateShortList(start, buckets[q], id, includeKey);
      assert State() == table;
      assert Shaped();
    }

    // FindCloset, and with includeKey FindAlpha.
    method FindNear(id: Id, includeKey: bool) returns (shortlist: seq<Contact>)
      requires Valid()
      ensures shortlist == Shortlist(selfId, State(), id, includeKey)
    {
      hide Kept, Collected, FirstK, Index, TableOk, Walk;
      ghost var table := State();
      var p := IndexOf(id);
      assert State() == table && Shaped();
      NothingCollected(table, id, includeKey);
      shortlist := Visit(p, [], [], id, includeKey);
      ghost var order: seq<nat> := [p];
      WalkStart(p);
      var i := 1;
      while (p >= i || p + i < ID_BITS) && |shortlist| <= K
        invariant Valid() && State() == table && 1 <= i <= Reach(p) + 1
        invariant InRange(order, ID_BITS) && order == Walk(p, i - 1)
        invariant shortlist == FirstK(Collected(table, order, id, includeKey))
        decreases Reach(p) + 1 - i
      {
        WalkRing(p, i);
        if p >= i {
          shortlist := Visit(p - i, shortlist, order, id, includeKey);
          order := order + [p - i];
        }
        if p + i < ID_BITS {
          shortlist := Visit(p + i, shortlist, order, id, includeKey);
          order := order + [p + i];
        }
        i := i + 1;
      }
    }
  }
}
