/** What the contents of a routing table say about the updates that led to it: which offering each contact comes from,
    in which order the contacts of a bucket stand, and what one more offering does to them. */
module TableHistory {
  import opened Ids
  import opened BucketLists
  import opened RoutingTable

  // ---------- Where the contacts come from ----------

  ghost predicate Holds(self: Id, events: seq<Event>, p: nat, id: Id)
    requires p < ID_BITS
  {
    id in ContactIds(Run(self, events)[p].contacts)
  }

  // Event i offered this very contact, whose identifier the bucket did not hold before and has held ever since.
  ghost predicate AdmittedBy(self: Id, events: seq<Event>, p: nat, i: int, c: Contact)
    requires p < ID_BITS
  {
    && 0 <= i < |events| && events[i].contact == c
    && !Holds(self, events[..i], p, c.nodeId)
    && forall j | i < j <= |events| :: Holds(self, events[..j], p, c.nodeId)
  }

  // An update brings in no contact but the one offered, and that only if its identifier is new.
  lemma OnlyOffered(bucket: Bucket, contact: Contact, alive: bool, c: Contact)
    requires c in UpdatedBucket(bucket, contact, alive).contacts
    ensures c in bucket.contacts || (c == contact && contact.nodeId !in ContactIds(bucket.contacts))
  {
    hide Position;
    PositionFacts(bucket.contacts, contact.nodeId);
    var i := Position(bucket.contacts, contact.nodeId);
    if i < |bucket.contacts| {
      TouchedKeepsContacts(bucket, i);
      assert c in multiset(Touched(bucket, i).contacts);
    }
  }

  lemma RunOfFront(self: Id, events: seq<Event>, p: nat)
    requires events != [] && p < ID_BITS
    ensures var last := |events| - 1;
            var e, before := events[last], Run(self, events[..last]);
            Run(self, events)[p]
            == if Index(self, e.contact.nodeId) == p then UpdatedBucket(before[p], e.contact, e.alive) else before[p]
  {
    hide Index, UpdatedBucket;
  }

  lemma HeldNow(self: Id, events: seq<Event>, p: nat, c: Contact)
    requires p < ID_BITS && c in Run(self, events)[p].contacts
    ensures Holds(self, events, p, c.nodeId)
  {
  }

  // After any run, every contact in the table is one that was offered, as it was offered when its identifier was
  // admitted.
  lemma {:induction false} EveryContactWasOffered(self: Id, events: seq<Event>, p: nat, c: Contact)
    requires p < ID_BITS && c in Run(self, events)[p].contacts
    ensures exists i :: AdmittedBy(self, events, p, i, c)
    decreases |events|
  {
    hide Index, UpdatedBucket, Holds, Run;
    if events == [] {
      NothingAtFirst(self, p);
    } else {
      var last := |events| - 1;
      var front, e := events[..last], events[last];
      RunOfFront(self, events, p);
      HeldNow(self, events, p, c);
      assert events[..|events|] == events;
      if c in Run(self, front)[p].contacts {
        EveryContactWasOffered(self, front, p, c);
        var i :| AdmittedBy(self, front, p, i, c);
        forall j | 0 <= j <= last
          ensures front[..j] == events[..j]
        {
        }
        assert AdmittedBy(self, events, p, i, c);
      } else {
        OnlyOffered(Run(self, front)[p], e.contact, e.alive, c);
        NotHeld(self, front, p, c);
        assert AdmittedBy(self, events, p, last, c);
      }
    }
  }

  lemma NothingAtFirst(self: Id, p: nat)
    requires p < ID_BITS
    ensures Run(self, [])[p].contacts == []
  {
  }

  lemma NotHeld(self: Id, events: seq<Event>, p: nat, c: Contact)
    requires p < ID_BITS && c.nodeId !in ContactIds(Run(self, events)[p].contacts)
    ensures !Holds(self, events, p, c.nodeId)
  {
  }

  // ---------- In which order they stand ----------

  // The last event that offered the identifier, or -1.
  ghost function LastOffer(events: seq<Event>, id: Id): (i: int)
    ensures -1 <= i < |events|
  {
    if events == [] then -1
    else if events[|events| - 1].contact.nodeId == id then |events| - 1
    else LastOffer(events[..|events| - 1], id)
  }

  // Behind the head the contacts stand in the order in which they were last offered.
  ghost predicate InOrder(events: seq<Event>, cs: seq<Contact>) {
    forall i, j | 1 <= i < j < |cs| :: LastOffer(events, cs[i].nodeId) < LastOffer(events, cs[j].nodeId)
  }

  lemma OfferOthers(events: seq<Event>, e: Event, cs: seq<Contact>)
    requires InOrder(events, cs)
    requires forall i | 1 <= i < |cs| :: cs[i].nodeId != e.contact.nodeId
    ensures InOrder(events + [e], cs)
  {
    assert (events + [e])[..|events|] == events;
  }

  // The contact offered goes to the end, and the others keep their order.
  lemma OfferedLast(events: seq<Event>, e: Event, others: seq<Contact>, c: Contact)
    requires InOrder(events, others) && c.nodeId == e.contact.nodeId
    requires forall i | 1 <= i < |others| :: others[i].nodeId != e.contact.nodeId
    ensures InOrder(events + [e], others + [c])
  {
    OfferOthers(events, e, others);
    hide LastOffer;
    OfferIsLast(events, e);
    forall i | 1 <= i < |others|
      ensures LastOffer(events + [e], others[i].nodeId) < |events|
    {
      OfferOther(events, e, others[i].nodeId);
    }
  }

  lemma OfferIsLast(events: seq<Event>, e: Event)
    ensures LastOffer(events + [e], e.contact.nodeId) == |events|
  {
  }

  lemma OfferOther(events: seq<Event>, e: Event, id: Id)
    requires id != e.contact.nodeId
    ensures LastOffer(events + [e], id) == LastOffer(events, id) < |events|
  {
    assert (events + [e])[..|events|] == events;
  }

  // Leaving one out of a list in order, behind the head or at the head.
  lemma WithoutOne(events: seq<Event>, cs: seq<Contact>, i: nat)
    requires InOrder(events, cs) && i < |cs|
    ensures InOrder(events, cs[..i] + cs[i + 1..])
  {
    hide LastOffer;
    var ds := cs[..i] + cs[i + 1..];
    forall j | 0 <= j < |ds|
      ensures ds[j] == if j < i then cs[j] else cs[j + 1]
    {
    }
  }

  lemma UpdateInOrder(self: Id, events: seq<Event>, e: Event, bucket: Bucket)
    requires BucketOk(self, Index(self, e.contact.nodeId), bucket) && InOrder(events, bucket.contacts)
    ensures InOrder(events + [e], UpdatedBucket(bucket, e.contact, e.alive).contacts)
  {
    hide Index, Position, LastOffer, InOrder;
    var cs, id := bucket.contacts, e.contact.nodeId;
    PositionFacts(cs, id);
    var i := Position(cs, id);
    if i == |cs| {
      OfferedLast(events, e, cs, e.contact);
      OfferOthers(events, e, cs);
      if cs != [] {
        WithoutOne(events, cs, 0);
        assert cs[..0] + cs[1..] == cs[1..];
        OfferedLast(events, e, cs[1..], e.contact);
      }
    } else if i == 0 {
      OfferOthers(events, e, cs);
    } else {
      WithoutOne(events, cs, i);
      var others := cs[..i] + cs[i + 1..];
      forall j | 1 <= j < |others|
        ensures others[j].nodeId != id
      {
        assert others[j] == if j < i then cs[j] else cs[j + 1];
      }
      OfferedLast(events, e, others, cs[i]);
      if i == |cs| - 1 {
        assert others + [cs[i]] == cs;
      }
    }
  }

  // After any run.
  lemma {:induction false} RunInOrder(self: Id, events: seq<Event>, p: nat)
    requires p < ID_BITS
    ensures InOrder(events, Run(self, events)[p].contacts)
    decreases |events|
  {
    hide Index, UpdatedBucket, InOrder, Run;
    if events == [] {
      NothingAtFirst(self, p);
      NothingInOrder();
    } else {
      var last := |events| - 1;
      var front, e := events[..last], events[last];
      var before := Run(self, front)[p];
      RunInOrder(self, front, p);
      RunOfFront(self, events, p);
      RunOk(self, front, p);
      assert events == front + [e];
      if Index(self, e.contact.nodeId) == p {
        UpdateInOrder(self, front, e, before);
      } else {
        assert BucketOk(self, p, before);
        OfferOthers(front, e, before.contacts);
      }
    }
  }

  lemma NothingInOrder()
    ensures InOrder([], [])
  {
  }

  // ---------- What one more offering does ----------

  // A known contact changes neither who is there nor the head. A new one joins at the end while there are fewer than
  // 21; then it takes the place of the head, and the second contact becomes the head, unless the head answers. No
  // other bucket changes.
  lemma OneMoreOffering(self: Id, events: seq<Event>, e: Event, p: nat)
    requires p < ID_BITS
    ensures var before, after := Run(self, events)[p].contacts, Run(self, events + [e])[p].contacts;
            if Index(self, e.contact.nodeId) != p then after == before
            else if Holds(self, events, p, e.contact.nodeId) then
              multiset(after) == multiset(before) && |before| == |after| > 0 && after[0] == before[0]
            else if |before| < 21 then after == before + [e.contact]
            else if e.alive then after == before
            else |before| == 21 && after == before[1..] + [e.contact]
  {
    hide Index, Run, Position;
    var all, bucket := events + [e], Run(self, events)[p];
    assert all[..|events|] == events;
    RunOfFront(self, all, p);
    RunOk(self, events, p);
    assert BucketOk(self, p, bucket);
    var i := Position(bucket.contacts, e.contact.nodeId);
    PositionFacts(bucket.contacts, e.contact.nodeId);
    if i < |bucket.contacts| {
      assert bucket.contacts[i] in bucket.contacts;
      TouchedKeepsContacts(bucket, i);
      SameContactIds(Touched(bucket, i).contacts, bucket.contacts);
    }
  }
}
