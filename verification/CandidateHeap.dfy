/** The candidates of a lookup: a queue ordered by distance to the key, and the set of identifiers ever queued. */
module CandidateHeap {
  import opened Ids
  import opened BucketLists
  import opened PriorityQueue

  ghost function IdsOf(m: multiset<Contact>): set<Id> {
    set c | c in m :: c.nodeId
  }

  // No identifier occurs twice.
  ghost predicate Unique(m: multiset<Contact>) {
    && (forall c: Contact | c in m :: m[c] == 1)
    && (forall c: Contact, d: Contact | c in m && d in m && c.nodeId == d.nodeId :: c == d)
  }

  lemma UniqueAdd(m: multiset<Contact>, c: Contact)
    requires Unique(m) && c.nodeId !in IdsOf(m)
    ensures Unique(m + multiset{c}) && IdsOf(m + multiset{c}) == IdsOf(m) + {c.nodeId}
  {
    assert c !in m;
  }

  lemma UniqueRemove(m: multiset<Contact>, c: Contact)
    requires Unique(m + multiset{c})
    ensures Unique(m) && c.nodeId !in IdsOf(m) && IdsOf(m + multiset{c}) == IdsOf(m) + {c.nodeId}
  {
    var all := m + multiset{c};
    assert all[c] == m[c] + 1;
    forall d: Contact | d in m
      ensures m[d] == 1 && d.nodeId != c.nodeId
    {
      assert d in all;
    }
  }

  // Strictly increasing distance.
  ghost predicate Ascending(key: Id, cs: seq<Contact>) {
    forall i, j | 0 <= i < j < |cs| :: D(key, cs[i]) < D(key, cs[j])
  }

  // No contact of the queue is closer than, or as close as, one of cs.
  ghost predicate AllCloser(key: Id, cs: seq<Contact>, rest: multiset<Contact>) {
    forall i, y: Contact | 0 <= i < |cs| && y in rest :: D(key, cs[i]) < D(key, y)
  }

  // ---------- What is queued ----------

  // Of the contacts offered, the first one of every identifier that is new and not the node's own.
  ghost function Fresh(self: Id, seen: set<Id>, offered: seq<Contact>): seq<Contact> {
    if offered == [] then [] else
      var last := |offered| - 1;
      Fresh(self, seen, offered[..last])
        + if IsFresh(self, seen, offered, last) then [offered[last]] else []
  }

  ghost predicate IsFresh(self: Id, seen: set<Id>, offered: seq<Contact>, i: nat)
    requires i < |offered|
  {
    offered[i].nodeId != self && offered[i].nodeId !in seen + IdsOf(multiset(offered[..i]))
  }

  // The identifiers seen once the contacts have been offered.
  ghost function SeenAfter(self: Id, seen: set<Id>, offered: seq<Contact>): set<Id> {
    seen + (IdsOf(multiset(offered)) - {self})
  }

  lemma OneMoreOffered(self: Id, seen: set<Id>, offered: seq<Contact>, i: nat)
    requires i < |offered|
    ensures Fresh(self, seen, offered[..i + 1])
         == Fresh(self, seen, offered[..i]) + if IsFresh(self, seen, offered, i) then [offered[i]] else []
    ensures IsFresh(self, seen, offered, i) <==>
              offered[i].nodeId != self && offered[i].nodeId !in SeenAfter(self, seen, offered[..i])
    ensures SeenAfter(self, seen, offered[..i + 1])
         == SeenAfter(self, seen, offered[..i]) + ({offered[i].nodeId} - {self})
  {
    hide IdsOf;
    assert offered[..i + 1][..i] == offered[..i];
    assert offered[..i + 1] == offered[..i] + [offered[i]];
    IdsOfMore(multiset(offered[..i]), offered[i]);
  }

  lemma NothingOffered(self: Id, seen: set<Id>)
    ensures Fresh(self, seen, []) == [] && SeenAfter(self, seen, []) == seen
  {
  }

  // Every new identifier is queued with the first contact that was offered for it.
  lemma {:induction false} FreshIsFirst(self: Id, seen: set<Id>, offered: seq<Contact>, c: Contact)
    ensures c in Fresh(self, seen, offered) <==>
              exists i :: 0 <= i < |offered| && offered[i] == c && IsFresh(self, seen, offered, i)
  {
    hide IsFresh;
    if offered != [] {
      var last := |offered| - 1;
      FreshIsFirst(self, seen, offered[..last], c);
      forall i | 0 <= i < last
        ensures IsFresh(self, seen, offered, i) <==> IsFresh(self, seen, offered[..last], i)
      {
        FreshInFront(self, seen, offered, i);
      }
      if i :| 0 <= i < last && offered[..last][i] == c && IsFresh(self, seen, offered[..last], i) {
        assert offered[i] == c && IsFresh(self, seen, offered, i);
      }
    }
  }

  lemma FreshInFront(self: Id, seen: set<Id>, offered: seq<Contact>, i: nat)
    requires i < |offered| - 1
    ensures IsFresh(self, seen, offered, i) <==> IsFresh(self, seen, offered[..|offered| - 1], i)
  {
    hide IdsOf;
    assert offered[..|offered| - 1][..i] == offered[..i];
  }

  // And exactly the new identifiers are queued.
  lemma {:induction false} FreshIds(self: Id, seen: set<Id>, offered: seq<Contact>)
    ensures IdsOf(multiset(Fresh(self, seen, offered))) == SeenAfter(self, seen, offered) - seen
  {
    hide IdsOf, Fresh, IsFresh;
    if offered == [] {
      NoIds();
      NothingOffered(self, seen);
    } else {
      var last := |offered| - 1;
      FreshIds(self, seen, offered[..last]);
      assert offered[..|offered|] == offered;
      OneMoreOffered(self, seen, offered, last);
      if IsFresh(self, seen, offered, last) {
        var queued := Fresh(self, seen, offered[..last]);
        assert multiset(queued + [offered[last]]) == multiset(queued) + multiset{offered[last]};
        IdsOfMore(multiset(queued), offered[last]);
      } else {
        assert Fresh(self, seen, offered) == Fresh(self, seen, offered[..last]);
      }
    }
  }

  // What a partly processed offer has done to the queue and the set of identifiers seen.
  ghost predicate Queued(self: Id, offered: seq<Contact>, before: multiset<Contact>, seen: set<Id>,
                         after: multiset<Contact>, seen': set<Id>) {
    after == before + multiset(Fresh(self, seen, offered)) && seen' == SeenAfter(self, seen, offered)
  }

  lemma NothingQueued(self: Id, before: multiset<Contact>, seen: set<Id>)
    ensures Queued(self, [], before, seen, before, seen)
  {
    assert multiset(Fresh(self, seen, [])) == multiset{};
  }

  lemma OneQueued(self: Id, offered: seq<Contact>, i: nat, before: multiset<Contact>, seen: set<Id>,
                  after: multiset<Contact>, seen': set<Id>)
    requires i < |offered| && Queued(self, offered[..i], before, seen, after, seen')
    ensures var c := offered[i];
            if c.nodeId in seen' || c.nodeId == self
            then Queued(self, offered[..i + 1], before, seen, after, seen')
            else Queued(self, offered[..i + 1], before, seen, after + multiset{c}, seen' + {c.nodeId})
  {
    hide Fresh, IsFresh, SeenAfter;
    OneMoreOffered(self, seen, offered, i);
    AddSnoc(before, Fresh(self, seen, offered[..i]), offered[i]);
    assert Fresh(self, seen, offered[..i]) + [] == Fresh(self, seen, offered[..i]);
  }

  lemma AddSnoc<T>(m: multiset<T>, s: seq<T>, x: T)
    ensures m + multiset(s + [x]) == m + multiset(s) + multiset{x}
  {
  }

  lemma NoIds()
    ensures IdsOf(multiset{}) == {}
  {
  }

  lemma IdsOfMore(m: multiset<Contact>, c: Contact)
    ensures IdsOf(m + multiset{c}) == IdsOf(m) + {c.nodeId}
  {
  }

  // ---------- What is popped ----------

  lemma {:induction false} SomeNearest(key: Id, m: multiset<Contact>) returns (c: Contact)
    requires m != multiset{}
    ensures c in m && forall y: Contact | y in m :: D(key, c) <= D(key, y)
  {
    hide D;
    var x :| x in m;
    var rest := m - multiset{x};
    assert m == rest + multiset{x};
    if rest == multiset{} {
      c := x;
    } else {
      var y := SomeNearest(key, rest);
      c := if D(key, x) <= D(key, y) then x else y;
    }
  }

  ghost predicate IsNearest(key: Id, m: multiset<Contact>, c: Contact) {
    c in m && forall y: Contact | y in m :: D(key, c) <= D(key, y)
  }

  ghost function Nearest(key: Id, m: multiset<Contact>): (c: Contact)
    requires m != multiset{}
    ensures IsNearest(key, m, c)
  {
    assert exists c: Contact :: IsNearest(key, m, c) by {
      var c := SomeNearest(key, m);
      assert IsNearest(key, m, c);
    }
    var c: Contact :| IsNearest(key, m, c);
    c
  }

  // Among distinct identifiers only one contact is nearest.
  lemma NearestIsUnique(key: Id, m: multiset<Contact>, c: Contact)
    requires Unique(m) && IsNearest(key, m, c)
    ensures c == Nearest(key, m)
  {
    DistanceInjective(key, c.nodeId, Nearest(key, m).nodeId);
  }

  // The n nearest contacts, nearest first, or all of them if there are fewer.
  ghost function Batch(key: Id, m: multiset<Contact>, n: nat): seq<Contact> {
    if n == 0 || m == multiset{} then [] else
      var c := Nearest(key, m);
      [c] + Batch(key, m - multiset{c}, n - 1)
  }

  // Strictly increasing distances, none of them reached by what remains.
  ghost predicate IsBatch(key: Id, m: multiset<Contact>, n: nat, cs: seq<Contact>) {
    && |cs| == (if n < |m| then n else |m|) && multiset(cs) <= m
    && Ascending(key, cs) && AllCloser(key, cs, m - multiset(cs))
  }

  lemma {:induction false} BatchFacts(key: Id, m: multiset<Contact>, n: nat)
    requires Unique(m)
    ensures IsBatch(key, m, n, Batch(key, m, n))
    decreases n
  {
    hide D, Unique, IsNearest, IdsOf, IsBatch, Batch;
    if n > 0 && m != multiset{} {
      var c, rest := BatchParts(key, m, n);
      UniqueRemove(rest, c);
      BatchFacts(key, rest, n - 1);
      BatchStep(key, m, n, rest, c, Batch(key, rest, n - 1));
    } else {
      BatchEnds(key, m, n);
      EmptyBatch(key, m, n);
    }
  }

  lemma EmptyBatch(key: Id, m: multiset<Contact>, n: nat)
    requires n == 0 || m == multiset{}
    ensures IsBatch(key, m, n, [])
  {
    assert m - multiset([]) == m;
  }

  lemma BatchParts(key: Id, m: multiset<Contact>, n: nat) returns (c: Contact, rest: multiset<Contact>)
    requires n > 0 && m != multiset{}
    ensures IsNearest(key, m, c) && m == rest + multiset{c} && |m| == |rest| + 1
    ensures Batch(key, m, n) == [c] + Batch(key, rest, n - 1)
  {
    hide D;
    c, rest := Nearest(key, m), m - multiset{Nearest(key, m)};
    TakeOut(m, c);
  }

  lemma BatchHead(key: Id, before: multiset<Contact>, after: multiset<Contact>, x: Contact, n: nat)
    requires n > 0 && before == after + multiset{x} && Unique(before) && IsNearest(key, before, x)
    ensures Batch(key, before, n) == [x] + Batch(key, after, n - 1)
  {
    hide D, Unique, IsNearest;
    NearestIsUnique(key, before, x);
    TakeBack(after, x);
  }

  lemma TakeBack<T>(m: multiset<T>, x: T)
    ensures (m + multiset{x}) - multiset{x} == m && m + multiset{x} != multiset{}
  {
    assert x in m + multiset{x};
  }

  lemma TakeOut<T>(m: multiset<T>, x: T)
    requires x in m
    ensures m == (m - multiset{x}) + multiset{x} && |m| == |m - multiset{x}| + 1
  {
    assert m == (m - multiset{x}) + multiset{x};
  }

  lemma BatchStep(key: Id, m: multiset<Contact>, n: nat, rest: multiset<Contact>, c: Contact, cs: seq<Contact>)
    requires n > 0 && Unique(m) && IsNearest(key, m, c) && m == rest + multiset{c} && |m| == |rest| + 1
    requires IsBatch(key, rest, n - 1, cs)
    ensures IsBatch(key, m, n, [c] + cs)
  {
    hide D, Unique, IsNearest, IdsOf;
    StrictlyNearest(key, rest, c);
    ConsOut(rest, c, cs);
    hide AllCloser;
    forall y: Contact | y in cs
      ensures y in rest
    {
      assert y in multiset(cs);
    }
    assert AllCloser(key, [c] + cs, m - multiset([c] + cs)) by {
      AllCloserCons(key, c, cs, rest);
    }
  }

  lemma AllCloserCons(key: Id, c: Contact, cs: seq<Contact>, rest: multiset<Contact>)
    requires multiset(cs) <= rest && AllCloser(key, cs, rest - multiset(cs))
    requires forall y: Contact | y in rest :: D(key, c) < D(key, y)
    ensures AllCloser(key, [c] + cs, rest - multiset(cs))
  {
    hide D;
    forall y: Contact | y in rest - multiset(cs)
      ensures y in rest
    {
    }
  }

  lemma ConsOut<T>(rest: multiset<T>, c: T, cs: seq<T>)
    requires multiset(cs) <= rest
    ensures multiset([c] + cs) <= rest + multiset{c}
    ensures (rest + multiset{c}) - multiset([c] + cs) == rest - multiset(cs)
  {
    assert multiset([c] + cs) == multiset{c} + multiset(cs);
  }

  lemma StrictlyNearest(key: Id, rest: multiset<Contact>, c: Contact)
    requires Unique(rest + multiset{c}) && IsNearest(key, rest + multiset{c}, c)
    ensures forall y: Contact | y in rest :: D(key, c) < D(key, y)
  {
    UniqueRemove(rest, c);
    forall y: Contact | y in rest
      ensures D(key, c) < D(key, y)
    {
      assert y in rest + multiset{c};
      DistanceInjective(key, c.nodeId, y.nodeId);
    }
  }

  // A batch being taken: what has left and what remains.
  ghost predicate Popping(key: Id, all: multiset<Contact>, n: nat, con: seq<Contact>, rest: multiset<Contact>) {
    && |con| <= n && all == rest + multiset(con)
    && con + Batch(key, rest, n - |con|) == Batch(key, all, n)
  }

  lemma PopNone(key: Id, all: multiset<Contact>, n: nat)
    ensures Popping(key, all, n, [], all)
  {
  }

  lemma PopOne(key: Id, all: multiset<Contact>, n: nat, con: seq<Contact>, x: Contact, before: multiset<Contact>,
               after: multiset<Contact>)
    requires Popping(key, all, n, con, before) && |con| < n && Unique(before)
    requires before == after + multiset{x} && forall y: Contact | y in before :: D(key, x) <= D(key, y)
    ensures Popping(key, all, n, con + [x], after)
  {
    hide D, Unique, IdsOf, Batch;
    BatchHead(key, before, after, x, n - |con|);
    AddSnoc(after, con, x);
    assert (con + [x]) + Batch(key, after, n - |con| - 1) == con + ([x] + Batch(key, after, n - |con| - 1));
    assert after + multiset(con) + multiset{x} == before + multiset(con);
  }

  lemma PopDone(key: Id, all: multiset<Contact>, n: nat, con: seq<Contact>, rest: multiset<Contact>)
    requires Popping(key, all, n, con, rest) && (|con| == n || rest == multiset{})
    ensures con == Batch(key, all, n) && all == rest + multiset(con)
  {
    BatchEnds(key, rest, n - |con|);
  }

  lemma BatchEnds(key: Id, m: multiset<Contact>, n: nat)
    requires n == 0 || m == multiset{}
    ensures Batch(key, m, n) == []
  {
  }

  lemma StaysUnique(before: multiset<Contact>, after: multiset<Contact>, x: Contact)
    requires before == after + multiset{x} && Unique(before)
    ensures Unique(after) && IdsOf(after) <= IdsOf(before)
  {
    UniqueRemove(after, x);
  }

  class CandidateHeap {
    const self: Id
    const pq: PriorityQueue
    var nodeSet: set<Id>

    constructor (selfContact: Contact, key: Id)
      ensures Valid() && fresh(pq) && self == selfContact.nodeId && pq.nodeId == key && nodeSet == {}
      ensures Pending() == multiset{}
    {
      self := selfContact.nodeId;
      pq := new PriorityQueue(selfContact, key);
      nodeSet := {};
    }

    ghost function Pending(): multiset<Contact>
      reads pq
    {
      multiset(pq.list)
    }

    ghost predicate Valid()
      reads this, pq
    {
      pq.Valid() && Unique(Pending()) && IdsOf(Pending()) <= nodeSet && self !in nodeSet
    }

    // How many candidates there are.
    method Length() returns (n: nat)
      ensures n == |Pending()|
    {
      n := |pq.list|;
    }

    // A contact is queued unless it was seen before or is the node itself.
    method Offer(c: Contact)
      requires Valid()
      modifies this, pq
      ensures Valid()
      ensures if c.nodeId in old(nodeSet) || c.nodeId == self
              then Pending() == old(Pending()) && nodeSet == old(nodeSet)
              else Pending() == old(Pending()) + multiset{c} && nodeSet == old(nodeSet) + {c.nodeId}
    {
      hide Unique, IdsOf;
      if c.nodeId !in nodeSet {
        if c.nodeId != self {
          UniqueAdd(Pending(), c);
          pq.HeapPush(c);
          nodeSet := nodeSet + {c.nodeId};
        }
      }
    }

    // Every new candidate among the contacts is queued, and every identifier marked as seen.
    method Push(contacts: seq<Contact>) returns (n: nat)
      requires Valid()
      modifies this, pq
      ensures Valid() && n == |Pending()|
      ensures Pending() == old(Pending()) + multiset(Fresh(self, old(nodeSet), contacts))
      ensures nodeSet == SeenAfter(self, old(nodeSet), contacts)
    {
      hide Unique, IdsOf, Fresh, IsFresh, SeenAfter;
      PushAll(contacts, Pending(), nodeSet);
      n := Length();
    }

    method PushAll(contacts: seq<Contact>, ghost before: multiset<Contact>, ghost seen: set<Id>)
      requires Valid() && before == Pending() && seen == nodeSet
      modifies this, pq
      ensures Valid() && Queued(self, contacts, before, seen, Pending(), nodeSet)
    {
      hide Unique, IdsOf, Queued, D, HeapOrdered;
      NothingQueued(self, before, seen);
      assert contacts[..0] == [];
      for i := 0 to |contacts|
        invariant Valid() && Queued(self, contacts[..i], before, seen, Pending(), nodeSet)
      {
        OneQueued(self, contacts, i, before, seen, Pending(), nodeSet);
        Offer(contacts[i]);
      }
      assert contacts[..|contacts|] == contacts;
    }

    // The nearest candidates leave in increasing distance.
    method PopClosest(n: nat) returns (length: nat, con: seq<Contact>)
      requires Valid()
      modifies pq
      ensures Valid() && nodeSet == old(nodeSet) && length == |old(Pending())|
      ensures con == Batch(pq.nodeId, old(Pending()), n)
      ensures old(Pending()) == Pending() + multiset(con)
    {
      hide Unique, IdsOf, Popping, D, HeapOrdered;
      con := [];
      length := Length();
      PopNone(pq.nodeId, Pending(), n);
      while |con| < n && |pq.list| > 0
        invariant Valid() && nodeSet == old(nodeSet) && |con| <= n
        invariant Popping(pq.nodeId, old(Pending()), n, con, Pending())
        decreases n - |con|
      {
        ghost var before := Pending();
        var x := pq.HeapPop();
        PopOne(pq.nodeId, old(Pending()), n, con, x, before, Pending());
        StaysUnique(before, Pending(), x);
        con := con + [x];
      }
      PopDone(pq.nodeId, old(Pending()), n, con, Pending());
    }
  }
}
