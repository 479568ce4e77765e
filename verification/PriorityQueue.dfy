/** The queue of contacts ordered by distance to a key, with the binary-heap operations of the container/heap
    package written out over its Less and Swap. */
module PriorityQueue {
  import opened Ids
  import opened BucketLists

  ghost function D(key: Id, c: Contact): nat {
    Distance(key, c.nodeId)
  }

  function Parent(j: nat): nat
    requires j > 0
  {
    (j - 1) / 2
  }

  ghost predicate HeapOrdered(key: Id, list: seq<Contact>) {
    forall j {:trigger list[j]} | 1 <= j < |list| :: D(key, list[Parent(j)]) <= D(key, list[j])
  }

  // Nothing is closer to the key than the root.
  lemma {:induction false} RootIsClosest(key: Id, list: seq<Contact>, j: nat)
    requires HeapOrdered(key, list) && j < |list|
    ensures D(key, list[0]) <= D(key, list[j])
  {
    if j > 0 {
      RootIsClosest(key, list, Parent(j));
    }
  }

  lemma SwapKeepsMultiset<T>(s: seq<T>, i: nat, j: nat)
    requires i < |s| && j < |s|
    ensures multiset(s[i := s[j]][j := s[i]]) == multiset(s)
  {
  }

  // Every parent is at most as far as its child, except perhaps at j itself; j's children are no closer than
  // j's parent.
  ghost predicate UpOrdered(key: Id, list: seq<Contact>, j: nat) {
    && (forall k {:trigger list[k]} | 1 <= k < |list| && k != j :: D(key, list[Parent(k)]) <= D(key, list[k]))
    && (j > 0 ==> forall k {:trigger list[k]} | 1 <= k < |list| && Parent(k) == j < |list| ::
          D(key, list[Parent(j)]) <= D(key, list[k]))
  }

  // The same of the first n entries, for a node i that may be too far for its children.
  ghost predicate DownOrdered(key: Id, list: seq<Contact>, i: nat, n: nat)
    requires n <= |list|
  {
    && (forall k {:trigger list[k]} | 1 <= k < n && Parent(k) != i :: D(key, list[Parent(k)]) <= D(key, list[k]))
    && (i > 0 ==> forall k {:trigger list[k]} | 1 <= k < n && Parent(k) == i ::
        D(key, list[Parent(i)]) <= D(key, list[k]))
  }

  lemma UpStep(key: Id, list: seq<Contact>, j: nat)
    requires 1 <= j < |list| && UpOrdered(key, list, j)
    requires D(key, list[j]) < D(key, list[Parent(j)])
    ensures var i := Parent(j); UpOrdered(key, list[i := list[j]][j := list[i]], i)
  {
    hide D;
    var i := Parent(j);
    var after := list[i := list[j]][j := list[i]];
    forall k | 1 <= k < |list| && k != i
      ensures D(key, after[Parent(k)]) <= D(key, after[k])
    {
      assert k != j ==> D(key, list[Parent(k)]) <= D(key, list[k]);
    }
    if i > 0 {
      forall k | 1 <= k < |list| && Parent(k) == i
        ensures D(key, after[Parent(i)]) <= D(key, after[k])
      {
        assert D(key, list[Parent(i)]) <= D(key, list[i]);
        assert k != j ==> D(key, list[i]) <= D(key, list[k]);
      }
    }
  }

  lemma DownStep(key: Id, list: seq<Contact>, i: nat, j: nat, n: nat)
    requires 1 <= j < n <= |list| && i == Parent(j) && DownOrdered(key, list, i, n)
    requires D(key, list[j]) < D(key, list[i])
    requires forall k | 1 <= k < n && Parent(k) == i :: D(key, list[j]) <= D(key, list[k])
    ensures DownOrdered(key, list[i := list[j]][j := list[i]], j, n)
  {
    hide D;
    var after := list[i := list[j]][j := list[i]];
    forall k | 1 <= k < n && Parent(k) != j
      ensures D(key, after[Parent(k)]) <= D(key, after[k])
    {
      if Parent(k) == i {
        assert D(key, list[j]) <= D(key, list[k]);
      } else {
        assert D(key, list[Parent(k)]) <= D(key, list[k]);
        if k == i {
          assert D(key, list[Parent(i)]) <= D(key, list[j]);
        }
      }
    }
    forall k | 1 <= k < n && Parent(k) == j
      ensures D(key, after[Parent(j)]) <= D(key, after[k])
    {
      assert D(key, list[Parent(k)]) <= D(key, list[k]);
    }
  }

  class PriorityQueue {
    const selfContact: Contact
    const nodeId: Id
    var list: seq<Contact>

    constructor (selfContact: Contact, nodeId: Id)
      ensures this.selfContact == selfContact && this.nodeId == nodeId && list == []
    {
      this.selfContact := selfContact;
      this.nodeId := nodeId;
      list := [];
    }

    ghost predicate Valid()
      reads this
    {
      HeapOrdered(nodeId, list)
    }

    static method ContactLess(c1: Contact, c2: Contact, key: Id) returns (less: bool)
      ensures less == (D(key, c1) < D(key, c2))
    {
      var dist1 := Xor(key, c1.nodeId);
      var dist2 := Xor(key, c2.nodeId);
      var c := Compare(dist1, dist2);
      less := c < 0;
    }

    method Less(i: nat, j: nat) returns (less: bool)
      requires i < |list| && j < |list|
      ensures less == (D(nodeId, list[i]) < D(nodeId, list[j]))
    {
      less := ContactLess(list[i], list[j], nodeId);
    }

    method Swap(i: nat, j: nat)
      requires i < |list| && j < |list|
      modifies this
      ensures list == old(list)[i := old(list)[j]][j := old(list)[i]]
      ensures multiset(list) == multiset(old(list))
    {
      SwapKeepsMultiset(list, i, j);
      list := list[i := list[j]][j := list[i]];
    }

    method Append(x: Contact)
      modifies this
      ensures list == old(list) + [x]
    {
      list := list + [x];
    }

    method RemoveLast() returns (x: Contact)
      requires list != []
      modifies this
      ensures list == old(list)[..|old(list)| - 1] && x == old(list)[|old(list)| - 1]
    {
      x := list[|list| - 1];
      list := list[..|list| - 1];
    }

    method Up(start: nat)
      requires start < |list| && UpOrdered(nodeId, list, start)
      modifies this
      ensures Valid() && multiset(list) == multiset(old(list))
    {
      hide D, UpOrdered;
      var j: nat := start;
      while j > 0
        invariant j < |list| && UpOrdered(nodeId, list, j)
        invariant multiset(list) == multiset(old(list))
      {
        var i := Parent(j);
        var less := Less(j, i);
        if !less {
          break;
        }
        UpStep(nodeId, list, j);
        Swap(i, j);
        j := i;
      }
      UpDone(nodeId, list, j);
    }

    method Down(n: nat)
      requires n == |list| - 1 && DownOrdered(nodeId, list, 0, n)
      modifies this
      ensures |list| == |old(list)| && list[n] == old(list)[n] && multiset(list) == multiset(old(list))
      ensures HeapOrdered(nodeId, list[..n])
    {
      hide D, DownOrdered;
      var i := 0;
      while true
        invariant |list| == |old(list)| && list[n] == old(list)[n] && multiset(list) == multiset(old(list))
        invariant DownOrdered(nodeId, list, i, n)
        decreases n - i
      {
        var j1 := 2 * i + 1;
        if j1 >= n {
          break;
        }
        var j := j1;
        if j1 + 1 < n {
          var less2 := Less(j1 + 1, j1);
          if less2 {
            j := j1 + 1;
          }
        }
        var less := Less(j, i);
        if !less {
          break;
        }
        DownStep(nodeId, list, i, j, n);
        Swap(i, j);
        i := j;
      }
      DownDone(nodeId, list, i, n);
    }

    // A contact joins the queue.
    method HeapPush(x: Contact)
      requires Valid()
      modifies this
      ensures Valid() && multiset(list) == multiset(old(list)) + multiset{x}
    {
      hide D;
      Append(x);
      Up(|list| - 1);
    }

    // The closest contact leaves the queue.
    method HeapPop() returns (x: Contact)
      requires Valid() && list != []
      modifies this
      ensures Valid() && multiset(old(list)) == multiset(list) + multiset{x}
      ensures x == old(list)[0] && forall y: Contact | y in old(list) :: D(nodeId, x) <= D(nodeId, y)
    {
      RootIsLeast(nodeId, list);
      SwapForPop(nodeId, list);
      hide D, HeapOrdered, DownOrdered;
      var n := |list| - 1;
      Swap(0, n);
      Down(n);
      LastOff(list);
      x := RemoveLast();
    }

    method Peek() returns (ok: bool, x: Contact)
      ensures ok == (list != []) && x == if list == [] then selfContact else list[0]
    {
      if |list| <= 0 {
        return false, selfContact;
      }
      return true, list[0];
    }
  }

  lemma LastOff<T>(s: seq<T>)
    requires s != []
    ensures multiset(s) == multiset(s[..|s| - 1]) + multiset{s[|s| - 1]}
  {
    assert s == s[..|s| - 1] + [s[|s| - 1]];
  }

  lemma RootIsLeast(key: Id, list: seq<Contact>)
    requires HeapOrdered(key, list) && list != []
    ensures forall y: Contact | y in list :: D(key, list[0]) <= D(key, y)
  {
    hide D;
    forall y: Contact | y in list
      ensures D(key, list[0]) <= D(key, y)
    {
      var j :| 0 <= j < |list| && list[j] == y;
      RootIsClosest(key, list, j);
    }
  }

  lemma SwapForPop(key: Id, list: seq<Contact>)
    requires HeapOrdered(key, list) && list != []
    ensures var n := |list| - 1; DownOrdered(key, list[0 := list[n]][n := list[0]], 0, n)
  {
    hide D;
    var n := |list| - 1;
    var after := list[0 := list[n]][n := list[0]];
    forall k | 1 <= k < n && Parent(k) != 0
      ensures D(key, after[Parent(k)]) <= D(key, after[k])
    {
      assert D(key, list[Parent(k)]) <= D(key, list[k]);
    }
  }

  lemma UpDone(key: Id, list: seq<Contact>, j: nat)
    requires UpOrdered(key, list, j) && j < |list|
    requires j > 0 ==> D(key, list[Parent(j)]) <= D(key, list[j])
    ensures HeapOrdered(key, list)
  {
  }

  lemma DownDone(key: Id, list: seq<Contact>, i: nat, n: nat)
    requires n <= |list| && DownOrdered(key, list, i, n)
    requires forall k | 1 <= k < n && Parent(k) == i :: D(key, list[i]) <= D(key, list[k])
    ensures HeapOrdered(key, list[..n])
  {
  }
}
