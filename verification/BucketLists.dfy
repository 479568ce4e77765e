/** A k-bucket: a doubly linked list of contacts with a length field, and the sequence operations that its
    pointer operations carry out. */
module BucketLists {
  import opened Bytes
  import opened Ids

  datatype Contact = Contact(nodeId: Id, host: seq<byte>, port: nat)

  // The value of a bucket: its contacts from head to tail, and what the length field says.
  datatype Bucket = Bucket(contacts: seq<Contact>, length: int)

  ghost function Pushed(bucket: Bucket, contact: Contact): Bucket {
    Bucket(bucket.contacts + [contact], bucket.length + 1)
  }

  // The front is dropped, but the length field does not count it off.
  ghost function FrontReplaced(bucket: Bucket, contact: Contact): Bucket
    requires bucket.contacts != []
  {
    Bucket(bucket.contacts[1..] + [contact], bucket.length + 1)
  }

  // An interior contact goes to the tail; the head and the tail stay where they are.
  ghost function Touched(bucket: Bucket, i: nat): Bucket
    requires i < |bucket.contacts|
  {
    var cs := bucket.contacts;
    if i == 0 || i == |cs| - 1 then bucket else Bucket(cs[..i] + cs[i + 1..] + [cs[i]], bucket.length)
  }

  class BucketNode {
    var contact: Contact
    var next: BucketNode?
    var prev: BucketNode?
    ghost const owner: BucketList

    constructor (contact: Contact, ghost owner: BucketList)
      ensures this.contact == contact && next == null && prev == null && this.owner == owner
    {
      this.contact := contact;
      next, prev := null, null;
      this.owner := owner;
    }
  }

  class BucketList {
    var head: BucketNode?
    var tail: BucketNode?
    var length: int
    ghost var nodes: seq<BucketNode>

    // A proper doubly linked list, without repetitions, of nodes that belong to no other list.
    ghost predicate Valid()
      reads this, nodes
    {
      && (forall i | 0 <= i < |nodes| :: nodes[i].owner == this)
      && (forall i, j | 0 <= i < j < |nodes| :: nodes[i] != nodes[j])
      && (nodes == [] <==> head == null)
      && (nodes != [] ==> head == nodes[0] && tail == nodes[|nodes| - 1])
      && (forall i {:trigger nodes[i].next} | 0 <= i < |nodes| ::
            nodes[i].next == (if i == |nodes| - 1 then null else nodes[i + 1]))
      && (forall i {:trigger nodes[i].prev} | 0 <= i < |nodes| ::
            nodes[i].prev == (if i == 0 then null else nodes[i - 1]))
    }

    ghost function Contacts(): (cs: seq<Contact>)
      reads this, nodes
      ensures |cs| == |nodes|
    {
      seq(|nodes|, i requires 0 <= i < |nodes| reads this, nodes => nodes[i].contact)
    }

    ghost function Value(): Bucket
      reads this, nodes
    {
      Bucket(Contacts(), length)
    }

    constructor ()
      ensures Valid() && nodes == [] && Value() == Bucket([], 0)
    {
      head, tail, length := null, null, 0;
      nodes := [];
    }

    method Push(contact: Contact)
      requires Valid()
      modifies this, nodes
      ensures Valid() && Value() == Pushed(old(Value()), contact)
      ensures |nodes| == |old(nodes)| + 1 && nodes[..|old(nodes)|] == old(nodes) && fresh(nodes[|old(nodes)|])
      ensures forall n: BucketNode | n in nodes :: n in old(nodes) || fresh(n)
    {
      var n := new BucketNode(contact, this);
      if head == null {
        head := n;
      } else {
        tail.next := n;
        n.prev := tail;
      }
      tail := n;
      length := length + 1;
      nodes := nodes + [n];
    }

    method Find(contact: Contact) returns (found: BucketNode?, ghost i: nat)
      requires Valid()
      ensures found == null ==> forall j | 0 <= j < |nodes| :: nodes[j].contact.nodeId != contact.nodeId
      ensures found != null ==> i < |nodes| && found == nodes[i] && found.contact.nodeId == contact.nodeId
      ensures found != null ==> forall j | 0 <= j < i :: nodes[j].contact.nodeId != contact.nodeId
    {
      i := 0;
      var n := head;
      while n != null
        invariant i <= |nodes| && n == (if i == |nodes| then null else nodes[i])
        invariant forall j | 0 <= j < i :: nodes[j].contact.nodeId != contact.nodeId
        decreases |nodes| - i
      {
        var c := Compare(n.contact.nodeId, contact.nodeId);
        if c == 0 {
          return n, i;
        }
        n := n.next;
        i := i + 1;
      }
      found := null;
    }

    // A single node would leave head nil, and the program would fault.
    method DeleteFrontInsert(contact: Contact)
      requires Valid() && |nodes| >= 2
      modifies this, nodes
      ensures Valid() && Value() == FrontReplaced(old(Value()), contact)
      ensures |nodes| == |old(nodes)| && nodes[..|nodes| - 1] == old(nodes)[1..] && fresh(nodes[|nodes| - 1])
    {
      var frontNode := head;
      head := frontNode.next;
      head.prev := null;
      nodes := nodes[1..];
      Push(contact);
    }

    // The two assignments of MoveToTail that take an interior node out of the chain.
    method Unlink(contactNode: BucketNode, ghost i: nat)
      requires Valid() && 0 < i < |nodes| - 1 && contactNode == nodes[i]
      modifies this`nodes, nodes[i - 1], nodes[i + 1]
      ensures Valid() && nodes == old(nodes[..i] + nodes[i + 1..])
      ensures forall n: BucketNode | n in nodes :: n in old(nodes)
      ensures Contacts() == old(Contacts()[..i] + Contacts()[i + 1..])
    {
      var previousNode := contactNode.prev;
      var afterNode := contactNode.next;
      previousNode.next := afterNode;
      afterNode.prev := previousNode;
      ghost var was := nodes;
      nodes := nodes[..i] + nodes[i + 1..];
      forall j | 0 <= j < |nodes|
        ensures nodes[j].next == (if j == |nodes| - 1 then null else nodes[j + 1])
        ensures nodes[j].prev == (if j == 0 then null else nodes[j - 1])
      {
        assert nodes[j] == if j < i then was[j] else was[j + 1];
      }
    }

    method MoveToTail(contactNode: BucketNode, ghost i: nat)
      requires Valid() && i < |nodes| && contactNode == nodes[i]
      modifies this, nodes
      ensures Valid() && Value() == Touched(old(Value()), i)
      ensures forall n: BucketNode | n in nodes :: n in old(nodes) || fresh(n)
    {
      if contactNode.prev == null || contactNode.next == null {
        return;
      }
      Unlink(contactNode, i);
      length := length - 1;
      Push(contactNode.contact);
    }
  }
}
