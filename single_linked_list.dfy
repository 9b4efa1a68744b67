/**
 * CTL::SinglyLinkedList<T>: nodes linked through `next` from `head`.
 * The ghost sequence `Nodes` lists the nodes in link order and `Contents`
 * their data; the positional operations are specified by the sequence
 * functions of module Positions.
 */
module SinglyLinked {
  import opened Positions

  class Node<T> {
    var data: T
    var next: Node?<T>

    constructor (data: T, next: Node?<T>)
      ensures this.data == data && this.next == next
    {
      this.data := data;
      this.next := next;
    }
  }

  class SinglyLinkedList<T> {
    var head: Node?<T>
    /** T(): what the reads return where there is no element. */
    const Default: T
    /** The nodes from head onwards, in link order. */
    ghost var Nodes: seq<Node<T>>
    /** The elements from head onwards. */
    ghost var Contents: seq<T>

    /** The node at index i of ns, or null outside it. */
    static ghost function At(ns: seq<Node<T>>, i: int): Node?<T>
    {
      if 0 <= i < |ns| then ns[i] else null
    }

    /** head starts the chain, each node links to the next and the last to null, with no node twice. */
    ghost predicate Linked()
      reads this, Nodes
    {
      head == At(Nodes, 0) &&
      (forall i :: 0 <= i < |Nodes| ==> Nodes[i].next == At(Nodes, i + 1)) &&
      (forall i, j :: 0 <= i < j < |Nodes| ==> Nodes[i] != Nodes[j])
    }

    ghost predicate Valid()
      reads this, Nodes
    {
      Linked() && |Contents| == |Nodes| &&
      forall i :: 0 <= i < |Nodes| ==> Nodes[i].data == Contents[i]
    }

    constructor (zero: T)
      ensures Valid() && Contents == [] && Default == zero
    {
      head := null;
      Default := zero;
      Nodes := [];
      Contents := [];
    }

    /** insert_beginning: a new node in front of head. */
    method InsertBeginning(data: T)
      requires Valid()
      modifies this
      ensures Valid() && Contents == [data] + old(Contents)
      ensures Nodes[1..] == old(Nodes) && fresh(Nodes[0])
    {
      var newNode := new Node(data, head);
      head := newNode;
      Nodes := [newNode] + Nodes;
      Contents := [data] + Contents;
    }

    /** insert_at_position: link a new node after the one at pos - 1, if the walk reaches it. */
    method InsertAtPosition(data: T, pos: int)
      requires Valid()
      modifies this, Nodes
      ensures Valid() && Contents == InsertedAt(old(Contents), pos, data)
    {
      if pos == 0 {
        InsertBeginning(data);
        return;
      }
      var current := head;
      var i := 1;
      while i < pos && current != null
        invariant 1 <= i <= Effective(pos) && i - 1 <= |Nodes|
        invariant current == At(Nodes, i - 1)
      {
        current := current.next;
        i := i + 1;
      }
      if current != null {
        LinkAfter(current, i, data);
      }
    }

    /** Links a new node holding `data` after `current`, the node at index i - 1. */
    method LinkAfter(current: Node<T>, i: int, data: T)
      requires Valid() && 1 <= i <= |Nodes| && current == Nodes[i - 1]
      modifies this, current
      ensures Valid() && Contents == old(Contents)[..i] + [data] + old(Contents)[i..]
    {
      assert current.next == At(Nodes, i);
      var newNode := new Node(data, current.next);
      current.next := newNode;
      ghost var ns := Nodes;
      SplicedIn(Nodes, i, newNode);
      SplicedIn(Contents, i, data);
      ghost var cs := Contents;
      Nodes, Contents := Nodes[..i] + [newNode] + Nodes[i..], Contents[..i] + [data] + Contents[i..];
      forall k | 0 <= k < |Nodes|
        ensures Nodes[k].next == At(Nodes, k + 1)
        ensures Nodes[k].data == Contents[k]
      {
        if k < i - 1 {
          assert Nodes[k] == ns[k] != current;
        } else if i < k {
          assert Nodes[k] == ns[k - 1] != current;
          assert Contents[k] == cs[k - 1];
        }
      }
    }

    /** insert_end: walk to the last node and link a new one after it. */
    method InsertEnd(data: T)
      requires Valid()
      modifies this, Nodes
      ensures Valid() && Contents == old(Contents) + [data]
    {
      var newNode := new Node(data, null);
      if head == null {
        head := newNode;
      } else {
        var current := head;
        ghost var k := 0;
        while current.next != null
          invariant 0 <= k < |Nodes| && current == Nodes[k]
          decreases |Nodes| - k
        {
          current := current.next;
          k := k + 1;
        }
        current.next := newNode;
      }
      Nodes := Nodes + [newNode];
      Contents := Contents + [data];
    }

    /** read_beginning: the head's data, or T() when empty. */
    function ReadBeginning(): (r: T)
      reads this, Nodes
      requires Valid()
      ensures r == ReadAt(Contents, 0, Default)
      ensures r == if Contents == [] then Default else Contents[0]
    {
      if head != null then head.data else Default
    }

    /** read_at_position: walk pos steps; T() when the walk falls off the end. */
    method ReadAtPosition(pos: int) returns (r: T)
      requires Valid()
      ensures r == ReadAt(Contents, pos, Default)
    {
      var current := head;
      var i := 0;
      while i < pos && current != null
        invariant 0 <= i <= |Nodes| && i <= (if pos < 0 then 0 else pos)
        invariant current == At(Nodes, i)
      {
        current := current.next;
        i := i + 1;
      }
      r := if current != null then current.data else Default;
    }

    /** read_end: walk to the last node; T() when empty. */
    method ReadEnd() returns (r: T)
      requires Valid()
      ensures r == if Contents == [] then Default else Contents[|Contents| - 1]
    {
      var current := head;
      if current == null {
        return Default;
      }
      ghost var k := 0;
      while current.next != null
        invariant 0 <= k < |Nodes| && current == Nodes[k]
        decreases |Nodes| - k
      {
        current := current.next;
        k := k + 1;
      }
      r := current.data;
    }

    /** delete_beginning: unlink the head; nothing when empty. */
    method DeleteBeginning()
      requires Valid()
      modifies this
      ensures Valid() && Contents == DeletedAt(old(Contents), 0)
    {
      if head == null {
        return;
      }
      UnlinkHead();
    }

    /** Moves head to its successor, dropping the first node. */
    method UnlinkHead()
      requires Valid() && head != null
      modifies this
      ensures Valid() && Contents == old(Contents)[1..]
    {
      head := head.next;
      Nodes := Nodes[1..];
      Contents := Contents[1..];
    }

    /**
     * delete_at_position: pos 0 unlinks the head; otherwise walk towards
     * the node at pos - 1 without passing the last one, and unlink its
     * successor if there is one.
     */
    method DeleteAtPosition(pos: int)
      requires Valid()
      modifies this, Nodes
      ensures Valid() && Contents == DeletedAt(old(Contents), pos)
    {
      if pos == 0 && head != null {
        UnlinkHead();
        return;
      }
      var current := head;
      var i := 1;
      while i < pos && current != null && current.next != null
        invariant Nodes == [] ==> current == null
        invariant Nodes != [] ==> 1 <= i <= |Nodes| && current == Nodes[i - 1]
        invariant 1 <= i && (pos != 0 ==> i <= Effective(pos))
      {
        current := current.next;
        i := i + 1;
      }
      if current != null && current.next != null {
        UnlinkAfter(current, i);
      }
    }

    /** Unlinks the successor of `current`, the node at index i - 1; the successor is at index i. */
    method UnlinkAfter(current: Node<T>, i: int)
      requires Valid() && 1 <= i < |Nodes| && current == Nodes[i - 1]
      modifies this, current
      ensures Valid() && Contents == old(Contents)[..i] + old(Contents)[i + 1..]
    {
      assert current.next == Nodes[i] && Nodes[i].next == At(Nodes, i + 1);
      current.next := current.next.next;
      ghost var ns := Nodes;
      SplicedOut(Nodes, i);
      SplicedOut(Contents, i);
      Nodes, Contents := Nodes[..i] + Nodes[i + 1..], Contents[..i] + Contents[i + 1..];
      forall k | 0 <= k < |Nodes|
        ensures Nodes[k].next == At(Nodes, k + 1)
      {
        if k < i - 1 {
          assert Nodes[k] == ns[k] != current;
        } else if i <= k {
          assert Nodes[k] == ns[k + 1] != current;
        }
      }
    }

    /** delete_end: unlink the last node; nothing when empty. */
    method DeleteEnd()
      requires Valid()
      modifies this, Nodes
      ensures Valid() && Contents == if old(Contents) == [] then [] else old(Contents)[..|old(Contents)| - 1]
    {
      if head == null {
        return;
      }
      if head.next == null {
        head := null;
        Nodes := [];
        Contents := [];
        return;
      }
      var current := head;
      ghost var k := 0;
      while current.next.next != null
        invariant 0 <= k < |Nodes| - 1 && current == Nodes[k]
        decreases |Nodes| - k
      {
        current := current.next;
        k := k + 1;
      }
      current.next := null;
      Nodes := Nodes[..|Nodes| - 1];
      Contents := Contents[..|Contents| - 1];
    }

    /** Counts the nodes by walking the chain, as search and sort do first. */
    method Count() returns (count: int)
      requires Valid()
      ensures count == |Contents|
    {
      count := 0;
      var temp := head;
      while temp != null
        invariant 0 <= count <= |Nodes|
        invariant temp == At(Nodes, count)
        decreases |Nodes| - count
      {
        count := count + 1;
        temp := temp.next;
      }
    }

    /** Copies the elements into a fresh array of `count` cells, in list order. */
    method CopyOut(count: int) returns (arr: array<T>)
      requires Valid() && count == |Contents|
      ensures fresh(arr) && arr[..] == Contents
    {
      arr := new T[count](_ => Default);
      var temp := head;
      for i := 0 to count
        invariant temp == At(Nodes, i)
        invariant arr[..i] == Contents[..i]
      {
        arr[i] := temp.data;
        temp := temp.next;
      }
    }

    /** search: copy the elements out and hand them to `searchMethod`. */
    method Search(searchMethod: (seq<T>, int, T) -> int, key: T) returns (index: int)
      requires Valid()
      ensures index == searchMethod(Contents, |Contents|, key)
    {
      var count := Count();
      var arr := CopyOut(count);
      index := searchMethod(arr[..], count, key);
    }

    /**
     * sort: copy the elements out, let `sortMethod` rearrange the copy, and
     * write it back into the same nodes in order.
     */
    method Sort(sortMethod: (seq<T>, int) -> seq<T>)
      requires Valid() && |sortMethod(Contents, |Contents|)| == |Contents|
      modifies this, Nodes
      ensures Valid() && Nodes == old(Nodes) && head == old(head)
      ensures Contents == sortMethod(old(Contents), |old(Contents)|)
    {
      var count := Count();
      var arr := CopyOut(count);
      var sorted := sortMethod(arr[..], count);
      WriteBack(sorted);
      Contents := sorted;
    }

    /** Overwrites the data of the nodes, head first, with `values`; the links stay as they are. */
    method WriteBack(values: seq<T>)
      requires Valid() && |values| == |Nodes|
      modifies Nodes
      ensures Linked()
      ensures forall k :: 0 <= k < |Nodes| ==> Nodes[k].data == values[k]
    {
      var temp := head;
      for i := 0 to |values|
        invariant temp == At(Nodes, i)
        invariant forall k :: 0 <= k < |Nodes| ==> Nodes[k].next == old(Nodes[k].next)
        invariant forall k :: 0 <= k < i ==> Nodes[k].data == values[k]
      {
        temp.data := values[i];
        temp := temp.next;
      }
    }
  }
}
