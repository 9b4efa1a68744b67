/**
 * CTL::DoublyLinkedList<T>: nodes linked both ways, with `head` and `tail`.
 * The ghost sequence `Nodes` lists the nodes in link order and `Contents`
 * their data; the positional operations are specified by the sequence
 * functions of module Positions.
 */
module DoublyLinked {
  import opened Positions

  class Node<T> {
    var data: T
    var next: Node?<T>
    var prev: Node?<T>

    constructor (data: T)
      ensures this.data == data && next == null && prev == null
    {
      this.data := data;
      next := null;
      prev := null;
    }
  }

  class DoublyLinkedList<T> {
    var head: Node?<T>
    var tail: Node?<T>
    /** T(): what the reads return where there is no element. */
    const Default: T
    /** The nodes from head to tail, in link order. */
    ghost var Nodes: seq<Node<T>>
    /** The elements from head to tail. */
    ghost var Contents: seq<T>

    /** The node at index i of ns, or null outside it. */
    static ghost function At(ns: seq<Node<T>>, i: int): Node?<T>
    {
      if 0 <= i < |ns| then ns[i] else null
    }

    /**
     * h and t are the first and last node of ns, each node's next and prev
     * are its neighbours in ns (null at the ends), with no node twice.
     */
    static ghost predicate Chained(ns: seq<Node<T>>, h: Node?<T>, t: Node?<T>)
      reads ns
    {
      h == At(ns, 0) && t == At(ns, |ns| - 1) &&
      (|ns| > 0 ==> ns[0].prev == null && ns[|ns| - 1].next == null) &&
      (forall i :: 0 <= i < |ns| - 1 ==> ns[i].next == ns[i + 1]) &&
      (forall i :: 0 < i < |ns| ==> ns[i].prev == ns[i - 1]) &&
      (forall i, j :: 0 <= i < j < |ns| ==> ns[i] != ns[j])
    }

    /** Nodes is the chain from head to tail. */
    ghost predicate Linked()
      reads this, Nodes
    {
      Chained(Nodes, head, tail)
    }

    ghost predicate Valid()
      reads this, Nodes
    {
      Linked() && |Contents| == |Nodes| &&
      forall i :: 0 <= i < |Nodes| ==> Nodes[i].data == Contents[i]
    }

    /** The link upkeep every operation keeps: next and prev agree, and the ends are open. */
    lemma LinksAgree()
      requires Valid()
      ensures (head == null) == (tail == null) == (Contents == [])
      ensures head != null ==> head.prev == null
      ensures tail != null ==> tail.next == null
      ensures forall n :: n in Nodes && n.next != null ==> n.next.prev == n
      ensures forall n :: n in Nodes && n.prev != null ==> n.prev.next == n
    {
      forall n | n in Nodes && n.next != null
        ensures n.next.prev == n
      {
        var i :| 0 <= i < |Nodes| && Nodes[i] == n;
        assert n.next == Nodes[i + 1];
      }
      forall n | n in Nodes && n.prev != null
        ensures n.prev.next == n
      {
        var i :| 0 <= i < |Nodes| && Nodes[i] == n;
        assert n.prev == Nodes[i - 1];
      }
    }

    constructor (zero: T)
      ensures Valid() && Contents == [] && Default == zero
    {
      head, tail := null, null;
      Default := zero;
      Nodes := [];
      Contents := [];
    }

    /** insert_beginning: a new node before head; it is also the tail when the list was empty. */
    method InsertBeginning(data: T)
      requires Valid()
      modifies this, Nodes
      ensures Valid() && Contents == [data] + old(Contents)
    {
      var newNode := new Node(data);
      newNode.next := head;
      if head != null {
        head.prev := newNode;
      } else {
        tail := newNode;
      }
      head, Nodes, Contents := newNode, [newNode] + Nodes, [data] + Contents;
    }

    /** insert_at_position: walk to the node at pos - 1 and link a new node after it, if the walk reaches it. */
    method InsertAtPosition(data: T, pos: int)
      requires Valid()
      modifies this, Nodes
      ensures Valid() && Contents == InsertedAt(old(Contents), pos, data)
    {
      if pos == 0 {
        InsertBeginning(data);
        return;
      }
      var temp := head;
      var i := 0;
      while i < pos - 1 && temp != null
        invariant 0 <= i <= |Nodes| && i <= Effective(pos) - 1
        invariant temp == At(Nodes, i)
      {
        temp := temp.next;
        i := i + 1;
      }
      if temp == null {
        return;
      }
      LinkAfter(temp, i + 1, data);
    }

    /** Links a new node holding `data` after `temp`, the node at index i - 1; it becomes the tail when temp was. */
    method LinkAfter(temp: Node<T>, i: int, data: T)
      requires Valid() && 1 <= i <= |Nodes| && temp == Nodes[i - 1]
      modifies this, Nodes
      ensures Valid() && Contents == old(Contents)[..i] + [data] + old(Contents)[i..]
    {
      assert i < |Nodes| ==> temp.next == Nodes[i];
      if temp.next != null {
        LinkBetween(temp, i, data);
      } else {
        assert i == |Nodes|;
        LinkLast(temp, data);
      }
    }

    /** The new node goes between `temp`, at index i - 1, and its successor, whose prev now points back to it. */
    method LinkBetween(temp: Node<T>, i: int, data: T)
      requires Valid() && 1 <= i < |Nodes| && temp == Nodes[i - 1]
      modifies this, Nodes
      ensures Valid() && Contents == old(Contents)[..i] + [data] + old(Contents)[i..]
    {
      var succ := temp.next;
      assert succ == Nodes[i];
      var newNode := new Node(data);
      newNode.next := succ;
      newNode.prev := temp;
      succ.prev := newNode;
      temp.next := newNode;
      ghost var ns, cs := Nodes, Contents;
      SplicedChain(ns, i, newNode, head, tail);
      SplicedData(ns, cs, i, newNode);
      Nodes, Contents := ns[..i] + [newNode] + ns[i..], cs[..i] + [data] + cs[i..];
    }

    /**
     * Splicing a node x that is not in ns in at an inner index i, once it and
     * its two neighbours link to each other, leaves a chain with the same ends.
     */
    static lemma SplicedChain(ns: seq<Node<T>>, i: int, x: Node<T>, h: Node?<T>, t: Node?<T>)
      requires 1 <= i < |ns| && x !in ns
      requires h == ns[0] && t == ns[|ns| - 1] && ns[0].prev == null && ns[|ns| - 1].next == null
      requires forall k :: 0 <= k < |ns| - 1 && k != i - 1 ==> ns[k].next == ns[k + 1]
      requires forall k :: 0 < k < |ns| && k != i ==> ns[k].prev == ns[k - 1]
      requires forall k, m :: 0 <= k < m < |ns| ==> ns[k] != ns[m]
      requires ns[i - 1].next == x && x.next == ns[i] && x.prev == ns[i - 1] && ns[i].prev == x
      ensures Chained(ns[..i] + [x] + ns[i..], h, t)
    {
      SplicedNexts(ns, i, x);
      SplicedPrevs(ns, i, x);
      SplicedIn(ns, i, x);
    }

    /** Splicing x in at index i, once ns[i - 1] and x link forward to their new successors, leaves a forward chain. */
    static lemma SplicedNexts(ns: seq<Node<T>>, i: int, x: Node<T>)
      requires 1 <= i <= |ns|
      requires forall k :: 0 <= k < |ns| - 1 && k != i - 1 ==> ns[k].next == ns[k + 1]
      requires ns[i - 1].next == x && (i < |ns| ==> x.next == ns[i])
      ensures var s := ns[..i] + [x] + ns[i..];
        forall k :: 0 <= k < |s| - 1 ==> s[k].next == s[k + 1]
    {
      var s := ns[..i] + [x] + ns[i..];
      forall k | 0 <= k < |s| - 1
        ensures s[k].next == s[k + 1]
      {
        if k < i - 1 {
          assert s[k] == ns[k] && s[k + 1] == ns[k + 1];
        } else if i < k {
          assert s[k] == ns[k - 1] && s[k + 1] == ns[k];
        }
      }
    }

    /** Splicing x in at index i, once x and ns[i] link back to their new predecessors, leaves a backward chain. */
    static lemma SplicedPrevs(ns: seq<Node<T>>, i: int, x: Node<T>)
      requires 1 <= i <= |ns|
      requires forall k :: 0 < k < |ns| && k != i ==> ns[k].prev == ns[k - 1]
      requires x.prev == ns[i - 1] && (i < |ns| ==> ns[i].prev == x)
      ensures var s := ns[..i] + [x] + ns[i..];
        forall k :: 0 < k < |s| ==> s[k].prev == s[k - 1]
    {
      var s := ns[..i] + [x] + ns[i..];
      forall k | 0 < k < |s|
        ensures s[k].prev == s[k - 1]
      {
        if k < i {
          assert s[k] == ns[k] && s[k - 1] == ns[k - 1];
        } else if i + 1 < k {
          assert s[k] == ns[k - 1] && s[k - 1] == ns[k - 2];
        }
      }
    }

    /** Splicing a node and its element in at the same index keeps nodes and elements in step. */
    static lemma SplicedData(ns: seq<Node<T>>, cs: seq<T>, i: int, x: Node<T>)
      requires |ns| == |cs| && 0 <= i <= |ns|
      requires forall k :: 0 <= k < |ns| ==> ns[k].data == cs[k]
      ensures var s, t := ns[..i] + [x] + ns[i..], cs[..i] + [x.data] + cs[i..];
        |s| == |t| && forall k :: 0 <= k < |s| ==> s[k].data == t[k]
    {
      var s, t := ns[..i] + [x] + ns[i..], cs[..i] + [x.data] + cs[i..];
      forall k | 0 <= k < |s|
        ensures s[k].data == t[k]
      {
        if k < i {
          assert s[k] == ns[k] && t[k] == cs[k];
        } else if i < k {
          assert s[k] == ns[k - 1] && t[k] == cs[k - 1];
        }
      }
    }

    /** The new node goes after `temp`, the tail, and becomes the tail. */
    method LinkLast(temp: Node<T>, data: T)
      requires Valid() && Nodes != [] && temp == Nodes[|Nodes| - 1]
      modifies this, Nodes
      ensures Valid() && Contents == old(Contents) + [data]
    {
      var newNode := new Node(data);
      newNode.prev := temp;
      tail := newNode;
      temp.next := newNode;
      Nodes, Contents := Nodes + [newNode], Contents + [data];
    }

    /** insert_end: link a new node after tail; it is also the head when the list was empty. */
    method InsertEnd(data: T)
      requires Valid()
      modifies this, Nodes
      ensures Valid() && Contents == old(Contents) + [data]
    {
      var newNode := new Node(data);
      if tail != null {
        tail.next := newNode;
        newNode.prev := tail;
      } else {
        head := newNode;
      }
      tail := newNode;
      Nodes := Nodes + [newNode];
      Contents := Contents + [data];
    }

    /** read_beginning: the head's data, or T() when empty. */
    function ReadBeginning(): (r: T)
      reads this, Nodes
      requires Valid()
      ensures r == ReadAt(Contents, 0, Default)
      ensures r == if Contents == [] then Default else Contents[0]
    {
      if head != null then head.data else Default
    }

    /** read_at_position: walk pos steps; T() when the walk falls off the end. */
    method ReadAtPosition(pos: int) returns (r: T)
      requires Valid()
      ensures r == ReadAt(Contents, pos, Default)
    {
      var temp := head;
      var i := 0;
      while i < pos && temp != null
        invariant 0 <= i <= |Nodes| && i <= (if pos < 0 then 0 else pos)
        invariant temp == At(Nodes, i)
      {
        temp := temp.next;
        i := i + 1;
      }
      r := if temp != null then temp.data else Default;
    }

    /** read_end: the tail's data, or T() when empty. */
    function ReadEnd(): (r: T)
      reads this, Nodes
      requires Valid()
      ensures r == if Contents == [] then Default else Contents[|Contents| - 1]
    {
      if tail != null then tail.data else Default
    }

    /** delete_beginning: unlink the head; the list is then empty or its new head has no prev. */
    method DeleteBeginning()
      requires Valid()
      modifies this, Nodes
      ensures Valid() && Contents == DeletedAt(old(Contents), 0)
      ensures old(|Contents|) == 1 ==> head == null && tail == null
    {
      if head == null {
        return;
      }
      assert head.next == At(Nodes, 1);
      head := head.next;
      if head != null {
        head.prev := null;
      } else {
        tail := null;
      }
      Nodes := Nodes[1..];
      Contents := Contents[1..];
    }

    /**
     * delete_at_position: pos 0 unlinks the head; otherwise walk pos steps
     * and unlink the node reached, if any, moving tail back when it was the
     * last one.
     */
    method DeleteAtPosition(pos: int)
      requires Valid() && pos >= 0
      modifies this, Nodes
      ensures Valid() && Contents == DeletedAt(old(Contents), pos)
    {
      if pos == 0 {
        DeleteBeginning();
        return;
      }
      var temp := head;
      var i := 0;
      while i < pos && temp != null
        invariant 0 <= i <= |Nodes| && i <= pos
        invariant temp == At(Nodes, i)
      {
        temp := temp.next;
        i := i + 1;
      }
      if temp == null {
        return;
      }
      Unlink(temp, i);
    }

    /** Unlinks `temp`, the node at index i >= 1, from its neighbours; tail moves back when temp was the tail. */
    method Unlink(temp: Node<T>, i: int)
      requires Valid() && 1 <= i < |Nodes| && temp == Nodes[i]
      modifies this, Nodes
      ensures Valid() && Contents == old(Contents)[..i] + old(Contents)[i + 1..]
    {
      assert temp.next == At(Nodes, i + 1);
      if temp.next != null {
        UnlinkBetween(temp, i);
      } else {
        UnlinkLast(temp, i);
      }
    }

    /** `temp`, at index i, has neighbours on both sides, which are linked to each other. */
    method UnlinkBetween(temp: Node<T>, i: int)
      requires Valid() && 1 <= i < |Nodes| - 1 && temp == Nodes[i]
      modifies this, Nodes
      ensures Valid() && Contents == old(Contents)[..i] + old(Contents)[i + 1..]
    {
      var before, after := temp.prev, temp.next;
      assert before == Nodes[i - 1] && after == Nodes[i + 1];
      after.prev := before;
      before.next := after;
      ghost var ns, cs := Nodes, Contents;
      SplicedOutChain(ns, i, head, tail);
      SplicedOutData(ns, cs, i);
      Nodes, Contents := ns[..i] + ns[i + 1..], cs[..i] + cs[i + 1..];
    }

    /**
     * Cutting out the node at an inner index i, once its two neighbours link
     * to each other, leaves a chain with the same ends.
     */
    static lemma SplicedOutChain(ns: seq<Node<T>>, i: int, h: Node?<T>, t: Node?<T>)
      requires 1 <= i < |ns| - 1
      requires h == ns[0] && t == ns[|ns| - 1] && ns[0].prev == null && ns[|ns| - 1].next == null
      requires forall k :: 0 <= k < |ns| - 1 && k != i - 1 && k != i ==> ns[k].next == ns[k + 1]
      requires forall k :: 0 < k < |ns| && k != i && k != i + 1 ==> ns[k].prev == ns[k - 1]
      requires forall k, m :: 0 <= k < m < |ns| ==> ns[k] != ns[m]
      requires ns[i - 1].next == ns[i + 1] && ns[i + 1].prev == ns[i - 1]
      ensures Chained(ns[..i] + ns[i + 1..], h, t)
    {
      var s := ns[..i] + ns[i + 1..];
      SplicedOut(ns, i);
      forall k | 0 <= k < |s| - 1
        ensures s[k].next == s[k + 1]
      {
        if k < i - 1 {
          assert s[k] == ns[k] && s[k + 1] == ns[k + 1];
        } else if i <= k {
          assert s[k] == ns[k + 1] && s[k + 1] == ns[k + 2];
        }
      }
      forall k | 0 < k < |s|
        ensures s[k].prev == s[k - 1]
      {
        if k < i {
          assert s[k] == ns[k] && s[k - 1] == ns[k - 1];
        } else if i < k {
          assert s[k] == ns[k + 1] && s[k - 1] == ns[k];
        }
      }
    }

    /** Cutting out a node and its element at the same index keeps nodes and elements in step. */
    static lemma SplicedOutData(ns: seq<Node<T>>, cs: seq<T>, i: int)
      requires |ns| == |cs| && 0 <= i < |ns|
      requires forall k :: 0 <= k < |ns| ==> ns[k].data == cs[k]
      ensures var s, r := ns[..i] + ns[i + 1..], cs[..i] + cs[i + 1..];
        |s| == |r| && forall k :: 0 <= k < |s| ==> s[k].data == r[k]
    {
      SplicedOut(ns, i);
      SplicedOut(cs, i);
    }

    /** `temp`, at index i >= 1, is the tail: its predecessor becomes the tail. */
    method UnlinkLast(temp: Node<T>, i: int)
      requires Valid() && 1 <= i == |Nodes| - 1 && temp == Nodes[i]
      modifies this, Nodes
      ensures Valid() && Contents == old(Contents)[..i] + old(Contents)[i + 1..]
    {
      assert temp.prev == Nodes[i - 1];
      tail := temp.prev;
      temp.prev.next := temp.next;
      Nodes, Contents := Nodes[..i], Contents[..i];
    }

    /** delete_end: unlink the tail; removing the only node leaves head and tail null. */
    method DeleteEnd()
      requires Valid()
      modifies this, Nodes
      ensures Valid() && Contents == if old(Contents) == [] then [] else old(Contents)[..|old(Contents)| - 1]
      ensures old(|Contents|) == 1 ==> head == null && tail == null
    {
      if tail == null {
        return;
      }
      assert tail.prev == At(Nodes, |Nodes| - 2);
      tail := tail.prev;
      if tail != null {
        tail.next := null;
      } else {
        head := null;
      }
      Nodes := Nodes[..|Nodes| - 1];
      Contents := Contents[..|Contents| - 1];
    }

    /** Counts the nodes by walking the chain, as search and sort do first. */
    method Count() returns (size: int)
      requires Valid()
      ensures size == |Contents|
    {
      size := 0;
      var temp := head;
      while temp != null
        invariant 0 <= size <= |Nodes|
        invariant temp == At(Nodes, size)
        decreases |Nodes| - size
      {
        size := size + 1;
        temp := temp.next;
      }
    }

    /** Copies the elements into a fresh array of `size` cells, in list order. */
    method CopyOut(size: int) returns (arr: array<T>)
      requires Valid() && size == |Contents|
      ensures fresh(arr) && arr[..] == Contents
    {
      arr := new T[size](_ => Default);
      var temp := head;
      for i := 0 to size
        invariant temp == At(Nodes, i)
        invariant arr[..i] == Contents[..i]
      {
        arr[i] := temp.data;
        temp := temp.next;
      }
    }

    /** search: -1 on an empty list; otherwise copy the elements out and hand them to `searchMethod`. */
    method Search(searchMethod: (seq<T>, int, T) -> int, key: T) returns (index: int)
      requires Valid()
      ensures index == if Contents == [] then -1 else searchMethod(Contents, |Contents|, key)
    {
      var size := Count();
      if size == 0 {
        return -1;
      }
      var arr := CopyOut(size);
      index := searchMethod(arr[..], size, key);
    }

    /**
     * sort: nothing for fewer than two elements; otherwise copy them out,
     * let `sortMethod` rearrange the copy, and write it back into the same
     * nodes in order.
     */
    method Sort(sortMethod: (seq<T>, int) -> seq<T>)
      requires Valid()
      requires |Contents| > 1 ==> |sortMethod(Contents, |Contents|)| == |Contents|
      modifies this, Nodes
      ensures Valid() && Nodes == old(Nodes) && head == old(head) && tail == old(tail)
      ensures Contents == if |old(Contents)| <= 1 then old(Contents) else sortMethod(old(Contents), |old(Contents)|)
    {
      var size := Count();
      if size <= 1 {
        return;
      }
      var arr := CopyOut(size);
      var sorted := sortMethod(arr[..], size);
      WriteBack(sorted);
      Contents := sorted;
    }

    /** Overwrites the data of the nodes, head first, with `values`; the links stay as they are. */
    method WriteBack(values: seq<T>)
      requires Valid() && |values| == |Nodes|
      modifies Nodes
      ensures Linked()
      ensures forall k :: 0 <= k < |Nodes| ==> Nodes[k].data == values[k]
    {
      var temp := head;
      for i := 0 to |values|
        invariant temp == At(Nodes, i)
        invariant forall k :: 0 <= k < |Nodes| ==> Nodes[k].next == old(Nodes[k].next) && Nodes[k].prev == old(Nodes[k].prev)
        invariant forall k :: 0 <= k < i ==> Nodes[k].data == values[k]
      {
        temp.data := values[i];
        temp := temp.next;
      }
    }
  }
}
