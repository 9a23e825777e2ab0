/** The circular doubly linked list of src/core/list.c and the refresh of
    src/metrics/process_manager.c that runs over it. */
module ProcessLists {
  import opened Reconcile

  /** The counter that all nodes of one list share. */
  class Counter {
    var value: nat
  }

  /** A process record with its embedded list node; LIST_ENTRY is a constant offset, so the two
      are one object here. A list head is a bare node: its record fields are never used. */
  class Node {
    var next: Node?
    var prev: Node?
    var count: Counter?
    var pid: nat
    var isActive: bool
    var info: Info

    constructor (info: Info)
      ensures pid == 0 && !isActive && this.info == info
      ensures next == null && prev == null && count == null
    {
      next, prev, count := null, null, null;
      pid, isActive, this.info := 0, false, info;
    }
  }

  ghost function Record(n: Node): Proc
    reads n`pid, n`isActive, n`info
  {
    Proc(n.pid, n.isActive, n.info)
  }

  ghost predicate AllDifferent<T>(s: seq<T>) {
    forall i, j :: 0 <= i < j < |s| ==> s[i] != s[j]
  }

  lemma StillDifferent<T>(front: seq<T>, x: T, back: seq<T>)
    requires AllDifferent(front + [x] + back)
    ensures AllDifferent(front + back) && x !in front + back
    ensures forall y :: y in front + back ==> y in front + [x] + back
  {
    var s, t := front + back, front + [x] + back;
    assert forall i :: 0 <= i < |s| ==> s[i] == t[if i < |front| then i else i + 1];
    assert t[|front|] == x;
  }

  class ProcessList {
    const head: Node
    const counter: Counter
    /** The nodes after the head, in list order. */
    ghost var nodes: seq<Node>

    /** Going round the ring: position 0 and position |nodes| + 1 are the head. */
    ghost function At(i: int): Node
      reads this
    {
      if 0 < i <= |nodes| then nodes[i - 1] else head
    }

    ghost predicate Valid()
      reads this, counter
      reads head`next, head`prev, head`count, nodes`next, nodes`prev, nodes`count
    {
      && head !in nodes
      && AllDifferent(nodes)
      && (forall i {:trigger At(i).next} :: 0 <= i <= |nodes| ==> At(i).next == At(i + 1))
      && (forall i {:trigger At(i).prev} :: 0 < i <= |nodes| + 1 ==> At(i).prev == At(i - 1))
      && (forall i {:trigger At(i).count} :: 0 <= i <= |nodes| ==> At(i).count == counter)
      && counter.value == |nodes|
    }

    /** list_init */
    constructor (head: Node)
      modifies head`next, head`prev, head`count
      ensures Valid() && nodes == [] && this.head == head && fresh(counter)
    {
      this.head := head;
      counter := new Counter;
      nodes := [];
      new;
      head.next := head;
      head.prev := head;
      head.count := counter;
      counter.value := 0;
    }

    method Count() returns (n: nat)
      requires Valid()
      ensures n == |nodes|
    {
      assert At(0) == head;
      n := head.count.value;
    }

    method AddNode(node: Node)
      requires Valid() && node !in nodes && node != head
      modifies this`nodes, counter, node`next, node`prev, node`count, head`next, At(1)`prev
      ensures Valid() && nodes == [node] + old(nodes)
    {
      assert At(0) == head && At(0).next == At(1) && At(1).prev == At(0);
      node.next := head.next;
      node.prev := head;
      node.count := head.count;
      head.next.prev := node;
      head.next := node;
      head.count.value := head.count.value + 1;
      nodes := [node] + nodes;
      assert At(0) == head && At(1) == node && At(2) == old(At(1));
      assert forall i :: 1 < i <= |nodes| + 1 ==> At(i) == old(At(i - 1));
    }

    method DeleteNode(node: Node, ghost front: seq<Node>, ghost back: seq<Node>)
      requires Valid() && nodes == front + [node] + back
      modifies this`nodes, counter, node`next, node`prev, node`count, At(|front|)`next, At(|front| + 2)`prev
      ensures Valid() && nodes == front + back
      ensures node.next == null && node.prev == null && node.count == null
    {
      ghost var k := |front|;
      StillDifferent(front, node, back);
      assert node == At(k + 1) && At(k).next == node && At(k + 2).prev == node;
      node.next.prev := node.prev;
      node.prev.next := node.next;
      node.count.value := node.count.value - 1;
      node.next := null;
      node.prev := null;
      node.count := null;
      nodes := front + back;
      assert forall i :: 0 <= i <= k ==> At(i) == old(At(i));
      assert forall i :: k < i <= |nodes| + 1 ==> At(i) == old(At(i + 1));
    }
  }
}
