/** src/metrics/process_manager.c over the linked list, proved against `Reconcile.Refresh`. */
module ProcessManagers {
  import opened Prelude
  import opened Reconcile
  import opened ProcessLists

  /** Only a `/proc` read may change what a record says besides its active flag. */
  method ProcessRead(out: Node, read: Read) returns (success: bool)
    modifies out`info
    ensures success == read.success && out.info == read.info
  {
    out.info := read.info;
    success := read.success;
  }

  /** The nodes hold exactly these records. */
  ghost predicate Shows(ns: seq<Node>, ps: seq<Proc>)
    reads ns`pid, ns`isActive, ns`info
  {
    |ns| == |ps| && forall i :: 0 <= i < |ns| ==> Record(ns[i]) == ps[i]
  }

  method MarkProcessesInactive(list: ProcessList, ghost ps: seq<Proc>)
    requires list.Valid() && Shows(list.nodes, ps)
    modifies list.nodes`isActive
    ensures list.Valid() && Shows(list.nodes, Mark(ps))
  {
    ghost var nodes, i := list.nodes, 0;
    var curr := list.head.next;
    assert list.At(0) == list.head && list.At(0).next == list.At(1);
    while curr != list.head
      invariant list.Valid() && list.nodes == nodes
      invariant 0 <= i <= |nodes| && curr == list.At(i + 1)
      invariant forall j :: 0 <= j < |nodes| ==>
                              Record(nodes[j]) == if j < i then ps[j].(active := false) else ps[j]
      decreases |nodes| - i
    {
      assert curr == nodes[i];
      curr.isActive := false;
      i := i + 1;
      assert list.At(i).next == list.At(i + 1);
      curr := curr.next;
    }
    assert i == |nodes|;
  }

  method FindProcessByPid(list: ProcessList, pid: nat, ghost ps: seq<Proc>) returns (r: Node?, ghost k: int)
    requires list.Valid() && Shows(list.nodes, ps)
    ensures k == Find(ps, pid)
    ensures if Find(ps, pid) == -1 then r == null else r == list.nodes[Find(ps, pid)]
  {
    if pid == 0 {
      return null, -1;
    }
    k := 0;
    var curr := list.head.next;
    assert list.At(0) == list.head && list.At(0).next == list.At(1);
    while curr != list.head
      invariant 0 <= k <= |ps| && curr == list.At(k + 1)
      invariant forall j :: 0 <= j < k ==> ps[j].pid != pid
      decreases |ps| - k
    {
      assert curr == list.nodes[k] && Record(list.nodes[k]) == ps[k];
      if curr.pid == pid {
        FindIs(ps, pid, k);
        return curr, k;
      }
      k := k + 1;
      assert list.At(k).next == list.At(k + 1);
      curr := curr.next;
    }
    FindIs(ps, pid, |ps|);
    return null, -1;
  }

  lemma {:induction false} FindIs(ps: seq<Proc>, pid: nat, k: nat)
    requires pid != 0 && k <= |ps|
    requires forall j :: 0 <= j < k ==> ps[j].pid != pid
    requires k < |ps| ==> ps[k].pid == pid
    ensures Find(ps, pid) == if k < |ps| then k else -1
  {
    if k > 0 {
      FindIs(ps[1..], pid, k - 1);
    }
  }

  /** The nodes a sweep keeps among the first `i`, whose records are `ps`. */
  ghost function Kept(ns: seq<Node>, ps: seq<Proc>, i: nat): seq<Node>
    requires i <= |ns| == |ps|
  {
    if i == 0 then [] else Kept(ns, ps, i - 1) + if ps[i - 1].active then [ns[i - 1]] else []
  }

  ghost function RemovedBy(ps: seq<Proc>, i: nat): seq<Event>
    requires i <= |ps|
  {
    if i == 0 then [] else RemovedBy(ps, i - 1) + if ps[i - 1].active then [] else [Removed(ps[i - 1].pid)]
  }

  lemma {:induction false} SweepSplit(ps: seq<Proc>, p: Proc)
    ensures Sweep(ps + [p]) == Sweep(ps) + Sweep([p])
    ensures SweepEvents(ps + [p]) == SweepEvents(ps) + SweepEvents([p])
  {
    if ps == [] {
      assert [] + [p] == [p];
    } else {
      SweepSplit(ps[1..], p);
      var q := ps + [p];
      assert q[0] == ps[0] && q[1..] == ps[1..] + [p];
      var a, b := if ps[0].active then [ps[0]] else [], if ps[0].active then [] else [Removed(ps[0].pid)];
      Regroup(a, Sweep(ps[1..]), Sweep([p]));
      Regroup(b, SweepEvents(ps[1..]), SweepEvents([p]));
    }
  }

  lemma Regroup<T>(a: seq<T>, b: seq<T>, c: seq<T>)
    ensures a + (b + c) == a + b + c
  {
  }

  /** The sweep has kept and removed the right nodes among the first `i`. */
  ghost predicate Swept(ns: seq<Node>, ps: seq<Proc>, i: nat, kept: seq<Node>, removals: seq<Event>) {
    i <= |ns| == |ps| && kept == Kept(ns, ps, i) && removals == RemovedBy(ps, i)
  }

  lemma KeptStep(ns: seq<Node>, ps: seq<Proc>, i: nat)
    requires i < |ns| == |ps|
    ensures Kept(ns, ps, i + 1) == if ps[i].active then Kept(ns, ps, i) + [ns[i]] else Kept(ns, ps, i)
  {
  }

  lemma {:induction false} RemovedIsSweep(ps: seq<Proc>, i: nat)
    requires i <= |ps|
    ensures RemovedBy(ps, i) == SweepEvents(ps[..i])
  {
    if i > 0 {
      RemovedIsSweep(ps, i - 1);
      SweepSplit(ps[..i - 1], ps[i - 1]);
      assert ps[..i] == ps[..i - 1] + [ps[i - 1]];
    }
  }

  lemma {:induction false} KeptIsSweep(ns: seq<Node>, ps: seq<Proc>, i: nat)
    requires Shows(ns, ps) && i <= |ns|
    ensures Shows(Kept(ns, ps, i), Sweep(ps[..i]))
  {
    if i > 0 {
      KeptIsSweep(ns, ps, i - 1);
      SweepSplit(ps[..i - 1], ps[i - 1]);
      assert ps[..i] == ps[..i - 1] + [ps[i - 1]];
    }
  }

  /** Every node of `s` is one of `nodes`. */
  ghost predicate Among(s: seq<Node>, nodes: seq<Node>) {
    forall i :: 0 <= i < |s| ==> s[i] in nodes
  }

  lemma {:induction false} KeptAmong(ns: seq<Node>, ps: seq<Proc>, i: nat)
    requires i <= |ns| == |ps|
    ensures Among(Kept(ns, ps, i), ns)
  {
    if i > 0 {
      KeptAmong(ns, ps, i - 1);
    }
  }

  lemma LaterAmong(done: seq<Node>, rest: seq<Node>)
    requires rest != []
    ensures Among(rest[1..], done + rest) && rest[0] in done + rest
  {
    assert forall i :: 0 <= i < |rest| ==> (done + rest)[|done| + i] == rest[i];
  }

  /** The list while a sweep stands between the nodes `done` and the nodes `rest`. */
  ghost predicate Sweeping(list: ProcessList, ps: seq<Proc>, done: seq<Node>, rest: seq<Node>)
    reads list, list.counter
    reads list.head`next, list.head`prev, list.head`count, list.nodes`next, list.nodes`prev, list.nodes`count
    reads (done + rest)`pid, (done + rest)`isActive, (done + rest)`info
  {
    && list.Valid()
    && Shows(done + rest, ps)
    && list.nodes == Kept(done + rest, ps, |done|) + rest
  }

  /** The sweep: LIST_FOREACH_SAFE keeps the next node while the current one may go. */
  method RemoveInactiveProcesses(list: ProcessList, ghost ps: seq<Proc>) returns (removals: seq<Event>)
    requires list.Valid() && Shows(list.nodes, ps)
    modifies list`nodes, list.counter, list.head`next, list.head`prev
    modifies list.nodes`next, list.nodes`prev, list.nodes`count
    ensures list.Valid()
    ensures Swept(old(list.nodes), ps, |ps|, list.nodes, removals)
    ensures Shows(old(list.nodes), ps)
  {
    ghost var nodes := list.nodes;
    ghost var done: seq<Node>, rest: seq<Node> := [], nodes;
    removals := [];
    var curr := list.head.next;
    StartSweep(list, ps);
    var n := curr.next;
    while curr != list.head
      invariant nodes == done + rest && Sweeping(list, ps, done, rest)
      invariant removals == RemovedBy(ps, |done|)
      invariant curr == Cursor(list, rest) && n == curr.next
      decreases |rest|
    {
      var gone;
      gone, done, rest := SweepOne(list, curr, n, ps, nodes, done, rest);
      if gone {
        removals := removals + [Removed(curr.pid)];
      }
      curr := n;
      n := curr.next;
    }
  }

  /** Where LIST_FOREACH stands. */
  ghost function Cursor(list: ProcessList, rest: seq<Node>): Node {
    if rest == [] then list.head else rest[0]
  }

  lemma StartSweep(list: ProcessList, ps: seq<Proc>)
    requires list.Valid() && Shows(list.nodes, ps)
    ensures [] + list.nodes == list.nodes && Sweeping(list, ps, [], list.nodes)
    ensures list.head.next == Cursor(list, list.nodes) && list.head.next.next != null
  {
    assert [] + list.nodes == list.nodes;
    NextLinked(list, [], list.nodes);
  }

  /** The cursor is the next node of the last one kept, and it has a next node itself. */
  lemma NextLinked(list: ProcessList, kept: seq<Node>, rest: seq<Node>)
    requires list.Valid() && list.nodes == kept + rest
    ensures (if kept == [] then list.head else kept[|kept| - 1]).next == Cursor(list, rest)
    ensures Cursor(list, rest).next != null
  {
    var k := |kept|;
    assert list.At(k).next == list.At(k + 1);
    assert list.At(k + 1) == Cursor(list, rest);
    if rest != [] {
      assert list.At(k + 1).next == list.At(k + 2);
    } else {
      assert list.At(0).next == list.At(1);
    }
  }

  lemma TakeHead<T>(front: seq<T>, rest: seq<T>)
    requires rest != []
    ensures front + rest == front + [rest[0]] + rest[1..]
  {
  }

  /** How the nodes divide at the cursor of a sweep, and what keeping or dropping that node means. */
  lemma AtCursor(nodes: seq<Node>, ps: seq<Proc>, done: seq<Node>, rest: seq<Node>)
    requires nodes == done + rest && rest != [] && |nodes| == |ps|
    ensures var kept, curr, later := Kept(nodes, ps, |done|), rest[0], rest[1..];
      && nodes == done + [curr] + later && kept + rest == kept + [curr] + later
      && Kept(nodes, ps, |done| + 1) == (if ps[|done|].active then kept + [curr] else kept)
      && Among(kept, nodes) && Among(later, nodes) && nodes[|done|] == curr
  {
    var kept := Kept(nodes, ps, |done|);
    TakeHead(done, rest);
    TakeHead(kept, rest);
    KeptStep(nodes, ps, |done|);
    KeptAmong(nodes, ps, |done|);
    LaterAmong(done, rest);
  }

  /** Deletes a node of a list that is part of `nodes`. */
  method Unlink(list: ProcessList, curr: Node, ghost kept: seq<Node>, ghost later: seq<Node>, ghost nodes: seq<Node>)
    requires list.Valid() && list.nodes == kept + [curr] + later
    requires Among(kept, nodes) && Among(later, nodes) && curr in nodes
    modifies list`nodes, list.counter, list.head`next, list.head`prev, nodes`next, nodes`prev, nodes`count
    ensures list.Valid() && list.nodes == kept + later
  {
    assert list.At(|kept|) == list.head || list.At(|kept|) == kept[|kept| - 1];
    assert list.At(|kept| + 2) == list.head || list.At(|kept| + 2) == later[0];
    list.DeleteNode(curr, kept, later);
  }

  /** The test and the removal of the current node, seen from the sweep. */
  method SweepOne(list: ProcessList, curr: Node, ghost n: Node?, ghost ps: seq<Proc>,
                  ghost nodes: seq<Node>, ghost done: seq<Node>, ghost rest: seq<Node>)
    returns (gone: bool, ghost done': seq<Node>, ghost rest': seq<Node>)
    requires nodes == done + rest && Sweeping(list, ps, done, rest)
    requires curr == Cursor(list, rest) && curr != list.head && n == curr.next
    modifies list`nodes, list.counter, list.head`next, list.head`prev, nodes`next, nodes`prev, nodes`count
    ensures |done'| == |done| + 1 && |rest'| < |rest| && nodes == done' + rest'
    ensures Sweeping(list, ps, done', rest')
    ensures gone == !ps[|done|].active && curr.pid == ps[|done|].pid
    ensures n == Cursor(list, rest') && n.next != null
  {
    ghost var kept := Kept(done + rest, ps, |done|);
    AtCursor(nodes, ps, done, rest);
    done', rest' := done + [curr], rest[1..];
    NextLinked(list, kept + [curr], rest');
    gone := !curr.isActive;
    if gone {
      Unlink(list, curr, kept, rest', nodes);
      NextLinked(list, kept, rest');
    }
  }

  /** A listed process that the list already has. */
  method UpdateExisting(list: ProcessList, existing: Node, read: Read, ghost ps: seq<Proc>, ghost k: nat)
    returns (updated: bool)
    requires list.Valid() && Shows(list.nodes, ps)
    requires k < |ps| && existing == list.nodes[k]
    modifies existing`isActive, existing`info
    ensures list.Valid() && Shows(list.nodes, ps[k := ps[k].(active := read.success, info := read.info)])
    ensures updated == read.success
  {
    updated := ProcessRead(existing, read);
    existing.isActive := updated;
    assert forall j :: 0 <= j < |ps| && j != k ==> list.nodes[j] != existing && Record(list.nodes[j]) == ps[j];
  }

  /** A listed process that the list does not have: a new record at the front, if it can be read. */
  method TryAdd(list: ProcessList, pid: nat, read: Read, ghost ps: seq<Proc>) returns (added: bool)
    requires list.Valid() && Shows(list.nodes, ps)
    modifies list`nodes, list.counter, list.head`next, list.At(1)`prev
    ensures list.Valid() && added == read.success
    ensures if added then
              && |list.nodes| > 0 && fresh(list.nodes[0]) && list.nodes == [list.nodes[0]] + old(list.nodes)
              && Shows(list.nodes, [Proc(pid, true, read.info)] + ps)
            else
              list.nodes == old(list.nodes) && Shows(list.nodes, ps)
  {
    var newProcess := new Node(ZERO_INFO);
    added := ProcessRead(newProcess, read);
    if added {
      newProcess.pid := pid;
      newProcess.isActive := true;
      list.AddNode(newProcess);
      ShowsMore(newProcess, list.nodes[1..], ps);
    }
  }

  lemma ShowsMore(n: Node, ns: seq<Node>, ps: seq<Proc>)
    requires Shows(ns, ps)
    ensures Shows([n] + ns, [Record(n)] + ps)
  {
  }

  /** One directory entry; `proceed` is false on an early return. */
  method ScanEntry(list: ProcessList, item: Item, events: seq<Event>, ghost ps: seq<Proc>)
    returns (proceed: bool, out: seq<Event>)
    requires list.Valid() && Shows(list.nodes, ps)
    modifies list`nodes, list.counter, list.head`next, list.At(1)`prev, list.nodes`isActive, list.nodes`info
    ensures list.Valid()
    ensures match ScanOne(Table(ps, events), item)
            case None => !proceed && Shows(list.nodes, ps) && out == events
            case Some(t) => proceed && Shows(list.nodes, t.procs) && out == t.events
    ensures list.nodes == old(list.nodes)
            || (|list.nodes| > 0 && fresh(list.nodes[0]) && list.nodes == [list.nodes[0]] + old(list.nodes))
  {
    out, proceed := events, true;
    match item.entry
    case Other =>
    case Overflow => proceed := false;
    case Number(n) =>
      if n != 0 {
        var pid := n % UINT_MODULUS;
        var existing, k := FindProcessByPid(list, pid, ps);
        if existing != null {
          var updated := UpdateExisting(list, existing, item.read, ps, k);
          if updated {
            out := out + [Updated(pid)];
          }
        } else {
          var added := TryAdd(list, pid, item.read, ps);
          if added {
            out := out + [Added(pid)];
          } else {
            proceed := item.read.enoent;
          }
        }
      }
  }

  /** The list has grown at the front only. */
  ghost predicate Extends(now: seq<Node>, before: seq<Node>) {
    |before| <= |now| && now[|now| - |before|..] == before
  }

  lemma ExtendsMore(now: seq<Node>, later: seq<Node>, before: seq<Node>)
    requires Extends(now, before)
    requires later == now || (|later| > 0 && later == [later[0]] + now)
    ensures Extends(later, before)
    ensures forall j :: 0 <= j < |later| ==> (j == 0 && later != now) || later[j] in now
  {
  }

  /** The directory loop. */
  method ScanDirectory(list: ProcessList, items: seq<Item>, ghost ps: seq<Proc>)
    returns (complete: bool, events: seq<Event>)
    requires list.Valid() && Shows(list.nodes, ps)
    modifies list`nodes, list.counter, list.head`next, list.head`prev
    modifies list.nodes`prev, list.nodes`isActive, list.nodes`info
    ensures list.Valid()
    ensures var (t, done) := Scan(Table(ps, []), items);
      complete == done && events == t.events && Shows(list.nodes, t.procs)
    ensures Extends(list.nodes, old(list.nodes))
    ensures forall j :: 0 <= j < |list.nodes| ==> list.nodes[j] in old(list.nodes) || fresh(list.nodes[j])
  {
    events, complete := [], true;
    ghost var t := Table(ps, []);
    var i := 0;
    while i < |items| && complete
      invariant 0 <= i <= |items|
      invariant list.Valid() && Shows(list.nodes, t.procs) && events == t.events
      invariant Scan(Table(ps, []), items) == if complete then Scan(t, items[i..]) else (t, false)
      invariant Extends(list.nodes, old(list.nodes))
      invariant forall j :: 0 <= j < |list.nodes| ==> list.nodes[j] in old(list.nodes) || fresh(list.nodes[j])
      decreases |items| - i, complete
    {
      ghost var nodes := list.nodes;
      ScanNext(t, items, i);
      assert list.At(1) == list.head || list.At(1) in nodes;
      ghost var next := ScanOne(t, items[i]);
      complete, events := ScanEntry(list, items[i], events, t.procs);
      ExtendsMore(nodes, list.nodes, old(list.nodes));
      i := i + 1;
      t := if complete then next.value else t;
    }
    assert complete ==> items[i..] == [];
  }

  lemma ScanNext(t: Table, items: seq<Item>, i: nat)
    requires i < |items|
    ensures Scan(t, items[i..]) == match ScanOne(t, items[i])
                                   case None => (t, false)
                                   case Some(u) => Scan(u, items[i + 1..])
  {
    assert items[i..][0] == items[i] && items[i..][1..] == items[i + 1..];
  }

  /** A pid that is listed both before and after is listed by the same record. */
  ghost predicate SameRecords(before: seq<Node>, ps: seq<Proc>, after: seq<Node>, qs: seq<Proc>) {
    && |before| == |ps| && |after| == |qs|
    && forall i, j :: 0 <= i < |ps| && 0 <= j < |qs| && ps[i].pid == qs[j].pid ==> before[i] == after[j]
  }

  lemma ScanSameRecords(before: seq<Node>, ps: seq<Proc>, after: seq<Node>, items: seq<Item>)
    requires Distinct(ps) && NoPidZero(items)
    requires |before| == |ps| && Extends(after, before)
    requires |after| == |Scan(Table(Mark(ps), []), items).0.procs|
    ensures SameRecords(before, ps, after, Scan(Table(Mark(ps), []), items).0.procs)
  {
    var marked := Table(Mark(ps), []);
    MarkStarts(ps);
    ScanKeeps(ps, marked, [], items);
    ScanKeepsTail(marked, items);
    var qs := Scan(marked, items).0.procs;
    forall i, j | 0 <= i < |ps| && 0 <= j < |qs| && ps[i].pid == qs[j].pid
      ensures before[i] == after[j]
    {
      assert qs[|qs| - |marked.procs| + i].pid == marked.procs[i].pid;
    }
  }

  lemma {:induction false} SweepSameRecords(before: seq<Node>, ps: seq<Proc>, nodes: seq<Node>, qs: seq<Proc>, n: nat)
    requires SameRecords(before, ps, nodes, qs) && n <= |qs|
    ensures SameRecords(before, ps, Kept(nodes, qs, n), Sweep(qs[..n]))
    ensures forall k :: 0 <= k < |Kept(nodes, qs, n)| ==> Kept(nodes, qs, n)[k] in nodes
  {
    if n > 0 {
      SweepSameRecords(before, ps, nodes, qs, n - 1);
      SweepSplit(qs[..n - 1], qs[n - 1]);
      assert qs[..n] == qs[..n - 1] + [qs[n - 1]];
    }
  }

  /** process_list_refresh */
  method ProcessListRefresh(list: ProcessList, dir: Option<seq<Item>>, ghost ps: seq<Proc>)
    returns (result: Result, events: seq<Event>)
    requires list.Valid() && Shows(list.nodes, ps)
    modifies list`nodes, list.counter, list.head`next, list.head`prev
    modifies list.nodes`next, list.nodes`prev, list.nodes`count, list.nodes`isActive, list.nodes`info
    ensures list.Valid()
    ensures var out := Refresh(ps, dir);
      result == out.result && events == out.events && Shows(list.nodes, out.procs)
    ensures Distinct(ps) && ReadableDir(dir) ==> SameRecords(old(list.nodes), ps, list.nodes, Refresh(ps, dir).procs)
    ensures forall j :: 0 <= j < |list.nodes| ==> list.nodes[j] in old(list.nodes) || fresh(list.nodes[j])
  {
    ghost var before := list.nodes;
    if dir.None? {
      return ErrOpen, [];
    }
    var complete;
    complete, events := MarkAndScan(list, dir.value, ps);
    ghost var nodes, qs := list.nodes, Scan(Table(Mark(ps), []), dir.value).0.procs;
    if !complete {
      return ErrInternal, events;
    }
    var removals := RemoveInactiveProcesses(list, qs);
    AfterSweep(before, ps, nodes, qs, list.nodes, removals);
    KeptAmong(nodes, qs, |qs|);
    return SuccessRead, events + removals;
  }

  /** The refresh up to the sweep. */
  method MarkAndScan(list: ProcessList, items: seq<Item>, ghost ps: seq<Proc>)
    returns (complete: bool, events: seq<Event>)
    requires list.Valid() && Shows(list.nodes, ps)
    modifies list`nodes, list.counter, list.head`next, list.head`prev
    modifies list.nodes`prev, list.nodes`isActive, list.nodes`info
    ensures list.Valid()
    ensures var (t, done) := Scan(Table(Mark(ps), []), items);
      && complete == done && events == t.events && Shows(list.nodes, t.procs)
      && (Distinct(ps) && NoPidZero(items) ==> SameRecords(old(list.nodes), ps, list.nodes, t.procs))
    ensures forall j :: 0 <= j < |list.nodes| ==> list.nodes[j] in old(list.nodes) || fresh(list.nodes[j])
  {
    ghost var before := list.nodes;
    MarkProcessesInactive(list, ps);
    complete, events := ScanDirectory(list, items, Mark(ps));
    if Distinct(ps) && NoPidZero(items) {
      ScanSameRecords(before, ps, list.nodes, items);
    }
  }

  lemma AfterSweep(before: seq<Node>, ps: seq<Proc>, nodes: seq<Node>, qs: seq<Proc>,
                   kept: seq<Node>, removals: seq<Event>)
    requires Shows(nodes, qs) && Swept(nodes, qs, |qs|, kept, removals)
    ensures Shows(kept, Sweep(qs)) && removals == SweepEvents(qs)
    ensures SameRecords(before, ps, nodes, qs) ==> SameRecords(before, ps, kept, Sweep(qs))
  {
    RemovedIsSweep(qs, |qs|);
    KeptIsSweep(nodes, qs, |qs|);
    assert qs[..|qs|] == qs;
    if SameRecords(before, ps, nodes, qs) {
      SweepSameRecords(before, ps, nodes, qs, |qs|);
    }
  }
}
