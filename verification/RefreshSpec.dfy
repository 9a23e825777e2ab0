/** What process_list_refresh does, said of the listing alone: which records the list holds, in which
    order, and which callbacks are made, how often. */
module RefreshSpecs {
  import opened Prelude
  import opened Reconcile

  /** This entry names a process and its read succeeds. */
  predicate Reads(item: Item, pid: nat) {
    Names(item.entry, pid) && item.read.success
  }

  /** How many reads of `pid` succeed. */
  function ReadCount(done: seq<Item>, pid: nat): nat {
    if done == [] then 0
    else ReadCount(done[..|done| - 1], pid) + if Reads(done[|done| - 1], pid) then 1 else 0
  }

  /** The pid an entry stands for. */
  function PidOf(item: Item): nat {
    if item.entry.Number? then item.entry.n % UINT_MODULUS else 0
  }

  /** The pid of this entry gets its first record through it. */
  predicate Joins(before: seq<Proc>, done: seq<Item>, item: Item) {
    Reads(item, PidOf(item)) && PidOf(item) !in Pids(before) && !EverRead(done, PidOf(item))
  }

  /** The pids that join the list, the latest first. */
  function NewPids(before: seq<Proc>, done: seq<Item>): seq<nat> {
    if done == [] then [] else
    var earlier, item := done[..|done| - 1], done[|done| - 1];
    (if Joins(before, earlier, item) then [PidOf(item)] else []) + NewPids(before, earlier)
  }

  /** The callbacks of the scan: one for each read that succeeds. */
  function Announcements(before: seq<Proc>, done: seq<Item>): seq<Event> {
    if done == [] then [] else
    var earlier, item := done[..|done| - 1], done[|done| - 1];
    Announcements(before, earlier)
    + if Joins(before, earlier, item) then [Added(PidOf(item))]
      else if Reads(item, PidOf(item)) then [Updated(PidOf(item))]
      else []
  }

  /** A record after these entries: what the last read of its pid left, or what it was. */
  function Recorded(done: seq<Item>, p: Proc): Proc {
    p.(active := Alive(done, p.pid),
       info := match LastRead(done, p.pid) case None => p.info case Some(r) => r.info)
  }

  /** Record `i` before the entries are taken into account. */
  function Base(before: seq<Proc>, joined: seq<nat>, i: nat): Proc
    requires i < |joined| + |before|
  {
    if i < |joined| then Proc(joined[i], false, ZERO_INFO) else before[i - |joined|]
  }

  /** The list is the new pids, then the old records, each as the entries leave it. */
  ghost predicate RecordsAre(procs: seq<Proc>, before: seq<Proc>, done: seq<Item>) {
    var joined := NewPids(before, done);
    && |procs| == |joined| + |before|
    && forall i :: 0 <= i < |procs| ==> procs[i] == Recorded(done, Base(before, joined, i))
  }

  ghost predicate Exactly(before: seq<Proc>, t: Table, done: seq<Item>) {
    RecordsAre(t.procs, before, done) && t.events == Announcements(before, done)
  }

  lemma OneMore(before: seq<Proc>, done: seq<Item>, item: Item)
    ensures NewPids(before, done + [item]) ==
            (if Joins(before, done, item) then [PidOf(item)] else []) + NewPids(before, done)
    ensures Announcements(before, done + [item]) ==
            Announcements(before, done)
            + if Joins(before, done, item) then [Added(PidOf(item))]
              else if Reads(item, PidOf(item)) then [Updated(PidOf(item))]
              else []
    ensures forall p :: ReadCount(done + [item], p) == ReadCount(done, p) + if Reads(item, p) then 1 else 0
  {
    assert (done + [item])[..|done|] == done;
  }

  /** An entry changes what is recorded of its own pid only. */
  lemma RecordedMore(done: seq<Item>, item: Item, p: Proc)
    ensures Recorded(done + [item], p) ==
            if Names(item.entry, p.pid) then p.(active := item.read.success, info := item.read.info)
            else Recorded(done, p)
  {
    OneMoreItem(done, item, p.pid);
  }

  /** An entry that leaves the table as it was. */
  lemma NothingChanges(before: seq<Proc>, t: Table, done: seq<Item>, item: Item)
    requires Exactly(before, t, done)
    requires forall i :: 0 <= i < |t.procs| ==> !Names(item.entry, t.procs[i].pid)
    requires !Reads(item, PidOf(item))
    ensures Exactly(before, t, done + [item])
  {
    OneMore(before, done, item);
    var joined := NewPids(before, done);
    assert [] + joined == joined;
    assert NewPids(before, done + [item]) == joined;
    forall i | 0 <= i < |t.procs|
      ensures t.procs[i] == Recorded(done + [item], Base(before, joined, i))
    {
      RecordedMore(done, item, Base(before, joined, i));
    }
  }

  lemma NoneJoins(before: seq<Proc>, t: Table, done: seq<Item>, item: Item, i: nat)
    requires ScanInvariant(before, t, done)
    requires i < |t.procs| && Names(item.entry, t.procs[i].pid)
    ensures NewPids(before, done + [item]) == NewPids(before, done)
  {
    OneMore(before, done, item);
    assert t.procs[i].pid in Pids(t.procs);
    assert !Joins(before, done, item);
    var joined := NewPids(before, done);
    assert [] + joined == joined;
  }

  /** The record of this pid is updated; the pids of the others are different. */
  lemma RecordChanges(before: seq<Proc>, t: Table, done: seq<Item>, item: Item, i: nat)
    requires ScanInvariant(before, t, done) && RecordsAre(t.procs, before, done)
    requires i < |t.procs| && Names(item.entry, t.procs[i].pid)
    ensures var q := t.procs[i].(active := item.read.success, info := item.read.info);
      RecordsAre(t.procs[i := q], before, done + [item])
  {
    NoneJoins(before, t, done, item, i);
    var joined := NewPids(before, done);
    var q := t.procs[i].(active := item.read.success, info := item.read.info);
    forall j | 0 <= j < |t.procs|
      ensures (if j == i then q else t.procs[j]) == Recorded(done + [item], Base(before, joined, j))
    {
      var base := Base(before, joined, j);
      assert t.procs[j] == Recorded(done, base);
      RecordedMore(done, item, base);
      if j != i {
        assert t.procs[j].pid != t.procs[i].pid;
      }
    }
  }

  lemma EventOfRead(before: seq<Proc>, t: Table, done: seq<Item>, item: Item, i: nat)
    requires ScanInvariant(before, t, done) && t.events == Announcements(before, done)
    requires i < |t.procs| && Names(item.entry, t.procs[i].pid)
    ensures Announcements(before, done + [item]) ==
            if item.read.success then t.events + [Updated(t.procs[i].pid)] else t.events
  {
    OneMore(before, done, item);
    assert t.procs[i].pid in Pids(t.procs);
    assert !Joins(before, done, item);
  }

  lemma RecordJoins(before: seq<Proc>, t: Table, done: seq<Item>, item: Item, pid: nat)
    requires ScanInvariant(before, t, done) && Exactly(before, t, done)
    requires Reads(item, pid) && pid !in Pids(t.procs)
    ensures Exactly(before, Table([Proc(pid, true, item.read.info)] + t.procs, t.events + [Added(pid)]), done + [item])
  {
    OneMore(before, done, item);
    assert Joins(before, done, item) && PidOf(item) == pid;
    var joined := NewPids(before, done + [item]);
    var procs := [Proc(pid, true, item.read.info)] + t.procs;
    forall j | 0 <= j < |procs|
      ensures procs[j] == Recorded(done + [item], Base(before, joined, j))
    {
      RecordedMore(done, item, Base(before, joined, j));
      if j > 0 {
        assert procs[j] == t.procs[j - 1] == Recorded(done, Base(before, NewPids(before, done), j - 1));
        assert t.procs[j - 1].pid in Pids(t.procs);
      }
    }
  }

  lemma RecordUpdated(before: seq<Proc>, t: Table, done: seq<Item>, item: Item, i: nat)
    requires ScanInvariant(before, t, done) && Exactly(before, t, done)
    requires i < |t.procs| && Names(item.entry, t.procs[i].pid)
    ensures var q := t.procs[i].(active := item.read.success, info := item.read.info);
      var events := if item.read.success then t.events + [Updated(t.procs[i].pid)] else t.events;
      Exactly(before, Table(t.procs[i := q], events), done + [item])
  {
    RecordChanges(before, t, done, item, i);
    EventOfRead(before, t, done, item, i);
  }

  lemma NotListed(procs: seq<Proc>, item: Item, pid: nat)
    requires Names(item.entry, pid) && pid !in Pids(procs)
    ensures forall j :: 0 <= j < |procs| ==> !Names(item.entry, procs[j].pid)
  {
    assert forall j :: 0 <= j < |procs| ==> procs[j].pid in Pids(procs);
  }

  lemma ScanOneExactly(before: seq<Proc>, t: Table, done: seq<Item>, item: Item)
    requires ScanInvariant(before, t, done) && Exactly(before, t, done)
    requires (Names(item.entry, 0) ==> !item.read.success) && ScanOne(t, item).Some?
    ensures Exactly(before, ScanOne(t, item).value, done + [item])
  {
    if item.entry.Number? && item.entry.n != 0 {
      var pid := item.entry.n % UINT_MODULUS;
      var i := Find(t.procs, pid);
      if i != -1 {
        RecordUpdated(before, t, done, item, i);
      } else {
        NotFound(t.procs, pid);
        if item.read.success {
          RecordJoins(before, t, done, item, pid);
        } else {
          NotListed(t.procs, item, pid);
          NothingChanges(before, t, done, item);
        }
      }
    } else {
      NothingChanges(before, t, done, item);
    }
  }

  lemma ScanGoesOn(t: Table, items: seq<Item>)
    requires items != [] && ScanOne(t, items[0]).Some?
    ensures var u := ScanOne(t, items[0]).value;
      Scan(t, items) == Scan(u, items[1..]) && Handled(t, items) == 1 + Handled(u, items[1..])
  {
  }

  lemma OneMoreTaken(done: seq<Item>, items: seq<Item>, n: nat)
    requires 0 < n <= |items|
    ensures items == [items[0]] + items[1..]
    ensures done + [items[0]] + items[1..][..n - 1] == done + items[..n]
  {
  }

  lemma {:induction false} ScanExactly(before: seq<Proc>, t: Table, done: seq<Item>, items: seq<Item>)
    requires ScanInvariant(before, t, done) && Exactly(before, t, done) && NoPidZero(items)
    ensures Exactly(before, Scan(t, items).0, done + items[..Handled(t, items)])
    decreases |items|
  {
    var n := Handled(t, items);
    if items == [] || ScanOne(t, items[0]) == None {
      assert done + items[..0] == done;
    } else {
      ScanGoesOn(t, items);
      OneMoreTaken(done, items, n);
      NoPidZeroInTail(items[0], items[1..]);
      ScanOneKeeps(before, t, done, items[0]);
      ScanOneExactly(before, t, done, items[0]);
      ScanExactly(before, ScanOne(t, items[0]).value, done + [items[0]], items[1..]);
    }
  }

  /** How many entries of the listing come before the first one that is fatal, from entry `n` on. */
  ghost function UpToFatal(before: seq<Proc>, items: seq<Item>, n: nat): (m: nat)
    requires n <= |items|
    ensures n <= m <= |items|
    decreases |items| - n
  {
    if n == |items| || Fatal(before, items[..n], items[n]) then n else UpToFatal(before, items, n + 1)
  }

  lemma {:induction false} UpToFatalIs(before: seq<Proc>, items: seq<Item>, n: nat, m: nat)
    requires n <= m <= |items|
    requires forall i :: n <= i < m ==> !Fatal(before, items[..i], items[i])
    requires m < |items| ==> Fatal(before, items[..m], items[m])
    ensures UpToFatal(before, items, n) == m
    decreases m - n
  {
    if n < m {
      UpToFatalIs(before, items, n + 1, m);
    }
  }

  /** The entries a refresh takes into account: those before the first fatal one. */
  ghost function Taken(procs: seq<Proc>, items: seq<Item>): seq<Item> {
    items[..UpToFatal(procs, items, 0)]
  }

  lemma ScanTakes(procs: seq<Proc>, items: seq<Item>)
    requires Distinct(procs) && NoPidZero(items)
    ensures var (t, complete) := Scan(Table(Mark(procs), []), items);
      && ScanInvariant(procs, t, Taken(procs, items)) && Exactly(procs, t, Taken(procs, items))
      && (complete <==> Taken(procs, items) == items)
  {
    var marked := Table(Mark(procs), []);
    var n := Handled(marked, items);
    MarkStarts(procs);
    assert NewPids(procs, []) == [];
    assert Exactly(procs, marked, []);
    ScanKeeps(procs, marked, [], items);
    ScanExactly(procs, marked, [], items);
    StopsAtFatal(procs, marked, [], items);
    forall i | 0 <= i <= |items|
      ensures [] + items[..i] == items[..i]
    {
    }
    UpToFatalIs(procs, items, 0, n);
  }

  // ----- how often each callback is made

  lemma {:induction false} AnnouncementCounts(before: seq<Proc>, done: seq<Item>, pid: nat)
    ensures var ev := multiset(Announcements(before, done));
      && ev[Added(pid)] + ev[Updated(pid)] == ReadCount(done, pid)
      && ev[Added(pid)] == (if pid !in Pids(before) && ReadCount(done, pid) > 0 then 1 else 0)
      && ev[Removed(pid)] == 0
    ensures ReadCount(done, pid) > 0 <==> EverRead(done, pid)
    decreases |done|
  {
    if done != [] {
      var earlier, item := done[..|done| - 1], done[|done| - 1];
      assert done == earlier + [item];
      AnnouncementCounts(before, earlier, pid);
      OneMoreItem(earlier, item, pid);
      OneMore(before, earlier, item);
    }
  }

  /** A record with this pid that a sweep removes. */
  predicate Inactive(procs: seq<Proc>, pid: nat) {
    exists i :: 0 <= i < |procs| && procs[i].pid == pid && !procs[i].active
  }

  lemma FirstInactive(procs: seq<Proc>, pid: nat)
    requires procs != [] && Distinct(procs)
    ensures Inactive(procs, pid) <==> (procs[0].pid == pid && !procs[0].active) || Inactive(procs[1..], pid)
    ensures !(procs[0].pid == pid && Inactive(procs[1..], pid))
  {
    var rest := procs[1..];
    if i :| 0 <= i < |rest| && rest[i].pid == pid && !rest[i].active {
      assert procs[i + 1] == rest[i];
    }
    if i :| 0 < i < |procs| && procs[i].pid == pid && !procs[i].active {
      assert rest[i - 1] == procs[i];
    }
  }

  lemma FirstSwept(procs: seq<Proc>, e: Event)
    requires procs != []
    ensures multiset(SweepEvents(procs))[e] ==
            multiset(SweepEvents(procs[1..]))[e]
            + if !procs[0].active && e == Removed(procs[0].pid) then 1 else 0
  {
    var first := if procs[0].active then [] else [Removed(procs[0].pid)];
    assert multiset(first + SweepEvents(procs[1..])) == multiset(first) + multiset(SweepEvents(procs[1..]));
  }

  lemma {:induction false} RemovalCounts(procs: seq<Proc>, pid: nat)
    requires Distinct(procs)
    ensures var ev := multiset(SweepEvents(procs));
      && ev[Removed(pid)] == (if Inactive(procs, pid) then 1 else 0)
      && ev[Added(pid)] == ev[Updated(pid)] == 0
  {
    if procs != [] {
      RemovalCounts(procs[1..], pid);
      FirstInactive(procs, pid);
      FirstSwept(procs, Removed(pid));
      FirstSwept(procs, Added(pid));
      FirstSwept(procs, Updated(pid));
    }
  }

  lemma GoneIsInactive(procs: seq<Proc>, t: Table, done: seq<Item>, pid: nat)
    requires ScanInvariant(procs, t, done)
    ensures Inactive(t.procs, pid) <==> (pid in Pids(procs) || EverRead(done, pid)) && !Alive(done, pid)
  {
    if (pid in Pids(procs) || EverRead(done, pid)) && !Alive(done, pid) {
      assert pid in Pids(t.procs);
      var i :| 0 <= i < |t.procs| && t.procs[i].pid == pid;
      assert !t.procs[i].active;
    }
    if i :| 0 <= i < |t.procs| && t.procs[i].pid == pid && !t.procs[i].active {
      assert t.procs[i].pid in Pids(t.procs);
    }
  }

  /** Every read that succeeds is announced once: as added if it is the first of a pid the list did not
      have, as updated otherwise. A pid is removed once if the list had it or gained it and its last read
      did not succeed, and that only by a refresh that succeeds. */
  lemma CallbackCounts(procs: seq<Proc>, items: seq<Item>, pid: nat)
    requires Distinct(procs) && NoPidZero(items)
    ensures var out, done := Refresh(procs, Some(items)), Taken(procs, items);
      var ev, listed := multiset(out.events), pid in Pids(procs) || ReadCount(done, pid) > 0;
      && ev[Added(pid)] + ev[Updated(pid)] == ReadCount(done, pid)
      && ev[Added(pid)] == (if pid !in Pids(procs) && ReadCount(done, pid) > 0 then 1 else 0)
      && ev[Removed(pid)] == (if out.result == SuccessRead && listed && !Alive(done, pid) then 1 else 0)
  {
    var (t, complete) := Scan(Table(Mark(procs), []), items);
    ScanTakes(procs, items);
    AnnouncementCounts(procs, Taken(procs, items), pid);
    RemovalCounts(t.procs, pid);
    GoneIsInactive(procs, t, Taken(procs, items), pid);
    assert multiset(t.events + SweepEvents(t.procs)) == multiset(t.events) + multiset(SweepEvents(t.procs));
  }

  /** `out` is the records of `all` at these positions, in the order they had. */
  ghost predicate Picks(at: seq<nat>, all: seq<Proc>, out: seq<Proc>) {
    && |at| == |out|
    && (forall k :: 0 <= k < |at| ==> at[k] < |all| && out[k] == all[at[k]])
    && (forall j, k :: 0 <= j < k < |at| ==> at[j] < at[k])
  }

  function Shift(at: seq<nat>): (r: seq<nat>)
    ensures |r| == |at| && forall k :: 0 <= k < |at| ==> r[k] == at[k] + 1
  {
    seq(|at|, k requires 0 <= k < |at| => at[k] + 1)
  }

  lemma PickSkip(at: seq<nat>, p: Proc, rest: seq<Proc>, out: seq<Proc>)
    requires Picks(at, rest, out)
    ensures Picks(Shift(at), [p] + rest, out)
  {
  }

  lemma PickFirst(at: seq<nat>, p: Proc, rest: seq<Proc>, out: seq<Proc>)
    requires Picks(at, rest, out)
    ensures Picks([0] + Shift(at), [p] + rest, [p] + out)
  {
  }

  /** Where in the list each record that a sweep keeps was. */
  lemma {:induction false} SweepInOrder(procs: seq<Proc>) returns (at: seq<nat>)
    ensures Picks(at, procs, Sweep(procs))
  {
    at := [];
    if procs != [] {
      at := SweepInOrder(procs[1..]);
      assert procs == [procs[0]] + procs[1..];
      if procs[0].active {
        PickFirst(at, procs[0], procs[1..], Sweep(procs[1..]));
        at := [0] + Shift(at);
      } else {
        PickSkip(at, procs[0], procs[1..], Sweep(procs[1..]));
        at := Shift(at);
        assert Sweep(procs) == Sweep(procs[1..]);
      }
    }
  }

  /** The whole outcome, from the listing alone: the callbacks of the scan in order, then removals only;
      the records in order, new ones first; and, after an early return, every record, those not yet read
      with the data they had. */
  lemma RefreshIs(procs: seq<Proc>, items: seq<Item>) returns (all: seq<Proc>, at: seq<nat>)
    requires Distinct(procs) && NoPidZero(items)
    ensures RecordsAre(all, procs, Taken(procs, items))
    ensures var out := Refresh(procs, Some(items));
      && (out.result == SuccessRead <==> Taken(procs, items) == items)
      && Picks(at, all, out.procs)
      && (if out.result == SuccessRead then forall p :: p in out.procs <==> p in all && p.active else out.procs == all)
    ensures var out, scan := Refresh(procs, Some(items)), Announcements(procs, Taken(procs, items));
      && |scan| <= |out.events| && out.events[..|scan|] == scan
      && (forall e :: e in out.events[|scan|..] ==> e.Removed?)
      && (out.result != SuccessRead ==> out.events == scan)
  {
    var (t, complete) := Scan(Table(Mark(procs), []), items);
    ScanTakes(procs, items);
    all := t.procs;
    if complete {
      at := SweepInOrder(t.procs);
      SweepKeepsActive(t.procs);
      OnlyRemovals(t.procs);
    } else {
      at := seq(|all|, k requires 0 <= k < |all| => k);
    }
  }

  // ----- names and pids

  /** A name below 2^32 stands for the pid of the same number. */
  lemma NameIsPid(entry: DirEntry, pid: nat)
    requires entry.Number? ==> entry.n < 4294967296
    ensures Names(entry, pid) <==> entry == Number(pid) && pid != 0
  {
  }

  lemma {:induction false} LastReadAt(items: seq<Item>, pid: nat)
    ensures Alive(items, pid) <==>
            exists i :: 0 <= i < |items| && Reads(items[i], pid)
                        && forall j :: i < j < |items| ==> !Names(items[j].entry, pid)
  {
    if items != [] {
      var n := |items| - 1;
      var earlier := items[..n];
      LastReadAt(earlier, pid);
      if Alive(earlier, pid) && !Names(items[n].entry, pid) {
        var i :| 0 <= i < n && Reads(earlier[i], pid) && forall j :: i < j < n ==> !Names(earlier[j].entry, pid);
        assert Reads(items[i], pid) && forall j :: i < j < |items| ==> !Names(items[j].entry, pid);
      }
      if i :| 0 <= i < |items| && Reads(items[i], pid) && forall j :: i < j < |items| ==> !Names(items[j].entry, pid) {
        if i < n {
          assert Reads(earlier[i], pid) && forall j :: i < j < n ==> !Names(earlier[j].entry, pid);
        }
      }
    }
  }

  /** After a refresh that succeeds, the pids are exactly the names in /proc, of those below 2^32, whose
      last read succeeded. */
  lemma ListedByName(procs: seq<Proc>, items: seq<Item>, pid: nat)
    requires Distinct(procs) && Refresh(procs, Some(items)).result == SuccessRead
    requires forall i :: 0 <= i < |items| && items[i].entry.Number? ==> items[i].entry.n < 4294967296
    ensures pid in Pids(Refresh(procs, Some(items)).procs) <==>
            pid != 0 &&
            exists i :: 0 <= i < |items| && items[i].entry == Number(pid) && items[i].read.success
                        && forall j :: i < j < |items| ==> items[j].entry != Number(pid)
  {
    forall i | 0 <= i < |items|
      ensures Names(items[i].entry, pid) <==> items[i].entry == Number(pid) && pid != 0
      ensures !Names(items[i].entry, 0)
    {
      NameIsPid(items[i].entry, pid);
      NameIsPid(items[i].entry, 0);
    }
    RefreshExact(procs, items);
    LastReadAt(items, pid);
    if pid != 0 {
      assert forall i :: 0 <= i < |items| ==> (items[i].entry == Number(pid) <==> Names(items[i].entry, pid));
    }
  }
}
