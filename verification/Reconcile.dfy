/** The process-table refresh of src/metrics/process_manager.c on values: mark, scan, sweep. */
module Reconcile {
  import opened Prelude

  const UINT_MODULUS: nat := 0x1_0000_0000

  /** What process_read fills in; it leaves the pid and the active flag alone. */
  datatype Info = Info(name: string, state: char, utime: nat, stime: nat, startTime: nat, rss: nat, uid: nat,
                       user: string)

  const ZERO_INFO := Info("", '\0', 0, 0, 0, 0, 0, "")

  datatype Proc = Proc(pid: nat, active: bool, info: Info)

  /** One name in /proc: not a number, a number strtol rejects, or a number. */
  datatype DirEntry = Other | Overflow | Number(n: nat)

  /** What process_read would return for the entry, the errno it leaves, and the fields it leaves. */
  datatype Read = Read(success: bool, enoent: bool, info: Info)

  datatype Item = Item(entry: DirEntry, read: Read)

  datatype Event = Added(pid: nat) | Updated(pid: nat) | Removed(pid: nat)

  datatype Result = SuccessRead | ErrOpen | ErrInternal

  datatype Table = Table(procs: seq<Proc>, events: seq<Event>)

  datatype Outcome = Outcome(procs: seq<Proc>, events: seq<Event>, result: Result)

  /** The entry names a process with this pid. */
  predicate Names(entry: DirEntry, pid: nat) {
    entry.Number? && entry.n != 0 && entry.n % UINT_MODULUS == pid
  }

  function Mark(procs: seq<Proc>): (r: seq<Proc>) {
    seq(|procs|, i requires 0 <= i < |procs| => procs[i].(active := false))
  }

  /** The first record with this pid, or -1; pid 0 is an invalid argument. */
  function Find(procs: seq<Proc>, pid: nat): (i: int)
    ensures i == -1 || (0 <= i < |procs| && procs[i].pid == pid && pid != 0)
    ensures i == -1 && pid != 0 ==> forall j :: 0 <= j < |procs| ==> procs[j].pid != pid
    ensures forall j :: 0 <= j < i ==> procs[j].pid != pid
  {
    if pid == 0 || procs == [] then -1
    else if procs[0].pid == pid then 0
    else
      var i := Find(procs[1..], pid);
      if i == -1 then -1 else i + 1
  }

  /** One directory entry; `None` is an early error return. */
  function ScanOne(t: Table, item: Item): Option<Table> {
    match item.entry
    case Other => Some(t)
    case Overflow => None
    case Number(n) =>
      if n == 0 then Some(t) else
      var pid, read := n % UINT_MODULUS, item.read;
      var i := Find(t.procs, pid);
      if i != -1 then
        Some(Table(t.procs[i := t.procs[i].(active := read.success, info := read.info)],
                   if read.success then t.events + [Updated(pid)] else t.events))
      else if read.success then
        Some(Table([Proc(pid, true, read.info)] + t.procs, t.events + [Added(pid)]))
      else if read.enoent then
        Some(t)
      else
        None
  }

  /** The whole directory, up to the first early return. */
  function Scan(t: Table, items: seq<Item>): (Table, bool)
    decreases |items|
  {
    if items == [] then (t, true) else
    match ScanOne(t, items[0])
    case None => (t, false)
    case Some(u) => Scan(u, items[1..])
  }

  /** How many entries a scan handles before it returns. */
  function Handled(t: Table, items: seq<Item>): (n: nat)
    ensures n <= |items|
    decreases |items|
  {
    if items == [] then 0 else
    match ScanOne(t, items[0])
    case None => 0
    case Some(u) => 1 + Handled(u, items[1..])
  }

  function Sweep(procs: seq<Proc>): seq<Proc> {
    if procs == [] then [] else (if procs[0].active then [procs[0]] else []) + Sweep(procs[1..])
  }

  function SweepEvents(procs: seq<Proc>): seq<Event> {
    if procs == [] then [] else (if procs[0].active then [] else [Removed(procs[0].pid)]) + SweepEvents(procs[1..])
  }

  /** process_list_refresh; `None` is a /proc that cannot be opened. */
  function Refresh(procs: seq<Proc>, dir: Option<seq<Item>>): Outcome {
    match dir
    case None => Outcome(procs, [], ErrOpen)
    case Some(items) =>
      var (t, complete) := Scan(Table(Mark(procs), []), items);
      if complete then
        Outcome(Sweep(t.procs), t.events + SweepEvents(t.procs), SuccessRead)
      else
        Outcome(t.procs, t.events, ErrInternal)
  }

  // ----- the vocabulary of the properties

  function Pids(procs: seq<Proc>): (r: set<nat>) {
    set i | 0 <= i < |procs| :: procs[i].pid
  }

  /** Pids are distinct and none is 0. */
  ghost predicate Distinct(procs: seq<Proc>) {
    && (forall i :: 0 <= i < |procs| ==> procs[i].pid != 0)
    && (forall i, j :: 0 <= i < j < |procs| ==> procs[i].pid != procs[j].pid)
  }

  /** process_read cannot succeed for pid 0: there is no /proc/0. */
  ghost predicate NoPidZero(items: seq<Item>) {
    forall i :: 0 <= i < |items| && Names(items[i].entry, 0) ==> !items[i].read.success
  }

  /** The last read this listing makes of `pid`. */
  function LastRead(items: seq<Item>, pid: nat): Option<Read> {
    if items == [] then None
    else if Names(items[|items| - 1].entry, pid) then Some(items[|items| - 1].read)
    else LastRead(items[..|items| - 1], pid)
  }

  predicate Alive(items: seq<Item>, pid: nat) {
    LastRead(items, pid).Some? && LastRead(items, pid).value.success
  }

  /** Some read of `pid` in this listing succeeds. */
  predicate EverRead(items: seq<Item>, pid: nat) {
    exists i :: 0 <= i < |items| && Names(items[i].entry, pid) && items[i].read.success
  }

  /** A mirror that follows the callbacks; `None` once one of them makes no sense. */
  function Replay(events: seq<Event>, pids: set<nat>): Option<set<nat>>
    decreases |events|
  {
    if events == [] then Some(pids) else
    match Apply(events[0], pids)
    case None => None
    case Some(s) => Replay(events[1..], s)
  }

  function Apply(event: Event, pids: set<nat>): Option<set<nat>> {
    match event
    case Added(p) => if p in pids then None else Some(pids + {p})
    case Updated(p) => if p in pids then Some(pids) else None
    case Removed(p) => if p in pids then Some(pids - {p}) else None
  }

  /** An added or updated callback has been made for `pid`. */
  predicate Announced(events: seq<Event>, pid: nat) {
    Added(pid) in events || Updated(pid) in events
  }

  /** What holds of the records after the entries in `done`, for a refresh that began with `before`. */
  ghost predicate RecordsFollow(before: seq<Proc>, procs: seq<Proc>, done: seq<Item>) {
    && Distinct(procs)
    && (forall p :: p in Pids(procs) <==> p in Pids(before) || EverRead(done, p))
    && (forall i :: 0 <= i < |procs| ==> procs[i].active == Alive(done, procs[i].pid))
    && (forall i :: 0 <= i < |procs| ==>
          var r := LastRead(done, procs[i].pid); r.Some? ==> procs[i].info == r.value.info)
  }

  /** And of the callbacks made so far, `pids` being those in the table now. */
  ghost predicate EventsFollow(before: seq<Proc>, events: seq<Event>, pids: set<nat>, done: seq<Item>) {
    && Replay(events, Pids(before)) == Some(pids)
    && (forall p :: Announced(events, p) <==> EverRead(done, p))
  }

  ghost predicate ScanInvariant(before: seq<Proc>, t: Table, done: seq<Item>) {
    RecordsFollow(before, t.procs, done) && EventsFollow(before, t.events, Pids(t.procs), done)
  }

  lemma {:induction false} ReplayAppend(first: seq<Event>, second: seq<Event>, pids: set<nat>)
    ensures Replay(first + second, pids) ==
            match Replay(first, pids)
            case None => None
            case Some(s) => Replay(second, s)
    decreases |first|
  {
    if first == [] {
      assert first + second == second;
    } else {
      assert (first + second)[0] == first[0] && (first + second)[1..] == first[1..] + second;
      match Apply(first[0], pids)
      case None =>
      case Some(s) => ReplayAppend(first[1..], second, s);
    }
  }

  lemma ReplayOneMore(events: seq<Event>, event: Event, pids: set<nat>)
    ensures Replay(events + [event], pids) ==
            match Replay(events, pids)
            case None => None
            case Some(s) => Apply(event, s)
  {
    ReplayAppend(events, [event], pids);
  }

  lemma OneMoreItem(done: seq<Item>, item: Item, pid: nat)
    ensures LastRead(done + [item], pid) == if Names(item.entry, pid) then Some(item.read) else LastRead(done, pid)
    ensures EverRead(done + [item], pid) <==> EverRead(done, pid) || (Names(item.entry, pid) && item.read.success)
  {
    var next := done + [item];
    assert next[..|done|] == done;
    if EverRead(done, pid) {
      var i :| 0 <= i < |done| && Names(done[i].entry, pid) && done[i].read.success;
      assert next[i] == done[i];
    }
    if Names(item.entry, pid) && item.read.success {
      assert next[|done|] == item;
    }
  }

  lemma AliveImpliesEverRead(items: seq<Item>, pid: nat)
    requires Alive(items, pid)
    ensures EverRead(items, pid)
  {
    var n := |items| - 1;
    if !Names(items[n].entry, pid) {
      AliveImpliesEverRead(items[..n], pid);
      OneMoreItem(items[..n], items[n], pid);
      assert items[..n] + [items[n]] == items;
    }
  }

  lemma PidsOfUpdate(procs: seq<Proc>, i: nat, p: Proc)
    requires i < |procs| && p.pid == procs[i].pid
    ensures Pids(procs[i := p]) == Pids(procs)
  {
    var q := procs[i := p];
    forall x | x in Pids(procs)
      ensures x in Pids(q)
    {
      var j :| 0 <= j < |procs| && procs[j].pid == x;
      assert q[j].pid == x;
    }
    forall x | x in Pids(q)
      ensures x in Pids(procs)
    {
      var j :| 0 <= j < |q| && q[j].pid == x;
      assert procs[j].pid == x;
    }
  }

  lemma PidsOfCons(p: Proc, procs: seq<Proc>)
    ensures Pids([p] + procs) == {p.pid} + Pids(procs)
  {
    var q := [p] + procs;
    forall x | x in {p.pid} + Pids(procs)
      ensures x in Pids(q)
    {
      if x == p.pid {
        assert q[0].pid == x;
      } else {
        var j :| 0 <= j < |procs| && procs[j].pid == x;
        assert q[j + 1].pid == x;
      }
    }
    forall x | x in Pids(q)
      ensures x in {p.pid} + Pids(procs)
    {
      var j :| 0 <= j < |q| && q[j].pid == x;
      assert j == 0 || q[j] == procs[j - 1];
    }
  }

  /** The marked table satisfies the invariant before any entry is scanned. */
  lemma MarkStarts(procs: seq<Proc>)
    requires Distinct(procs)
    ensures ScanInvariant(procs, Table(Mark(procs), []), [])
  {
    var m := Mark(procs);
    forall x | x in Pids(procs)
      ensures x in Pids(m)
    {
      var j :| 0 <= j < |procs| && procs[j].pid == x;
      assert m[j].pid == x;
    }
    assert Pids(m) == Pids(procs);
  }

  lemma FoundRecords(before: seq<Proc>, procs: seq<Proc>, done: seq<Item>, item: Item, pid: nat, i: nat)
    requires RecordsFollow(before, procs, done)
    requires Names(item.entry, pid) && i < |procs| && procs[i].pid == pid
    ensures var q := procs[i].(active := item.read.success, info := item.read.info);
      RecordsFollow(before, procs[i := q], done + [item]) && Pids(procs[i := q]) == Pids(procs)
  {
    forall p {
      OneMoreItem(done, item, p);
    }
    PidsOfUpdate(procs, i, procs[i].(active := item.read.success, info := item.read.info));
    assert pid in Pids(procs);
  }

  /** A listed pid that the table has: its record is updated in place. */
  lemma FoundKeeps(before: seq<Proc>, t: Table, done: seq<Item>, item: Item, pid: nat, i: nat)
    requires ScanInvariant(before, t, done)
    requires Names(item.entry, pid) && i < |t.procs| && t.procs[i].pid == pid
    ensures var q := t.procs[i].(active := item.read.success, info := item.read.info);
      var events := if item.read.success then t.events + [Updated(pid)] else t.events;
      ScanInvariant(before, Table(t.procs[i := q], events), done + [item])
  {
    FoundRecords(before, t.procs, done, item, pid, i);
    assert pid in Pids(t.procs);
    if item.read.success {
      EventsGrow(before, t.events, Pids(t.procs), done, item, Updated(pid));
    } else {
      EventsStay(before, t.events, Pids(t.procs), done, item);
    }
  }

  lemma EventsGrow(before: seq<Proc>, events: seq<Event>, pids: set<nat>, done: seq<Item>, item: Item, event: Event)
    requires EventsFollow(before, events, pids, done)
    requires !event.Removed? && Names(item.entry, event.pid) && item.read.success && Apply(event, pids).Some?
    ensures EventsFollow(before, events + [event], Apply(event, pids).value, done + [item])
  {
    forall p {
      OneMoreItem(done, item, p);
    }
    ReplayOneMore(events, event, Pids(before));
  }

  lemma EventsStay(before: seq<Proc>, events: seq<Event>, pids: set<nat>, done: seq<Item>, item: Item)
    requires EventsFollow(before, events, pids, done)
    requires forall p :: Names(item.entry, p) ==> !item.read.success
    ensures EventsFollow(before, events, pids, done + [item])
  {
    forall p {
      OneMoreItem(done, item, p);
    }
  }

  lemma AddedRecords(before: seq<Proc>, procs: seq<Proc>, done: seq<Item>, item: Item, pid: nat)
    requires RecordsFollow(before, procs, done)
    requires Names(item.entry, pid) && pid != 0 && pid !in Pids(procs) && item.read.success
    ensures RecordsFollow(before, [Proc(pid, true, item.read.info)] + procs, done + [item])
  {
    forall p {
      OneMoreItem(done, item, p);
    }
    PidsOfCons(Proc(pid, true, item.read.info), procs);
  }

  /** A listed pid that the table does not have and that can be read: a new front record. */
  lemma AddedKeeps(before: seq<Proc>, t: Table, done: seq<Item>, item: Item, pid: nat)
    requires ScanInvariant(before, t, done)
    requires Names(item.entry, pid) && pid != 0 && pid !in Pids(t.procs) && item.read.success
    ensures var procs, events := [Proc(pid, true, item.read.info)] + t.procs, t.events + [Added(pid)];
      ScanInvariant(before, Table(procs, events), done + [item])
  {
    AddedRecords(before, t.procs, done, item, pid);
    EventsGrow(before, t.events, Pids(t.procs), done, item, Added(pid));
    PidsOfCons(Proc(pid, true, item.read.info), t.procs);
    assert {pid} + Pids(t.procs) == Pids(t.procs) + {pid};
  }

  /** An entry that leaves the table as it was. */
  lemma UnlistedKeeps(before: seq<Proc>, t: Table, done: seq<Item>, item: Item)
    requires ScanInvariant(before, t, done)
    requires forall p :: p in Pids(t.procs) ==> !Names(item.entry, p)
    requires item.entry.Number? && item.entry.n != 0 ==> !item.read.success
    ensures ScanInvariant(before, t, done + [item])
  {
    forall p {
      OneMoreItem(done, item, p);
    }
  }

  /** One directory entry keeps the invariant. */
  lemma ScanOneKeeps(before: seq<Proc>, t: Table, done: seq<Item>, item: Item)
    requires ScanInvariant(before, t, done)
    requires Names(item.entry, 0) ==> !item.read.success
    ensures ScanOne(t, item).Some? ==> ScanInvariant(before, ScanOne(t, item).value, done + [item])
  {
    if item.entry.Number? && item.entry.n != 0 {
      var pid := item.entry.n % UINT_MODULUS;
      var i := Find(t.procs, pid);
      if i != -1 {
        FoundKeeps(before, t, done, item, pid, i);
      } else {
        NotFound(t.procs, pid);
        if item.read.success {
          AddedKeeps(before, t, done, item, pid);
        } else {
          UnlistedKeeps(before, t, done, item);
        }
      }
    } else {
      UnlistedKeeps(before, t, done, item);
    }
  }

  lemma NotFound(procs: seq<Proc>, pid: nat)
    requires Distinct(procs) && Find(procs, pid) == -1
    ensures pid !in Pids(procs)
  {
  }

  /** The scan keeps the invariant, whether it completes or returns early. */
  lemma {:induction false} ScanKeeps(before: seq<Proc>, t: Table, done: seq<Item>, items: seq<Item>)
    requires ScanInvariant(before, t, done) && NoPidZero(items[..Handled(t, items)])
    ensures ScanInvariant(before, Scan(t, items).0, done + items[..Handled(t, items)])
    ensures Scan(t, items).1 <==> Handled(t, items) == |items|
    decreases |items|
  {
    var n := Handled(t, items);
    assert done + items[..0] == done;
    if items != [] && ScanOne(t, items[0]).Some? {
      var u, next, rest := ScanOne(t, items[0]).value, done + [items[0]], items[1..];
      assert items[..n] == [items[0]] + rest[..n - 1];
      assert next + rest[..n - 1] == done + items[..n];
      ScanOneKeeps(before, t, done, items[0]);
      NoPidZeroInTail(items[0], rest[..n - 1]);
      ScanKeeps(before, u, next, rest);
    }
  }

  lemma NoPidZeroInTail(first: Item, rest: seq<Item>)
    requires NoPidZero([first] + rest)
    ensures NoPidZero(rest) && (Names(first.entry, 0) ==> !first.read.success)
  {
    var items := [first] + rest;
    assert items[0] == first;
    assert forall i :: 0 <= i < |rest| ==> rest[i] == items[i + 1];
  }

  // ----- the sweep

  lemma {:induction false} SweepKeepsActive(procs: seq<Proc>)
    requires Distinct(procs)
    ensures Distinct(Sweep(procs))
    ensures forall p :: p in Sweep(procs) <==> p in procs && p.active
  {
    if procs != [] {
      SweepKeepsActive(procs[1..]);
      var r := Sweep(procs[1..]);
      assert procs == [procs[0]] + procs[1..];
      forall j | 0 <= j < |r|
        ensures r[j].pid != procs[0].pid && r[j].pid != 0
      {
        assert r[j] in procs[1..];
      }
    }
  }

  lemma MoveOver(kept: set<nat>, p: nat, rest: set<nat>)
    requires p !in kept && p !in rest && kept !! rest
    ensures kept + ({p} + rest) == kept + {p} + rest && kept + {p} !! rest
    ensures kept + ({p} + rest) - {p} == kept + rest
  {
  }

  /** Replaying the removals of a sweep takes exactly the swept pids away. */
  lemma {:induction false} SweepReplays(kept: set<nat>, procs: seq<Proc>)
    requires Distinct(procs) && kept !! Pids(procs)
    ensures Replay(SweepEvents(procs), kept + Pids(procs)) == Some(kept + Pids(Sweep(procs)))
    ensures Pids(Sweep(procs)) <= Pids(procs)
    decreases |procs|
  {
    if procs != [] {
      var p, rest := procs[0], procs[1..];
      PidsOfFirst(procs);
      MoveOver(kept, p.pid, Pids(rest));
      if p.active {
        SweepReplays(kept + {p.pid}, rest);
        PidsOfCons(p, Sweep(rest));
        MoveOver(kept, p.pid, Pids(Sweep(rest)));
        assert SweepEvents(procs) == SweepEvents(rest);
      } else {
        SweepReplays(kept, rest);
        assert SweepEvents(procs)[1..] == SweepEvents(rest);
        assert Sweep(procs) == Sweep(rest);
      }
    }
  }

  lemma PidsOfFirst(procs: seq<Proc>)
    requires procs != [] && Distinct(procs)
    ensures Pids(procs) == {procs[0].pid} + Pids(procs[1..])
    ensures procs[0].pid !in Pids(procs[1..])
  {
    assert procs == [procs[0]] + procs[1..];
    PidsOfCons(procs[0], procs[1..]);
  }

  // ----- the refresh as a whole

  ghost predicate ReadableDir(dir: Option<seq<Item>>) {
    dir.Some? ==> NoPidZero(dir.value)
  }

  /** At every return, early or not, the pids are distinct and a mirror that followed the
      added and removed callbacks holds exactly the pids of the list. */
  lemma RefreshReplays(procs: seq<Proc>, dir: Option<seq<Item>>)
    requires Distinct(procs) && ReadableDir(dir)
    ensures var out := Refresh(procs, dir);
      && Distinct(out.procs)
      && Replay(out.events, Pids(procs)) == Some(Pids(out.procs))
  {
    if dir.Some? {
      var marked := Table(Mark(procs), []);
      MarkStarts(procs);
      ScanKeeps(procs, marked, [], dir.value);
      var t := Scan(marked, dir.value).0;
      SweepKeepsActive(t.procs);
      SweepReplays({}, t.procs);
      assert {} + Pids(t.procs) == Pids(t.procs) && {} + Pids(Sweep(t.procs)) == Pids(Sweep(t.procs));
      ReplayAppend(t.events, SweepEvents(t.procs), Pids(procs));
    }
  }

  /** After a refresh that succeeds, the list holds exactly the pids whose last read
      succeeded, all active, each with what that read returned. */
  lemma RefreshExact(procs: seq<Proc>, items: seq<Item>)
    requires Distinct(procs) && NoPidZero(items)
    requires Refresh(procs, Some(items)).result == SuccessRead
    ensures var out := Refresh(procs, Some(items));
      && (forall p :: p in Pids(out.procs) <==> Alive(items, p))
      && (forall q :: q in out.procs ==>
            var r := LastRead(items, q.pid); q.active && r.Some? && q.info == r.value.info)
  {
    var marked := Table(Mark(procs), []);
    MarkStarts(procs);
    ScanKeeps(procs, marked, [], items);
    assert [] + items[..|items|] == items;
    var t := Scan(marked, items).0;
    SweepKeepsActive(t.procs);
    var swept := Sweep(t.procs);
    forall p
      ensures p in Pids(swept) <==> Alive(items, p)
    {
      if Alive(items, p) {
        AliveImpliesEverRead(items, p);
        var i :| 0 <= i < |t.procs| && t.procs[i].pid == p;
        assert t.procs[i] in swept;
      }
      if p in Pids(swept) {
        var i :| 0 <= i < |swept| && swept[i].pid == p;
        assert swept[i] in swept;
      }
    }
  }

  /** A callback announces a pid as added or updated exactly when it could be read in this
      refresh; so after a success every listed pid has been announced. */
  lemma RefreshAnnounces(procs: seq<Proc>, items: seq<Item>)
    requires Distinct(procs) && NoPidZero(items)
    requires Refresh(procs, Some(items)).result == SuccessRead
    ensures forall p :: Announced(Refresh(procs, Some(items)).events, p) <==> EverRead(items, p)
    ensures var out := Refresh(procs, Some(items));
      forall p :: p in Pids(out.procs) ==> Announced(out.events, p)
  {
    var marked := Table(Mark(procs), []);
    MarkStarts(procs);
    ScanKeeps(procs, marked, [], items);
    assert [] + items[..|items|] == items;
    var t := Scan(marked, items).0;
    OnlyRemovals(t.procs);
    RefreshExact(procs, items);
    forall p | Alive(items, p)
      ensures EverRead(items, p)
    {
      AliveImpliesEverRead(items, p);
    }
  }

  lemma {:induction false} OnlyRemovals(procs: seq<Proc>)
    ensures forall e :: e in SweepEvents(procs) ==> e.Removed?
  {
    if procs != [] {
      OnlyRemovals(procs[1..]);
    }
  }

  /** The entry makes the refresh return early: a number strtol rejects, or a process that is
      neither in the list nor read earlier in this listing, failing with anything but ENOENT. */
  ghost predicate Fatal(before: seq<Proc>, done: seq<Item>, item: Item) {
    match item.entry
    case Other => false
    case Overflow => true
    case Number(n) =>
      var pid := n % UINT_MODULUS;
      n != 0 && !item.read.success && !item.read.enoent && pid !in Pids(before) && !EverRead(done, pid)
  }

  lemma ScanOneFatal(before: seq<Proc>, t: Table, done: seq<Item>, item: Item)
    requires ScanInvariant(before, t, done)
    ensures ScanOne(t, item).None? <==> Fatal(before, done, item)
  {
    if item.entry.Number? && item.entry.n != 0 {
      var pid := item.entry.n % UINT_MODULUS;
      var i := Find(t.procs, pid);
      if i == -1 {
        NotFound(t.procs, pid);
      } else {
        assert pid in Pids(t.procs);
      }
    }
  }

  /** A scan handles everything up to the first entry that is fatal. */
  lemma {:induction false} StopsAtFatal(before: seq<Proc>, t: Table, done: seq<Item>, items: seq<Item>)
    requires ScanInvariant(before, t, done) && NoPidZero(items[..Handled(t, items)])
    ensures var n := Handled(t, items);
      && (forall i :: 0 <= i < n ==> !Fatal(before, done + items[..i], items[i]))
      && (n < |items| ==> Fatal(before, done + items[..n], items[n]))
    decreases |items|
  {
    var n := Handled(t, items);
    assert done + items[..0] == done;
    if items != [] {
      ScanOneFatal(before, t, done, items[0]);
      if ScanOne(t, items[0]).Some? {
        var u, next, rest := ScanOne(t, items[0]).value, done + [items[0]], items[1..];
        assert items[..n] == [items[0]] + rest[..n - 1];
        NoPidZeroInTail(items[0], rest[..n - 1]);
        ScanOneKeeps(before, t, done, items[0]);
        StopsAtFatal(before, u, next, rest);
        forall i | 0 < i <= n
          ensures done + items[..i] == next + rest[..i - 1]
        {
        }
        assert forall i :: 0 < i < |items| ==> items[i] == rest[i - 1];
      }
    }
  }

  /** What a refresh returns: that /proc cannot be opened, or that an entry is fatal, or success; and that
      no other return than the last takes a pid away. */
  lemma RefreshResult(procs: seq<Proc>, dir: Option<seq<Item>>)
    requires Distinct(procs) && ReadableDir(dir)
    ensures var out := Refresh(procs, dir);
      && (out.result == ErrOpen <==> dir == None)
      && (out.result == ErrInternal <==>
            dir.Some? && exists i :: 0 <= i < |dir.value| && Fatal(procs, dir.value[..i], dir.value[i]))
      && (out.result != SuccessRead ==> Pids(procs) <= Pids(out.procs))
  {
    if dir.Some? {
      var items, marked := dir.value, Table(Mark(procs), []);
      MarkStarts(procs);
      ScanKeeps(procs, marked, [], items);
      StopsAtFatal(procs, marked, [], items);
      forall i | 0 <= i <= |items|
        ensures [] + items[..i] == items[..i]
      {
      }
    }
  }

  // ----- histories of refreshes

  /** The list after a whole history of refreshes, whatever each of them returned. */
  function RefreshAll(procs: seq<Proc>, dirs: seq<Option<seq<Item>>>): seq<Proc> {
    if dirs == [] then procs else Refresh(RefreshAll(procs, dirs[..|dirs| - 1]), dirs[|dirs| - 1]).procs
  }

  lemma {:induction false} HistoryDistinct(procs: seq<Proc>, dirs: seq<Option<seq<Item>>>)
    requires Distinct(procs)
    requires forall i :: 0 <= i < |dirs| ==> ReadableDir(dirs[i])
    ensures Distinct(RefreshAll(procs, dirs))
    decreases |dirs|
  {
    if dirs != [] {
      HistoryDistinct(procs, dirs[..|dirs| - 1]);
      RefreshReplays(RefreshAll(procs, dirs[..|dirs| - 1]), dirs[|dirs| - 1]);
    }
  }

  /** Two lists with any histories end with the same pids, and the same data for each, once
      both succeed in refreshing from the same listing. */
  lemma SelfStabilises(a: seq<Proc>, pastA: seq<Option<seq<Item>>>,
                       b: seq<Proc>, pastB: seq<Option<seq<Item>>>, items: seq<Item>)
    requires Distinct(a) && Distinct(b) && NoPidZero(items)
    requires forall i :: 0 <= i < |pastA| ==> ReadableDir(pastA[i])
    requires forall i :: 0 <= i < |pastB| ==> ReadableDir(pastB[i])
    requires Refresh(RefreshAll(a, pastA), Some(items)).result == SuccessRead
    requires Refresh(RefreshAll(b, pastB), Some(items)).result == SuccessRead
    ensures var x := Refresh(RefreshAll(a, pastA), Some(items)).procs;
      var y := Refresh(RefreshAll(b, pastB), Some(items)).procs;
      && Pids(x) == Pids(y)
      && forall p, q :: p in x && q in y && p.pid == q.pid ==> p == q
  {
    HistoryDistinct(a, pastA);
    HistoryDistinct(b, pastB);
    RefreshExact(RefreshAll(a, pastA), items);
    RefreshExact(RefreshAll(b, pastB), items);
  }

  /** An active record that no lookup can find. */
  ghost predicate HasZero(procs: seq<Proc>) {
    exists i :: 0 <= i < |procs| && procs[i].pid == 0 && procs[i].active
  }

  /** A readable name for pid 0 adds such a record, and no later entry touches it. */
  lemma ScanOneZero(t: Table, item: Item)
    requires ScanOne(t, item).Some?
    requires HasZero(t.procs) || (Names(item.entry, 0) && item.read.success)
    ensures HasZero(ScanOne(t, item).value.procs)
  {
    var procs := ScanOne(t, item).value.procs;
    if HasZero(t.procs) {
      var i :| 0 <= i < |t.procs| && t.procs[i].pid == 0 && t.procs[i].active;
      assert procs[|procs| - |t.procs| + i] == t.procs[i];
    } else {
      assert procs[0].pid == 0 && procs[0].active;
    }
  }

  lemma {:induction false} ScanZero(t: Table, items: seq<Item>)
    requires HasZero(t.procs) || !NoPidZero(items[..Handled(t, items)])
    ensures HasZero(Scan(t, items).0.procs)
    decreases |items|
  {
    if items != [] && ScanOne(t, items[0]).Some? {
      var u, n := ScanOne(t, items[0]).value, Handled(t, items);
      if HasZero(t.procs) || (Names(items[0].entry, 0) && items[0].read.success) {
        ScanOneZero(t, items[0]);
      } else {
        var i :| 0 <= i < n && Names(items[..n][i].entry, 0) && items[..n][i].read.success;
        assert items[1..][..n - 1][i - 1] == items[i];
      }
      ScanZero(u, items[1..]);
    }
  }

  /** At every return of a refresh, early or not, the pids are distinct and other than 0 exactly
      when no read of pid 0 succeeded among the entries it handled. */
  lemma DistinctExactly(procs: seq<Proc>, items: seq<Item>)
    requires Distinct(procs)
    ensures var handled := items[..Handled(Table(Mark(procs), []), items)];
      Distinct(Refresh(procs, Some(items)).procs) <==> NoPidZero(handled)
  {
    var marked := Table(Mark(procs), []);
    var qs := Scan(marked, items).0.procs;
    if NoPidZero(items[..Handled(marked, items)]) {
      MarkStarts(procs);
      ScanKeeps(procs, marked, [], items);
      SweepKeepsActive(qs);
    } else {
      ScanZero(marked, items);
      var i :| 0 <= i < |qs| && qs[i].pid == 0 && qs[i].active;
      ActiveStays(qs, i);
    }
  }

  lemma {:induction false} ActiveStays(procs: seq<Proc>, i: nat)
    requires i < |procs| && procs[i].active
    ensures procs[i] in Sweep(procs)
  {
    if i > 0 {
      ActiveStays(procs[1..], i - 1);
    }
  }

  /** Why pid 0 must not be readable: names that truncate to 0 are never found, so each adds a record. */
  lemma PidZeroAddsTwice(info: Info)
    ensures var item := Item(Number(UINT_MODULUS), Read(true, false, info));
      var out := Refresh([], Some([item, item]));
      out.result == SuccessRead && |out.procs| == 2 && out.procs[0].pid == out.procs[1].pid == 0
  {
    var item := Item(Number(UINT_MODULUS), Read(true, false, info));
    var p := Proc(0, true, info);
    var t1, t2 := Table([p], [Added(0)]), Table([p, p], [Added(0), Added(0)]);
    assert Mark([]) == [] && [p] + [] == [p] && [p] + [p] == [p, p];
    assert [] + [Added(0)] == [Added(0)] && [Added(0)] + [Added(0)] == [Added(0), Added(0)];
    assert ScanOne(Table([], []), item) == Some(t1);
    assert ScanOne(t1, item) == Some(t2);
    assert [item, item][1..] == [item];
    assert Scan(t2, [item][1..]) == (t2, true);
    assert Scan(t1, [item]) == (t2, true);
    assert [p, p][1..] == [p] && Sweep([p]) == [p];
  }

  /** Scanning never moves or renumbers the records that were there: they stay at the end. */
  ghost predicate KeepsTail(before: seq<Proc>, after: seq<Proc>) {
    |before| <= |after| && forall i :: 0 <= i < |before| ==> after[|after| - |before| + i].pid == before[i].pid
  }

  lemma UpdateKeepsTail(procs: seq<Proc>, i: nat, p: Proc)
    requires i < |procs| && p.pid == procs[i].pid
    ensures KeepsTail(procs, procs[i := p])
  {
  }

  lemma AddKeepsTail(procs: seq<Proc>, p: Proc)
    ensures KeepsTail(procs, [p] + procs)
  {
  }

  lemma ScanOneKeepsTail(t: Table, item: Item)
    requires ScanOne(t, item).Some?
    ensures KeepsTail(t.procs, ScanOne(t, item).value.procs)
  {
    if item.entry.Number? && item.entry.n != 0 {
      var pid, read := item.entry.n % UINT_MODULUS, item.read;
      var i := Find(t.procs, pid);
      if i != -1 {
        UpdateKeepsTail(t.procs, i, t.procs[i].(active := read.success, info := read.info));
      } else if read.success {
        AddKeepsTail(t.procs, Proc(pid, true, read.info));
      }
    }
  }

  lemma KeepsTailTwice(a: seq<Proc>, b: seq<Proc>, c: seq<Proc>)
    requires KeepsTail(a, b) && KeepsTail(b, c)
    ensures KeepsTail(a, c)
  {
    forall i | 0 <= i < |a|
      ensures c[|c| - |a| + i].pid == a[i].pid
    {
      assert b[|b| - |a| + i].pid == a[i].pid;
    }
  }

  lemma {:induction false} ScanKeepsTail(t: Table, items: seq<Item>)
    ensures KeepsTail(t.procs, Scan(t, items).0.procs)
    decreases |items|
  {
    if items != [] {
      match ScanOne(t, items[0])
      case None =>
      case Some(u) =>
        ScanOneKeepsTail(t, items[0]);
        ScanKeepsTail(u, items[1..]);
        KeepsTailTwice(t.procs, u.procs, Scan(u, items[1..]).0.procs);
    }
  }
}
