/** Group commit: the queue of writers, for every interleaving of their threads (DBImpl::Write and
    BuildBatchGroup in db/db_impl.cc). One event is what a thread does while it holds the mutex. */
module GroupCommit {
  import opened DbFormat
  import opened History

  datatype Status = OK | Failed

  /** The arguments of one call of DBImpl::Write. A null batch asks for a memtable switch; it is forced only if the
      writer comes to lead. */
  datatype Writer = Writer(batch: Option<seq<Op>>, sync: bool, size: nat)

  /** Waiting on its condition variable (with or without a pending signal), about to lead, logging with the
      mutex released, or gone. */
  datatype Phase = Waiting(signalled: bool) | Ready | Leading | Returned

  /** `result` is set when another thread or the writer itself marks the write done. */
  datatype Slot = Slot(writer: Writer, phase: Phase, result: Option<Status>)

  /** A log record, with the writers it was built for: those numbered from `from` up to `to`. */
  datatype LogRecord = LogRecord(first: nat, ops: seq<Op>, synced: bool, from: nat, to: nat)

  /** The batch group a leader is logging. */
  datatype Group = Group(count: nat, first: nat, ops: seq<Op>)

  /** Writers are numbered in order of arrival. */
  datatype Queue = Queue(
    slots: seq<Slot>,
    writers: seq<nat>,      // writers_
    pending: Option<Group>,
    tmp: seq<Op>,           // contents of tmp_batch_
    log: seq<LogRecord>,
    lastSequence: nat,
    bgError: bool,
    forced: seq<nat>)       // writers for which MakeRoomForWrite was made to switch memtables, and did

  // ---- Building a group ------------------------------------------------------------------------

  function BatchOps(w: Writer): seq<Op> {
    if w.batch.Some? then w.batch.value else []
  }

  /** The batches of some writers, one after the other. */
  function Gather(ws: seq<Writer>): seq<Op> {
    if ws == [] then [] else Gather(ws[..|ws| - 1]) + BatchOps(ws[|ws| - 1])
  }

  lemma GatherMore(ws: seq<Writer>, n: nat)
    requires n < |ws|
    ensures Gather(ws[..n + 1]) == Gather(ws[..n]) + BatchOps(ws[n])
  {
    assert ws[..n + 1][..n] == ws[..n];
  }

  /** A small first write keeps its group small. */
  function MaxSize(first: nat): nat {
    if first <= 0x2_0000 then first + 0x2_0000 else 0x10_0000
  }

  /** The group may be followed by writer w: not a sync write behind a leader that does not sync, and not too big. */
  predicate Joins(leader: Writer, w: Writer, size: nat) {
    !(w.sync && !leader.sync) && (w.batch.Some? ==> size + w.size <= MaxSize(leader.size))
  }

  function GroupSize(ws: seq<Writer>): nat {
    if ws == [] then 0
    else GroupSize(ws[..|ws| - 1]) + (if ws[|ws| - 1].batch.Some? then ws[|ws| - 1].size else 0)
  }

  /** The first `count` writers form the group: everyone after the leader joined, and the next one may not. */
  predicate IsGroup(ws: seq<Writer>, count: nat) {
    && 1 <= count <= |ws|
    && (forall i :: 1 <= i < count ==> Joins(ws[0], ws[i], GroupSize(ws[..i])))
    && (count < |ws| ==> !Joins(ws[0], ws[count], GroupSize(ws[..count])))
  }

  lemma GroupSizeMore(ws: seq<Writer>, n: nat)
    requires n < |ws|
    ensures GroupSize(ws[..n + 1]) == GroupSize(ws[..n]) + if ws[n].batch.Some? then ws[n].size else 0
  {
    assert ws[..n + 1][..n] == ws[..n];
  }

  /** Some writer behind the leader brings a batch of its own. */
  predicate HasFollower(ws: seq<Writer>, n: nat)
    requires n <= |ws|
  {
    exists i :: 1 <= i < n && ws[i].batch.Some?
  }

  lemma FirstAlone(ws: seq<Writer>)
    requires ws != []
    ensures Gather(ws[..1]) == BatchOps(ws[0]) && GroupSize(ws[..1]) == if ws[0].batch.Some? then ws[0].size else 0
    ensures !HasFollower(ws, 1)
  {
    assert ws[..1][..0] == [];
  }

  lemma FollowerMore(ws: seq<Writer>, n: nat)
    requires 1 <= n < |ws|
    ensures HasFollower(ws, n + 1) <==> HasFollower(ws, n) || ws[n].batch.Some?
  {
  }

  /** DBImpl::BuildBatchGroup. Only a group with a second batch goes through tmp_batch_. */
  method BuildBatchGroup(ws: seq<Writer>) returns (count: nat, result: seq<Op>, tmp: seq<Op>)
    requires ws != [] && ws[0].batch.Some?
    ensures IsGroup(ws, count) && result == Gather(ws[..count])
    ensures tmp == if HasFollower(ws, count) then result else []
    ensures count == GroupCount(ws, 1) && forall other: nat :: IsGroup(ws, other) ==> other == count
    ensures var limit := if ws[0].size <= 131072 then ws[0].size + 131072 else 1048576;
            && (forall i :: 1 <= i < count && ws[i].batch.Some? ==> GroupSize(ws[..i]) + ws[i].size <= limit)
            && (forall i :: 1 <= i < count && ws[i].sync ==> ws[0].sync)
            && (count < |ws| ==>
                  || (ws[count].sync && !ws[0].sync)
                  || (ws[count].batch.Some? && GroupSize(ws[..count]) + ws[count].size > limit))
  {
    hide Gather, GroupSize, HasFollower;
    var first := ws[0];
    result, tmp := first.batch.value, [];
    var size, maxSize := first.size, MaxSize(first.size);
    var useTmp := false;
    count := 1;
    FirstAlone(ws);
    while count < |ws|
      invariant 1 <= count <= |ws| && result == Gather(ws[..count]) && size == GroupSize(ws[..count])
      invariant forall i :: 1 <= i < count ==> Joins(ws[0], ws[i], GroupSize(ws[..i]))
      invariant useTmp <==> HasFollower(ws, count)
      invariant tmp == if useTmp then result else []
    {
      var w := ws[count];
      GatherMore(ws, count);
      GroupSizeMore(ws, count);
      FollowerMore(ws, count);
      if w.sync && !first.sync {
        break;
      }
      if w.batch.Some? {
        size := size + w.size;
        if size > maxSize {
          break;
        }
        if !useTmp {
          useTmp := true;
          tmp := result;
        }
        tmp := tmp + w.batch.value;
        result := tmp;
      }
      count := count + 1;
    }
    forall other: nat | IsGroup(ws, other) ensures other == count {
      GroupIsUnique(ws, other, count);
    }
  }

  function GroupCount(ws: seq<Writer>, n: nat): (count: nat)
    requires 1 <= n <= |ws| && forall i :: 1 <= i < n ==> Joins(ws[0], ws[i], GroupSize(ws[..i]))
    ensures IsGroup(ws, count)
    decreases |ws| - n
  {
    if n < |ws| && Joins(ws[0], ws[n], GroupSize(ws[..n])) then GroupCount(ws, n + 1) else n
  }

  lemma GroupIsUnique(ws: seq<Writer>, a: nat, b: nat)
    requires IsGroup(ws, a) && IsGroup(ws, b)
    ensures a == b
  {
  }

  // ---- Events ----------------------------------------------------------------------------------

  datatype Event =
    | Arrive(writer: Writer)                             // enter Write and queue up
    | Wake(id: nat)                                      // return from Wait, also spuriously
    | Lead(room: Status)                                 // MakeRoomForWrite returned `room`
    | Finish(status: Status, logged: bool, syncError: bool) // logging and applying are over

  function WritersOf(q: Queue): seq<Writer>
    requires forall i :: 0 <= i < |q.writers| ==> q.writers[i] < |q.slots|
  {
    seq(|q.writers|, i requires 0 <= i < |q.writers| => q.slots[q.writers[i]].writer)
  }

  predicate Indexed(q: Queue) {
    forall i :: 0 <= i < |q.writers| ==> q.writers[i] < |q.slots|
  }

  predicate Enabled(q: Queue, ev: Event) {
    Indexed(q) &&
    match ev
    case Arrive(_) => true
    case Wake(id) => id < |q.slots| && q.slots[id].phase.Waiting?
    case Lead(room) => q.writers != [] && q.slots[q.writers[0]].phase == Ready && (q.bgError ==> room == Failed)
    case Finish(status, logged, syncError) =>
      && q.pending.Some? && q.writers != [] && 1 <= q.pending.value.count <= |q.writers|
      && (status == OK ==> logged && !syncError) && (syncError ==> logged && q.slots[q.writers[0]].writer.sync)
  }

  /** The end of Write: pop the group, mark its writers done, signal them and the new head. */
  function Pop(q: Queue, n: nat, status: Status): Queue
    requires Indexed(q) && 1 <= n <= |q.writers|
  {
    var done, rest := q.writers[..n], q.writers[n..];
    var slots := seq(|q.slots|, i requires 0 <= i < |q.slots| =>
      if i == q.writers[0] then q.slots[i].(phase := Returned, result := Some(status))
      else if i in done then q.slots[i].(phase := Waiting(true), result := Some(status))
      else if rest != [] && i == rest[0] && q.slots[i].phase.Waiting? then q.slots[i].(phase := Waiting(true))
      else q.slots[i]);
    q.(slots := slots, writers := rest)
  }

  function After(q: Queue, ev: Event): Queue
    requires Enabled(q, ev)
  {
    match ev
    case Arrive(w) =>
      q.(slots := q.slots + [Slot(w, if q.writers == [] then Ready else Waiting(false), None)],
         writers := q.writers + [|q.slots|])
    case Wake(id) =>
      var slot := q.slots[id];
      var phase := if slot.result.Some? then Returned
                   else if q.writers != [] && q.writers[0] == id then Ready else Waiting(false);
      q.(slots := q.slots[id := slot.(phase := phase)])
    case Lead(room) =>
      var ws, leader := WritersOf(q), q.writers[0];
      if room == OK && ws[0].batch.Some? then
        var count := GroupCount(ws, 1);
        var ops := Gather(ws[..count]);
        q.(slots := q.slots[leader := q.slots[leader].(phase := Leading)],
           pending := Some(Group(count, q.lastSequence + 1, ops)),
           tmp := if HasFollower(ws, count) then ops else [])
      else
        Pop(if room == OK then q.(forced := q.forced + [leader]) else q, 1, room)
    case Finish(status, logged, syncError) =>
      var g, leader := q.pending.value, q.writers[0];
      var record := LogRecord(g.first, g.ops, q.slots[leader].writer.sync && status == OK, leader, leader + g.count);
      Pop(q.(log := if logged then q.log + [record] else q.log, lastSequence := q.lastSequence + |g.ops|,
             tmp := [], pending := None, bgError := q.bgError || syncError),
          g.count, status)
  }

  // ---- The invariant ---------------------------------------------------------------------------

  /** Writers numbered below the head have been answered; the others queue in order of arrival. */
  function Head(q: Queue): int { |q.slots| - |q.writers| }

  ghost predicate InOrder(q: Queue) {
    |q.writers| <= |q.slots| && forall k :: 0 <= k < |q.writers| ==> q.writers[k] == Head(q) + k
  }

  /** Answered writers have a result and are gone or about to wake; of the others only the head is awake, and
      if it is not, a signal is on its way. */
  ghost predicate PhasesOk(slots: seq<Slot>, head: int) {
    && (forall i :: 0 <= i < |slots| && i < head ==>
          slots[i].result.Some? && (slots[i].phase == Returned || slots[i].phase == Waiting(true)))
    && (forall i :: head <= i < |slots| && 0 <= i ==> slots[i].result.None?)
    && (forall i :: head < i < |slots| && 0 <= i ==> slots[i].phase.Waiting?)
    && (0 <= head < |slots| ==> slots[head].phase != Returned && slots[head].phase != Waiting(false))
  }

  function Range(slots: seq<Slot>, a: nat, b: nat): seq<Writer>
    requires a <= b <= |slots|
  {
    seq(b - a, k requires 0 <= k < b - a => slots[a + k].writer)
  }

  /** No sync write is carried by a leader that does not sync. */
  ghost predicate SyncOk(slots: seq<Slot>, a: nat, b: nat) {
    a < b <= |slots| && forall i :: a <= i < b && slots[i].writer.sync ==> slots[a].writer.sync
  }

  ghost predicate PendingOk(q: Queue) {
    && 0 <= Head(q)
    && (q.pending.None? ==> q.tmp == [] && (Head(q) < |q.slots| ==> q.slots[Head(q)].phase != Leading))
    && (q.pending.Some? ==>
          var g := q.pending.value;
          && 1 <= g.count <= |q.writers| && q.slots[Head(q)].phase == Leading && q.slots[Head(q)].writer.batch.Some?
          && SyncOk(q.slots, Head(q), Head(q) + g.count)
          && g.first == q.lastSequence + 1 && g.ops == Gather(Range(q.slots, Head(q), Head(q) + g.count)))
  }

  /** A record holds the batches of its writers, all of them answered with one status. */
  ghost predicate RecordOk(slots: seq<Slot>, head: int, r: LogRecord) {
    && r.from < r.to <= |slots| && r.to <= head && SyncOk(slots, r.from, r.to)
    && r.ops == Gather(Range(slots, r.from, r.to))
    && (forall i :: r.from <= i < r.to ==> slots[i].result == slots[r.from].result)
    && (slots[r.from].result == Some(OK) && slots[r.from].writer.sync ==> r.synced)
  }

  ghost predicate LogOk(slots: seq<Slot>, head: int, log: seq<LogRecord>, last: nat) {
    && (forall k :: 0 <= k < |log| ==> RecordOk(slots, head, log[k]) && log[k].first + |log[k].ops| <= last + 1)
    && (forall j, k :: 0 <= j < k < |log| ==> log[j].to <= log[k].from && log[j].first + |log[j].ops| <= log[k].first)
  }

  /** Every batch answered with OK is in some record. */
  ghost predicate AllLogged(slots: seq<Slot>, log: seq<LogRecord>) {
    forall i :: 0 <= i < |slots| && slots[i].result == Some(OK) && slots[i].writer.batch.Some? ==>
      exists k :: 0 <= k < |log| && log[k].from <= i < log[k].to
  }

  ghost predicate Inv(q: Queue) {
    && InOrder(q) && PhasesOk(q.slots, Head(q)) && PendingOk(q)
    && LogOk(q.slots, Head(q), q.log, q.lastSequence) && AllLogged(q.slots, q.log)
  }

  const EMPTY := Queue([], [], None, [], [], 0, false, [])

  lemma EmptyInv()
    ensures Inv(EMPTY)
  {
  }

  // ---- Each event keeps it ---------------------------------------------------------------------

  /** Same writers up to n. */
  ghost predicate SameWriters(a: seq<Slot>, b: seq<Slot>, n: nat) {
    n <= |a| && n <= |b| && forall i :: 0 <= i < n ==> a[i].writer == b[i].writer
  }

  lemma SameRange(a: seq<Slot>, b: seq<Slot>, n: nat, from: nat, to: nat)
    requires SameWriters(a, b, n) && from <= to <= n
    ensures Range(a, from, to) == Range(b, from, to)
    ensures SyncOk(a, from, to) <==> SyncOk(b, from, to)
  {
  }

  /** The log stays right when answered writers keep their results and the head moves up. */
  lemma LogFrame(a: seq<Slot>, b: seq<Slot>, head: nat, newHead: nat, log: seq<LogRecord>, last: nat, newLast: nat)
    requires LogOk(a, head, log, last) && head <= newHead && last <= newLast
    requires head <= |a| && SameWriters(a, b, head) && forall i :: 0 <= i < head ==> a[i].result == b[i].result
    ensures LogOk(b, newHead, log, newLast)
  {
    hide Gather, SyncOk, Range;
    forall k | 0 <= k < |log| ensures RecordOk(b, newHead, log[k]) {
      assert RecordOk(a, head, log[k]);
      SameRange(a, b, head, log[k].from, log[k].to);
    }
  }

  lemma ArriveOk(q: Queue, w: Writer)
    requires Inv(q)
    ensures Enabled(q, Arrive(w)) && Inv(After(q, Arrive(w)))
  {
    hide LogOk, Gather, SyncOk, Range;
    var r := After(q, Arrive(w));
    LogFrame(q.slots, r.slots, Head(q), Head(r), q.log, q.lastSequence, r.lastSequence);
    if q.pending.Some? {
      SameRange(q.slots, r.slots, |q.slots|, Head(q), Head(q) + q.pending.value.count);
    }
  }

  lemma WakeOk(q: Queue, id: nat)
    requires Inv(q) && Enabled(q, Wake(id))
    ensures Inv(After(q, Wake(id)))
  {
    hide LogOk, Gather, SyncOk, Range;
    var r := After(q, Wake(id));
    LogFrame(q.slots, r.slots, Head(q), Head(r), q.log, q.lastSequence, r.lastSequence);
    if q.pending.Some? {
      SameRange(q.slots, r.slots, |q.slots|, Head(q), Head(q) + q.pending.value.count);
    }
  }

  /** What popping n writers does to the slot at distance d from the head. */
  function Popped(slot: Slot, d: int, n: nat, status: Status): Slot {
    if d == 0 then slot.(phase := Returned, result := Some(status))
    else if 0 < d < n then slot.(phase := Waiting(true), result := Some(status))
    else if d == n && slot.phase.Waiting? then slot.(phase := Waiting(true))
    else slot
  }

  lemma PopSlots(q: Queue, n: nat, status: Status)
    requires InOrder(q) && 1 <= n <= |q.writers|
    ensures Indexed(q)
    ensures var r, head := Pop(q, n, status), Head(q);
            && |r.slots| == |q.slots| && InOrder(r) && Head(r) == head + n
            && (forall i :: 0 <= i < |q.slots| ==> r.slots[i] == Popped(q.slots[i], i - head, n, status))
  {
    var done := q.writers[..n];
    forall i | 0 <= i < |q.slots| ensures i in done <==> Head(q) <= i < Head(q) + n {
      if Head(q) <= i < Head(q) + n {
        assert done[i - Head(q)] == i;
      }
    }
  }

  /** What popping n writers does to the slots. */
  lemma PopEffect(q: Queue, n: nat, status: Status)
    requires InOrder(q) && PhasesOk(q.slots, Head(q)) && 1 <= n <= |q.writers|
    ensures Indexed(q)
    ensures var r := Pop(q, n, status);
            && InOrder(r) && Head(r) == Head(q) + n && PhasesOk(r.slots, Head(r))
            && SameWriters(q.slots, r.slots, |q.slots|) && |r.slots| == |q.slots|
            && (forall i :: 0 <= i < Head(q) ==> r.slots[i] == q.slots[i])
            && (forall i :: Head(q) <= i < Head(r) ==> r.slots[i].result == Some(status))
            && (forall i :: Head(r) <= i < |r.slots| ==> r.slots[i].phase != Leading)
  {
    hide Pop;
    PopSlots(q, n, status);
  }

  lemma GroupRange(q: Queue, count: nat)
    requires InOrder(q) && count <= |q.writers|
    ensures Indexed(q) && WritersOf(q)[..count] == Range(q.slots, Head(q), Head(q) + count)
  {
  }

  lemma GroupSyncs(q: Queue, count: nat)
    requires InOrder(q) && Indexed(q) && 1 <= count <= |q.writers| && IsGroup(WritersOf(q), count)
    ensures SyncOk(q.slots, Head(q), Head(q) + count)
  {
    hide GroupSize;
    var ws := WritersOf(q);
    forall i | Head(q) <= i < Head(q) + count && q.slots[i].writer.sync ensures q.slots[Head(q)].writer.sync {
      assert ws[i - Head(q)] == q.slots[i].writer && ws[0] == q.slots[Head(q)].writer;
      assert i > Head(q) ==> Joins(ws[0], ws[i - Head(q)], GroupSize(ws[..i - Head(q)]));
    }
  }

  lemma AddRecord(slots: seq<Slot>, head: nat, log: seq<LogRecord>, last: nat, r: LogRecord)
    requires LogOk(slots, head, log, last) && RecordOk(slots, head, r)
    requires forall k :: 0 <= k < |log| ==> log[k].to <= r.from && log[k].first + |log[k].ops| <= r.first
    requires r.first + |r.ops| <= last + 1
    ensures LogOk(slots, head, log + [r], last)
  {
    hide RecordOk;
  }

  lemma LogBefore(slots: seq<Slot>, head: nat, log: seq<LogRecord>, last: nat)
    requires LogOk(slots, head, log, last)
    ensures forall k :: 0 <= k < |log| ==> log[k].to <= head && log[k].first + |log[k].ops| <= last + 1
  {
  }

  /** Answering writers leaves the earlier batches where they were logged. */
  lemma StillLogged(a: seq<Slot>, b: seq<Slot>, head: nat, newHead: nat, log: seq<LogRecord>, more: seq<LogRecord>)
    requires AllLogged(a, log) && head <= newHead <= |a| == |b| && SameWriters(a, b, |a|)
    requires forall i :: 0 <= i < head ==> a[i].result == b[i].result
    requires forall i :: newHead <= i < |b| ==> b[i].result.None?
    requires forall i :: head <= i < newHead && b[i].result == Some(OK) && b[i].writer.batch.Some? ==>
               exists k :: 0 <= k < |more| && more[k].from <= i < more[k].to
    ensures AllLogged(b, log + more)
  {
    forall i | 0 <= i < |b| && b[i].result == Some(OK) && b[i].writer.batch.Some?
      ensures exists k :: 0 <= k < |log + more| && (log + more)[k].from <= i < (log + more)[k].to
    {
      if i < head {
        var k :| 0 <= k < |log| && log[k].from <= i < log[k].to;
        assert (log + more)[k] == log[k];
      } else {
        var k :| 0 <= k < |more| && more[k].from <= i < more[k].to;
        assert (log + more)[|log| + k] == more[k];
      }
    }
  }

  lemma LeadOk(q: Queue, room: Status)
    requires Inv(q) && Enabled(q, Lead(room))
    ensures Inv(After(q, Lead(room)))
  {
    hide LogOk, Gather, SyncOk, Range, GroupSize, AllLogged, HasFollower, PhasesOk;
    if room == OK && WritersOf(q)[0].batch.Some? {
      LeadGroup(q);
    } else {
      LeadAlone(if room == OK then q.(forced := q.forced + [q.writers[0]]) else q, room);
    }
  }

  lemma LeadGroup(q: Queue)
    requires Inv(q) && Enabled(q, Lead(OK)) && WritersOf(q)[0].batch.Some?
    ensures Inv(After(q, Lead(OK)))
  {
    hide LogOk, Gather, SyncOk, Range, GroupSize, AllLogged, HasFollower;
    var r := After(q, Lead(OK));
    var head, count := Head(q), GroupCount(WritersOf(q), 1);
    GroupRange(q, count);
    GroupSyncs(q, count);
    SameRange(q.slots, r.slots, |q.slots|, head, head + count);
    LogFrame(q.slots, r.slots, head, head, q.log, q.lastSequence, q.lastSequence);
    StillLogged(q.slots, r.slots, head, head, q.log, []);
    assert q.log + [] == q.log;
  }

  lemma LeadAlone(q: Queue, room: Status)
    requires Inv(q) && Enabled(q, Lead(room)) && (room == OK ==> q.slots[q.writers[0]].writer.batch.None?)
    ensures Inv(Pop(q, 1, room))
  {
    hide LogOk, Gather, SyncOk, Range, AllLogged, Pop, PhasesOk;
    var head, r := Head(q), Pop(q, 1, room);
    PopEffect(q, 1, room);
    PhasesFacts(r.slots, Head(r));
    PopFrame(q, 1, room);
    LogFrame(q.slots, r.slots, head, head + 1, q.log, q.lastSequence, q.lastSequence);
    StillLogged(q.slots, r.slots, head, head + 1, q.log, []);
    assert q.log + [] == q.log;
  }

  lemma PhasesFacts(slots: seq<Slot>, head: nat)
    requires PhasesOk(slots, head)
    ensures forall i :: head <= i < |slots| ==> slots[i].result.None?
  {
  }

  lemma PopFrame(q: Queue, n: nat, status: Status)
    requires Indexed(q) && 1 <= n <= |q.writers|
    ensures var r := Pop(q, n, status);
            r.pending == q.pending && r.tmp == q.tmp && r.log == q.log && r.lastSequence == q.lastSequence
            && r.bgError == q.bgError && r.forced == q.forced
  {
  }

  lemma FinishOk(q: Queue, status: Status, logged: bool, syncError: bool)
    requires Inv(q) && Enabled(q, Finish(status, logged, syncError))
    ensures Inv(After(q, Finish(status, logged, syncError)))
  {
    hide Gather, SyncOk, Range, AllLogged, Pop, PhasesOk, LogOk;
    var g := q.pending.value;
    var leader := q.writers[0];
    var record := LogRecord(g.first, g.ops, q.slots[leader].writer.sync && status == OK, leader, leader + g.count);
    var log, last := if logged then q.log + [record] else q.log, q.lastSequence + |g.ops|;
    var q1 := q.(log := log, lastSequence := last, tmp := [], pending := None, bgError := q.bgError || syncError);
    var r := Pop(q1, g.count, status);
    PopEffect(q1, g.count, status);
    PopFrame(q1, g.count, status);
    PhasesFacts(r.slots, Head(r));
    FinishedLog(q, status, logged, syncError);
  }

  /** The log part of FinishOk. */
  lemma FinishedLog(q: Queue, status: Status, logged: bool, syncError: bool)
    requires Inv(q) && Enabled(q, Finish(status, logged, syncError))
    ensures var r := After(q, Finish(status, logged, syncError));
            LogOk(r.slots, Head(r), r.log, r.lastSequence) && AllLogged(r.slots, r.log)
  {
    hide Gather, SyncOk, Range, AllLogged, Pop, PhasesOk, LogOk;
    var g, head := q.pending.value, Head(q);
    var leader := q.writers[0];
    var record := LogRecord(g.first, g.ops, q.slots[leader].writer.sync && status == OK, leader, leader + g.count);
    var log, last := if logged then q.log + [record] else q.log, q.lastSequence + |g.ops|;
    var q1 := q.(log := log, lastSequence := last, tmp := [], pending := None, bgError := q.bgError || syncError);
    var r := Pop(q1, g.count, status);
    PopEffect(q1, g.count, status);
    PopFrame(q1, g.count, status);
    PhasesFacts(r.slots, Head(r));
    LogFrame(q.slots, r.slots, head, head + g.count, q.log, q.lastSequence, last);
    SameRange(q.slots, r.slots, |q.slots|, head, head + g.count);
    LogBefore(q.slots, head, q.log, q.lastSequence);
    if logged {
      assert RecordOk(r.slots, head + g.count, record);
      AddRecord(r.slots, head + g.count, q.log, last, record);
      assert [record][0] == record;
      StillLogged(q.slots, r.slots, head, head + g.count, q.log, [record]);
    } else {
      StillLogged(q.slots, r.slots, head, head + g.count, q.log, []);
      assert q.log + [] == q.log;
    }
  }

  // ---- Main results ----------------------------------------------------------------------------

  lemma StepOk(q: Queue, ev: Event)
    requires Inv(q) && Enabled(q, ev)
    ensures Inv(After(q, ev))
  {
    hide Inv, Enabled, After;
    match ev
    case Arrive(w) => ArriveOk(q, w);
    case Wake(id) => WakeOk(q, id);
    case Lead(room) => LeadOk(q, room);
    case Finish(status, logged, syncError) => FinishOk(q, status, logged, syncError);
  }

  // ---- Forced memtable switches ----------------------------------------------------------------

  /** Writer i was answered as a follower in somebody else's record. */
  ghost predicate Followed(log: seq<LogRecord>, i: nat) {
    exists k :: 0 <= k < |log| && log[k].from < i < log[k].to
  }

  /** The answered null writes that got OK are those that forced a switch and those that followed. */
  ghost predicate ForcedOk(slots: seq<Slot>, head: int, log: seq<LogRecord>, forced: seq<nat>) {
    && (forall i :: i in forced ==>
          i < head && i < |slots| && slots[i].result == Some(OK) && slots[i].writer.batch.None? && !Followed(log, i))
    && (forall i :: 0 <= i < head && i < |slots| && slots[i].result == Some(OK) && slots[i].writer.batch.None? ==>
          i in forced || Followed(log, i))
  }

  lemma ForcedStep(q: Queue, ev: Event)
    requires Inv(q) && Enabled(q, ev) && ForcedOk(q.slots, Head(q), q.log, q.forced)
    ensures var r := After(q, ev); ForcedOk(r.slots, Head(r), r.log, r.forced)
  {
    hide Gather, SyncOk, Range, AllLogged, LogOk, PhasesOk, Pop, IsGroup, Followed;
    match ev
    case Arrive(w) =>
    case Wake(id) =>
    case Lead(room) =>
      if !(room == OK && WritersOf(q)[0].batch.Some?) {
        var q1 := if room == OK then q.(forced := q.forced + [q.writers[0]]) else q;
        PopEffect(q1, 1, room);
        PopFrame(q1, 1, room);
        NobodyFollowed(q, Head(q));
      }
    case Finish(status, logged, syncError) => ForcedFinish(q, status, logged, syncError);
  }

  /** Records end before the head. */
  lemma NobodyFollowed(q: Queue, i: nat)
    requires Inv(q) && i >= Head(q)
    ensures !Followed(q.log, i)
  {
    hide PhasesOk, PendingOk, AllLogged, SyncOk, Gather, Range, InOrder;
    forall k | 0 <= k < |q.log| ensures !(q.log[k].from < i < q.log[k].to) {
      assert RecordOk(q.slots, Head(q), q.log[k]);
    }
  }

  /** One record more. */
  lemma FollowedMore(log: seq<LogRecord>, r: LogRecord, i: nat)
    ensures Followed(log + [r], i) <==> Followed(log, i) || r.from < i < r.to
  {
    if Followed(log, i) {
      var k :| 0 <= k < |log| && log[k].from < i < log[k].to;
      assert (log + [r])[k] == log[k];
    }
    assert (log + [r])[|log|] == r;
  }

  lemma ForcedFinish(q: Queue, status: Status, logged: bool, syncError: bool)
    requires Inv(q) && Enabled(q, Finish(status, logged, syncError)) && ForcedOk(q.slots, Head(q), q.log, q.forced)
    ensures var r := After(q, Finish(status, logged, syncError)); ForcedOk(r.slots, Head(r), r.log, r.forced)
  {
    hide Gather, SyncOk, Range, AllLogged, LogOk, PhasesOk, Pop, Followed;
    var g, head := q.pending.value, Head(q);
    var leader := q.writers[0];
    var record := LogRecord(g.first, g.ops, q.slots[leader].writer.sync && status == OK, leader, leader + g.count);
    var log := if logged then q.log + [record] else q.log;
    var q1 := q.(log := log, lastSequence := q.lastSequence + |g.ops|, tmp := [], pending := None,
                 bgError := q.bgError || syncError);
    PopEffect(q1, g.count, status);
    PopFrame(q1, g.count, status);
    forall i: nat ensures Followed(q.log + [record], i) <==> Followed(q.log, i) || record.from < i < record.to {
      FollowedMore(q.log, record, i);
    }
  }

  /** Any interleaving of the writers' threads. */
  ghost predicate Interleaving(qs: seq<Queue>, evs: seq<Event>) {
    && |qs| == |evs| + 1 && qs[0] == EMPTY
    && forall i :: 0 <= i < |evs| ==> Enabled(qs[i], evs[i]) && qs[i + 1] == After(qs[i], evs[i])
  }

  lemma {:induction false} InterleavingOk(qs: seq<Queue>, evs: seq<Event>, n: nat)
    requires Interleaving(qs, evs) && n <= |evs|
    ensures |qs| == |evs| + 1 && Inv(qs[n])
  {
    hide Inv, Enabled, After;
    if n == 0 {
      EmptyInv();
    } else {
      InterleavingOk(qs, evs, n - 1);
      StepOk(qs[n - 1], evs[n - 1]);
    }
  }

  lemma {:induction false} InterleavingForced(qs: seq<Queue>, evs: seq<Event>, n: nat)
    requires Interleaving(qs, evs) && n <= |evs|
    ensures |qs| == |evs| + 1 && ForcedOk(qs[n].slots, Head(qs[n]), qs[n].log, qs[n].forced)
  {
    hide Inv, Enabled, After, ForcedOk;
    if n == 0 {
      NothingForced();
    } else {
      InterleavingForced(qs, evs, n - 1);
      InterleavingOk(qs, evs, n - 1);
      ForcedStep(qs[n - 1], evs[n - 1]);
    }
  }

  lemma NothingForced()
    ensures ForcedOk(EMPTY.slots, Head(EMPTY), EMPTY.log, EMPTY.forced)
  {
  }

  lemma {:induction false} GatherSplit(slots: seq<Slot>, a: nat, b: nat, c: nat)
    requires a <= b <= c <= |slots|
    ensures Gather(Range(slots, a, c)) == Gather(Range(slots, a, b)) + Gather(Range(slots, b, c))
  {
    hide Gather;
    if b == c {
      GatherNothing(Range(slots, b, c));
    } else {
      GatherSplit(slots, a, b, c - 1);
      GatherLast(slots, a, c);
      GatherLast(slots, b, c);
    }
  }

  lemma GatherNothing(ws: seq<Writer>)
    requires ws == []
    ensures Gather(ws) == []
  {
  }

  lemma GatherLast(slots: seq<Slot>, a: nat, c: nat)
    requires a < c <= |slots|
    ensures Gather(Range(slots, a, c)) == Gather(Range(slots, a, c - 1)) + BatchOps(slots[c - 1].writer)
  {
    var ws := Range(slots, a, c);
    assert ws[..|ws| - 1] == Range(slots, a, c - 1);
  }

  /** Where writer i's batch sits in a record. */
  function Offset(slots: seq<Slot>, r: LogRecord, i: nat): nat
    requires r.from <= i <= |slots|
  {
    |Gather(Range(slots, r.from, i))|
  }

  lemma InRecord(slots: seq<Slot>, r: LogRecord, i: nat)
    requires r.from <= i < r.to <= |slots| && r.ops == Gather(Range(slots, r.from, r.to))
    ensures var b, at := BatchOps(slots[i].writer), Offset(slots, r, i);
            at + |b| <= |r.ops| && r.ops[at..at + |b|] == b
    ensures forall j :: i < j < r.to ==> Offset(slots, r, i) + |BatchOps(slots[i].writer)| <= Offset(slots, r, j)
  {
    hide Gather, Range;
    GatherSplit(slots, r.from, i + 1, r.to);
    GatherLast(slots, r.from, i + 1);
    forall j | i < j < r.to ensures Offset(slots, r, i) + |BatchOps(slots[i].writer)| <= Offset(slots, r, j) {
      GatherSplit(slots, r.from, i + 1, j);
    }
  }

  lemma RecordIsOk(q: Queue, k: nat)
    requires Inv(q) && k < |q.log|
    ensures RecordOk(q.slots, Head(q), q.log[k]) && Head(q) <= |q.slots|
    ensures q.log[k].from < q.log[k].to <= |q.slots| && q.log[k].first + |q.log[k].ops| <= q.lastSequence + 1
  {
    hide PhasesOk, PendingOk, AllLogged, SyncOk, Gather, Range;
  }

  lemma RecordsApart(q: Queue, j: nat, k: nat)
    requires Inv(q) && j < k < |q.log|
    ensures q.log[j].to <= q.log[k].from && q.log[j].first + |q.log[j].ops| <= q.log[k].first
  {
    hide PhasesOk, PendingOk, AllLogged, RecordOk;
  }

  lemma HasRecord(q: Queue, i: nat) returns (k: nat)
    requires Inv(q) && i < |q.slots| && q.slots[i].result == Some(OK) && q.slots[i].writer.batch.Some?
    ensures k < |q.log| && q.log[k].from <= i < q.log[k].to
  {
    hide PhasesOk, PendingOk, LogOk, InOrder;
    k :| 0 <= k < |q.log| && q.log[k].from <= i < q.log[k].to;
  }

  /** Main result: a batch answered with OK is in exactly one log record, whole and once, and a sync write is in
      a synced one. */
  lemma CommittedOnce(qs: seq<Queue>, evs: seq<Event>, i: nat) returns (k: nat)
    requires Interleaving(qs, evs)
    requires var q := qs[|evs|];
             i < |q.slots| && q.slots[i].result == Some(OK) && q.slots[i].writer.batch.Some?
    ensures var q := qs[|evs|];
            && k < |q.log| && q.log[k].from <= i < q.log[k].to <= |q.slots|
            && (forall j :: 0 <= j < |q.log| && q.log[j].from <= i < q.log[j].to ==> j == k)
            && (var b, at := q.slots[i].writer.batch.value, Offset(q.slots, q.log[k], i);
                at + |b| <= |q.log[k].ops| && q.log[k].ops[at..at + |b|] == b)
            && (q.slots[i].writer.sync ==> q.log[k].synced)
  {
    hide Interleaving, Inv, Gather, Range;
    InterleavingOk(qs, evs, |evs|);
    var q := qs[|evs|];
    k := HasRecord(q, i);
    RecordIsOk(q, k);
    InRecord(q.slots, q.log[k], i);
    forall j | 0 <= j < |q.log| && q.log[j].from <= i < q.log[j].to ensures j == k {
      if j < k {
        RecordsApart(q, j, k);
      } else if k < j {
        RecordsApart(q, k, j);
      }
    }
  }

  /** Batches take increasing, disjoint ranges of sequence numbers in order of arrival. */
  lemma SequencedInOrder(qs: seq<Queue>, evs: seq<Event>, i: nat, j: nat, k: nat, l: nat)
    requires Interleaving(qs, evs)
    requires var q := qs[|evs|];
             && i < j < |q.slots| && k < |q.log| && l < |q.log|
             && q.log[k].from <= i < q.log[k].to && q.log[l].from <= j < q.log[l].to
    ensures var q := qs[|evs|];
            && q.log[k].to <= |q.slots| && q.log[l].to <= |q.slots|
            && q.log[k].first + Offset(q.slots, q.log[k], i) + |BatchOps(q.slots[i].writer)| <=
               q.log[l].first + Offset(q.slots, q.log[l], j)
            && q.log[l].first + Offset(q.slots, q.log[l], j) + |BatchOps(q.slots[j].writer)| <= q.lastSequence + 1
  {
    hide Interleaving, Inv, Gather, Range;
    InterleavingOk(qs, evs, |evs|);
    var q := qs[|evs|];
    RecordIsOk(q, k);
    RecordIsOk(q, l);
    InRecord(q.slots, q.log[k], i);
    InRecord(q.slots, q.log[l], j);
    if k < l {
      RecordsApart(q, k, l);
    } else if l < k {
      RecordsApart(q, l, k);
    }
  }

  /** Everyone in a record got the same answer. */
  lemma FollowersGetLeadersStatus(qs: seq<Queue>, evs: seq<Event>, k: nat, i: nat)
    requires Interleaving(qs, evs)
    requires var q := qs[|evs|]; k < |q.log| && q.log[k].from <= i < q.log[k].to
    ensures var q := qs[|evs|];
            && q.log[k].to <= |q.slots| && q.slots[i].result == q.slots[q.log[k].from].result && q.slots[i].result.Some?
            && (q.slots[i].writer.sync ==> q.slots[q.log[k].from].writer.sync)
  {
    InterleavingOk(qs, evs, |evs|);
    var q := qs[|evs|];
    hide Interleaving, Gather, Range, PendingOk, AllLogged;
    assert RecordOk(q.slots, Head(q), q.log[k]);
  }

  /** When a leader is done, everybody in its group gets the status it ended with, and nobody's answer changes after
      that. */
  lemma FinishAnswers(q: Queue, status: Status, logged: bool, syncError: bool, i: nat)
    requires Enabled(q, Finish(status, logged, syncError)) && i in q.writers[..q.pending.value.count]
    ensures i < |q.slots| && After(q, Finish(status, logged, syncError)).slots[i].result == Some(status)
    ensures After(q, Finish(status, logged, syncError)).slots[i].writer == q.slots[i].writer
  {
  }

  lemma {:induction false} AnswersAreFinal(qs: seq<Queue>, evs: seq<Event>, m: nat, n: nat, i: nat)
    requires Interleaving(qs, evs) && m <= n <= |evs| && i < |qs[m].slots| && qs[m].slots[i].result.Some?
    ensures i < |qs[n].slots| && qs[n].slots[i].result == qs[m].slots[i].result
    ensures qs[n].slots[i].writer == qs[m].slots[i].writer
    decreases n - m
  {
    hide Inv, Gather, GroupCount, HasFollower, Joins, Enabled, After;
    if n > m {
      AnswersAreFinal(qs, evs, m, n - 1, i);
      InterleavingOk(qs, evs, n - 1);
      AnswerStays(qs[n - 1], evs[n - 1], i);
    }
  }

  lemma AnswerStays(q: Queue, ev: Event, i: nat)
    requires Inv(q) && Enabled(q, ev) && i < |q.slots| && q.slots[i].result.Some?
    ensures i < |After(q, ev).slots| && After(q, ev).slots[i].result == q.slots[i].result
    ensures After(q, ev).slots[i].writer == q.slots[i].writer
  {
    hide Gather, GroupCount, HasFollower, Joins, LogOk, AllLogged, SyncOk, Range;
    assert forall k :: 0 <= k < |q.writers| ==> q.writers[k] != i;
  }

  /** A null write that was answered with OK forced a memtable switch exactly if it led: a null write that was taken
      along in another writer's group gets that writer's OK, and nothing is switched for it. */
  lemma NullWriteForcedIffItLed(qs: seq<Queue>, evs: seq<Event>, i: nat)
    requires Interleaving(qs, evs)
    requires var q := qs[|evs|]; i < |q.slots| && q.slots[i].result == Some(OK) && q.slots[i].writer.batch.None?
    ensures var q := qs[|evs|]; i in q.forced <==> !Followed(q.log, i)
  {
    hide Interleaving, Followed;
    InterleavingForced(qs, evs, |evs|);
    InterleavingOk(qs, evs, |evs|);
    hide Gather, Range, PendingOk, AllLogged, LogOk, SyncOk;
  }

  /** A write has started to log when the null write behind it is in its group. */
  lemma TheGroupTakesTheNullWrite(w: Writer, n: Writer) returns (q2: Queue, q3: Queue)
    requires w.batch.Some? && n.batch.None? && !n.sync
    ensures q2 == After(After(EMPTY, Arrive(w)), Arrive(n)) && Enabled(q2, Lead(OK)) && q3 == After(q2, Lead(OK))
    ensures q3.slots == [Slot(w, Leading, None), Slot(n, Waiting(false), None)] && q3.writers == [0, 1]
    ensures q3.pending.Some? && q3.pending.value.count == 2 && q3.forced == []
  {
    hide Gather, HasFollower, GroupSize;
    q2 := After(After(EMPTY, Arrive(w)), Arrive(n));
    assert q2.writers == [0, 1] && WritersOf(q2) == [w, n];
    assert GroupCount([w, n], 1) == 2 by {
      assert Joins(w, n, GroupSize([w, n][..1]));
    }
    q3 := After(q2, Lead(OK));
  }

  lemma BothAreAnswered(q: Queue, w: Writer, n: Writer)
    requires q.slots == [Slot(w, Leading, None), Slot(n, Waiting(false), None)] && q.writers == [0, 1]
    requires q.pending.Some? && q.pending.value.count == 2
    ensures Enabled(q, Finish(OK, true, false)) && After(q, Finish(OK, true, false)).forced == q.forced
    ensures After(q, Finish(OK, true, false)).slots == [Slot(w, Returned, Some(OK)), Slot(n, Waiting(true), Some(OK))]
  {
    assert q.writers[..2] == [0, 1];
  }

  /** The four events of a write and a null write that queues up behind it: the null write gets OK, and no memtable
      switch is forced. */
  lemma ANullWriteFollows(w: Writer, n: Writer) returns (qs: seq<Queue>, evs: seq<Event>)
    requires w.batch.Some? && n.batch.None? && !n.sync
    ensures Interleaving(qs, evs) && |evs| == 4 && |qs[4].slots| == 2
    ensures qs[4].slots[1] == Slot(n, Waiting(true), Some(OK)) && qs[4].forced == []
  {
    var q2, q3 := TheGroupTakesTheNullWrite(w, n);
    BothAreAnswered(q3, w, n);
    hide Pop, Gather, HasFollower, GroupSize, GroupCount;
    qs := [EMPTY, After(EMPTY, Arrive(w)), q2, q3, After(q3, Finish(OK, true, false))];
    evs := [Arrive(w), Arrive(n), Lead(OK), Finish(OK, true, false)];
  }

  /** After a failed sync the log is in doubt, so nothing is written any more: whoever had no answer then is answered
      with a failure, if at all, and the log stays as it is. */
  lemma {:induction false} NothingAfterSyncError(qs: seq<Queue>, evs: seq<Event>, j: nat, n: nat)
    requires Interleaving(qs, evs) && j < n <= |evs| && evs[j].Finish? && evs[j].syncError
    ensures qs[n].bgError && qs[n].pending.None? && qs[n].log == qs[j + 1].log
    ensures |qs[j + 1].slots| <= |qs[n].slots|
    ensures forall i :: 0 <= i < |qs[n].slots| && (i < |qs[j + 1].slots| ==> qs[j + 1].slots[i].result.None?) ==>
              qs[n].slots[i].result.None? || qs[n].slots[i].result == Some(Failed)
  {
    hide Gather, GroupCount, HasFollower, Joins;
    if n > j + 1 {
      NothingAfterSyncError(qs, evs, j, n - 1);
      FailedStep(qs[n - 1], evs[n - 1]);
    }
  }

  lemma FailedStep(q: Queue, ev: Event)
    requires Enabled(q, ev) && q.bgError && q.pending.None?
    ensures var r := After(q, ev);
            && r.bgError && r.pending.None? && r.log == q.log && |q.slots| <= |r.slots|
            && forall i :: 0 <= i < |r.slots| ==>
                 || r.slots[i].result.None? || r.slots[i].result == Some(Failed)
                 || (i < |q.slots| && q.slots[i].result == r.slots[i].result)
  {
    hide Gather, GroupCount, HasFollower, Joins;
  }

  /** No wakeup is lost: as long as somebody queues, the head of the queue can take its next step, and an
      answered writer that has not noticed yet has a signal pending. */
  lemma NoLostWakeup(qs: seq<Queue>, evs: seq<Event>)
    requires Interleaving(qs, evs)
    ensures var q := qs[|evs|];
            && (q.writers != [] ==>
                  && 0 <= Head(q) < |q.slots| && q.writers[0] == Head(q)
                  && (q.slots[Head(q)].phase.Waiting? ==> q.slots[Head(q)].phase.signalled && Enabled(q, Wake(Head(q))))
                  && (q.slots[Head(q)].phase == Ready ==> Enabled(q, Lead(Failed)))
                  && (q.slots[Head(q)].phase == Leading ==> Enabled(q, Finish(Failed, false, false)))
                  && q.slots[Head(q)].phase != Returned)
            && (forall i :: 0 <= i < |q.slots| && q.slots[i].result.Some? && q.slots[i].phase.Waiting? ==>
                  q.slots[i].phase.signalled)
            && (q.pending.None? ==> q.tmp == [])
  {
    InterleavingOk(qs, evs, |evs|);
    hide Interleaving, Gather, Range, AllLogged, LogOk, SyncOk;
  }
}
