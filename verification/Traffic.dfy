/**
  The traffic counters of redog-tunnel/src/statistics.rs. A snapshot is four
  atomic steps: load both totals, then swap both into the last-seen values.
  Any number of threads interleave adds and snapshots.
 */
module Traffic {
  const TWO_64: nat := 0x1_0000_0000_0000_0000
  type U64 = n: nat | n < 0x1_0000_0000_0000_0000

  datatype TrafficSnapshot = TrafficSnapshot(uploadSpeed: nat, downloadSpeed: nat, uploadTotal: U64, downloadTotal: U64)

  function SaturatingSub(a: nat, b: nat): nat {
    if b <= a then a - b else 0
  }

  class TrafficCounter {
    var uploadTotal: U64
    var downloadTotal: U64
    var lastUpload: U64
    var lastDownload: U64

    constructor ()
      ensures uploadTotal == downloadTotal == lastUpload == lastDownload == 0
    {
      uploadTotal, downloadTotal, lastUpload, lastDownload := 0, 0, 0, 0;
    }

    method AddUpload(bytes: U64)
      modifies this`uploadTotal
      ensures uploadTotal == (old(uploadTotal) + bytes as int) % 0x1_0000_0000_0000_0000
    {
      uploadTotal := (uploadTotal + bytes as int) % TWO_64;
    }

    method AddDownload(bytes: U64)
      modifies this`downloadTotal
      ensures downloadTotal == (old(downloadTotal) + bytes as int) % 0x1_0000_0000_0000_0000
    {
      downloadTotal := (downloadTotal + bytes as int) % TWO_64;
    }

    method Snapshot() returns (s: TrafficSnapshot)
      modifies this`lastUpload, this`lastDownload
      ensures lastUpload == s.uploadTotal == uploadTotal && lastDownload == s.downloadTotal == downloadTotal
      ensures s.uploadSpeed == SaturatingSub(uploadTotal, old(lastUpload))
      ensures s.downloadSpeed == SaturatingSub(downloadTotal, old(lastDownload))
    {
      var upload := uploadTotal;
      var download := downloadTotal;
      var lastUp := lastUpload;
      lastUpload := upload;
      var lastDown := lastDownload;
      lastDownload := download;
      s := TrafficSnapshot(SaturatingSub(upload, lastUp), SaturatingSub(download, lastDown), upload, download);
    }
  }

  // ---- Interleavings ----

  /** How far a thread's snapshot has come, with what it has read. */
  datatype Pc =
    | Idle
    | LoadedUp(up: U64)
    | LoadedBoth(up: U64, down: U64)
    | SwappedUp(up: U64, down: U64, upSpeed: nat)

  /**
    One direction: the total, the last-seen value, the bytes really added, and
    by how much swaps have put the last-seen value back.
   */
  datatype Counter = Counter(total: U64, last: U64, added: nat, regressed: nat)

  datatype System = System(up: Counter, down: Counter, threads: seq<Pc>, reports: seq<TrafficSnapshot>)

  datatype Action =
    | AddUp(bytes: U64)
    | AddDown(bytes: U64)
    | LoadUp(tid: nat)
    | LoadDown(tid: nat)
    | SwapUp(tid: nat)
    | SwapDown(tid: nat)

  function Initial(n: nat): System {
    System(Counter(0, 0, 0, 0), Counter(0, 0, 0, 0), seq(n, _ => Idle), [])
  }

  function Add(c: Counter, bytes: nat): Counter {
    c.(total := (c.total + bytes) % TWO_64, added := c.added + bytes)
  }

  function Swap(c: Counter, value: U64): Counter {
    c.(last := value, regressed := c.regressed + SaturatingSub(c.last, value))
  }

  /** One atomic step; an action its thread is not ready for changes nothing. */
  function Next(s: System, a: Action): System {
    match a
    case AddUp(bytes) => s.(up := Add(s.up, bytes))
    case AddDown(bytes) => s.(down := Add(s.down, bytes))
    case LoadUp(t) =>
      if t < |s.threads| && s.threads[t].Idle? then
        s.(threads := s.threads[t := LoadedUp(s.up.total)])
      else s
    case LoadDown(t) =>
      if t < |s.threads| && s.threads[t].LoadedUp? then
        s.(threads := s.threads[t := LoadedBoth(s.threads[t].up, s.down.total)])
      else s
    case SwapUp(t) =>
      if t < |s.threads| && s.threads[t].LoadedBoth? then
        var pc := s.threads[t];
        s.(up := Swap(s.up, pc.up),
           threads := s.threads[t := SwappedUp(pc.up, pc.down, SaturatingSub(pc.up, s.up.last))])
      else s
    case SwapDown(t) =>
      if t < |s.threads| && s.threads[t].SwappedUp? then
        var pc := s.threads[t];
        s.(down := Swap(s.down, pc.down),
           threads := s.threads[t := Idle],
           reports := s.reports + [TrafficSnapshot(pc.upSpeed, SaturatingSub(pc.down, s.down.last), pc.up, pc.down)])
      else s
  }

  function Run(s: System, actions: seq<Action>): System
    decreases |actions|
  {
    if actions == [] then s else Run(Next(s, actions[0]), actions[1..])
  }

  function UpSum(reports: seq<TrafficSnapshot>): nat {
    if reports == [] then 0 else UpSum(reports[..|reports| - 1]) + reports[|reports| - 1].uploadSpeed
  }

  function DownSum(reports: seq<TrafficSnapshot>): nat {
    if reports == [] then 0 else DownSum(reports[..|reports| - 1]) + reports[|reports| - 1].downloadSpeed
  }

  /** Upload speeds already fixed by a swap but not yet returned. */
  function PendingUp(threads: seq<Pc>): nat {
    if threads == [] then 0
    else (if threads[0].SwappedUp? then threads[0].upSpeed else 0) + PendingUp(threads[1..])
  }

  predicate AllIdle(threads: seq<Pc>) {
    forall t :: 0 <= t < |threads| ==> threads[t].Idle?
  }

  lemma {:induction false} PendingUpdate(threads: seq<Pc>, t: nat, pc: Pc)
    requires t < |threads|
    ensures PendingUp(threads[t := pc]) + (if threads[t].SwappedUp? then threads[t].upSpeed else 0)
            == PendingUp(threads) + (if pc.SwappedUp? then pc.upSpeed else 0)
  {
    var changed := threads[t := pc];
    if t == 0 {
      assert changed[1..] == threads[1..];
    } else {
      assert changed[1..] == threads[1..][t - 1 := pc];
      PendingUpdate(threads[1..], t - 1, pc);
    }
  }

  lemma {:induction false} IdlePendsNothing(threads: seq<Pc>)
    requires AllIdle(threads)
    ensures PendingUp(threads) == 0
  {
    if threads != [] {
      IdlePendsNothing(threads[1..]);
    }
  }

  /** What was reported is what the last-seen values show, plus what swaps put back. */
  ghost predicate Balanced(s: System) {
    && UpSum(s.reports) + PendingUp(s.threads) == s.up.last + s.up.regressed
    && DownSum(s.reports) == s.down.last + s.down.regressed
  }

  lemma SumsAppend(reports: seq<TrafficSnapshot>, r: TrafficSnapshot)
    ensures UpSum(reports + [r]) == UpSum(reports) + r.uploadSpeed
    ensures DownSum(reports + [r]) == DownSum(reports) + r.downloadSpeed
  {
    assert (reports + [r])[..|reports|] == reports;
  }

  lemma NextKeepsBalanced(s: System, a: Action)
    requires Balanced(s)
    ensures Balanced(Next(s, a))
  {
    hide PendingUp, UpSum, DownSum;
    var s' := Next(s, a);
    if !a.AddUp? && !a.AddDown? && s'.threads != s.threads {
      PendingUpdate(s.threads, a.tid, s'.threads[a.tid]);
    }
    if s'.reports != s.reports {
      SumsAppend(s.reports, s'.reports[|s.reports|]);
    }
  }

  lemma {:induction false} RunKeepsBalanced(s: System, actions: seq<Action>)
    requires Balanced(s)
    ensures Balanced(Run(s, actions))
    decreases |actions|
  {
    if actions != [] {
      NextKeepsBalanced(s, actions[0]);
      RunKeepsBalanced(Next(s, actions[0]), actions[1..]);
    }
  }

  /**
    Every interleaving, wrapped totals included: once no snapshot is under way,
    the reported speeds add up to the last value swapped in plus everything swaps
    put back. They never fall short of it, and meet it exactly when no swap went
    backwards.
   */
  lemma ReportsCoverLast(n: nat, actions: seq<Action>)
    ensures var s := Run(Initial(n), actions);
            AllIdle(s.threads) ==>
              && UpSum(s.reports) == s.up.last + s.up.regressed
              && DownSum(s.reports) == s.down.last + s.down.regressed
  {
    var s0 := Initial(n);
    IdlePendsNothing(s0.threads);
    RunKeepsBalanced(s0, actions);
    var s := Run(s0, actions);
    if AllIdle(s.threads) {
      IdlePendsNothing(s.threads);
    }
  }

  /** The bytes a run adds in each direction. */
  function Uploaded(actions: seq<Action>): nat {
    if actions == [] then 0
    else (if actions[0].AddUp? then actions[0].bytes else 0) + Uploaded(actions[1..])
  }

  function Downloaded(actions: seq<Action>): nat {
    if actions == [] then 0
    else (if actions[0].AddDown? then actions[0].bytes else 0) + Downloaded(actions[1..])
  }

  lemma {:induction false} AddedIsSum(s: System, actions: seq<Action>)
    ensures Run(s, actions).up.added == s.up.added + Uploaded(actions)
    ensures Run(s, actions).down.added == s.down.added + Downloaded(actions)
    decreases |actions|
  {
    if actions != [] {
      AddedIsSum(Next(s, actions[0]), actions[1..]);
    }
  }

  /** Each total is the bytes really added, modulo 2^64. */
  ghost predicate CountsModulo(s: System) {
    s.up.total == s.up.added % TWO_64 && s.down.total == s.down.added % TWO_64
  }

  lemma NextKeepsCounts(s: System, a: Action)
    requires CountsModulo(s)
    ensures CountsModulo(Next(s, a))
  {
    hide Add;
    match a
    case AddUp(bytes) => AddKeepsModulo(s.up, bytes);
    case AddDown(bytes) => AddKeepsModulo(s.down, bytes);
    case _ =>
  }

  lemma AddKeepsModulo(c: Counter, bytes: nat)
    requires c.total == c.added % TWO_64
    ensures Add(c, bytes).total == Add(c, bytes).added % TWO_64
  {
  }

  lemma {:induction false} RunKeepsCounts(s: System, actions: seq<Action>)
    requires CountsModulo(s)
    ensures CountsModulo(Run(s, actions))
    decreases |actions|
  {
    if actions != [] {
      NextKeepsCounts(s, actions[0]);
      RunKeepsCounts(Next(s, actions[0]), actions[1..]);
    }
  }

  /**
    Conservation in every interleaving, overlapping snapshots included: once none
    is under way and the totals fit 64 bits, the reported speeds and the bytes
    since the last-seen value add up to the bytes added plus what swaps put back.
    So no byte is ever lost, and every byte is reported once exactly when no swap
    went backwards.
   */
  lemma BytesConservedIff(n: nat, actions: seq<Action>)
    ensures Run(Initial(n), actions).up.added == Uploaded(actions)
    ensures Run(Initial(n), actions).down.added == Downloaded(actions)
    ensures var s := Run(Initial(n), actions);
            AllIdle(s.threads) && s.up.added < 0x1_0000_0000_0000_0000 ==>
              && UpSum(s.reports) + s.up.total - s.up.last == s.up.added + s.up.regressed
              && (UpSum(s.reports) + s.up.total - s.up.last == s.up.added <==> s.up.regressed == 0)
    ensures var s := Run(Initial(n), actions);
            AllIdle(s.threads) && s.down.added < 0x1_0000_0000_0000_0000 ==>
              && DownSum(s.reports) + s.down.total - s.down.last == s.down.added + s.down.regressed
              && (DownSum(s.reports) + s.down.total - s.down.last == s.down.added <==> s.down.regressed == 0)
  {
    ReportsCoverLast(n, actions);
    RunKeepsCounts(Initial(n), actions);
    AddedIsSum(Initial(n), actions);
  }

  // ---- Snapshots that do not overlap ----

  /** A snapshot starts only when no other is under way. */
  ghost predicate NoOverlap(s: System, actions: seq<Action>)
    decreases |actions|
  {
    actions == [] ||
    ((actions[0].LoadUp? ==> AllIdle(s.threads)) && NoOverlap(Next(s, actions[0]), actions[1..]))
  }

  predicate AtMostOne(threads: seq<Pc>) {
    forall t, u :: 0 <= t < u < |threads| ==> threads[t].Idle? || threads[u].Idle?
  }

  /** The one snapshot under way has read values between the last-seen ones and the totals. */
  ghost predicate Ordered(s: System) {
    && s.up.last <= s.up.total && s.down.last <= s.down.total
    && s.up.regressed == s.down.regressed == 0
    && AtMostOne(s.threads)
    && (forall t :: 0 <= t < |s.threads| ==>
          match s.threads[t]
          case Idle => true
          case LoadedUp(up) => s.up.last <= up <= s.up.total
          case LoadedBoth(up, down) => s.up.last <= up <= s.up.total && s.down.last <= down <= s.down.total
          case SwappedUp(up, down, _) => s.up.last == up && s.down.last <= down <= s.down.total)
  }

  /** Totals are what was really added, as long as that fits 64 bits. */
  ghost predicate Exact(s: System) {
    s.up.total == s.up.added && s.down.total == s.down.added
  }

  lemma NextKeepsOrdered(s: System, a: Action)
    requires Ordered(s) && Exact(s) && (a.LoadUp? ==> AllIdle(s.threads))
    requires Next(s, a).up.added < TWO_64 && Next(s, a).down.added < TWO_64
    ensures Ordered(Next(s, a)) && Exact(Next(s, a))
  {
  }

  lemma {:induction false} AddedGrows(s: System, actions: seq<Action>)
    ensures s.up.added <= Run(s, actions).up.added && s.down.added <= Run(s, actions).down.added
    decreases |actions|
  {
    if actions != [] {
      AddedGrows(Next(s, actions[0]), actions[1..]);
    }
  }

  lemma {:induction false} RunKeepsOrdered(s: System, actions: seq<Action>)
    requires Ordered(s) && Exact(s) && NoOverlap(s, actions)
    requires Run(s, actions).up.added < TWO_64 && Run(s, actions).down.added < TWO_64
    ensures Ordered(Run(s, actions)) && Exact(Run(s, actions))
    decreases |actions|
  {
    if actions != [] {
      var s1 := Next(s, actions[0]);
      AddedGrows(s1, actions[1..]);
      NextKeepsOrdered(s, actions[0]);
      RunKeepsOrdered(s1, actions[1..]);
    }
  }

  /**
    Conservation: when snapshots do not overlap and the totals fit 64 bits, the
    reported speeds and the bytes since the last snapshot add up to exactly the
    bytes added, in both directions.
   */
  lemma EveryByteReportedOnce(n: nat, actions: seq<Action>)
    requires NoOverlap(Initial(n), actions)
    requires Run(Initial(n), actions).up.added < TWO_64 && Run(Initial(n), actions).down.added < TWO_64
    ensures var s := Run(Initial(n), actions);
            AllIdle(s.threads) ==>
              && UpSum(s.reports) == s.up.last && UpSum(s.reports) + (s.up.total - s.up.last) == s.up.added
              && DownSum(s.reports) == s.down.last && DownSum(s.reports) + (s.down.total - s.down.last) == s.down.added
  {
    RunKeepsOrdered(Initial(n), actions);
    ReportsCoverLast(n, actions);
  }

  // ---- Runs in pieces ----

  lemma {:induction false} RunConcat(s: System, a: seq<Action>, b: seq<Action>)
    ensures Run(s, a + b) == Run(Run(s, a), b)
    decreases |a|
  {
    if a == [] {
      assert a + b == b;
    } else {
      assert (a + b)[1..] == a[1..] + b;
      RunConcat(Next(s, a[0]), a[1..], b);
    }
  }

  function Loads(t: nat): seq<Action> {
    [LoadUp(t)] + [LoadDown(t)]
  }

  function Swaps(t: nat): seq<Action> {
    [SwapUp(t)] + [SwapDown(t)]
  }

  lemma RunTwo(s: System, a: Action, b: Action)
    ensures Run(s, [a] + [b]) == Next(Next(s, a), b)
  {
    RunConcat(s, [a], [b]);
    assert [a][1..] == [] && [b][1..] == [];
  }

  lemma RunLoads(s: System, t: nat)
    requires t < |s.threads| && s.threads[t].Idle?
    ensures Run(s, Loads(t)) == s.(threads := s.threads[t := LoadedBoth(s.up.total, s.down.total)])
  {
    RunTwo(s, LoadUp(t), LoadDown(t));
  }

  lemma RunSwaps(s: System, t: nat)
    requires t < |s.threads| && s.threads[t].LoadedBoth?
    ensures var pc := s.threads[t];
            Run(s, Swaps(t)) ==
            System(Swap(s.up, pc.up), Swap(s.down, pc.down), s.threads[t := Idle],
                   s.reports + [TrafficSnapshot(SaturatingSub(pc.up, s.up.last), SaturatingSub(pc.down, s.down.last),
                                                pc.up, pc.down)])
  {
    RunTwo(s, SwapUp(t), SwapDown(t));
  }

  /** A snapshot whose four steps run without interruption is the sequential one. */
  lemma UninterruptedSnapshot(s: System, t: nat)
    requires t < |s.threads| && s.threads[t].Idle?
    ensures Run(s, Loads(t) + Swaps(t)) ==
            System(Swap(s.up, s.up.total), Swap(s.down, s.down.total), s.threads,
                   s.reports + [TrafficSnapshot(SaturatingSub(s.up.total, s.up.last),
                                                SaturatingSub(s.down.total, s.down.last),
                                                s.up.total, s.down.total)])
  {
    RunConcat(s, Loads(t), Swaps(t));
    RunLoads(s, t);
    var s1 := Run(s, Loads(t));
    RunSwaps(s1, t);
    assert s1.threads[t := Idle] == s.threads;
  }

  /**
    The states of an overlap: thread 0 loads, bytes arrive, thread 1 reports
    them, thread 0 swaps, thread 1 reports them again.
   */
  lemma OverlapStates(bytes: U64)
    ensures var s1 := Run(Initial(2), Loads(0));
            var s2 := Next(s1, AddUp(bytes));
            var s3 := Run(s2, Loads(1) + Swaps(1));
            var s4 := Run(s3, Swaps(0));
            var s5 := Run(s4, Loads(1) + Swaps(1));
            s5.up.added == bytes && AllIdle(s5.threads) && UpSum(s5.reports) == 2 * bytes
  {
    hide Run, Loads, Swaps, UpSum;
    var s0 := Initial(2);
    RunLoads(s0, 0);
    var s2 := Next(Run(s0, Loads(0)), AddUp(bytes));
    assert s2 == System(Counter(bytes, 0, bytes, 0), s0.down, [LoadedBoth(0, 0), Idle], []);
    UninterruptedSnapshot(s2, 1);
    var report := TrafficSnapshot(bytes, 0, bytes, 0);
    var s3 := Run(s2, Loads(1) + Swaps(1));
    assert s3 == System(Counter(bytes, bytes, bytes, 0), s0.down, s2.threads, [report]);
    RunSwaps(s3, 0);
    var s4 := Run(s3, Swaps(0));
    assert s4 == System(Counter(bytes, 0, bytes, bytes), s0.down, [Idle, Idle],
                        [report] + [TrafficSnapshot(0, 0, 0, 0)]);
    UninterruptedSnapshot(s4, 1);
    SumsAppend(s4.reports, report);
    SumsAppend([report], TrafficSnapshot(0, 0, 0, 0));
    OneReport(report);
  }

  lemma OneReport(r: TrafficSnapshot)
    ensures UpSum([r]) == r.uploadSpeed
  {
    assert [r][..0] == [];
  }

  /**
    Overlapping snapshots can report the same bytes again and again: a snapshot
    that loaded before `bytes` were added and swaps after another one reported
    them puts the last-seen value back, and the next snapshot reports them again.
   */
  lemma OverlapCountsTwice(bytes: U64)
    ensures var snapshot := Loads(1) + Swaps(1);
            var s := Run(Initial(2), Loads(0) + ([AddUp(bytes)] + (snapshot + (Swaps(0) + snapshot))));
            s.up.added == bytes && AllIdle(s.threads) && UpSum(s.reports) == 2 * bytes
  {
    OverlapStates(bytes);
    hide Loads, Swaps, UpSum, Next;
    var snapshot := Loads(1) + Swaps(1);
    var s1 := Run(Initial(2), Loads(0));
    assert Run(s1, [AddUp(bytes)]) == Next(s1, AddUp(bytes)) by {
      assert [AddUp(bytes)][1..] == [];
    }
    hide Run;
    RunConcat(Initial(2), Loads(0), [AddUp(bytes)] + (snapshot + (Swaps(0) + snapshot)));
    RunConcat(s1, [AddUp(bytes)], snapshot + (Swaps(0) + snapshot));
    var s2 := Next(s1, AddUp(bytes));
    RunConcat(s2, snapshot, Swaps(0) + snapshot);
    RunConcat(Run(s2, snapshot), Swaps(0), snapshot);
  }
}
