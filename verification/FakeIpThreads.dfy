/**
  The FakeIP pool under concurrent use. A lookup is four separately locked
  steps: read the forward cache, advance the allocator, write the reverse
  cache, write the forward cache. Any number of threads interleave.
 */
module FakeIpThreads {
  import opened Bits
  import opened Options
  import opened FakeIp
  import opened FakeIpRuns

  /** How far a thread's lookup has come. */
  datatype Pc =
    | Idle
    | Missed(host: Host)
    | Allocated(grant: Grant)
    | Published(grant: Grant)

  /**
    The shared pool, the threads, and records: the grants in allocation order,
    the writes to each cache and the keys touched in it, in order, and the
    answers lookups have returned.
   */
  datatype System = System(
    pool: Pool,
    threads: map<nat, Pc>,
    grants: seq<Grant>,
    published: seq<Grant>,
    touched: seq<U32>,
    forwarded: seq<Grant>,
    asked: seq<Host>,
    answers: set<Grant>)

  datatype Action =
    | ReadForward(tid: nat, host: Host)
    | Allocate(tid: nat)
    | WriteReverse(tid: nat)
    | WriteForward(tid: nat)
    | Reverse(ip: U32)

  function Initial(ip: U32, prefixLen: U32, capacity: nat): System {
    System(NewPool(ip, prefixLen, capacity), map[], [], [], [], [], [], {})
  }

  function At(s: System, tid: nat): Pc {
    if tid in s.threads then s.threads[tid] else Idle
  }

  /** One atomic step; an action the thread is not ready for changes nothing. */
  function Next(s: System, a: Action): System {
    match a
    case ReadForward(tid, host) =>
      if At(s, tid) != Idle then s
      else if host in s.pool.hostToIp.vals then
        s.(pool := s.pool.(hostToIp := Lru.Hit(s.pool.hostToIp, host)),
           asked := s.asked + [host],
           answers := s.answers + {Grant(host, s.pool.hostToIp.vals[host])})
      else s.(threads := s.threads[tid := Missed(host)])
    case Allocate(tid) =>
      if !At(s, tid).Missed? then s
      else
        var g := Grant(At(s, tid).host, Address(s.pool.range, s.pool.offset));
        s.(pool := Advance(s.pool), threads := s.threads[tid := Allocated(g)], grants := s.grants + [g])
    case WriteReverse(tid) =>
      if !At(s, tid).Allocated? then s
      else
        var g := At(s, tid).grant;
        s.(pool := s.pool.(ipToHost := Lru.Inserted(s.pool.ipToHost, s.pool.capacity, g.ip, g.host)),
           threads := s.threads[tid := Published(g)],
           published := s.published + [g], touched := s.touched + [g.ip])
    case WriteForward(tid) =>
      if !At(s, tid).Published? then s
      else
        var g := At(s, tid).grant;
        s.(pool := s.pool.(hostToIp := Lru.Inserted(s.pool.hostToIp, s.pool.capacity, g.host, g.ip)),
           threads := s.threads[tid := Idle],
           forwarded := s.forwarded + [g], asked := s.asked + [g.host],
           answers := s.answers + {g})
    case Reverse(ip) =>
      if ip in s.pool.ipToHost.vals then
        s.(pool := s.pool.(ipToHost := Lru.Hit(s.pool.ipToHost, ip)), touched := s.touched + [ip])
      else s
  }

  function RunAll(s: System, actions: seq<Action>): System
    decreases |actions|
  {
    if actions == [] then s else RunAll(Next(s, actions[0]), actions[1..])
  }

  ghost predicate ReachableSystem(s: System) {
    exists ip: U32, prefixLen: U32, capacity: nat, actions: seq<Action> ::
      s == RunAll(Initial(ip, prefixLen, capacity), actions)
  }

  /** A thread's own address was granted to it, and published once the thread says so. */
  ghost predicate Backed(pc: Pc, grants: seq<Grant>, published: seq<Grant>) {
    match pc
    case Idle => true
    case Missed(_) => true
    case Allocated(g) => g in grants
    case Published(g) => g in grants && g in published
  }

  ghost predicate ThreadsAgree(s: System) {
    forall tid :: tid in s.threads ==> Backed(s.threads[tid], s.grants, s.published)
  }

  /** Nothing is published that was not granted; nothing is visible forward that was not published. */
  ghost predicate PublishedFirst(s: System) {
    && (forall g :: g in s.published ==> g in s.grants)
    && (forall g :: g in s.answers ==> g in s.published)
    && (forall h :: h in s.pool.hostToIp.vals ==> Grant(h, s.pool.hostToIp.vals[h]) in s.published)
  }

  ghost predicate Safe(s: System) {
    && 0 < s.pool.capacity
    && IsBlock(s.pool.range)
    && GrantsInTurn(s.pool, s.grants)
    && HostsAgree(s.pool.hostToIp, s.pool.capacity, s.forwarded, s.asked)
    && AddressesAgree(s.pool.ipToHost, s.pool.capacity, s.published, s.touched)
    && ThreadsAgree(s)
    && PublishedFirst(s)
  }

  lemma ReadForwardKeepsSafe(s: System, tid: nat, host: Host)
    requires Safe(s)
    ensures Safe(Next(s, ReadForward(tid, host)))
  {
    hide HostsAgree, AddressesAgree;
    if At(s, tid) == Idle && host in s.pool.hostToIp.vals {
      TouchKeepsHosts(s.pool.hostToIp, s.pool.capacity, s.forwarded, s.asked, host);
    }
  }

  lemma AllocateKeepsSafe(s: System, tid: nat)
    requires Safe(s)
    ensures Safe(Next(s, Allocate(tid)))
  {
    if At(s, tid).Missed? {
      GrantKeepsTurn(s.pool, s.grants, At(s, tid).host);
    }
  }

  lemma WriteReverseKeepsSafe(s: System, tid: nat)
    requires Safe(s)
    ensures Safe(Next(s, WriteReverse(tid)))
  {
    if At(s, tid).Allocated? {
      WriteKeepsAddresses(s.pool.ipToHost, s.pool.capacity, s.published, s.touched, At(s, tid).grant);
    }
  }

  lemma WriteForwardKeepsSafe(s: System, tid: nat)
    requires Safe(s)
    ensures Safe(Next(s, WriteForward(tid)))
  {
    if At(s, tid).Published? {
      var g := At(s, tid).grant;
      WriteKeepsHosts(s.pool.hostToIp, s.pool.capacity, s.forwarded, s.asked, g);
    }
  }

  lemma ReverseKeepsSafe(s: System, ip: U32)
    requires Safe(s)
    ensures Safe(Next(s, Reverse(ip)))
  {
    if ip in s.pool.ipToHost.vals {
      TouchKeepsAddresses(s.pool.ipToHost, s.pool.capacity, s.published, s.touched, ip);
    }
  }

  lemma NextKeepsSafe(s: System, a: Action)
    requires Safe(s)
    ensures Safe(Next(s, a))
  {
    match a
    case ReadForward(tid, host) => ReadForwardKeepsSafe(s, tid, host);
    case Allocate(tid) => AllocateKeepsSafe(s, tid);
    case WriteReverse(tid) => WriteReverseKeepsSafe(s, tid);
    case WriteForward(tid) => WriteForwardKeepsSafe(s, tid);
    case Reverse(ip) => ReverseKeepsSafe(s, ip);
  }

  lemma {:induction false} RunAllKeepsSafe(s: System, actions: seq<Action>)
    requires Safe(s)
    ensures Safe(RunAll(s, actions))
    decreases |actions|
  {
    if actions != [] {
      NextKeepsSafe(s, actions[0]);
      RunAllKeepsSafe(Next(s, actions[0]), actions[1..]);
    }
  }

  lemma InitialIsSafe(ip: U32, prefixLen: U32, capacity: nat)
    ensures Safe(Initial(ip, prefixLen, capacity))
  {
    assert Initial(ip, prefixLen, capacity).pool.range == RangeOf(ip, prefixLen);
  }

  lemma ReachableIsSafe(s: System)
    requires ReachableSystem(s)
    ensures Safe(s)
  {
    var ip: U32, prefixLen: U32, capacity: nat, actions: seq<Action> :|
      s == RunAll(Initial(ip, prefixLen, capacity), actions);
    hide Safe, Initial, RunAll;
    InitialIsSafe(ip, prefixLen, capacity);
    RunAllKeepsSafe(Initial(ip, prefixLen, capacity), actions);
  }

  /**
    In every interleaving, a forward entry is visible only after its reverse
    entry was written, and so is every answer a lookup returned.
   */
  lemma VisibleOnlyAfterPublished(s: System)
    requires ReachableSystem(s)
    ensures forall h :: h in s.pool.hostToIp.vals ==> Grant(h, s.pool.hostToIp.vals[h]) in s.published
    ensures forall g :: g in s.answers ==> g in s.published
  {
    ReachableIsSafe(s);
  }

  /** In every interleaving, a reverse lookup names the host last written for the address, or nothing. */
  lemma ConcurrentReverseAnswer(s: System, ip: U32)
    requires ReachableSystem(s)
    ensures ReverseLookup(s.pool, ip).1 ==
            if |Lru.Elems(Lru.Since(s.touched, ip))| < s.pool.capacity then OwnerOf(s.published, ip) else None
  {
    ReachableIsSafe(s);
    AddressAnswer(s.pool.ipToHost, s.pool.capacity, s.published, s.touched, ip);
  }

  /**
    In every interleaving, reading the forward cache gives the address last
    written for the host, or a miss when `capacity` or more other hosts were hit
    or written since its own last touch.
   */
  lemma ConcurrentForwardAnswer(s: System, tid: nat, host: Host)
    requires ReachableSystem(s) && At(s, tid) == Idle
    ensures var found := if |Lru.Elems(Lru.Since(s.asked, host))| < s.pool.capacity
                         then AddressOf(s.forwarded, host) else None;
            match found
            case Some(ip) => Next(s, ReadForward(tid, host)).answers == s.answers + {Grant(host, ip)}
            case None => At(Next(s, ReadForward(tid, host)), tid) == Missed(host)
  {
    ReachableIsSafe(s);
    HostAnswer(s.pool.hostToIp, s.pool.capacity, s.forwarded, s.asked, host);
  }

  lemma GrantAddressesDiffer(s: System, g: Grant, g': Grant)
    requires Safe(s) && |s.grants| <= Usable(s.pool.range)
    requires g in s.grants && g' in s.grants && g.ip == g'.ip
    ensures g == g'
  {
    var m :| 0 <= m < |s.grants| && s.grants[m] == g;
    var n :| 0 <= n < |s.grants| && s.grants[n] == g';
    if m < n {
      OffsetsRepeatByTurns(s.pool.range, m + 1, n + 1);
    } else if n < m {
      OffsetsRepeatByTurns(s.pool.range, n + 1, m + 1);
    }
  }

  function AddressesIn(grants: seq<Grant>): seq<U32> {
    seq(|grants|, i requires 0 <= i < |grants| => grants[i].ip)
  }

  /** At most as many distinct addresses are touched as were granted. */
  lemma FewAddresses(s: System, ip: U32)
    requires Safe(s) && OwnerOf(s.published, ip).Some?
    ensures |Lru.Elems(Lru.Since(s.touched, ip))| < |s.grants|
  {
    var all := AddressesIn(s.grants);
    forall a | a in s.touched
      ensures a in all
    {
      assert OwnerOf(s.published, a).Some?;
      var g := s.published[LatestOf(s.published, a).value];
      assert g in s.published;
      var n :| 0 <= n < |s.grants| && s.grants[n] == g;
      assert all[n] == a;
    }
    SinceOthers(s.touched, ip);
    SubsetCount(Lru.Elems(Lru.Since(s.touched, ip)) + {ip}, Lru.Elems(all));
    ElemsCount(all);
  }

  lemma {:induction false} SinceOthers<K>(touches: seq<K>, k: K)
    ensures k !in Lru.Since(touches, k)
    ensures Lru.Elems(Lru.Since(touches, k)) <= Lru.Elems(touches)
  {
    if touches != [] {
      var init, last := touches[..|touches| - 1], touches[|touches| - 1];
      SinceOthers(init, k);
      assert touches == init + [last];
      Lru.ElemsConcat(init, [last]);
      Lru.ElemsConcat(Lru.Since(init, k), [last]);
    }
  }

  lemma {:induction false} ElemsCount<K>(s: seq<K>)
    ensures |Lru.Elems(s)| <= |s|
  {
    if s != [] {
      ElemsCount(s[1..]);
      assert s == [s[0]] + s[1..];
      Lru.ElemsConcat([s[0]], s[1..]);
      assert Lru.Elems([s[0]]) == {s[0]};
    }
  }

  /**
    While no more addresses were granted than one turn and the caches hold, every
    answer ever returned resolves back to its host, whatever the interleaving and
    even when racing lookups of one host returned different addresses.
   */
  lemma AnswersResolve(s: System, g: Grant)
    requires ReachableSystem(s) && g in s.answers
    requires |s.grants| <= Usable(s.pool.range) && |s.grants| <= s.pool.capacity
    ensures ReverseLookup(s.pool, g.ip).1 == Some(g.host)
  {
    ReachableIsSafe(s);
    ConcurrentReverseAnswer(s, g.ip);
    var n :| 0 <= n < |s.published| && s.published[n] == g;
    FewAddresses(s, g.ip);
    var latest := s.published[LatestOf(s.published, g.ip).value];
    GrantAddressesDiffer(s, latest, g);
  }

  /** A lookup whose four steps run without interruption is the sequential lookup. */
  lemma UninterruptedIsLookup(s: System, tid: nat, host: Host)
    requires At(s, tid) == Idle
    ensures var s1 := Next(Next(s, ReadForward(tid, host)), Allocate(tid));
            var s' := Next(Next(s1, WriteReverse(tid)), WriteForward(tid));
            && s'.pool == Lookup(s.pool, host).0
            && At(s', tid) == Idle
            && s'.answers == s.answers + {Grant(host, Lookup(s.pool, host).1)}
  {
  }

  /** A reverse lookup is one step, the sequential one. */
  lemma ReverseIsReverseLookup(s: System, ip: U32)
    ensures Next(s, Reverse(ip)).pool == ReverseLookup(s.pool, ip).0
    ensures Next(s, Reverse(ip)) == s.(pool := ReverseLookup(s.pool, ip).0, touched := Next(s, Reverse(ip)).touched)
  {
  }

  /**
    Two racing lookups of one uncached host both allocate. When a turn has more
    than one address they return different ones.
   */
  lemma RaceAllocatesTwice(s: System, t0: nat, t1: nat, host: Host)
    requires ReachableSystem(s) && t0 != t1 && At(s, t0) == At(s, t1) == Idle
    requires host !in s.pool.hostToIp.vals && 1 < Usable(s.pool.range)
    ensures var s1 := Next(Next(s, ReadForward(t0, host)), ReadForward(t1, host));
            var s2 := Next(Next(s1, Allocate(t0)), Allocate(t1));
            && At(s2, t0).Allocated? && At(s2, t1).Allocated?
            && At(s2, t0).grant.host == At(s2, t1).grant.host == host
            && At(s2, t0).grant.ip != At(s2, t1).grant.ip
  {
    ReachableIsSafe(s);
    GrantKeepsTurn(s.pool, s.grants, host);
    var g := Grant(host, Address(s.pool.range, s.pool.offset));
    GrantKeepsTurn(Advance(s.pool), s.grants + [g], host);
    OffsetsRepeatByTurns(s.pool.range, |s.grants| + 1, |s.grants| + 2);
  }
}
