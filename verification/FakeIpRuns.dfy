/**
  Whole sequential runs of the FakeIP pool. A trace carries, next to the pool,
  the grants made so far and the keys each cache was touched with; the theorems
  give the result of every lookup and reverse lookup in every reachable state.
 */
module FakeIpRuns {
  import opened Bits
  import opened Options
  import opened FakeIp

  datatype Op = LookupOp(host: Host) | ReverseOp(ip: U32)

  /** One allocation: `ip` was handed out for `host`. */
  datatype Grant = Grant(host: Host, ip: U32)

  datatype Trace = Trace(pool: Pool, grants: seq<Grant>, asked: seq<Host>, touched: seq<U32>)

  function Start(ip: U32, prefixLen: U32, capacity: nat): Trace {
    Trace(NewPool(ip, prefixLen, capacity), [], [], [])
  }

  function Step(t: Trace, op: Op): Trace {
    match op
    case LookupOp(host) =>
      var (pool, ip) := Lookup(t.pool, host);
      if host in t.pool.hostToIp.vals then
        Trace(pool, t.grants, t.asked + [host], t.touched)
      else
        Trace(pool, t.grants + [Grant(host, ip)], t.asked + [host], t.touched + [ip])
    case ReverseOp(ip) =>
      var (pool, host) := ReverseLookup(t.pool, ip);
      t.(pool := pool, touched := if host.Some? then t.touched + [ip] else t.touched)
  }

  function Run(t: Trace, ops: seq<Op>): Trace
    decreases |ops|
  {
    if ops == [] then t else Run(Step(t, ops[0]), ops[1..])
  }

  ghost predicate Reachable(t: Trace) {
    exists ip: U32, prefixLen: U32, capacity: nat, ops: seq<Op> ::
      t == Run(Start(ip, prefixLen, capacity), ops)
  }

  /** The index of the latest grant that is wanted. */
  function Latest(grants: seq<Grant>, wanted: Grant -> bool): (n: Option<nat>)
    ensures n.Some? ==> n.value < |grants| && wanted(grants[n.value])
    ensures n.Some? ==> forall i :: n.value < i < |grants| ==> !wanted(grants[i])
    ensures n.None? ==> forall i :: 0 <= i < |grants| ==> !wanted(grants[i])
  {
    if grants == [] then None
    else if wanted(grants[|grants| - 1]) then Some(|grants| - 1)
    else Latest(grants[..|grants| - 1], wanted)
  }

  /** The index of the latest grant of `ip`. */
  function LatestOf(grants: seq<Grant>, ip: U32): Option<nat> {
    Latest(grants, (g: Grant) => g.ip == ip)
  }

  /** The index of the latest grant to `host`. */
  function LatestTo(grants: seq<Grant>, host: Host): Option<nat> {
    Latest(grants, (g: Grant) => g.host == host)
  }

  /** The host of the latest grant of `ip`, and the address of the latest grant to `host`. */
  function OwnerOf(grants: seq<Grant>, ip: U32): Option<Host> {
    var n := LatestOf(grants, ip);
    if n.Some? then Some(grants[n.value].host) else None
  }

  function AddressOf(grants: seq<Grant>, host: Host): Option<U32> {
    var n := LatestTo(grants, host);
    if n.Some? then Some(grants[n.value].ip) else None
  }

  /** Every grant so far was the address at its turn, and so will the next one be. */
  ghost predicate GrantsInTurn(pool: Pool, grants: seq<Grant>) {
    && (forall n :: 0 <= n < |grants| ==> grants[n].ip == Address(pool.range, n + 1))
    && Mod(pool.offset, Usable(pool.range)) == Mod(|grants| + 1, Usable(pool.range))
  }

  /** The forward cache holds the newest hosts asked for, each with the latest address written for it. */
  ghost predicate HostsAgree(cache: Lru.CacheState<Host, U32>, capacity: nat,
                             written: seq<Grant>, asked: seq<Host>) {
    && Lru.WellFormed(cache, capacity)
    && Lru.Tracks(cache.order, capacity, asked)
    && (forall h :: h in asked <==> AddressOf(written, h).Some?)
    && (forall h :: h in cache.vals ==> AddressOf(written, h) == Some(cache.vals[h]))
  }

  /** The reverse cache holds the newest touched addresses, each with the latest host written for it. */
  ghost predicate AddressesAgree(cache: Lru.CacheState<U32, Host>, capacity: nat,
                                 written: seq<Grant>, touched: seq<U32>) {
    && Lru.WellFormed(cache, capacity)
    && Lru.Tracks(cache.order, capacity, touched)
    && (forall a :: a in touched <==> OwnerOf(written, a).Some?)
    && (forall a :: a in cache.vals ==> OwnerOf(written, a) == Some(cache.vals[a]))
  }

  /** What holds between steps, whatever was evicted and however often the allocator wrapped. */
  ghost predicate Consistent(t: Trace) {
    && IsBlock(t.pool.range)
    && 0 < t.pool.capacity
    && GrantsInTurn(t.pool, t.grants)
    && HostsAgree(t.pool.hostToIp, t.pool.capacity, t.grants, t.asked)
    && AddressesAgree(t.pool.ipToHost, t.pool.capacity, t.grants, t.touched)
  }

  // ---- The invariant over runs ----

  lemma GrantKeepsTurn(pool: Pool, grants: seq<Grant>, host: Host)
    requires GrantsInTurn(pool, grants)
    ensures Address(pool.range, pool.offset) == Address(pool.range, |grants| + 1)
    ensures GrantsInTurn(Advance(pool), grants + [Grant(host, Address(pool.range, pool.offset))])
  {
    SuccessorsCongruent(pool.offset, |grants| + 1, Usable(pool.range));
  }

  lemma WriteKeepsHosts(cache: Lru.CacheState<Host, U32>, capacity: nat,
                        written: seq<Grant>, asked: seq<Host>, g: Grant)
    requires 0 < capacity && HostsAgree(cache, capacity, written, asked)
    ensures HostsAgree(Lru.Inserted(cache, capacity, g.host, g.ip), capacity, written + [g], asked + [g.host])
  {
    Lru.PutTracks(cache.order, capacity, asked, g.host);
    Lru.InsertedKeepsWellFormed(cache, capacity, g.host, g.ip);
    assert (written + [g])[..|written|] == written;
  }

  lemma TouchKeepsHosts(cache: Lru.CacheState<Host, U32>, capacity: nat,
                        written: seq<Grant>, asked: seq<Host>, host: Host)
    requires 0 < capacity && HostsAgree(cache, capacity, written, asked) && host in cache.vals
    ensures HostsAgree(Lru.Hit(cache, host), capacity, written, asked + [host])
  {
    assert host in Lru.Elems(cache.order);
    Lru.HitTracks(cache.order, capacity, asked, host);
    Lru.TouchKeepsElems(cache.order, host);
  }

  /** What the forward cache answers for a host, from its records alone. */
  lemma HostAnswer(cache: Lru.CacheState<Host, U32>, capacity: nat,
                   written: seq<Grant>, asked: seq<Host>, host: Host)
    requires HostsAgree(cache, capacity, written, asked)
    ensures (if host in cache.vals then Some(cache.vals[host]) else None) ==
            if |Lru.Elems(Lru.Since(asked, host))| < capacity then AddressOf(written, host) else None
  {
    Lru.Residency(cache.order, capacity, asked, host);
    assert host in cache.vals <==> host in Lru.Elems(cache.order);
  }

  lemma WriteKeepsAddresses(cache: Lru.CacheState<U32, Host>, capacity: nat,
                            written: seq<Grant>, touched: seq<U32>, g: Grant)
    requires 0 < capacity && AddressesAgree(cache, capacity, written, touched)
    ensures AddressesAgree(Lru.Inserted(cache, capacity, g.ip, g.host), capacity, written + [g], touched + [g.ip])
  {
    Lru.PutTracks(cache.order, capacity, touched, g.ip);
    Lru.InsertedKeepsWellFormed(cache, capacity, g.ip, g.host);
    assert (written + [g])[..|written|] == written;
  }

  lemma TouchKeepsAddresses(cache: Lru.CacheState<U32, Host>, capacity: nat,
                            written: seq<Grant>, touched: seq<U32>, ip: U32)
    requires 0 < capacity && AddressesAgree(cache, capacity, written, touched) && ip in cache.vals
    ensures AddressesAgree(Lru.Hit(cache, ip), capacity, written, touched + [ip])
  {
    assert ip in Lru.Elems(cache.order);
    Lru.HitTracks(cache.order, capacity, touched, ip);
    Lru.TouchKeepsElems(cache.order, ip);
  }

  /** What the reverse cache answers for an address, from its records alone. */
  lemma AddressAnswer(cache: Lru.CacheState<U32, Host>, capacity: nat,
                      written: seq<Grant>, touched: seq<U32>, ip: U32)
    requires AddressesAgree(cache, capacity, written, touched)
    ensures (if ip in cache.vals then Some(cache.vals[ip]) else None) ==
            if |Lru.Elems(Lru.Since(touched, ip))| < capacity then OwnerOf(written, ip) else None
  {
    Lru.Residency(cache.order, capacity, touched, ip);
    assert ip in cache.vals <==> ip in Lru.Elems(cache.order);
  }

  lemma LookupKeepsConsistent(t: Trace, host: Host)
    requires Consistent(t)
    ensures Consistent(Step(t, LookupOp(host)))
  {
    var p := t.pool;
    hide HostsAgree, AddressesAgree, GrantsInTurn, Address;
    if host in p.hostToIp.vals {
      TouchKeepsHosts(p.hostToIp, p.capacity, t.grants, t.asked, host);
      TurnIgnoresCaches(p, Step(t, LookupOp(host)));
    } else {
      var g := Grant(host, Address(p.range, p.offset));
      GrantKeepsTurn(p, t.grants, host);
      WriteKeepsAddresses(p.ipToHost, p.capacity, t.grants, t.touched, g);
      WriteKeepsHosts(p.hostToIp, p.capacity, t.grants, t.asked, g);
      TurnIgnoresCaches(Advance(p), Step(t, LookupOp(host)));
    }
  }

  lemma TurnIgnoresCaches(p: Pool, t: Trace)
    requires p.range == t.pool.range && p.offset == t.pool.offset
    ensures GrantsInTurn(p, t.grants) <==> GrantsInTurn(t.pool, t.grants)
  {
  }

  lemma ReverseKeepsConsistent(t: Trace, ip: U32)
    requires Consistent(t)
    ensures Consistent(Step(t, ReverseOp(ip)))
  {
    var p := t.pool;
    hide AddressesAgree, HostsAgree;
    if ip in p.ipToHost.vals {
      TouchKeepsAddresses(p.ipToHost, p.capacity, t.grants, t.touched, ip);
    }
  }

  lemma StepKeepsConsistent(t: Trace, op: Op)
    requires Consistent(t)
    ensures Consistent(Step(t, op))
  {
    hide Consistent, Step;
    match op
    case LookupOp(host) => LookupKeepsConsistent(t, host);
    case ReverseOp(ip) => ReverseKeepsConsistent(t, ip);
  }

  lemma {:induction false} RunKeepsConsistent(t: Trace, ops: seq<Op>)
    requires Consistent(t)
    ensures Consistent(Run(t, ops))
    decreases |ops|
  {
    if ops != [] {
      StepKeepsConsistent(t, ops[0]);
      RunKeepsConsistent(Step(t, ops[0]), ops[1..]);
    }
  }

  lemma StartIsConsistent(ip: U32, prefixLen: U32, capacity: nat)
    ensures Consistent(Start(ip, prefixLen, capacity))
  {
    var t := Start(ip, prefixLen, capacity);
    assert t.pool.range == RangeOf(ip, prefixLen);
    assert Mod(1, Usable(t.pool.range)) == Mod(|t.grants| + 1, Usable(t.pool.range));
  }

  lemma ReachableIsConsistent(t: Trace)
    requires Reachable(t)
    ensures Consistent(t)
  {
    var ip: U32, prefixLen: U32, capacity: nat, ops: seq<Op> :|
      t == Run(Start(ip, prefixLen, capacity), ops);
    hide Consistent, Start, Run;
    StartIsConsistent(ip, prefixLen, capacity);
    RunKeepsConsistent(Start(ip, prefixLen, capacity), ops);
  }

  // ---- What every call returns ----

  /**
    Every lookup in every reachable state: the address of the host's latest
    grant when fewer than `capacity` other hosts were asked for since, and
    otherwise the address the allocator's turn has reached.
   */
  lemma LookupAnswer(t: Trace, host: Host)
    requires Reachable(t)
    ensures Lookup(t.pool, host).1 ==
            if AddressOf(t.grants, host).Some? && |Lru.Elems(Lru.Since(t.asked, host))| < t.pool.capacity
            then AddressOf(t.grants, host).value
            else Address(t.pool.range, |t.grants| + 1)
  {
    ReachableIsConsistent(t);
    HostAnswer(t.pool.hostToIp, t.pool.capacity, t.grants, t.asked, host);
    GrantKeepsTurn(t.pool, t.grants, host);
  }

  /**
    Every reverse lookup in every reachable state: the host of the latest grant
    of the address when fewer than `capacity` other addresses were touched since
    its own last touch, and otherwise nothing.
   */
  lemma ReverseAnswer(t: Trace, ip: U32)
    requires Reachable(t)
    ensures ReverseLookup(t.pool, ip).1 ==
            if |Lru.Elems(Lru.Since(t.touched, ip))| < t.pool.capacity then OwnerOf(t.grants, ip) else None
  {
    ReachableIsConsistent(t);
    AddressAnswer(t.pool.ipToHost, t.pool.capacity, t.grants, t.touched, ip);
  }

  lemma ReachableTurns(t: Trace)
    requires Reachable(t)
    ensures IsBlock(t.pool.range) && GrantsInTurn(t.pool, t.grants)
  {
    ReachableIsConsistent(t);
  }

  /** The n-th grant, counted from 0, in every run of a pool: the address of offset n + 1, in numbers. */
  lemma NthGrant(t: Trace, ip: U32, prefixLen: U32, n: nat)
    requires Reachable(t) && t.pool.range == RangeOf(ip, prefixLen) && n < |t.grants|
    ensures t.grants[n].ip == Address(t.pool.range, n + 1)
    ensures var network := t.pool.range.network;
            && (prefixLen % 32 != 0 && prefixLen % 32 != 31 ==>
                  && Pow2(32 - prefixLen % 32) >= 4
                  && t.grants[n].ip == network + (n + 1) % (Pow2(32 - prefixLen % 32) - 2) + 1)
            && (prefixLen % 32 == 31 ==> t.grants[n].ip == network + 1)
            && (prefixLen % 32 == 0 ==> t.grants[n].ip == (network + 1) % TWO_32)
  {
    ReachableIsConsistent(t);
    hide RangeOf, Pow2, Address, Reachable;
    AddressInNumbers(ip, prefixLen, n + 1);
  }

  lemma OffsetsRepeatByTurns(range: Range, m: nat, n: nat)
    requires IsBlock(range) && m < n
    ensures n - m < Usable(range) ==> Address(range, m) != Address(range, n)
    ensures n - m == Usable(range) ==> Address(range, m) == Address(range, n)
  {
    hide RangeOf, Address, Usable;
    var ip: U32, prefixLen: U32 :| range == RangeOf(ip, prefixLen);
    AddressesDistinct(ip, prefixLen, m, n);
    if Address(range, m) == Address(range, n) {
      CongruentSteps(m, n, Usable(range));
    }
  }

  /**
    Grants repeat an address only after a whole turn, and always after one. A
    turn is every address but the network and broadcast addresses, or one.
   */
  lemma GrantsRepeatByTurns(t: Trace, m: nat, n: nat)
    requires Reachable(t) && m < n < |t.grants|
    ensures n - m < Usable(t.pool.range) ==> t.grants[m].ip != t.grants[n].ip
    ensures n - m == Usable(t.pool.range) ==> t.grants[m].ip == t.grants[n].ip
    ensures forall ip: U32, prefixLen: U32 :: t.pool.range == RangeOf(ip, prefixLen) ==>
              Usable(t.pool.range) ==
              if prefixLen % 32 == 0 || prefixLen % 32 == 31 then 1 else Pow2(32 - prefixLen % 32) - 2
  {
    ReachableTurns(t);
    OffsetsRepeatByTurns(t.pool.range, m + 1, n + 1);
    hide RangeOf, Pow2;
    forall ip: U32, prefixLen: U32 | t.pool.range == RangeOf(ip, prefixLen)
      ensures Usable(t.pool.range) ==
              if prefixLen % 32 == 0 || prefixLen % 32 == 31 then 1 else Pow2(32 - prefixLen % 32) - 2
    {
      TurnLength(ip, prefixLen);
    }
  }

  lemma ResidentHost(t: Trace, host: Host)
    requires Reachable(t)
    ensures 0 < t.pool.capacity
    ensures host in t.pool.hostToIp.vals ==> AddressOf(t.grants, host) == Some(t.pool.hostToIp.vals[host])
    ensures var t' := Step(t, LookupOp(host));
            && t'.pool.range == t.pool.range && t'.pool.capacity == t.pool.capacity
            && host in t'.pool.hostToIp.vals
            && t'.pool.hostToIp.vals[host] == Lookup(t.pool, host).1
            && AddressOf(t'.grants, host) == Some(Lookup(t.pool, host).1)
  {
    hide Reachable, Consistent, Step, Lookup;
    ReachableIsConsistent(t);
    StepKeepsConsistent(t, LookupOp(host));
    var t' := Step(t, LookupOp(host));
    HostsKnown(t);
    HostsKnown(t');
    HitOrNew(t, host);
    LookedUpIsResident(t, host);
  }

  lemma HostsKnown(t: Trace)
    requires Consistent(t)
    ensures 0 < t.pool.capacity
    ensures forall h :: h in t.pool.hostToIp.vals ==> AddressOf(t.grants, h) == Some(t.pool.hostToIp.vals[h])
  {
  }

  lemma LookedUpIsResident(t: Trace, host: Host)
    requires 0 < t.pool.capacity
    ensures host in Step(t, LookupOp(host)).pool.hostToIp.vals
  {
    if host !in t.pool.hostToIp.vals {
      assert Step(t, LookupOp(host)).pool.hostToIp.order[0] == host;
    }
  }

  lemma HitOrNew(t: Trace, host: Host)
    ensures var t' := Step(t, LookupOp(host));
            && t'.pool.range == t.pool.range && t'.pool.capacity == t.pool.capacity
            && (host in t'.pool.hostToIp.vals ==> t'.pool.hostToIp.vals[host] == Lookup(t.pool, host).1)
  {
  }

  /** A host still owns the address of its latest grant for one turn of the allocator, and no longer. */
  lemma OwnerForOneTurn(t: Trace, host: Host)
    requires Reachable(t) && AddressOf(t.grants, host).Some?
    ensures OwnerOf(t.grants, AddressOf(t.grants, host).value) == Some(host) <==>
              |t.grants| - LatestTo(t.grants, host).value <= Usable(t.pool.range)
  {
    var u := Usable(t.pool.range);
    var ip := AddressOf(t.grants, host).value;
    var mine := LatestTo(t.grants, host).value;
    var latest := LatestOf(t.grants, ip).value;
    assert t.grants[mine].ip == ip;
    if mine < latest {
      GrantsRepeatByTurns(t, mine, latest);
    } else if |t.grants| - mine > u {
      GrantsRepeatByTurns(t, mine, mine + u);
    }
  }

  /**
    The round trip, exactly. After `lookup(host)` returned `ip`, a reverse lookup
    of `ip` gives `host` back if and only if at most one turn of the allocator
    has passed since the host's latest grant and `ip` has not been pushed out of
    the reverse cache.
   */
  lemma RoundTripExactly(t: Trace, host: Host)
    requires Reachable(t)
    ensures var ip := Lookup(t.pool, host).1;
            var t' := Step(t, LookupOp(host));
            && LatestTo(t'.grants, host).Some?
            && (ReverseLookup(t'.pool, ip).1 == Some(host) <==>
                  && |t'.grants| - LatestTo(t'.grants, host).value <= Usable(t.pool.range)
                  && |Lru.Elems(Lru.Since(t'.touched, ip))| < t.pool.capacity)
  {
    var t' := Step(t, LookupOp(host));
    ReachableStep(t, LookupOp(host));
    ResidentHost(t, host);
    OwnerForOneTurn(t', host);
    ReverseAnswer(t', Lookup(t.pool, host).1);
  }

  /** Both conditions hold right after a miss: the address just granted resolves to its host. */
  lemma FreshGrantRoundTrips(t: Trace, host: Host)
    requires Reachable(t) && host !in t.pool.hostToIp.vals
    ensures ReverseLookup(Step(t, LookupOp(host)).pool, Lookup(t.pool, host).1).1 == Some(host)
  {
    var t' := Step(t, LookupOp(host));
    assert t'.touched[|t'.touched|..] == [];
    ResidentHost(t, host);
    GrantStaysReversible(t, host, []);
  }

  lemma {:induction false} RunAppends(t: Trace, ops: seq<Op>, op: Op)
    ensures Run(t, ops + [op]) == Step(Run(t, ops), op)
    decreases |ops|
  {
    if ops == [] {
      assert ops + [op] == [op];
      assert Run(Step(t, op), []) == Step(t, op);
    } else {
      assert (ops + [op])[1..] == ops[1..] + [op];
      RunAppends(Step(t, ops[0]), ops[1..], op);
    }
  }

  lemma ReachableStep(t: Trace, op: Op)
    requires Reachable(t)
    ensures Reachable(Step(t, op))
  {
    var ip: U32, prefixLen: U32, capacity: nat, ops: seq<Op> :|
      t == Run(Start(ip, prefixLen, capacity), ops);
    RunAppends(Start(ip, prefixLen, capacity), ops, op);
  }

  lemma {:induction false} ReachableRun(t: Trace, ops: seq<Op>)
    requires Reachable(t)
    ensures Reachable(Run(t, ops))
    decreases |ops|
  {
    if ops != [] {
      ReachableStep(t, ops[0]);
      ReachableRun(Step(t, ops[0]), ops[1..]);
    }
  }

  /** The hosts looked up by a run. */
  function HostsOf(ops: seq<Op>): seq<Host> {
    if ops == [] then []
    else (if ops[0].LookupOp? then [ops[0].host] else []) + HostsOf(ops[1..])
  }

  lemma StepExtends(t: Trace, op: Op)
    ensures Step(t, op).pool.range == t.pool.range && Step(t, op).pool.capacity == t.pool.capacity
    ensures t.grants <= Step(t, op).grants && t.touched <= Step(t, op).touched
  {
  }

  /** A run only appends to its records. */
  lemma {:induction false} RunExtends(t: Trace, ops: seq<Op>)
    ensures Run(t, ops).pool.range == t.pool.range && Run(t, ops).pool.capacity == t.pool.capacity
    ensures t.grants <= Run(t, ops).grants && t.touched <= Run(t, ops).touched
    decreases |ops|
  {
    if ops != [] {
      var t1 := Step(t, ops[0]);
      StepExtends(t, ops[0]);
      RunExtends(t1, ops[1..]);
      assert t1.grants <= Run(t, ops).grants && t1.touched <= Run(t, ops).touched;
    }
  }

  /**
    A cached host keeps its address: after `lookup(host)` returned `ip`, any run
    that looks up fewer than `capacity` distinct other hosts still ends with
    `lookup(host)` returning `ip`, however many reverse lookups it makes.
   */
  lemma LookupIsSticky(t: Trace, host: Host, ops: seq<Op>)
    requires Reachable(t)
    requires |Lru.Elems(HostsOf(ops)) - {host}| < t.pool.capacity
    ensures Lookup(Run(Step(t, LookupOp(host)), ops).pool, host).1 == Lookup(t.pool, host).1
  {
    var t' := Step(t, LookupOp(host));
    ReachableStep(t, LookupOp(host));
    ResidentHost(t, host);
    assert t'.asked == t.asked + [host] + [];
    HostStays(t', host, t.asked, [], ops, Lru.Elems(HostsOf(ops)) - {host});
  }

  /** `recent` are the hosts asked for since a lookup of `host`. */
  lemma {:induction false} HostStays(t: Trace, host: Host, before: seq<Host>, recent: seq<Host>,
                                     ops: seq<Op>, others: set<Host>)
    requires Reachable(t)
    requires t.asked == before + [host] + recent
    requires host in t.pool.hostToIp.vals
    requires |others| < t.pool.capacity
    requires Lru.Elems(recent) - {host} <= others && Lru.Elems(HostsOf(ops)) - {host} <= others
    ensures host in Run(t, ops).pool.hostToIp.vals
    ensures Run(t, ops).pool.hostToIp.vals[host] == t.pool.hostToIp.vals[host]
    decreases |ops|
  {
    if ops != [] {
      var t' := Step(t, ops[0]);
      ReachableStep(t, ops[0]);
      var asked := if ops[0].LookupOp? then [ops[0].host] else [];
      var recent' := recent + asked;
      assert t'.asked == before + [host] + recent';
      Lru.ElemsConcat(recent, asked);
      Lru.ElemsConcat(asked, HostsOf(ops[1..]));
      SubsetCount(Lru.Elems(recent') - {host}, others);
      HitOrNew(t, host);
      StillResident(t', host, before, recent');
      ValueStays(t, ops[0], host);
      HostStays(t', host, before, recent', ops[1..], others);
    }
  }

  lemma ValueStays(t: Trace, op: Op, host: Host)
    requires host in t.pool.hostToIp.vals && host in Step(t, op).pool.hostToIp.vals
    ensures Step(t, op).pool.hostToIp.vals[host] == t.pool.hostToIp.vals[host]
  {
  }

  lemma StillResident(t: Trace, host: Host, before: seq<Host>, recent: seq<Host>)
    requires Reachable(t)
    requires t.asked == before + [host] + recent
    requires |Lru.Elems(recent) - {host}| < t.pool.capacity
    ensures host in t.pool.hostToIp.vals
  {
    ReachableIsConsistent(t);
    Lru.SinceExtends(before + [host], recent, host);
    assert Lru.Since(before + [host], host) == [];
    Lru.Residency(t.pool.hostToIp.order, t.pool.capacity, t.asked, host);
    SubsetCount(Lru.Elems(Lru.Since(t.asked, host)), Lru.Elems(recent) - {host});
    assert host in Lru.Elems(t.pool.hostToIp.order);
  }

  lemma SubsetCount<T>(a: set<T>, b: set<T>)
    requires a <= b
    ensures |a| <= |b|
  {
    assert b == a + (b - a);
  }

  /**
    A fresh grant stays reversible: once a miss allocated `ip` to `host`, a
    reverse lookup of `ip` gives `host` through any run with fewer than `usable`
    further grants that touches fewer than `capacity` distinct other addresses.
   */
  lemma GrantStaysReversible(t: Trace, host: Host, ops: seq<Op>)
    requires Reachable(t) && host !in t.pool.hostToIp.vals
    requires var t1 := Step(t, LookupOp(host));
             var t2 := Run(t1, ops);
             && |t2.grants| - |t1.grants| < Usable(t.pool.range)
             && t1.touched <= t2.touched
             && |Lru.Elems(t2.touched[|t1.touched|..]) - {Lookup(t.pool, host).1}| < t.pool.capacity
    ensures ReverseLookup(Run(Step(t, LookupOp(host)), ops).pool, Lookup(t.pool, host).1).1 == Some(host)
  {
    hide Step, Run, Lookup, ReverseLookup;
    var ip := Lookup(t.pool, host).1;
    var t1 := Step(t, LookupOp(host));
    var t2 := Run(t1, ops);
    MissRecords(t, host);
    ReachableStep(t, LookupOp(host));
    ReachableRun(t1, ops);
    RunExtends(t1, ops);
    ReverseAnswer(t2, ip);
    var more := t2.touched[|t1.touched|..];
    assert t2.touched == t1.touched + more;
    Lru.SinceExtends(t1.touched, more, ip);
    SubsetCount(Lru.Elems(Lru.Since(t2.touched, ip)), Lru.Elems(more) - {ip});
    OwnerKept(t2, |t1.grants| - 1);
  }

  lemma MissRecords(t: Trace, host: Host)
    requires host !in t.pool.hostToIp.vals
    ensures var t1 := Step(t, LookupOp(host));
            var ip := Lookup(t.pool, host).1;
            && t1.grants == t.grants + [Grant(host, ip)]
            && Lru.Since(t1.touched, ip) == []
            && t1.pool.range == t.pool.range && t1.pool.capacity == t.pool.capacity
  {
  }

  /** The grant of the last turn still owns its address. */
  lemma OwnerKept(t: Trace, n: nat)
    requires Reachable(t) && n < |t.grants| && |t.grants| - n <= Usable(t.pool.range)
    ensures OwnerOf(t.grants, t.grants[n].ip) == Some(t.grants[n].host)
  {
    hide Reachable;
    var latest := LatestOf(t.grants, t.grants[n].ip).value;
    if n < latest {
      GrantsRepeatByTurns(t, n, latest);
    }
  }

  /**
    The two caches are not inverse in general: in a one-address block the second
    host receives the first one's address while the first is still cached.
   */
  lemma TwoHostsShareAnAddress()
    ensures var t := Run(Start(0xC000_0200, 31, 64), [LookupOp("a"), LookupOp("b")]);
            && Lookup(t.pool, "a").1 == Lookup(t.pool, "b").1 == 0xC000_0201
            && ReverseLookup(t.pool, 0xC000_0201).1 == Some("b")
  {
    var t0 := Start(0xC000_0200, 31, 64);
    var range := t0.pool.range;
    OneAddressBlock();
    var t1 := Step(t0, LookupOp("a"));
    FirstOfOne(t0);
    SecondOfOne(t1);
    assert [LookupOp("a"), LookupOp("b")][1..] == [LookupOp("b")];
    assert Run(t0, [LookupOp("a"), LookupOp("b")]) == Run(t1, [LookupOp("b")]);
    assert Run(t1, [LookupOp("b")]) == Step(t1, LookupOp("b"));
  }

  lemma OneAddressBlock()
    ensures RangeOf(0xC000_0200, 31) == Range(0xC000_0200, 0xFFFF_FFFE, 2)
  {
    hide RangeOf;
    RangeShape(0xC000_0200, 31);
    assert Pow2(1) == 2;
  }

  lemma FirstOfOne(t: Trace)
    requires t.pool.range == Range(0xC000_0200, 0xFFFF_FFFE, 2) && t.pool.capacity == 64
    requires t.pool.hostToIp == Lru.CacheState([], map[])
    ensures Step(t, LookupOp("a")).pool.hostToIp == Lru.CacheState(["a"], map["a" := 0xC000_0201])
  {
    assert Address(t.pool.range, t.pool.offset) == 0xC000_0201;
    assert Lru.Touch([], "a") == ["a"];
  }

  lemma SecondOfOne(t: Trace)
    requires t.pool.range == Range(0xC000_0200, 0xFFFF_FFFE, 2) && t.pool.capacity == 64
    requires t.pool.hostToIp == Lru.CacheState(["a"], map["a" := 0xC000_0201])
    ensures var pool := Step(t, LookupOp("b")).pool;
            && "a" in pool.hostToIp.vals && pool.hostToIp.vals["a"] == 0xC000_0201
            && "b" in pool.hostToIp.vals && pool.hostToIp.vals["b"] == 0xC000_0201
            && 0xC000_0201 in pool.ipToHost.vals && pool.ipToHost.vals[0xC000_0201] == "b"
  {
    assert Address(t.pool.range, t.pool.offset) == 0xC000_0201;
    assert Lru.Touch(["a"], "b") == ["b", "a"] by {
      Lru.WithoutAbsent(["a"], "b");
    }
    var pool := Step(t, LookupOp("b")).pool;
    assert pool.ipToHost.order[0] == 0xC000_0201;
    assert pool.hostToIp.order == ["b", "a"];
  }
}
