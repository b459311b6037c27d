/**
  The FakeIP pool of redog-component/src/fakeip.rs: an address allocator that
  wraps around, and two independently evicted caches. `FakeIpPool` is the pool;
  `Pool`, `Lookup` and `ReverseLookup` describe its state and steps as values.
 */
module FakeIp {
  import opened Bits
  import opened Options
  import opened Text
  import opened Metadata
  import Lru

  type Host = string

  /** The address block the pool hands addresses out of. */
  datatype Range = Range(network: U32, mask: U32, poolSize: U32)

  datatype CidrError = Malformed | InvalidIp | InvalidPrefix

  /** "address/prefix", with `parseIpv4` the library's address parser. */
  function ParseCidr(cidr: string, parseIpv4: string -> Option<U32>): Result<(U32, U32), CidrError> {
    var parts := Split(cidr, '/');
    if |parts| != 2 then Err(Malformed)
    else
      var ip, prefixLen := parseIpv4(parts[0]), ParseUnsigned(parts[1], TWO_32);
      if ip.None? then Err(InvalidIp)
      else if prefixLen.None? then Err(InvalidPrefix)
      else Ok((ip.value, prefixLen.value))
  }

  /** The distance of 1u32 << (32 - prefixLen): both wrap, so a prefix length above 32 acts as its remainder. */
  function Shift(prefixLen: U32): (k: nat)
    ensures k < 32
    ensures prefixLen <= 32 ==> k == if prefixLen == 0 then 0 else 32 - prefixLen
    ensures (k == 0 <==> prefixLen % 32 == 0) && (k == 1 <==> prefixLen % 32 == 31)
  {
    (32 - prefixLen as int) % 32
  }

  /** The block of an IPv4 address and a prefix length. */
  function RangeOf(ip: U32, prefixLen: U32): Range {
    BlockFits(Shift(prefixLen));
    var mask := if prefixLen == 0 then 0 else Not32(Pow2(Shift(prefixLen)) - 1);
    Range(BitAnd(ip, mask), mask, Pow2(Shift(prefixLen)))
  }

  ghost predicate IsBlock(range: Range) {
    exists ip: U32, prefixLen: U32 :: range == RangeOf(ip, prefixLen)
  }

  /** saturating_sub(2), but at least one address. */
  function Usable(range: Range): (n: nat)
    ensures 0 < n
  {
    if range.poolSize <= 3 then 1 else range.poolSize - 2
  }

  /** The address at an offset, added as u32 values are. */
  function Address(range: Range, offset: nat): U32 {
    (range.network + Mod(offset, Usable(range)) + 1) % TWO_32
  }

  function InRange(range: Range, ip: Ip): bool {
    match ip
    case V4(addr) => BitAnd(addr, range.mask) == range.network
    case V6(_) => false
  }

  /** The pool as a value: its block, its allocation offset and what its caches hold. */
  datatype Pool = Pool(
    range: Range,
    capacity: nat,
    offset: U32,
    ipToHost: Lru.CacheState<U32, Host>,
    hostToIp: Lru.CacheState<Host, U32>)

  function NewPool(ip: U32, prefixLen: U32, capacity: nat): Pool {
    Pool(RangeOf(ip, prefixLen), Lru.EffectiveCapacity(capacity), 1,
         Lru.CacheState([], map[]), Lru.CacheState([], map[]))
  }

  function Advance(p: Pool): Pool {
    UsableFits(p.range);
    p.(offset := Mod(p.offset + 1, Usable(p.range)))
  }

  /** The address for a host: the cached one, or a new one recorded in both caches. */
  function Lookup(p: Pool, host: Host): (Pool, U32) {
    if host in p.hostToIp.vals then
      (p.(hostToIp := Lru.Hit(p.hostToIp, host)), p.hostToIp.vals[host])
    else
      var ip := Address(p.range, p.offset);
      (Advance(p).(ipToHost := Lru.Inserted(p.ipToHost, p.capacity, ip, host),
                   hostToIp := Lru.Inserted(p.hostToIp, p.capacity, host, ip)), ip)
  }

  function ReverseLookup(p: Pool, ip: U32): (Pool, Option<Host>) {
    if ip in p.ipToHost.vals then
      (p.(ipToHost := Lru.Hit(p.ipToHost, ip)), Some(p.ipToHost.vals[ip]))
    else
      (p, None)
  }

  class FakeIpPool {
    const ipToHost: Lru.LruCache<U32, Host>
    const hostToIp: Lru.LruCache<Host, U32>
    const range: Range
    var offset: U32

    ghost predicate Valid()
      reads this, ipToHost, hostToIp
    {
      && (ipToHost as object) != hostToIp && (ipToHost as object) != this && (hostToIp as object) != this
      && ipToHost.Valid() && hostToIp.Valid()
      && ipToHost.capacity == hostToIp.capacity
      && IsBlock(range)
    }

    function View(): Pool
      reads this, ipToHost, hostToIp
    {
      Pool(range, ipToHost.capacity, offset, ipToHost.View(), hostToIp.View())
    }

    constructor (ip: U32, prefixLen: U32, capacity: nat)
      ensures Valid() && View() == NewPool(ip, prefixLen, capacity)
    {
      ipToHost := new Lru.LruCache(capacity);
      hostToIp := new Lru.LruCache(capacity);
      range := RangeOf(ip, prefixLen);
      offset := 1;
    }

    /** The pool of a block text, or why there is none. */
    static method New(cidr: string, capacity: nat, parseIpv4: string -> Option<U32>)
        returns (r: Result<FakeIpPool, CidrError>)
      ensures match ParseCidr(cidr, parseIpv4)
              case Ok((ip, prefixLen)) => r.Ok? && r.value.Valid() && r.value.View() == NewPool(ip, prefixLen, capacity)
              case Err(e) => r == Err(e)
    {
      var block := ParseCidr(cidr, parseIpv4);
      if block.Err? {
        return Err(block.error);
      }
      var pool := new FakeIpPool(block.value.0, block.value.1, capacity);
      r := Ok(pool);
    }

    method Allocate() returns (ip: U32)
      requires Valid()
      modifies this
      ensures Valid() && View() == Advance(old(View()))
      ensures ip == Address(range, old(offset))
    {
      var usable := if range.poolSize - 2 > 1 then range.poolSize - 2 else 1;
      ModIsRemainder(offset, usable);
      ModIsRemainder(offset + 1, usable);
      ip := (range.network + offset % usable + 1) % TWO_32;
      offset := (offset + 1) % usable;
    }

    method LookupHost(host: Host) returns (ip: U32)
      requires Valid()
      modifies this, ipToHost, hostToIp
      ensures Valid() && (View(), ip) == Lookup(old(View()), host)
    {
      var cached := hostToIp.Get(host);
      if cached.Some? {
        return cached.value;
      }
      ip := Allocate();
      ipToHost.Put(ip, host);
      hostToIp.Put(host, ip);
    }

    method ReverseLookupIp(ip: U32) returns (host: Option<Host>)
      requires Valid()
      modifies ipToHost
      ensures Valid() && (View(), host) == ReverseLookup(old(View()), ip)
    {
      host := ipToHost.Get(ip);
    }

    method Contains(ip: Ip) returns (r: bool)
      requires Valid()
      ensures r == InRange(range, ip)
      ensures r <==> ip.V4? && range.network <= ip.addr < range.network + (TWO_32 - range.mask)
    {
      ghost var base: U32, prefixLen: U32 :| range == RangeOf(base, prefixLen);
      if ip.V4? {
        ContainsIsInterval(base, prefixLen, ip.addr);
      }
      match ip
      case V4(addr) => r := BitAnd(addr, range.mask) == range.network;
      case V6(_) => r := false;
    }
  }

  // ---- Block texts ----

  /** Exactly the texts of one slash between an address and an unsigned 32-bit number make a pool. */
  lemma CidrAcceptedIff(cidr: string, parseIpv4: string -> Option<U32>, ip: U32, prefixLen: U32)
    ensures ParseCidr(cidr, parseIpv4) == Ok((ip, prefixLen)) <==>
            exists a, b :: cidr == a + ['/'] + b && '/' !in a && '/' !in b
              && parseIpv4(a) == Some(ip) && ParseUnsigned(b, TWO_32) == Some(prefixLen)
  {
    hide ParseUnsigned;
    TwoParts(cidr);
  }

  // ---- Address arithmetic ----

  lemma BlockFits(k: nat)
    requires k < 32
    ensures Pow2(k) <= 0x8000_0000
  {
    Pow2Monotone(k, 31);
    Pow2Of32();
  }

  lemma UsableFits(range: Range)
    ensures Usable(range) < TWO_32
  {
  }

  /** Masking rounds down to the block size. */
  lemma MaskRoundsDown(x: U32, k: nat)
    requires k < 32
    ensures Pow2(k) < TWO_32 && BitAnd(x, TWO_32 - Pow2(k)) == x - x % Pow2(k)
  {
    BlockFits(k);
    Pow2Of32();
    BitAndHighMask(x, k, 32 - k);
  }

  /**
    Every block but that of prefix 0 starts at a multiple of its size and ends
    inside the address space. Prefix 0 masks everything away, with a size of 1,
    and prefix lengths above 32 act as if 32 lower.
   */
  lemma RangeShape(ip: U32, prefixLen: U32)
    ensures var r := RangeOf(ip, prefixLen);
            && 0 < r.poolSize
            && (1 <= prefixLen <= 32 ==> r.poolSize == Pow2(32 - prefixLen))
            && (prefixLen > 32 ==> r == RangeOf(ip, prefixLen - 32))
            && (prefixLen == 0 ==> r == Range(0, 0, 1))
            && (prefixLen != 0 ==>
                  && r.mask == TWO_32 - r.poolSize
                  && r.network == ip - ip % r.poolSize
                  && r.network % r.poolSize == 0
                  && r.network + r.poolSize <= TWO_32)
  {
    if prefixLen == 0 {
      assert Pow2(0) == 1;
    } else {
      BlockShape(ip, prefixLen);
      if prefixLen > 32 {
        ShiftWraps(prefixLen);
      }
    }
  }

  lemma ShiftWraps(prefixLen: U32)
    requires 32 < prefixLen
    ensures Shift(prefixLen) == Shift(prefixLen - 32)
  {
    var x := 64 - prefixLen as int;
    QuotientIsUnique(x - 32, 32, x / 32 - 1, x % 32);
  }

  lemma BlockShape(ip: U32, prefixLen: U32)
    requires prefixLen != 0
    ensures var r := RangeOf(ip, prefixLen);
            && r.mask == TWO_32 - r.poolSize
            && r.network == ip - ip % r.poolSize
            && r.network % r.poolSize == 0
            && r.network + r.poolSize <= TWO_32
  {
    hide Pow2, BitAnd;
    var k := Shift(prefixLen);
    var d := Pow2(k);
    MaskRoundsDown(ip, k);
    Pow2Of32();
    hide Shift;
    RoundedDown(ip, d);
    Pow2Splits(k, 32 - k);
    BlockBelow(ip - ip % d, d, Pow2(32 - k));
  }

  /** The size of a block is 1, 2 or more, as the prefix length modulo 32 is 0, 31 or neither. */
  lemma SizeByPrefix(ip: U32, prefixLen: U32)
    ensures prefixLen % 32 == 0 <==> RangeOf(ip, prefixLen).poolSize == 1
    ensures prefixLen % 32 == 31 <==> RangeOf(ip, prefixLen).poolSize == 2
  {
    hide Shift;
    var k := Shift(prefixLen);
    if k >= 2 { Pow2Monotone(2, k); }
    assert Pow2(1) == 2;
  }

  lemma RangeBounds(ip: U32, prefixLen: U32)
    ensures var r := RangeOf(ip, prefixLen);
            0 < r.poolSize && r.network + r.poolSize <= TWO_32
  {
    RangeShape(ip, prefixLen);
  }

  /** The mask test is the interval test: the pool's own block, or everything for prefix 0. */
  lemma ContainsIsInterval(ip: U32, prefixLen: U32, x: U32)
    ensures var r := RangeOf(ip, prefixLen);
            && (InRange(r, V4(x)) <==> r.network <= x < r.network + (TWO_32 - r.mask))
            && (prefixLen != 0 ==> TWO_32 - r.mask == r.poolSize)
            && (prefixLen == 0 ==> InRange(r, V4(x)))
  {
    var r := RangeOf(ip, prefixLen);
    RangeShape(ip, prefixLen);
    if prefixLen != 0 {
      MaskRoundsDown(x, Shift(prefixLen));
      RoundsTo(x, r.network, r.poolSize);
    }
  }

  /** Only a one-address block can push the sum past the block. */
  lemma AddressIsInside(ip: U32, prefixLen: U32, offset: nat)
    requires prefixLen % 32 != 0
    ensures var r := RangeOf(ip, prefixLen);
            && Address(r, offset) == r.network + offset % Usable(r) + 1
            && r.network < Address(r, offset) < r.network + r.poolSize
  {
    var r := RangeOf(ip, prefixLen);
    RangeShape(ip, prefixLen);
    SizeByPrefix(ip, prefixLen);
    hide RangeOf;
    ModIsRemainder(offset, Usable(r));
  }

  /**
    Where an allocated address lies: inside the block exactly when the prefix
    length is 0 or no multiple of 32. In a block of at least two addresses it is
    never the network address, and the broadcast address only for /31.
   */
  lemma AddressesAreUsable(ip: U32, prefixLen: U32, offset: nat)
    ensures var r := RangeOf(ip, prefixLen);
            && (InRange(r, V4(Address(r, offset))) <==> prefixLen == 0 || prefixLen % 32 != 0)
            && (prefixLen % 32 != 0 ==>
                  && Address(r, offset) == r.network + offset % Usable(r) + 1
                  && Address(r, offset) != r.network
                  && (Address(r, offset) == r.network + r.poolSize - 1 <==> prefixLen % 32 == 31))
  {
    var r := RangeOf(ip, prefixLen);
    RangeShape(ip, prefixLen);
    SizeByPrefix(ip, prefixLen);
    ContainsIsInterval(ip, prefixLen, Address(r, offset));
    if prefixLen % 32 != 0 {
      AddressIsInside(ip, prefixLen, offset);
    } else {
      assert r.poolSize == 1 && Usable(r) == 1;
    }
  }

  /** Two offsets give the same address exactly when they are a whole number of turns apart. */
  lemma AddressesDistinct(ip: U32, prefixLen: U32, m: nat, n: nat)
    ensures var r := RangeOf(ip, prefixLen);
            Address(r, m) == Address(r, n) <==> Mod(m, Usable(r)) == Mod(n, Usable(r))
  {
    hide RangeOf;
    var r := RangeOf(ip, prefixLen);
    RangeBounds(ip, prefixLen);
    var a, b := Mod(m, Usable(r)), Mod(n, Usable(r));
    if r.poolSize == 1 {
      assert a == b == 0;
    } else {
      assert Address(r, m) == r.network + a + 1 && Address(r, n) == r.network + b + 1;
    }
  }

  // ---- The turn ----

  /**
    How many addresses a block hands out before it starts again: all but the
    network and broadcast addresses up to /30, one for /31 and /32.
   */
  lemma TurnLength(ip: U32, prefixLen: U32)
    ensures Usable(RangeOf(ip, prefixLen)) ==
            if prefixLen % 32 == 0 || prefixLen % 32 == 31 then 1 else Pow2(32 - prefixLen % 32) - 2
    ensures prefixLen % 32 != 0 && prefixLen % 32 != 31 ==> Pow2(32 - prefixLen % 32) >= 4
  {
    SizeByPrefix(ip, prefixLen);
    var q := prefixLen % 32;
    if q != 0 && q != 31 {
      ShiftIs(prefixLen);
      Pow2Monotone(2, 32 - q);
      assert Pow2(2) == 4;
    }
    hide Pow2, Shift;
  }

  lemma ShiftIs(prefixLen: U32)
    requires prefixLen % 32 != 0
    ensures Shift(prefixLen) == 32 - prefixLen % 32
  {
    QuotientIsUnique(32 - prefixLen as int, 32, -(prefixLen as int / 32), 32 - prefixLen % 32);
  }

  /** Every address, in numbers alone. */
  lemma AddressInNumbers(ip: U32, prefixLen: U32, offset: nat)
    ensures var r := RangeOf(ip, prefixLen);
            && (prefixLen % 32 != 0 && prefixLen % 32 != 31 ==>
                  && Pow2(32 - prefixLen % 32) >= 4
                  && Address(r, offset) == r.network + offset % (Pow2(32 - prefixLen % 32) - 2) + 1)
            && (prefixLen % 32 == 31 ==> Address(r, offset) == r.network + 1)
            && (prefixLen % 32 == 0 ==> Address(r, offset) == (r.network + 1) % TWO_32)
  {
    hide RangeOf, Pow2;
    var r := RangeOf(ip, prefixLen);
    TurnLength(ip, prefixLen);
    if prefixLen % 32 != 0 {
      AddressIsInside(ip, prefixLen, offset);
    }
    if prefixLen % 32 == 0 || prefixLen % 32 == 31 {
      assert Mod(offset, Usable(r)) == 0 && offset % 1 == 0;
    }
  }

  /** One turn hands out every address of the block but the first and the last, each once. */
  lemma TurnIsComplete(ip: U32, prefixLen: U32, x: U32)
    requires 1 <= prefixLen <= 30
    requires var r := RangeOf(ip, prefixLen); r.network < x < r.network + r.poolSize - 1
    ensures var r := RangeOf(ip, prefixLen);
            && (exists n: nat :: n < r.poolSize - 2 && Address(r, n) == x)
            && (forall m: nat, n: nat | m < n < r.poolSize - 2 :: Address(r, m) != Address(r, n))
  {
    hide RangeOf, Pow2, Address, Usable;
    var r := RangeOf(ip, prefixLen);
    forall n: nat | n < r.poolSize - 2
      ensures Address(r, n) == r.network + n + 1
    {
      AddressOfTurn(ip, prefixLen, n);
    }
    var n: nat := x - r.network - 1;
    assert Address(r, n) == x;
  }

  lemma AddressOfTurn(ip: U32, prefixLen: U32, n: nat)
    requires 1 <= prefixLen <= 30 && n < RangeOf(ip, prefixLen).poolSize - 2
    ensures Address(RangeOf(ip, prefixLen), n) == RangeOf(ip, prefixLen).network + n + 1
  {
    hide RangeOf, Pow2, Address, Usable;
    RangeShape(ip, prefixLen);
    AddressInNumbers(ip, prefixLen, n);
    var u := RangeOf(ip, prefixLen).poolSize - 2;
    assert prefixLen % 32 == prefixLen;
    QuotientIsUnique(n, u, 0, n);
  }

  // ---- Refused texts ----

  /** Which error a refused text gets: the cut is checked first, then the address, then the number. */
  lemma CidrErrors(cidr: string, parseIpv4: string -> Option<U32>)
    ensures ParseCidr(cidr, parseIpv4) == Err(Malformed) <==>
              !exists a, b :: cidr == a + ['/'] + b && '/' !in a && '/' !in b
    ensures ParseCidr(cidr, parseIpv4) == Err(InvalidIp) <==>
              exists a, b :: cidr == a + ['/'] + b && '/' !in a && '/' !in b && parseIpv4(a).None?
    ensures ParseCidr(cidr, parseIpv4) == Err(InvalidPrefix) <==>
              exists a, b :: cidr == a + ['/'] + b && '/' !in a && '/' !in b
                && parseIpv4(a).Some? && ParseUnsigned(b, TWO_32).None?
  {
    hide ParseUnsigned;
    TwoParts(cidr);
  }

  /** A text splits in two exactly at its only slash. */
  lemma TwoParts(cidr: string)
    ensures forall a, b :: cidr == a + ['/'] + b && '/' !in a && '/' !in b ==> Split(cidr, '/') == [a, b]
    ensures |Split(cidr, '/')| == 2 ==>
              var parts := Split(cidr, '/');
              cidr == parts[0] + ['/'] + parts[1] && '/' !in parts[0] && '/' !in parts[1]
  {
    var parts := Split(cidr, '/');
    if |parts| == 2 {
      SplitHasNoSeparators(cidr, '/');
      JoinSplit(cidr, '/');
      assert parts[0] in parts && parts[1] in parts;
      assert parts[1..] == [parts[1]];
      assert cidr == parts[0] + ['/'] + parts[1];
    }
    forall a, b | cidr == a + ['/'] + b && '/' !in a && '/' !in b
      ensures parts == [a, b]
    {
      SplitConcat(a, b, '/');
      SplitWithout(a, '/');
      SplitWithout(b, '/');
    }
  }
}
