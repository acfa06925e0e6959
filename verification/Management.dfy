/** Management addresses of a namespace: every Node without a declared address gets one by
    hashing its identity into the allocation range, around everything that is declared. Two
    callers -- the plan of each Pod and the peer directory -- must come to the same answer.
  */
module Management {
  import opened Wrappers
  import opened Ordering
  import opened Addresses

  type Result<+T> = Attempt<T, Error>

  datatype Error =
    | RangeWithoutSubnet | BadSubnet | BadRange | RangeOutsideSubnet
    | DeclaredTwice(address: Addr, first: string, second: string)
    | BadGateway | GatewayDeclared(node: string) | NoFreeAddress
    | WrongFamily | OutsideSubnet | BadAddress | NeedsSubnet | ReservedAddress
    | GatewayOffLink | SharedAddress(first: string, second: string) | ConflictsWithDisabled

  /** A prefix or address field as its parser sees it. */
  datatype PrefixText = NoPrefix | BadPrefix | APrefix(prefix: Prefix)

  datatype AddrText = NoAddr | BadAddr | AnAddr(addr: Addr)

  /** A declared management address: `a.b.c.d/n`, `a.b.c.d`, or neither. */
  datatype Declared = Undeclared | Malformed | Cidr(prefix: Prefix) | Bare(addr: Addr)

  datatype Node = Node(uid: string, ipv4: Declared, ipv6: Declared, sharesNamespace: bool)

  type Nodes = map<string, Node>

  function DeclaredIn(node: Node, ipv4: bool): Declared { if ipv4 then node.ipv4 else node.ipv6 }

  // ---------------------------------------------------------------- pools

  datatype Pool = NoPool(ipv4: bool) | Pool(network: Prefix, allocation: Prefix, ipv4: bool)

  /** What every enabled pool satisfies. */
  ghost predicate SoundPool(pool: Pool) {
    pool.Pool? ==>
      && pool.network.addr.v4 == pool.ipv4 && pool.allocation.addr.v4 == pool.ipv4
      && Nested(pool.allocation, pool.network)
  }

  method NewDirectManagementPool(subnet: PrefixText, addressRange: PrefixText, ipv4: bool) returns (r: Result<Pool>)
    ensures r == NewPool(subnet, addressRange, ipv4)
  {
    if subnet == NoPrefix {
      if addressRange != NoPrefix {
        return Err(RangeWithoutSubnet);
      }
      return Ok(NoPool(ipv4));
    }
    if subnet == BadPrefix || subnet.prefix.addr.v4 != ipv4 {
      return Err(BadSubnet);
    }
    var network := Masked(subnet.prefix);
    var allocation := network;
    if addressRange != NoPrefix {
      if addressRange == BadPrefix || addressRange.prefix.addr.v4 != ipv4 {
        return Err(BadRange);
      }
      allocation := Masked(addressRange.prefix);
      var last := LastPrefixAddress(allocation);
      if allocation.bits < network.bits || !Contains(network, allocation.addr) || !Contains(network, last) {
        return Err(RangeOutsideSubnet);
      }
    }
    r := Ok(Pool(network, allocation, ipv4));
  }

  function NewPool(subnet: PrefixText, addressRange: PrefixText, ipv4: bool): Result<Pool> {
    match subnet
    case NoPrefix => if addressRange.NoPrefix? then Ok(NoPool(ipv4)) else Err(RangeWithoutSubnet)
    case BadPrefix => Err(BadSubnet)
    case APrefix(s) =>
      if s.addr.v4 != ipv4 then Err(BadSubnet)
      else
        match addressRange
        case NoPrefix => Ok(Pool(Masked(s), Masked(s), ipv4))
        case BadPrefix => Err(BadRange)
        case APrefix(a) =>
          if a.addr.v4 != ipv4 then Err(BadRange)
          else if Masked(a).bits < Masked(s).bits || !Contains(Masked(s), Masked(a).addr) ||
                  !Contains(Masked(s), Last(Masked(a))) then Err(RangeOutsideSubnet)
          else Ok(Pool(Masked(s), Masked(a), ipv4))
  }

  lemma NewPoolSound(subnet: PrefixText, addressRange: PrefixText, ipv4: bool)
    requires NewPool(subnet, addressRange, ipv4).Ok?
    ensures SoundPool(NewPool(subnet, addressRange, ipv4).value)
    ensures NewPool(subnet, addressRange, ipv4).value.ipv4 == ipv4
  {
    var pool := NewPool(subnet, addressRange, ipv4).value;
    if pool.Pool? {
      MaskedSame(pool.allocation);
      MaskedSame(subnet.prefix);
      if addressRange.APrefix? { MaskedSame(addressRange.prefix); }
      HostBitsContained(pool.allocation, Zeros);
      if addressRange.NoPrefix? {
        HostBitsContained(pool.network, Zeros);
      }
    }
  }

  /** The subnet is a prefix of this family, and so is the range if there is one, inside the subnet. */
  ghost predicate Declarable(subnet: PrefixText, addressRange: PrefixText, ipv4: bool) {
    && subnet.APrefix? && subnet.prefix.addr.v4 == ipv4 && !addressRange.BadPrefix?
    && (addressRange.APrefix? ==>
          && addressRange.prefix.addr.v4 == ipv4 && subnet.prefix.bits <= addressRange.prefix.bits
          && forall a :: Contains(addressRange.prefix, a) ==> Contains(subnet.prefix, a))
  }

  /** There is a pool exactly for a subnet and a range inside it, or no pool if neither is given. The
      network of the pool is the subnet, and what it allocates from is the range, or else the subnet. */
  lemma NewPoolIff(subnet: PrefixText, addressRange: PrefixText, ipv4: bool)
    ensures var r := NewPool(subnet, addressRange, ipv4);
            && (r == Ok(NoPool(ipv4)) <==> subnet.NoPrefix? && addressRange.NoPrefix?)
            && (r.Ok? && r.value.Pool? <==> Declarable(subnet, addressRange, ipv4))
            && (r.Ok? && r.value.Pool? ==>
                  && r.value.network.bits == subnet.prefix.bits
                  && (forall a :: Contains(r.value.network, a) <==> Contains(subnet.prefix, a))
                  && var range := if addressRange.APrefix? then addressRange.prefix else subnet.prefix;
                     && r.value.allocation.bits == range.bits
                     && forall a :: Contains(r.value.allocation, a) <==> Contains(range, a))
  {
    if subnet.APrefix? { MaskedSame(subnet.prefix); }
    if addressRange.APrefix? { MaskedSame(addressRange.prefix); }
    if subnet.APrefix? && addressRange.APrefix? && subnet.prefix.addr.v4 == addressRange.prefix.addr.v4 &&
       subnet.prefix.bits <= addressRange.prefix.bits {
      RangeInsideIff(subnet.prefix, addressRange.prefix);
    }
  }

  /** Two membership tests decide whether a range is inside a subnet. */
  lemma RangeInsideIff(s: Prefix, r: Prefix)
    requires s.addr.v4 == r.addr.v4 && s.bits <= r.bits
    ensures Contains(Masked(s), Masked(r).addr) && Contains(Masked(s), Last(Masked(r))) <==>
              forall a :: Contains(r, a) ==> Contains(s, a)
  {
    MaskedSame(s);
    MaskedSame(r);
    HostBitsContained(r, Zeros);
    HostBitsContained(r, Ones);
    if Contains(s, First(r)) {
      forall a | Contains(r, a) ensures Contains(s, a) {
        NestedContains(r, s, a);
      }
    }
  }

  /** An address that may be handed to a Node. */
  predicate Usable(pool: Pool, address: Addr, gateway: Option<Addr>)
    requires pool.Pool?
  {
    && address != First(pool.allocation)
    && Some(address) != gateway
    && !(pool.ipv4 && address == Last(pool.allocation))
  }

  function GatewayAddr(gateway: AddrText): Option<Addr> {
    if gateway.AnAddr? then Some(gateway.addr) else None
  }

  /** An address that allocation may hand out. */
  predicate Available(pool: Pool, gateway: AddrText, address: Addr)
    requires pool.Pool?
  {
    Contains(pool.allocation, address) && Usable(pool, address, GatewayAddr(gateway))
  }

  /** A usable address of the range is neither end of the whole subnet: not its first address,
      nor the IPv4 broadcast address. */
  lemma UsableAvoidsSubnetEnds(pool: Pool, address: Addr, gateway: Option<Addr>)
    requires pool.Pool? && SoundPool(pool)
    requires Contains(pool.allocation, address) && Usable(pool, address, gateway)
    ensures Contains(pool.network, address)
    ensures address != First(pool.network)
    ensures pool.ipv4 ==> address != Last(pool.network)
  {
    NestedContains(pool.allocation, pool.network, address);
    if address == First(pool.network) {
      NestedEnds(pool.allocation, pool.network, Zeros);
    }
    if pool.ipv4 && address == Last(pool.network) {
      NestedEnds(pool.allocation, pool.network, Ones);
    }
  }

  // ---------------------------------------------------------------- what is declared

  function ParseLoose(d: Declared, ipv4: bool): Option<Addr> {
    match d
    case Cidr(p) => if p.addr.v4 == ipv4 then Some(p.addr) else None
    case Bare(a) => if a.v4 == ipv4 then Some(a) else None
    case _ => None
  }

  /** Which declared addresses a walk takes note of. */
  type Filter = Addr -> bool

  function InRange(pool: Pool): Filter
    requires pool.Pool?
  {
    (a: Addr) => Contains(pool.allocation, a)
  }

  const Anywhere: Filter := _ => true

  /** Node `n` declares the address `a` of this family, and it is taken note of. */
  predicate Reserves(nodes: Nodes, ipv4: bool, keep: Filter, n: string, a: Addr) {
    n in nodes && ParseLoose(DeclaredIn(nodes[n], ipv4), ipv4) == Some(a) && keep(a)
  }

  ghost predicate NoClash(nodes: Nodes, ipv4: bool, keep: Filter) {
    forall m, n, a :: Reserves(nodes, ipv4, keep, m, a) && Reserves(nodes, ipv4, keep, n, a) ==> m == n
  }

  type Reserved = map<Addr, string>

  function Holder(reserved: Reserved, a: Addr): string {
    if a in reserved then reserved[a] else ""
  }

  /** The address that a Node declares, if there is such a Node and it declares one. */
  function DeclaredBy(nodes: Nodes, ipv4: bool, name: string): Option<Addr> {
    if name in nodes then ParseLoose(DeclaredIn(nodes[name], ipv4), ipv4) else None
  }

  function ReserveOne(nodes: Nodes, ipv4: bool, keep: Filter, reserved: Reserved, name: string): Result<Reserved> {
    var candidate := DeclaredBy(nodes, ipv4, name);
    if candidate.None? || !keep(candidate.value) then Ok(reserved)
    else
      var existing := Holder(reserved, candidate.value);
      if existing != "" && existing != name then Err(DeclaredTwice(candidate.value, existing, name))
      else Ok(reserved[candidate.value := name])
  }

  function ReserveAll(nodes: Nodes, ipv4: bool, keep: Filter, walk: seq<string>): Result<Reserved> {
    if |walk| == 0 then Ok(map[])
    else
      match ReserveAll(nodes, ipv4, keep, walk[..|walk| - 1])
      case Err(e) => Err(e)
      case Ok(reserved) => ReserveOne(nodes, ipv4, keep, reserved, walk[|walk| - 1])
  }

  /** Walk the Nodes and book what they declare. */
  method ReserveDeclared(nodes: Nodes, ipv4: bool, keep: Filter, walk: seq<string>) returns (r: Result<Reserved>)
    ensures r == ReserveAll(nodes, ipv4, keep, walk)
  {
    var reserved: Reserved := map[];
    for i := 0 to |walk|
      invariant ReserveAll(nodes, ipv4, keep, walk[..i]) == Ok(reserved)
    {
      var name := walk[i];
      assert name in walk && walk[..i + 1][..i] == walk[..i];
      var candidate := DeclaredBy(nodes, ipv4, name);
      ReserveErrorStops(nodes, ipv4, keep, walk, i + 1);
      if candidate.None? || !keep(candidate.value) {
        continue;
      }
      var existing := Holder(reserved, candidate.value);
      if existing != "" && existing != name {
        return Err(DeclaredTwice(candidate.value, existing, name));
      }
      reserved := reserved[candidate.value := name];
    }
    assert walk[..|walk|] == walk;
    r := Ok(reserved);
  }

  /** The table after a walk: exactly the declarations of the Nodes walked. */
  ghost predicate TableOf(nodes: Nodes, ipv4: bool, keep: Filter, walk: seq<string>, reserved: Reserved) {
    forall n, a :: (a in reserved && reserved[a] == n) <==> (n in walk && Reserves(nodes, ipv4, keep, n, a))
  }

  lemma {:induction false} ReserveAllExact(nodes: Nodes, ipv4: bool, keep: Filter, walk: seq<string>)
    requires "" !in nodes && "" !in walk
    ensures var r := ReserveAll(nodes, ipv4, keep, walk);
            && (r.Ok? ==> TableOf(nodes, ipv4, keep, walk, r.value))
            && (r.Err? ==> !NoClash(nodes, ipv4, keep))
    decreases |walk|
  {
    if |walk| > 0 {
      var k := |walk| - 1;
      var before, name := walk[..k], walk[k];
      assert walk == before + [name];
      ReserveAllExact(nodes, ipv4, keep, before);
      if ReserveAll(nodes, ipv4, keep, before).Ok? {
        var reserved := ReserveAll(nodes, ipv4, keep, before).value;
        var candidate := DeclaredBy(nodes, ipv4, name);
        if candidate.Some? && keep(candidate.value) {
          var a := candidate.value;
          assert Reserves(nodes, ipv4, keep, name, a);
          if a in reserved {
            assert reserved[a] in before && Reserves(nodes, ipv4, keep, reserved[a], a);
          }
        }
      }
    }
  }

  /** Whatever the order of the walk: all declarations are booked, or two Nodes clash. */
  lemma ReserveAllForgetsOrder(nodes: Nodes, ipv4: bool, keep: Filter, walk: seq<string>, walk': seq<string>)
    requires "" !in nodes && Walks(walk, nodes.Keys) && Walks(walk', nodes.Keys)
    ensures ReserveAll(nodes, ipv4, keep, walk).Ok? <==> NoClash(nodes, ipv4, keep)
    ensures ReserveAll(nodes, ipv4, keep, walk).Ok? ==>
              ReserveAll(nodes, ipv4, keep, walk) == ReserveAll(nodes, ipv4, keep, walk')
  {
    ReserveAllExact(nodes, ipv4, keep, walk);
    ReserveAllExact(nodes, ipv4, keep, walk');
    var r, r' := ReserveAll(nodes, ipv4, keep, walk), ReserveAll(nodes, ipv4, keep, walk');
    if r.Ok? {
      forall m, n, a | Reserves(nodes, ipv4, keep, m, a) && Reserves(nodes, ipv4, keep, n, a) ensures m == n {
        assert m in walk && n in walk;
        assert a in r.value && r.value[a] == m && r.value[a] == n;
      }
      assert r'.Ok?;
      SameTable(nodes, nodes, ipv4, keep, walk, walk', r.value, r'.value);
    }
  }

  /** A table is fixed by the declarations it is of. */
  lemma SameTable(nodes: Nodes, nodes': Nodes, ipv4: bool, keep: Filter, walk: seq<string>, walk': seq<string>,
                  a: Reserved, b: Reserved)
    requires TableOf(nodes, ipv4, keep, walk, a) && TableOf(nodes', ipv4, keep, walk', b)
    requires forall n, x ::
      n in walk && Reserves(nodes, ipv4, keep, n, x) <==> n in walk' && Reserves(nodes', ipv4, keep, n, x)
    ensures a == b
  {
    forall x ensures x in a <==> x in b {
      if x in a { assert a[x] in walk && Reserves(nodes, ipv4, keep, a[x], x); }
      if x in b { assert b[x] in walk' && Reserves(nodes', ipv4, keep, b[x], x); }
    }
    forall x | x in a ensures a[x] == b[x] {
      assert a[x] in walk && Reserves(nodes, ipv4, keep, a[x], x);
    }
  }

  // ---------------------------------------------------------------- allocation

  function BookGateway(pool: Pool, gateway: AddrText, reserved: Reserved): Result<(Option<Addr>, Reserved)>
    requires pool.Pool?
  {
    match gateway
    case NoAddr => Ok((None, reserved))
    case BadAddr => Err(BadGateway)
    case AnAddr(g) =>
      if g.v4 != pool.ipv4 || !Contains(pool.network, g) then Err(BadGateway)
      else if Holder(reserved, g) != "" then Err(GatewayDeclared(Holder(reserved, g)))
      else Ok((Some(g), reserved[g := "gateway"]))
  }

  function IsUndeclared(nodes: Nodes, pool: Pool, n: string): bool {
    n in nodes && DeclaredIn(nodes[n], pool.ipv4).Undeclared?
  }

  function UndeclaredIn(nodes: Nodes, pool: Pool, walk: seq<string>): (names: seq<string>)
    ensures forall n :: n in names <==> n in walk && IsUndeclared(nodes, pool, n)
  {
    if |walk| == 0 then []
    else
      var before, last := walk[..|walk| - 1], walk[|walk| - 1];
      assert walk == before + [last];
      UndeclaredIn(nodes, pool, before) + (if IsUndeclared(nodes, pool, last) then [last] else [])
  }

  /** The sort key: UID first, then name, separated by a NUL. */
  function Identity(nodes: Nodes): string -> string {
    n => (if n in nodes then nodes[n].uid else "") + "\0" + n
  }

  function Seed(nodes: Nodes, n: string): string {
    if n !in nodes || nodes[n].uid == "" then n else nodes[n].uid
  }

  function MaxAttempts(count: nat): nat {
    if count * 1024 < 4096 then 4096 else count * 1024
  }

  /** Digest of a seed and an attempt number. */
  type Hash = (string, nat) -> Digest

  /** What the allocation of one Node depends on, besides what is booked already. */
  datatype Terms = Terms(pool: Pool, gateway: Option<Addr>, hash: Hash)

  function Candidate(t: Terms, seed: string, attempt: nat): Addr
    requires t.pool.Pool?
  {
    Hashed(t.pool.allocation, t.hash(seed, attempt))
  }

  predicate Free(t: Terms, reserved: Reserved, a: Addr)
    requires t.pool.Pool?
  {
    Usable(t.pool, a, t.gateway) && Holder(reserved, a) == ""
  }

  /** The first free candidate from attempt `from` on. */
  function Probe(t: Terms, reserved: Reserved, seed: string, from: nat, attempts: nat): (r: Option<Addr>)
    requires t.pool.Pool?
    ensures r.Some? ==> Contains(t.pool.allocation, r.value) && Free(t, reserved, r.value)
    decreases attempts - from
  {
    if from >= attempts then None
    else
      var candidate := Candidate(t, seed, from);
      if Free(t, reserved, candidate) then
        HashedContained(t.pool.allocation, t.hash(seed, from));
        Some(candidate)
      else Probe(t, reserved, seed, from + 1, attempts)
  }

  datatype Book = Book(reserved: Reserved, granted: map<string, Prefix>)

  function AllocateOne(nodes: Nodes, t: Terms, book: Book, name: string, attempts: nat): Result<Book>
    requires t.pool.Pool? && SoundPool(t.pool)
  {
    match Probe(t, book.reserved, Seed(nodes, name), 0, attempts)
    case None => Err(NoFreeAddress)
    case Some(a) =>
      Ok(Book(book.reserved[a := name], book.granted[name := RawPrefix(a, t.pool.network.bits)]))
  }

  function AllocateAll(nodes: Nodes, t: Terms, reserved: Reserved, names: seq<string>, attempts: nat): Result<Book>
    requires t.pool.Pool? && SoundPool(t.pool)
  {
    if |names| == 0 then Ok(Book(reserved, map[]))
    else
      match AllocateAll(nodes, t, reserved, names[..|names| - 1], attempts)
      case Err(e) => Err(e)
      case Ok(book) => AllocateOne(nodes, t, book, names[|names| - 1], attempts)
  }

  /** The orders in which the two loops of an allocation happen to visit the Nodes. */
  datatype Ranges = Ranges(reserve: seq<string>, names: seq<string>)

  ghost predicate RangesOver(walks: Ranges, nodes: Nodes) {
    Walks(walks.reserve, nodes.Keys) && Walks(walks.names, nodes.Keys)
  }

  /** The whole allocation of one family. */
  function Allocate(nodes: Nodes, pool: Pool, gateway: AddrText, hash: Hash, walks: Ranges)
      : Result<map<string, Prefix>>
    requires SoundPool(pool)
  {
    if pool.NoPool? then Ok(map[])
    else
      match ReserveAll(nodes, pool.ipv4, InRange(pool), walks.reserve)
      case Err(e) => Err(e)
      case Ok(declared) =>
        match BookGateway(pool, gateway, declared)
        case Err(e) => Err(e)
        case Ok((g, reserved)) =>
          match AllocateAll(nodes, Terms(pool, g, hash), reserved, NamesToGrant(nodes, pool, walks.names),
                            MaxAttempts(|nodes|))
          case Err(e) => Err(e)
          case Ok(book) => Ok(book.granted)
  }

  method AllocateDirectManagementAddresses(nodes: Nodes, pool: Pool, gateway: AddrText, hash: Hash, walks: Ranges)
      returns (r: Result<map<string, Prefix>>)
    requires SoundPool(pool) && RangesOver(walks, nodes)
    ensures r == Allocate(nodes, pool, gateway, hash, walks)
  {
    if pool.NoPool? {
      return Ok(map[]);
    }
    var declared := ReserveDeclared(nodes, pool.ipv4, InRange(pool), walks.reserve);
    if declared.Err? {
      return Err(declared.error);
    }
    var booked := BookGateway(pool, gateway, declared.value);
    if booked.Err? {
      return Err(booked.error);
    }
    var t := Terms(pool, booked.value.0, hash);
    var reserved := booked.value.1;
    var names := NamesToGrant(nodes, pool, walks.names);
    r := AllocateNames(nodes, t, reserved, names, MaxAttempts(|nodes|));
  }

  method AllocateNames(nodes: Nodes, t: Terms, booked: Reserved, names: seq<string>, attempts: nat)
      returns (r: Result<map<string, Prefix>>)
    requires t.pool.Pool? && SoundPool(t.pool)
    ensures match AllocateAll(nodes, t, booked, names, attempts)
            case Err(e) => r == Err(e)
            case Ok(book) => r == Ok(book.granted)
  {
    var reserved: Reserved := booked;
    var result: map<string, Prefix> := map[];
    for i := 0 to |names|
      invariant AllocateAll(nodes, t, booked, names[..i], attempts) == Ok(Book(reserved, result))
    {
      var name := names[i];
      assert name in names && names[..i + 1][..i] == names[..i];
      AllocateErrorStops(nodes, t, booked, names, attempts, i + 1);
      var found := FindFree(t, reserved, Seed(nodes, name), attempts);
      if found.None? {
        return Err(NoFreeAddress);
      }
      reserved := reserved[found.value := name];
      result := result[name := RawPrefix(found.value, t.pool.network.bits)];
    }
    assert names[..|names|] == names;
    r := Ok(result);
  }

  method FindFree(t: Terms, reserved: Reserved, seed: string, attempts: nat) returns (r: Option<Addr>)
    requires t.pool.Pool?
    ensures r == Probe(t, reserved, seed, 0, attempts)
  {
    for attempt := 0 to attempts
      invariant Probe(t, reserved, seed, attempt, attempts) == Probe(t, reserved, seed, 0, attempts)
    {
      var candidate := HashedPrefixAddress(t.pool.allocation, t.hash(seed, attempt));
      if !Usable(t.pool, candidate, t.gateway) || Holder(reserved, candidate) != "" {
        continue;
      }
      return Some(candidate);
    }
    r := None;
  }

  lemma {:induction false} ReserveErrorStops(nodes: Nodes, ipv4: bool, keep: Filter, walk: seq<string>, k: nat)
    requires k <= |walk|
    ensures var r := ReserveAll(nodes, ipv4, keep, walk[..k]);
            r.Err? ==> ReserveAll(nodes, ipv4, keep, walk) == r
    decreases |walk|
  {
    if k == |walk| {
      assert walk[..k] == walk;
    } else {
      var shorter := walk[..|walk| - 1];
      assert shorter[..k] == walk[..k];
      ReserveErrorStops(nodes, ipv4, keep, shorter, k);
    }
  }

  lemma {:induction false} AllocateErrorStops(nodes: Nodes, t: Terms, reserved: Reserved, names: seq<string>,
                                              attempts: nat, k: nat)
    requires t.pool.Pool? && SoundPool(t.pool) && k <= |names|
    ensures var r := AllocateAll(nodes, t, reserved, names[..k], attempts);
            r.Err? ==> AllocateAll(nodes, t, reserved, names, attempts) == r
    decreases |names|
  {
    if k == |names| {
      assert names[..k] == names;
    } else {
      var shorter := names[..|names| - 1];
      assert shorter[..k] == names[..k];
      AllocateErrorStops(nodes, t, reserved, shorter, attempts, k);
    }
  }

  // ---------------------------------------------------------------- what was allocated

  /** Every allocation is booked for its Node, was free before, and nothing was unbooked. */
  ghost predicate Booked(t: Terms, before: Reserved, book: Book)
    requires t.pool.Pool?
  {
    && (forall a :: a in before ==> a in book.reserved && book.reserved[a] == before[a])
    && (forall a :: a in book.reserved ==> book.reserved[a] != "")
    && (forall n :: n in book.granted ==> GrantFits(t, before, book, n))
  }

  ghost predicate GrantFits(t: Terms, before: Reserved, book: Book, n: string)
    requires t.pool.Pool? && n in book.granted
  {
    var a := book.granted[n].addr;
    && book.granted[n].bits == t.pool.network.bits
    && a in book.reserved && book.reserved[a] == n && a !in before
    && Contains(t.pool.allocation, a) && Usable(t.pool, a, t.gateway)
  }

  lemma {:induction false} AllocateAllBooked(nodes: Nodes, t: Terms, before: Reserved, names: seq<string>,
                                             attempts: nat)
    requires t.pool.Pool? && SoundPool(t.pool) && "" !in nodes && NoDuplicates(names)
    requires forall n :: n in names ==> n in nodes
    requires forall a :: a in before ==> before[a] != ""
    requires AllocateAll(nodes, t, before, names, attempts).Ok?
    ensures var book := AllocateAll(nodes, t, before, names, attempts).value;
            Booked(t, before, book) && forall n :: n in book.granted <==> n in names
    decreases |names|
  {
    if |names| > 0 {
      var k := |names| - 1;
      var shorter, name := names[..k], names[k];
      assert names == shorter + [name];
      AllocateAllBooked(nodes, t, before, shorter, attempts);
      var book := AllocateAll(nodes, t, before, shorter, attempts).value;
      GrantKeepsBooked(nodes, t, before, book, name, attempts);
    }
  }

  lemma GrantKeepsBooked(nodes: Nodes, t: Terms, before: Reserved, book: Book, name: string, attempts: nat)
    requires t.pool.Pool? && SoundPool(t.pool) && "" !in nodes && name in nodes
    requires Booked(t, before, book) && name !in book.granted
    requires AllocateOne(nodes, t, book, name, attempts).Ok?
    ensures var next := AllocateOne(nodes, t, book, name, attempts).value;
            Booked(t, before, next) && next.granted.Keys == book.granted.Keys + {name}
  {
    var next := AllocateOne(nodes, t, book, name, attempts).value;
    var a := Probe(t, book.reserved, Seed(nodes, name), 0, attempts).value;
    assert a !in book.reserved;
    forall n | n in next.granted ensures GrantFits(t, before, next, n) {
      if n != name { assert GrantFits(t, before, book, n); }
    }
  }

  /** What a Node declares in this family, in range or not. */
  ghost predicate Declares(nodes: Nodes, ipv4: bool, n: string, a: Addr) {
    n in nodes && ParseLoose(DeclaredIn(nodes[n], ipv4), ipv4) == Some(a)
  }

  /** An address of the range is booked exactly if some Node declares it. */
  lemma DeclaredIffBooked(nodes: Nodes, pool: Pool, walk: seq<string>, d: Reserved, a: Addr)
    requires pool.Pool? && "" !in nodes && Walks(walk, nodes.Keys) && Contains(pool.allocation, a)
    requires TableOf(nodes, pool.ipv4, InRange(pool), walk, d)
    ensures a in d <==> exists n :: Declares(nodes, pool.ipv4, n, a)
    ensures a in d ==> d[a] != ""
  {
    if a in d {
      assert d[a] in walk && Reserves(nodes, pool.ipv4, InRange(pool), d[a], a);
      assert Declares(nodes, pool.ipv4, d[a], a);
    }
    if n :| Declares(nodes, pool.ipv4, n, a) {
      assert n in walk && Reserves(nodes, pool.ipv4, InRange(pool), n, a);
    }
  }

  /** One allocated address: a host of the subnet that is nobody else's. */
  ghost predicate GoodGrant(nodes: Nodes, pool: Pool, gateway: AddrText, granted: map<string, Prefix>, n: string)
    requires pool.Pool? && n in granted
  {
    var a := granted[n].addr;
    && granted[n].bits == pool.network.bits
    && Available(pool, gateway, a) && Contains(pool.network, a)
    && a != First(pool.network) && (pool.ipv4 ==> a != Last(pool.network))
    && gateway != AnAddr(a)
    && (forall m :: !Declares(nodes, pool.ipv4, m, a))
    && (forall m :: m in granted && m != n ==> granted[m].addr != a)
  }

  lemma {:induction false} UndeclaredDistinct(nodes: Nodes, pool: Pool, walk: seq<string>)
    requires NoDuplicates(walk)
    ensures NoDuplicates(UndeclaredIn(nodes, pool, walk))
    decreases |walk|
  {
    if |walk| > 0 {
      UndeclaredDistinct(nodes, pool, walk[..|walk| - 1]);
    }
  }

  /** Kubernetes names hold no NUL. */
  ghost predicate PlainNames(nodes: Nodes) {
    "" !in nodes && forall n :: n in nodes ==> '\0' !in n
  }

  /** The identity of a Node determines its name. */
  lemma IdentityInjective(nodes: Nodes, m: string, n: string)
    requires '\0' !in m && '\0' !in n && Identity(nodes)(m) == Identity(nodes)(n)
    ensures m == n
  {
    var u := if m in nodes then nodes[m].uid else "";
    var v := if n in nodes then nodes[n].uid else "";
    var a, b := u + "\0" + m, v + "\0" + n;
    assert a == b;
    LastNul(u, m);
    LastNul(v, n);
    assert m == a[|u| + 1..] && n == b[|v| + 1..];
  }

  lemma LastNul(u: string, m: string)
    requires '\0' !in m
    ensures var a := u + "\0" + m;
            a[|u|] == '\0' && forall i :: |u| < i < |a| ==> a[i] != '\0'
  {
    var a := u + "\0" + m;
    forall i | |u| < i < |a| ensures a[i] != '\0' {
      assert a[i] == m[i - |u| - 1];
    }
  }

  lemma UndeclaredKeysDistinct(nodes: Nodes, pool: Pool, walk: seq<string>)
    requires PlainNames(nodes) && Walks(walk, nodes.Keys)
    ensures DistinctKeys(UndeclaredIn(nodes, pool, walk), Identity(nodes))
    ensures NoDuplicates(Sort(UndeclaredIn(nodes, pool, walk), Identity(nodes)))
  {
    var names, key := UndeclaredIn(nodes, pool, walk), Identity(nodes);
    UndeclaredDistinct(nodes, pool, walk);
    forall i, j | 0 <= i < j < |names| ensures key(names[i]) != key(names[j]) {
      assert names[i] in names && names[j] in names;
      if key(names[i]) == key(names[j]) {
        IdentityInjective(nodes, names[i], names[j]);
      }
    }
    SortSorted(names, key);
    var sorted := Sort(names, key);
    forall i, j | 0 <= i < j < |sorted| ensures sorted[i] != sorted[j] {
      LessIrreflexive(key(sorted[i]));
    }
  }

  /** For every digest function: exactly the undeclared Nodes get an address, each a usable host of
      the subnet inside the allocation range, different from the gateway, from every declared
      address and from every other allocated one. */
  lemma AllocationIsSafe(nodes: Nodes, pool: Pool, gateway: AddrText, hash: Hash, walks: Ranges)
    requires pool.Pool? && SoundPool(pool) && PlainNames(nodes) && RangesOver(walks, nodes)
    requires Allocate(nodes, pool, gateway, hash, walks).Ok?
    ensures var granted := Allocate(nodes, pool, gateway, hash, walks).value;
            && (forall n :: n in granted <==> IsUndeclared(nodes, pool, n))
            && (forall n :: n in granted ==> GoodGrant(nodes, pool, gateway, granted, n))
  {
    var declared, reserved, t, names, book := Unfold(nodes, pool, gateway, hash, walks);
    UndeclaredKeysDistinct(nodes, pool, walks.names);
    ReserveAllExact(nodes, pool.ipv4, InRange(pool), walks.reserve);
    ReservedNamed(nodes, pool, gateway, walks.reserve, declared, reserved, t.gateway);
    AllocateAllBooked(nodes, t, reserved, names, MaxAttempts(|nodes|));
    forall n | n in book.granted ensures GoodGrant(nodes, pool, gateway, book.granted, n) {
      GrantIsGood(nodes, t, gateway, walks.reserve, declared, reserved, book, n);
    }
  }

  /** The stages of a successful allocation. */
  lemma Unfold(nodes: Nodes, pool: Pool, gateway: AddrText, hash: Hash, walks: Ranges)
    returns (declared: Reserved, reserved: Reserved, t: Terms, names: seq<string>, book: Book)
    requires pool.Pool? && SoundPool(pool) && RangesOver(walks, nodes)
    requires Allocate(nodes, pool, gateway, hash, walks).Ok?
    ensures t == Terms(pool, t.gateway, hash)
    ensures ReserveAll(nodes, pool.ipv4, InRange(pool), walks.reserve) == Ok(declared)
    ensures BookGateway(pool, gateway, declared) == Ok((t.gateway, reserved))
    ensures names == NamesToGrant(nodes, pool, walks.names)
    ensures forall n :: n in names <==> IsUndeclared(nodes, pool, n)
    ensures AllocateAll(nodes, t, reserved, names, MaxAttempts(|nodes|)) == Ok(book)
    ensures Allocate(nodes, pool, gateway, hash, walks) == Ok(book.granted)
  {
    declared := ReserveAll(nodes, pool.ipv4, InRange(pool), walks.reserve).value;
    var (g, rest) := BookGateway(pool, gateway, declared).value;
    reserved, t := rest, Terms(pool, g, hash);
    var listed := UndeclaredIn(nodes, pool, walks.names);
    names := Sort(listed, Identity(nodes));
    SameElements(names, listed);
    book := AllocateAll(nodes, t, reserved, names, MaxAttempts(|nodes|)).value;
  }

  lemma ReservedNamed(nodes: Nodes, pool: Pool, gateway: AddrText, walk: seq<string>, declared: Reserved,
                      reserved: Reserved, g: Option<Addr>)
    requires pool.Pool? && "" !in nodes && (forall n :: n in walk ==> n in nodes)
    requires TableOf(nodes, pool.ipv4, InRange(pool), walk, declared)
    requires BookGateway(pool, gateway, declared) == Ok((g, reserved))
    ensures forall a :: a in reserved ==> reserved[a] != ""
  {
    forall a | a in declared ensures declared[a] != "" {
      assert declared[a] in walk && Reserves(nodes, pool.ipv4, InRange(pool), declared[a], a);
    }
  }

  lemma DeclaredIsReserved(nodes: Nodes, pool: Pool, gateway: AddrText, walk: seq<string>, declared: Reserved,
                           reserved: Reserved, g: Option<Addr>, m: string, a: Addr)
    requires pool.Pool? && Walks(walk, nodes.Keys)
    requires TableOf(nodes, pool.ipv4, InRange(pool), walk, declared)
    requires BookGateway(pool, gateway, declared) == Ok((g, reserved))
    requires Declares(nodes, pool.ipv4, m, a) && Contains(pool.allocation, a)
    ensures a in reserved
  {
    assert Reserves(nodes, pool.ipv4, InRange(pool), m, a) && m in walk;
    assert a in declared;
  }

  lemma GrantIsGood(nodes: Nodes, t: Terms, gateway: AddrText, walk: seq<string>, declared: Reserved,
                    reserved: Reserved, book: Book, n: string)
    requires t.pool.Pool? && SoundPool(t.pool) && Walks(walk, nodes.Keys)
    requires TableOf(nodes, t.pool.ipv4, InRange(t.pool), walk, declared)
    requires BookGateway(t.pool, gateway, declared) == Ok((t.gateway, reserved))
    requires Booked(t, reserved, book) && n in book.granted
    ensures GoodGrant(nodes, t.pool, gateway, book.granted, n)
  {
    var pool, a := t.pool, book.granted[n].addr;
    assert GrantFits(t, reserved, book, n);
    UsableAvoidsSubnetEnds(pool, a, t.gateway);
    forall m ensures !Declares(nodes, pool.ipv4, m, a) {
      if Declares(nodes, pool.ipv4, m, a) {
        DeclaredIsReserved(nodes, pool, gateway, walk, declared, reserved, t.gateway, m, a);
      }
    }
    forall m | m in book.granted && m != n ensures book.granted[m].addr != a {
      assert GrantFits(t, reserved, book, m);
    }
  }

  /** Allocation is a function of the Node set: the orders in which its loops visit the map
      decide neither whether it succeeds nor what it yields. */
  lemma AllocationForgetsOrder(nodes: Nodes, pool: Pool, gateway: AddrText, hash: Hash,
                               walks: Ranges, walks': Ranges)
    requires SoundPool(pool) && PlainNames(nodes)
    requires RangesOver(walks, nodes) && RangesOver(walks', nodes)
    ensures var r, r' := Allocate(nodes, pool, gateway, hash, walks), Allocate(nodes, pool, gateway, hash, walks');
            (r.Ok? <==> r'.Ok?) && (r.Ok? ==> r == r')
  {
    if pool.Pool? {
      ReserveAllForgetsOrder(nodes, pool.ipv4, InRange(pool), walks.reserve, walks'.reserve);
      ReserveAllForgetsOrder(nodes, pool.ipv4, InRange(pool), walks'.reserve, walks.reserve);
      UndeclaredKeysDistinct(nodes, pool, walks.names);
      UndeclaredKeysDistinct(nodes, pool, walks'.names);
      var listed, listed' := UndeclaredIn(nodes, pool, walks.names), UndeclaredIn(nodes, pool, walks'.names);
      SortForgetsOrder(listed, listed', Identity(nodes));
    }
  }

  // ---------------------------------------------------------------- stability

  lemma {:induction false} MoreAttemptsSameProbe(t: Terms, reserved: Reserved, seed: string, from: nat, fewer: nat,
                                                 more: nat)
    requires t.pool.Pool? && fewer <= more
    requires Probe(t, reserved, seed, from, fewer).Some?
    ensures Probe(t, reserved, seed, from, more) == Probe(t, reserved, seed, from, fewer)
    decreases fewer - from
  {
    if !Free(t, reserved, Candidate(t, seed, from)) {
      MoreAttemptsSameProbe(t, reserved, seed, from + 1, fewer, more);
    }
  }

  /** With more Nodes and more attempts, the same names get the same addresses. */
  lemma {:induction false} SameNamesSameGrants(nodes: Nodes, nodes': Nodes, t: Terms, reserved: Reserved,
                                               names: seq<string>, fewer: nat, more: nat)
    requires t.pool.Pool? && SoundPool(t.pool) && fewer <= more
    requires forall n :: n in names ==> n in nodes && n in nodes' && nodes[n] == nodes'[n]
    requires AllocateAll(nodes, t, reserved, names, fewer).Ok?
    ensures AllocateAll(nodes', t, reserved, names, more) == AllocateAll(nodes, t, reserved, names, fewer)
    decreases |names|
  {
    if |names| > 0 {
      var k := |names| - 1;
      var name := names[k];
      assert name in names;
      SameNamesSameGrants(nodes, nodes', t, reserved, names[..k], fewer, more);
      var book := AllocateAll(nodes, t, reserved, names[..k], fewer).value;
      MoreAttemptsSameProbe(t, book.reserved, Seed(nodes, name), 0, fewer, more);
    }
  }

  /** One more name takes one more grant and leaves the others alone. */
  lemma AllocateSnoc(nodes: Nodes, t: Terms, reserved: Reserved, init: seq<string>, last: string, attempts: nat)
    requires t.pool.Pool? && SoundPool(t.pool) && AllocateAll(nodes, t, reserved, init + [last], attempts).Ok?
    ensures AllocateAll(nodes, t, reserved, init, attempts).Ok?
    ensures var all, part := AllocateAll(nodes, t, reserved, init + [last], attempts).value.granted,
                             AllocateAll(nodes, t, reserved, init, attempts).value.granted;
            last in all && all == part[last := all[last]]
  {
    assert (init + [last])[..|init|] == init;
  }

  lemma {:induction false} GrantedAll(nodes: Nodes, t: Terms, reserved: Reserved, names: seq<string>, attempts: nat,
                                      n: string)
    requires t.pool.Pool? && SoundPool(t.pool) && AllocateAll(nodes, t, reserved, names, attempts).Ok? && n in names
    ensures n in AllocateAll(nodes, t, reserved, names, attempts).value.granted
    decreases |names|
  {
    var init, last := names[..|names| - 1], names[|names| - 1];
    assert names == init + [last];
    AllocateSnoc(nodes, t, reserved, init, last, attempts);
    if n != last {
      GrantedAll(nodes, t, reserved, init, attempts, n);
    }
  }

  /** Later names do not take earlier grants back. */
  lemma {:induction false} GrantsPersist(nodes: Nodes, t: Terms, reserved: Reserved, names: seq<string>,
                                         later: seq<string>, attempts: nat, n: string)
    requires t.pool.Pool? && SoundPool(t.pool) && n in names && n !in later
    requires AllocateAll(nodes, t, reserved, names + later, attempts).Ok?
    ensures AllocateAll(nodes, t, reserved, names, attempts).Ok?
    ensures var all, part := AllocateAll(nodes, t, reserved, names + later, attempts).value.granted,
                             AllocateAll(nodes, t, reserved, names, attempts).value.granted;
            n in part && n in all && all[n] == part[n]
    decreases |later|
  {
    if |later| == 0 {
      assert names + later == names;
      GrantedAll(nodes, t, reserved, names, attempts, n);
    } else {
      var init, last := later[..|later| - 1], later[|later| - 1];
      assert names + later == names + init + [last];
      AllocateSnoc(nodes, t, reserved, names + init, last, attempts);
      GrantsPersist(nodes, t, reserved, names, init, attempts, n);
    }
  }

  /** `more` is the Node set with the undeclared Node `m` added. */
  ghost predicate Joins(nodes: Nodes, more: Nodes, pool: Pool, m: string) {
    && m !in nodes && more.Keys == nodes.Keys + {m} && IsUndeclared(more, pool, m)
    && forall x :: x in nodes ==> x in more && more[x] == nodes[x]
  }

  /** Adding an undeclared Node books nothing new. */
  lemma NewcomerBooksNothing(nodes: Nodes, more: Nodes, pool: Pool, m: string, walk: seq<string>, walk': seq<string>)
    requires pool.Pool? && "" !in more && Joins(nodes, more, pool, m)
    requires Walks(walk, nodes.Keys) && Walks(walk', more.Keys)
    requires ReserveAll(nodes, pool.ipv4, InRange(pool), walk).Ok?
    requires ReserveAll(more, pool.ipv4, InRange(pool), walk').Ok?
    ensures ReserveAll(more, pool.ipv4, InRange(pool), walk') == ReserveAll(nodes, pool.ipv4, InRange(pool), walk)
  {
    var ipv4, keep := pool.ipv4, InRange(pool);
    ReserveAllExact(nodes, ipv4, keep, walk);
    ReserveAllExact(more, ipv4, keep, walk');
    SameTable(nodes, more, ipv4, keep, walk, walk',
      ReserveAll(nodes, ipv4, keep, walk).value, ReserveAll(more, ipv4, keep, walk').value);
  }

  lemma PrependKeepsDistinct(x: string, s: seq<string>, key: string -> string)
    requires DistinctKeys(s, key) && forall y :: y in s ==> key(y) != key(x)
    ensures DistinctKeys([x] + s, key)
  {
    var all := [x] + s;
    forall i, j | 0 <= i < j < |all| ensures key(all[i]) != key(all[j]) {
      assert all[j] == s[j - 1] && s[j - 1] in s;
      if i > 0 { assert all[i] == s[i - 1]; }
    }
  }

  /** The names to allocate for, in order. */
  function NamesToGrant(nodes: Nodes, pool: Pool, walk: seq<string>): seq<string> {
    Sort(UndeclaredIn(nodes, pool, walk), Identity(nodes))
  }

  /** The newcomer is slotted in after a prefix that stays as it was. */
  lemma NewcomerSlotsIn(nodes: Nodes, more: Nodes, pool: Pool, m: string, walk: seq<string>, walk': seq<string>)
    returns (k: nat)
    requires PlainNames(more) && Joins(nodes, more, pool, m)
    requires Walks(walk, nodes.Keys) && Walks(walk', more.Keys)
    ensures var names, names' := NamesToGrant(nodes, pool, walk), NamesToGrant(more, pool, walk');
            && k <= |names| < |names'| && names'[..k] == names[..k]
            && (k < |names| ==> Less(Identity(more)(m), Identity(nodes)(names[k])))
  {
    var listed, listed' := UndeclaredIn(nodes, pool, walk), UndeclaredIn(more, pool, walk');
    var key' := Identity(more);
    NewcomerListed(nodes, more, pool, m, walk, walk');
    var names := Sort(listed, key');
    SortPrepended(m, listed, listed', key');
    k := InsertKeepsPrefix(m, names, key');
    if k < |names| {
      SameElements(names, listed);
      assert names[k] in listed;
    }
  }

  lemma SortPrepended(m: string, listed: seq<string>, listed': seq<string>, key: string -> string)
    requires forall n :: n in [m] + listed <==> n in listed'
    requires DistinctKeys([m] + listed, key) && DistinctKeys(listed', key)
    ensures Sort(listed', key) == Insert(m, Sort(listed, key), key)
  {
    SortForgetsOrder(listed', [m] + listed, key);
    assert ([m] + listed)[1..] == listed && ([m] + listed)[0] == m;
  }

  lemma NewcomerListed(nodes: Nodes, more: Nodes, pool: Pool, m: string, walk: seq<string>, walk': seq<string>)
    requires PlainNames(more) && Joins(nodes, more, pool, m)
    requires Walks(walk, nodes.Keys) && Walks(walk', more.Keys)
    ensures var listed, listed' := UndeclaredIn(nodes, pool, walk), UndeclaredIn(more, pool, walk');
            && (forall n :: n in [m] + listed <==> n in listed')
            && (forall n :: n in listed ==> Identity(nodes)(n) == Identity(more)(n))
            && DistinctKeys([m] + listed, Identity(more)) && DistinctKeys(listed', Identity(more))
            && Sort(listed, Identity(nodes)) == Sort(listed, Identity(more))
  {
    var listed, listed' := UndeclaredIn(nodes, pool, walk), UndeclaredIn(more, pool, walk');
    var key, key' := Identity(nodes), Identity(more);
    UndeclaredKeysDistinct(nodes, pool, walk);
    UndeclaredKeysDistinct(more, pool, walk');
    forall n | n in listed ensures key(n) == key'(n) && n != m {}
    assert DistinctKeys(listed, key') by {
      forall i, j | 0 <= i < j < |listed| ensures key'(listed[i]) != key'(listed[j]) {
        assert listed[i] in listed && listed[j] in listed && key(listed[i]) != key(listed[j]);
      }
    }
    SortCongruent(listed, key, key');
    forall n ensures n in [m] + listed <==> n in listed' {
      assert n in [m] + listed <==> n == m || n in listed;
    }
    forall n | n in listed ensures key'(n) != key'(m) {
      if key'(m) == key'(n) { IdentityInjective(more, m, n); }
    }
    PrependKeepsDistinct(m, listed, key');
  }

  /** Prefix stability: adding an undeclared Node leaves the address of every undeclared Node
      before it in (UID, name) order unchanged, although the number of attempts grows. */
  lemma AllocationIsPrefixStable(nodes: Nodes, more: Nodes, pool: Pool, gateway: AddrText, hash: Hash,
                                 m: string, walks: Ranges, walks': Ranges, n: string)
    requires pool.Pool? && SoundPool(pool) && PlainNames(more) && Joins(nodes, more, pool, m)
    requires RangesOver(walks, nodes) && RangesOver(walks', more)
    requires Allocate(nodes, pool, gateway, hash, walks).Ok?
    requires Allocate(more, pool, gateway, hash, walks').Ok?
    requires IsUndeclared(nodes, pool, n) && Less(Identity(nodes)(n), Identity(more)(m))
    ensures var before := Allocate(nodes, pool, gateway, hash, walks).value;
            var after := Allocate(more, pool, gateway, hash, walks').value;
            n in before && n in after && after[n] == before[n]
  {
    var t, reserved, book, book' := UnfoldBoth(nodes, more, pool, gateway, hash, m, walks, walks');
    var common, later, later' := NewcomerPrefix(nodes, more, pool, m, walks.names, walks'.names, n);
    assert |nodes| <= |more| by { SubsetCard(nodes.Keys, more.Keys); }
    StablePrefix(nodes, more, t, reserved, common, later, later', n);
  }

  /** Both allocations grant under the same terms and from the same reservations. */
  lemma UnfoldBoth(nodes: Nodes, more: Nodes, pool: Pool, gateway: AddrText, hash: Hash, m: string,
                   walks: Ranges, walks': Ranges)
    returns (t: Terms, reserved: Reserved, book: Book, book': Book)
    requires pool.Pool? && SoundPool(pool) && "" !in more && Joins(nodes, more, pool, m)
    requires RangesOver(walks, nodes) && RangesOver(walks', more)
    requires Allocate(nodes, pool, gateway, hash, walks).Ok?
    requires Allocate(more, pool, gateway, hash, walks').Ok?
    ensures t.pool == pool
    ensures forall x :: x in NamesToGrant(nodes, pool, walks.names) ==> x in nodes
    ensures AllocateAll(nodes, t, reserved, NamesToGrant(nodes, pool, walks.names), MaxAttempts(|nodes|)) == Ok(book)
    ensures AllocateAll(more, t, reserved, NamesToGrant(more, pool, walks'.names), MaxAttempts(|more|)) == Ok(book')
    ensures Allocate(nodes, pool, gateway, hash, walks) == Ok(book.granted)
    ensures Allocate(more, pool, gateway, hash, walks') == Ok(book'.granted)
  {
    var d, d', r', t', names, names';
    d, reserved, t, names, book := Unfold(nodes, pool, gateway, hash, walks);
    d', r', t', names', book' := Unfold(more, pool, gateway, hash, walks');
    NewcomerBooksNothing(nodes, more, pool, m, walks.reserve, walks'.reserve);
    assert d == d';
  }

  /** The names up to `n` come first, in the same order, with and without the newcomer. */
  lemma NewcomerPrefix(nodes: Nodes, more: Nodes, pool: Pool, m: string, walk: seq<string>, walk': seq<string>,
                       n: string)
    returns (common: seq<string>, later: seq<string>, later': seq<string>)
    requires PlainNames(more) && Joins(nodes, more, pool, m)
    requires Walks(walk, nodes.Keys) && Walks(walk', more.Keys)
    requires IsUndeclared(nodes, pool, n) && Less(Identity(nodes)(n), Identity(more)(m))
    ensures NamesToGrant(nodes, pool, walk) == common + later && NamesToGrant(more, pool, walk') == common + later'
    ensures n in common && n !in later && n !in later'
    ensures forall x :: x in common ==> x in nodes && x in more && nodes[x] == more[x]
  {
    var names, names' := NamesToGrant(nodes, pool, walk), NamesToGrant(more, pool, walk');
    var k := NewcomerCut(nodes, more, pool, m, walk, walk', n);
    common, later, later' := SplitCommon(names, names', k, n);
    SameElements(names, UndeclaredIn(nodes, pool, walk));
    forall x | x in common ensures x in nodes && x in more && nodes[x] == more[x] {
      assert x in names;
    }
  }

  lemma NewcomerCut(nodes: Nodes, more: Nodes, pool: Pool, m: string, walk: seq<string>, walk': seq<string>, n: string)
    returns (k: nat)
    requires PlainNames(more) && Joins(nodes, more, pool, m)
    requires Walks(walk, nodes.Keys) && Walks(walk', more.Keys)
    requires IsUndeclared(nodes, pool, n) && Less(Identity(nodes)(n), Identity(more)(m))
    ensures var names, names' := NamesToGrant(nodes, pool, walk), NamesToGrant(more, pool, walk');
            && k <= |names| && k <= |names'| && names[..k] == names'[..k] && n in names[..k]
            && NoDuplicates(names) && NoDuplicates(names')
  {
    var names := NamesToGrant(nodes, pool, walk);
    k := NewcomerSlotsIn(nodes, more, pool, m, walk, walk');
    UndeclaredKeysDistinct(nodes, pool, walk);
    UndeclaredKeysDistinct(more, pool, walk');
    SortSorted(UndeclaredIn(nodes, pool, walk), Identity(nodes));
    assert n in names by {
      assert n in walk && n in UndeclaredIn(nodes, pool, walk);
      SameElements(names, UndeclaredIn(nodes, pool, walk));
    }
    SmallerComesBefore(names, Identity(nodes), Identity(more)(m), k, n);
  }

  lemma SplitCommon(names: seq<string>, names': seq<string>, k: nat, n: string)
    returns (common: seq<string>, later: seq<string>, later': seq<string>)
    requires k <= |names| && k <= |names'| && names[..k] == names'[..k] && n in names[..k]
    requires NoDuplicates(names) && NoDuplicates(names')
    ensures names == common + later && names' == common + later' && n in common && n !in later && n !in later'
  {
    common, later, later' := names[..k], names[k..], names'[k..];
    assert names == common + later && names' == common + later';
    SplitApart(common, later, n);
    SplitApart(common, later', n);
  }

  lemma SplitApart(a: seq<string>, b: seq<string>, n: string)
    requires NoDuplicates(a + b) && n in a
    ensures n !in b
  {
    var i :| 0 <= i < |a| && a[i] == n;
    forall j | 0 <= j < |b| ensures b[j] != n {
      assert (a + b)[i] == n && (a + b)[|a| + j] == b[j];
    }
  }

  lemma StablePrefix(nodes: Nodes, more: Nodes, t: Terms, reserved: Reserved, common: seq<string>,
                     later: seq<string>, later': seq<string>, n: string)
    requires t.pool.Pool? && SoundPool(t.pool) && n in common && n !in later && n !in later' && |nodes| <= |more|
    requires forall x :: x in common ==> x in nodes && x in more && nodes[x] == more[x]
    requires AllocateAll(nodes, t, reserved, common + later, MaxAttempts(|nodes|)).Ok?
    requires AllocateAll(more, t, reserved, common + later', MaxAttempts(|more|)).Ok?
    ensures var before := AllocateAll(nodes, t, reserved, common + later, MaxAttempts(|nodes|)).value.granted;
            var after := AllocateAll(more, t, reserved, common + later', MaxAttempts(|more|)).value.granted;
            n in before && n in after && before[n] == after[n]
  {
    GrantsPersist(nodes, t, reserved, common, later, MaxAttempts(|nodes|), n);
    GrantsPersist(more, t, reserved, common, later', MaxAttempts(|more|), n);
    SameNamesSameGrants(nodes, more, t, reserved, common, MaxAttempts(|nodes|), MaxAttempts(|more|));
  }
}
