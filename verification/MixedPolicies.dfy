/** Nodes of one namespace under different management policies. Every policy is compiled over all
    Nodes of the namespace, so an allocated address avoids every declared one; two allocations under
    different policies do not know of each other.
  */
module MixedPolicies {
  import opened Wrappers
  import opened Ordering
  import opened Addresses
  import opened Management
  import opened ManagementPlans

  // ---------------------------------------------------------------- when two allocations can collide

  /** The gateway is one that allocation accepts. */
  predicate GatewayFits(pool: Pool, gateway: AddrText)
    requires pool.Pool?
  {
    gateway.NoAddr? || (gateway.AnAddr? && gateway.addr.v4 == pool.ipv4 && Contains(pool.network, gateway.addr))
  }

  /** Under both, two Nodes can be served and one of the addresses is common. */
  ghost predicate Overlap(pool: Pool, gateway: AddrText, pool': Pool, gateway': AddrText, a: Addr)
    requires pool.Pool? && pool'.Pool?
  {
    && Available(pool, gateway, a) && (exists b :: b != a && Available(pool, gateway, b))
    && Available(pool', gateway', a) && (exists b :: b != a && Available(pool', gateway', b))
  }

  /** The two do not offer the same addresses. */
  ghost predicate Differ(pool: Pool, gateway: AddrText, pool': Pool, gateway': AddrText)
    requires pool.Pool? && pool'.Pool?
  {
    || pool.allocation.bits != pool'.allocation.bits
    || exists g :: Available(pool, gateway, g) != Available(pool', gateway', g)
  }

  /** Can two allocations hand one address to two Nodes? */
  ghost predicate CanCollide(pool: Pool, gateway: AddrText, pool': Pool, gateway': AddrText)
    requires pool.Pool? && pool'.Pool?
  {
    && GatewayFits(pool, gateway) && GatewayFits(pool', gateway')
    && (exists a :: Overlap(pool, gateway, pool', gateway', a))
    && Differ(pool, gateway, pool', gateway')
  }

  /** They do: `m` gets under the first what `n` gets under the second. */
  ghost predicate Collide(pool: Pool, gateway: AddrText, pool': Pool, gateway': AddrText, nodes: Nodes, hash: Hash,
                          walks: Ranges, walks': Ranges, m: string, n: string)
    requires pool.Pool? && SoundPool(pool) && pool'.Pool? && SoundPool(pool')
  {
    && PlainNames(nodes) && RangesOver(walks, nodes) && RangesOver(walks', nodes) && m != n
    && Allocate(nodes, pool, gateway, hash, walks).Ok?
    && Allocate(nodes, pool', gateway', hash, walks').Ok?
    && m in Allocate(nodes, pool, gateway, hash, walks).value
    && n in Allocate(nodes, pool', gateway', hash, walks').value
    && Allocate(nodes, pool, gateway, hash, walks).value[m].addr ==
       Allocate(nodes, pool', gateway', hash, walks').value[n].addr
  }

  // ------------------------------------------------ only then

  /** What is free is the same in both tables, as far as it is available at all. */
  ghost predicate SameFree(pool: Pool, gateway: AddrText, r: Reserved, r': Reserved)
    requires pool.Pool?
  {
    forall a :: Available(pool, gateway, a) ==> (Holder(r, a) == "" <==> Holder(r', a) == "")
  }

  /** The same range, and the same addresses of it to offer. */
  ghost predicate SameOffer(pool: Pool, gateway: AddrText, pool': Pool, gateway': AddrText)
    requires pool.Pool? && pool'.Pool?
  {
    && pool.ipv4 == pool'.ipv4 && pool.allocation.addr.v4 == pool'.allocation.addr.v4
    && pool.allocation.bits == pool'.allocation.bits
    && (forall i: nat :: i < pool.allocation.bits ==>
          Bit(pool.allocation.addr.bytes, i) == Bit(pool'.allocation.addr.bytes, i))
    && (forall a :: Available(pool, gateway, a) == Available(pool', gateway', a))
  }

  lemma SameProbe(t: Terms, gateway: AddrText, t': Terms, gateway': AddrText, r: Reserved, r': Reserved,
                  seed: string, from: nat, attempts: nat)
    requires t.pool.Pool? && t'.pool.Pool? && SameOffer(t.pool, gateway, t'.pool, gateway') && t.hash == t'.hash
    requires t.gateway == GatewayAddr(gateway) && t'.gateway == GatewayAddr(gateway')
    requires SameFree(t.pool, gateway, r, r')
    ensures Probe(t, r, seed, from, attempts) == Probe(t', r', seed, from, attempts)
    decreases attempts - from
  {
    if from < attempts {
      var d := t.hash(seed, from);
      HostBitsSame(t.pool.allocation, t'.pool.allocation, DigestFrom(d, t.pool.allocation.bits));
      HashedContained(t.pool.allocation, d);
      HashedContained(t'.pool.allocation, d);
      var a := Candidate(t, seed, from);
      assert a == Candidate(t', seed, from);
      assert Available(t.pool, gateway, a) == Available(t'.pool, gateway', a);
      SameProbe(t, gateway, t', gateway', r, r', seed, from + 1, attempts);
    }
  }

  /** Both hand out the same addresses. */
  ghost predicate SameGrants(granted: map<string, Prefix>, granted': map<string, Prefix>) {
    granted.Keys == granted'.Keys && forall n :: n in granted ==> granted[n].addr == granted'[n].addr
  }

  /** Booking one address for one name in both tables keeps them alike. */
  lemma SameBooking(pool: Pool, gateway: AddrText, book: Book, book': Book, name: string, p: Prefix, p': Prefix)
    requires pool.Pool? && name != "" && p.addr == p'.addr
    requires SameFree(pool, gateway, book.reserved, book'.reserved) && SameGrants(book.granted, book'.granted)
    ensures SameFree(pool, gateway, book.reserved[p.addr := name], book'.reserved[p.addr := name])
    ensures SameGrants(book.granted[name := p], book'.granted[name := p'])
  {
  }

  lemma SameGrantStep(nodes: Nodes, t: Terms, gateway: AddrText, t': Terms, gateway': AddrText,
                      book: Book, book': Book, name: string, attempts: nat)
    requires t.pool.Pool? && SoundPool(t.pool) && t'.pool.Pool? && SoundPool(t'.pool) && t.hash == t'.hash
    requires SameOffer(t.pool, gateway, t'.pool, gateway') && name != ""
    requires t.gateway == GatewayAddr(gateway) && t'.gateway == GatewayAddr(gateway')
    requires SameFree(t.pool, gateway, book.reserved, book'.reserved) && SameGrants(book.granted, book'.granted)
    requires AllocateOne(nodes, t, book, name, attempts).Ok? && AllocateOne(nodes, t', book', name, attempts).Ok?
    ensures var next, next' := AllocateOne(nodes, t, book, name, attempts).value,
                               AllocateOne(nodes, t', book', name, attempts).value;
            SameFree(t.pool, gateway, next.reserved, next'.reserved) && SameGrants(next.granted, next'.granted)
  {
    SameProbe(t, gateway, t', gateway', book.reserved, book'.reserved, Seed(nodes, name), 0, attempts);
    var next, next' := AllocateOne(nodes, t, book, name, attempts).value,
                       AllocateOne(nodes, t', book', name, attempts).value;
    SameBooking(t.pool, gateway, book, book', name, next.granted[name], next'.granted[name]);
  }

  lemma {:induction false} SameOfferSameGrants(nodes: Nodes, t: Terms, gateway: AddrText, t': Terms, gateway': AddrText,
                                               r: Reserved, r': Reserved, names: seq<string>, attempts: nat)
    requires t.pool.Pool? && SoundPool(t.pool) && t'.pool.Pool? && SoundPool(t'.pool) && t.hash == t'.hash
    requires SameOffer(t.pool, gateway, t'.pool, gateway')
    requires t.gateway == GatewayAddr(gateway) && t'.gateway == GatewayAddr(gateway')
    requires SameFree(t.pool, gateway, r, r') && "" !in names
    requires AllocateAll(nodes, t, r, names, attempts).Ok? && AllocateAll(nodes, t', r', names, attempts).Ok?
    ensures var book, book' := AllocateAll(nodes, t, r, names, attempts).value,
                               AllocateAll(nodes, t', r', names, attempts).value;
            SameFree(t.pool, gateway, book.reserved, book'.reserved) && SameGrants(book.granted, book'.granted)
    decreases |names|
  {
    if |names| > 0 {
      var k := |names| - 1;
      var name := names[k];
      assert name in names;
      SameOfferSameGrants(nodes, t, gateway, t', gateway', r, r', names[..k], attempts);
      var book, book' := AllocateAll(nodes, t, r, names[..k], attempts).value,
                         AllocateAll(nodes, t', r', names[..k], attempts).value;
      SameGrantStep(nodes, t, gateway, t', gateway', book, book', name, attempts);
    }
  }

  /** Before the first grant the same addresses are free: those that nobody declares. */
  lemma SameDeclaredFree(nodes: Nodes, pool: Pool, gateway: AddrText, pool': Pool, gateway': AddrText,
                         walk: seq<string>, d: Reserved, d': Reserved, r: Reserved, r': Reserved,
                         g: Option<Addr>, g': Option<Addr>)
    requires pool.Pool? && pool'.Pool? && "" !in nodes && Walks(walk, nodes.Keys)
    requires SameOffer(pool, gateway, pool', gateway')
    requires TableOf(nodes, pool.ipv4, InRange(pool), walk, d) && TableOf(nodes, pool'.ipv4, InRange(pool'), walk, d')
    requires BookGateway(pool, gateway, d) == Ok((g, r)) && BookGateway(pool', gateway', d') == Ok((g', r'))
    ensures SameFree(pool, gateway, r, r')
  {
    forall a | Available(pool, gateway, a) ensures Holder(r, a) == "" <==> Holder(r', a) == "" {
      assert Available(pool', gateway', a);
      assert (a in r <==> a in d) && (a in r' <==> a in d');
      DeclaredIffBooked(nodes, pool, walk, d, a);
      DeclaredIffBooked(nodes, pool', walk, d', a);
    }
  }

  /** Two policies with the same offer allocate alike. */
  lemma SameOfferAllocatesAlike(nodes: Nodes, pool: Pool, gateway: AddrText, pool': Pool, gateway': AddrText,
                                hash: Hash, walks: Ranges)
    requires pool.Pool? && SoundPool(pool) && pool'.Pool? && SoundPool(pool')
    requires PlainNames(nodes) && RangesOver(walks, nodes) && SameOffer(pool, gateway, pool', gateway')
    requires Allocate(nodes, pool, gateway, hash, walks).Ok? && Allocate(nodes, pool', gateway', hash, walks).Ok?
    ensures SameGrants(Allocate(nodes, pool, gateway, hash, walks).value,
                       Allocate(nodes, pool', gateway', hash, walks).value)
  {
    var d, r, t, names, book := Unfold(nodes, pool, gateway, hash, walks);
    var d', r', t', names', book' := Unfold(nodes, pool', gateway', hash, walks);
    ReserveAllExact(nodes, pool.ipv4, InRange(pool), walks.reserve);
    ReserveAllExact(nodes, pool'.ipv4, InRange(pool'), walks.reserve);
    SameDeclaredFree(nodes, pool, gateway, pool', gateway', walks.reserve, d, d', r, r', t.gateway, t'.gateway);
    SameNames(nodes, pool, pool', walks.names);
    SameOfferSameGrants(nodes, t, gateway, t', gateway', r, r', names, MaxAttempts(|nodes|));
  }

  lemma {:induction false} SameUndeclared(nodes: Nodes, pool: Pool, pool': Pool, walk: seq<string>)
    requires pool.ipv4 == pool'.ipv4
    ensures UndeclaredIn(nodes, pool, walk) == UndeclaredIn(nodes, pool', walk)
    decreases |walk|
  {
    if |walk| > 0 {
      SameUndeclared(nodes, pool, pool', walk[..|walk| - 1]);
    }
  }

  lemma SameNames(nodes: Nodes, pool: Pool, pool': Pool, walk: seq<string>)
    requires pool.ipv4 == pool'.ipv4
    ensures NamesToGrant(nodes, pool, walk) == NamesToGrant(nodes, pool', walk)
  {
    SameUndeclared(nodes, pool, pool', walk);
  }

  /** Ranges of one size that share an address are the same range. */
  lemma SharedRangeIsSame(p: Prefix, q: Prefix, a: Addr)
    requires p.bits == q.bits && Contains(p, a) && Contains(q, a)
    ensures p.addr.v4 == q.addr.v4
    ensures forall i: nat :: i < p.bits ==> Bit(p.addr.bytes, i) == Bit(q.addr.bytes, i)
  {
    forall i: nat | i < p.bits ensures Bit(p.addr.bytes, i) == Bit(q.addr.bytes, i) {
      assert Bit(a.bytes, i) == Bit(p.addr.bytes, i);
    }
  }

  lemma SameOfferNeverCollides(pool: Pool, gateway: AddrText, pool': Pool, gateway': AddrText, nodes: Nodes, hash: Hash,
                               walks: Ranges, walks': Ranges, m: string, n: string)
    requires pool.Pool? && SoundPool(pool) && pool'.Pool? && SoundPool(pool')
    requires SameOffer(pool, gateway, pool', gateway')
    ensures !Collide(pool, gateway, pool', gateway', nodes, hash, walks, walks', m, n)
  {
    if Collide(pool, gateway, pool', gateway', nodes, hash, walks, walks', m, n) {
      AllocationForgetsOrder(nodes, pool', gateway', hash, walks', walks);
      SameOfferAllocatesAlike(nodes, pool, gateway, pool', gateway', hash, walks);
      AllocationIsSafe(nodes, pool, gateway, hash, walks);
    }
  }

  lemma CollisionOverlaps(pool: Pool, gateway: AddrText, pool': Pool, gateway': AddrText, nodes: Nodes, hash: Hash,
                          walks: Ranges, walks': Ranges, m: string, n: string)
    requires pool.Pool? && SoundPool(pool) && pool'.Pool? && SoundPool(pool')
    requires Collide(pool, gateway, pool', gateway', nodes, hash, walks, walks', m, n)
    ensures pool.ipv4 == pool'.ipv4
    ensures Overlap(pool, gateway, pool', gateway', Allocate(nodes, pool, gateway, hash, walks).value[m].addr)
  {
    var granted := Allocate(nodes, pool, gateway, hash, walks).value;
    var granted' := Allocate(nodes, pool', gateway', hash, walks').value;
    AllocationIsSafe(nodes, pool, gateway, hash, walks);
    AllocationIsSafe(nodes, pool', gateway', hash, walks');
    assert GoodGrant(nodes, pool, gateway, granted, m) && GoodGrant(nodes, pool', gateway', granted', n);
    assert pool.ipv4 == pool'.ipv4;
    assert GoodGrant(nodes, pool, gateway, granted, n) && GoodGrant(nodes, pool', gateway', granted', m);
  }

  lemma AllocationFitsGateway(pool: Pool, gateway: AddrText, nodes: Nodes, hash: Hash, walks: Ranges)
    requires pool.Pool? && SoundPool(pool) && Allocate(nodes, pool, gateway, hash, walks).Ok?
    ensures GatewayFits(pool, gateway)
  {
  }

  /** Two allocations that collide overlap in what they offer, and do not offer the same. */
  lemma CollisionNeeds(pool: Pool, gateway: AddrText, pool': Pool, gateway': AddrText, nodes: Nodes, hash: Hash,
                       walks: Ranges, walks': Ranges, m: string, n: string)
    requires pool.Pool? && SoundPool(pool) && pool'.Pool? && SoundPool(pool')
    requires Collide(pool, gateway, pool', gateway', nodes, hash, walks, walks', m, n)
    ensures CanCollide(pool, gateway, pool', gateway')
  {
    AllocationFitsGateway(pool, gateway, nodes, hash, walks);
    AllocationFitsGateway(pool', gateway', nodes, hash, walks');
    CollisionOverlaps(pool, gateway, pool', gateway', nodes, hash, walks, walks', m, n);
    var a := Allocate(nodes, pool, gateway, hash, walks).value[m].addr;
    if !Differ(pool, gateway, pool', gateway') {
      SharedRangeIsSame(pool.allocation, pool'.allocation, a);
      SameOfferNeverCollides(pool, gateway, pool', gateway', nodes, hash, walks, walks', m, n);
    }
  }

  // ------------------------------------------------ and always then

  /** A digest with these bits. */
  function DigestWith(pattern: nat -> bool): Digest {
    Overwrite(seq(32, _ => 0), 0, 256, pattern)
  }

  lemma BitOfHashedWith(p: Prefix, pattern: nat -> bool, i: nat)
    requires i < BitLen(p.addr.v4)
    ensures Bit(Hashed(p, DigestWith(pattern)).bytes, i) ==
              if i < p.bits then Bit(p.addr.bytes, i) else pattern(i - p.bits)
  {
    var digest := DigestWith(pattern);
    BitOfHostBits(p, DigestFrom(digest, p.bits), i);
    if p.bits <= i {
      DigestFromAt(digest, p.bits, i);
      BitOfOverwrite(seq(32, _ => 0), 0, 256, pattern, i - p.bits);
    }
  }

  /** A digest with the host bits of `a` hashes to `a`. */
  lemma HashesTo(p: Prefix, pattern: nat -> bool, a: Addr)
    requires Contains(p, a)
    requires forall j: nat :: j + p.bits < BitLen(a.v4) ==> pattern(j) == Bit(a.bytes, j + p.bits)
    ensures Hashed(p, DigestWith(pattern)) == a
  {
    var b := Hashed(p, DigestWith(pattern));
    forall i: nat | i < BitLen(a.v4) ensures Bit(b.bytes, i) == Bit(a.bytes, i) {
      BitOfHashedWith(p, pattern, i);
      if p.bits <= i { assert pattern(i - p.bits) == Bit(a.bytes, i - p.bits + p.bits); }
    }
    SameBitsSameAddr(b, a);
  }

  /** The host bits of `a` in `p`. */
  function Aim(p: Prefix, a: Addr): nat -> bool
    requires a.v4 == p.addr.v4
  {
    (j: nat) => j + p.bits < BitLen(a.v4) && Bit(a.bytes, j + p.bits)
  }

  /** Every address of a range is what some digest hashes to. */
  lemma AimAt(p: Prefix, a: Addr) returns (digest: Digest)
    requires Contains(p, a)
    ensures Hashed(p, digest) == a
  {
    digest := DigestWith(Aim(p, a));
    HashesTo(p, Aim(p, a), a);
  }

  lemma AimAtBoth(p: Prefix, q: Prefix, a: Addr) returns (digest: Digest)
    requires p.bits == q.bits && p.addr.v4 == q.addr.v4 && (Contains(p, a) || Contains(q, a))
    requires forall i: nat :: i < p.bits ==> Bit(p.addr.bytes, i) == Bit(q.addr.bytes, i)
    ensures Hashed(p, digest) == a && Hashed(q, digest) == a
  {
    digest := AimAt(p, a);
    HostBitsSame(p, q, DigestFrom(digest, p.bits));
  }

  /** The host bits of `a` in `p`, with the last host bit of the wider `q` wrong. */
  function Aside(p: Prefix, q: Prefix, a: Addr): nat -> bool
    requires a.v4 == p.addr.v4 == q.addr.v4 && q.bits < p.bits
  {
    (j: nat) => if j == BitLen(a.v4) - q.bits - 1 then !Bit(a.bytes, BitLen(a.v4) - 1)
                else j + p.bits < BitLen(a.v4) && Bit(a.bytes, j + p.bits)
  }

  /** A digest that hashes to `a` in the narrower range and to something else in the wider one. */
  lemma AimAside(p: Prefix, q: Prefix, a: Addr) returns (digest: Digest)
    requires Contains(p, a) && q.addr.v4 == a.v4 && q.bits < p.bits
    ensures Hashed(p, digest) == a && Hashed(q, digest) != a
  {
    var pattern := Aside(p, q, a);
    digest := DigestWith(pattern);
    HashesTo(p, pattern, a);
    BitOfHashedWith(q, pattern, BitLen(a.v4) - 1);
  }

  const Plain := Node("", Undeclared, Undeclared, false)

  /** Two Nodes that declare nothing. */
  const Pair: Nodes := map["m" := Plain, "n" := Plain]

  const PairWalks := Ranges(["m", "n"], ["m", "n"])

  /** The digests of the first and of all later attempts. */
  function Script(m0: Digest, m1: Digest, n0: Digest, n1: Digest): Hash {
    (seed, k) => if seed == "m" then if k == 0 then m0 else m1 else if k == 0 then n0 else n1
  }

  /** The first or the second attempt for this seed ends at `x`, if `taken` is taken. */
  ghost predicate Picks(pool: Pool, gateway: AddrText, hash: Hash, seed: string, taken: Option<Addr>, x: Addr)
    requires pool.Pool?
  {
    var first, second := Hashed(pool.allocation, hash(seed, 0)), Hashed(pool.allocation, hash(seed, 1));
    && Available(pool, gateway, x) && taken != Some(x)
    && (first == x || (second == x && (taken == Some(first) || !Available(pool, gateway, first))))
  }

  lemma PickedIsProbed(t: Terms, gateway: AddrText, r: Reserved, seed: string, taken: Option<Addr>, x: Addr,
                       attempts: nat)
    requires t.pool.Pool? && t.gateway == GatewayAddr(gateway) && attempts >= 2
    requires Picks(t.pool, gateway, t.hash, seed, taken, x)
    requires forall a :: Available(t.pool, gateway, a) ==> (Holder(r, a) == "" <==> taken != Some(a))
    ensures Probe(t, r, seed, 0, attempts) == Some(x)
  {
    var first := Candidate(t, seed, 0);
    HashedContained(t.pool.allocation, t.hash(seed, 0));
    assert Free(t, r, first) <==> Available(t.pool, gateway, first) && taken != Some(first);
    if first != x {
      assert Probe(t, r, seed, 0, attempts) == Probe(t, r, seed, 1, attempts);
      assert Candidate(t, seed, 1) == x;
    }
  }

  lemma SortTwo(x: string, y: string, key: string -> string)
    requires Less(key(x), key(y))
    ensures Sort([x, y], key) == [x, y]
  {
    assert [x, y][1..] == [y] && [y][1..] == [];
    assert Sort([y], key) == [y];
  }

  lemma PairUndeclared(pool: Pool)
    ensures UndeclaredIn(Pair, pool, ["m", "n"]) == ["m", "n"]
  {
    assert ["m", "n"][..1] == ["m"] && ["m"][..0] == [];
    assert UndeclaredIn(Pair, pool, ["m"]) == ["m"];
  }

  lemma PairNames(pool: Pool)
    ensures NamesToGrant(Pair, pool, PairWalks.names) == ["m", "n"]
  {
    PairUndeclared(pool);
    LessAfterPrefix("\0", "m", "n");
    SortTwo("m", "n", Identity(Pair));
  }

  lemma PairReserves(pool: Pool)
    requires pool.Pool?
    ensures ReserveAll(Pair, pool.ipv4, InRange(pool), PairWalks.reserve) == Ok(map[])
  {
    var walk := PairWalks.reserve;
    assert walk[..1] == ["m"] && walk[..1][..0] == [];
    assert ReserveAll(Pair, pool.ipv4, InRange(pool), ["m"]) == Ok(map[]);
  }

  /** What the two Nodes get. */
  lemma PairServed(pool: Pool, gateway: AddrText, hash: Hash, x: Addr, y: Addr)
    requires pool.Pool? && SoundPool(pool) && GatewayFits(pool, gateway)
    requires Picks(pool, gateway, hash, "m", None, x) && Picks(pool, gateway, hash, "n", Some(x), y)
    ensures var r := Allocate(Pair, pool, gateway, hash, PairWalks);
            r.Ok? && "m" in r.value && "n" in r.value && r.value["m"].addr == x && r.value["n"].addr == y
  {
    PairReserves(pool);
    PairNames(pool);
    var (g, reserved) := BookGateway(pool, gateway, map[]).value;
    PairGranted(Terms(pool, g, hash), gateway, reserved, x, y, MaxAttempts(|Pair|));
  }

  lemma PairGranted(t: Terms, gateway: AddrText, reserved: Reserved, x: Addr, y: Addr, attempts: nat)
    requires t.pool.Pool? && SoundPool(t.pool) && t.gateway == GatewayAddr(gateway) && attempts >= 2
    requires forall a :: Available(t.pool, gateway, a) ==> Holder(reserved, a) == ""
    requires Picks(t.pool, gateway, t.hash, "m", None, x) && Picks(t.pool, gateway, t.hash, "n", Some(x), y)
    ensures var r := AllocateAll(Pair, t, reserved, ["m", "n"], attempts);
            && r.Ok? && "m" in r.value.granted && "n" in r.value.granted
            && r.value.granted["m"].addr == x && r.value.granted["n"].addr == y
  {
    PickedIsProbed(t, gateway, reserved, "m", None, x, attempts);
    PickedIsProbed(t, gateway, reserved[x := "m"], "n", Some(x), y, attempts);
    assert ["m", "n"][..1] == ["m"] && ["m"][..0] == [];
    assert AllocateAll(Pair, t, reserved, ["m"], attempts) ==
      Ok(Book(reserved[x := "m"], map["m" := RawPrefix(x, t.pool.network.bits)]));
  }

  /** A run of two Nodes that collide. */
  ghost predicate PairCollides(pool: Pool, gateway: AddrText, pool': Pool, gateway': AddrText, hash: Hash)
    requires pool.Pool? && SoundPool(pool) && pool'.Pool? && SoundPool(pool')
  {
    || Collide(pool, gateway, pool', gateway', Pair, hash, PairWalks, PairWalks, "m", "n")
    || Collide(pool, gateway, pool', gateway', Pair, hash, PairWalks, PairWalks, "n", "m")
  }

  lemma CollidesEitherWay(pool: Pool, gateway: AddrText, pool': Pool, gateway': AddrText, hash: Hash)
    requires pool.Pool? && SoundPool(pool) && pool'.Pool? && SoundPool(pool')
    requires PairCollides(pool', gateway', pool, gateway, hash)
    ensures PairCollides(pool, gateway, pool', gateway', hash)
  {
  }

  lemma PairIsPlain()
    ensures PlainNames(Pair) && RangesOver(PairWalks, Pair)
  {
    var walk := ["m", "n"];
    assert walk[0] != walk[1];
  }

  /** The script for ranges of different sizes: `m` gets `a` in the narrow one only. */
  lemma NarrowScript(pool: Pool, gateway: AddrText, pool': Pool, gateway': AddrText, a: Addr, b: Addr, b': Addr,
                     hash: Hash)
    requires pool.Pool? && SoundPool(pool) && pool'.Pool? && SoundPool(pool')
    requires GatewayFits(pool, gateway) && GatewayFits(pool', gateway')
    requires Available(pool, gateway, a) && Available(pool', gateway', a)
    requires Available(pool, gateway, b) && Available(pool', gateway', b') && b != a && b' != a
    requires Hashed(pool.allocation, hash("m", 0)) == a && Hashed(pool'.allocation, hash("m", 0)) != a
    requires Hashed(pool'.allocation, hash("m", 1)) == b'
    requires Hashed(pool'.allocation, hash("n", 0)) == a && Hashed(pool.allocation, hash("n", 1)) == b
    ensures PairCollides(pool, gateway, pool', gateway', hash)
  {
    var c := Hashed(pool'.allocation, hash("m", 0));
    var x' := if Available(pool', gateway', c) then c else b';
    var d := Hashed(pool.allocation, hash("n", 0));
    var y := if Available(pool, gateway, d) && d != a then d else b;
    PairServed(pool, gateway, hash, a, y);
    PairServed(pool', gateway', hash, x', a);
    PairIsPlain();
  }

  /** The script for one range: `m` goes for `g`, which only one side offers. */
  lemma OneSidedScript(pool: Pool, gateway: AddrText, pool': Pool, gateway': AddrText, a: Addr, g: Addr, b': Addr,
                       hash: Hash)
    requires pool.Pool? && SoundPool(pool) && pool'.Pool? && SoundPool(pool')
    requires GatewayFits(pool, gateway) && GatewayFits(pool', gateway')
    requires Available(pool, gateway, a) && Available(pool', gateway', a)
    requires Available(pool, gateway, g) && !Available(pool', gateway', g)
    requires Available(pool', gateway', b') && b' != a
    requires Hashed(pool.allocation, hash("m", 0)) == g && Hashed(pool.allocation, hash("n", 0)) == a
    requires Hashed(pool'.allocation, hash("m", 0)) == g && Hashed(pool'.allocation, hash("n", 0)) == a
    requires Hashed(pool'.allocation, hash("m", 1)) == a && Hashed(pool'.allocation, hash("n", 1)) == b'
    ensures PairCollides(pool, gateway, pool', gateway', hash)
  {
    PairServed(pool, gateway, hash, g, a);
    PairServed(pool', gateway', hash, a, b');
    PairIsPlain();
  }

  /** Ranges of different sizes. */
  lemma NarrowAndWide(pool: Pool, gateway: AddrText, pool': Pool, gateway': AddrText, a: Addr) returns (hash: Hash)
    requires pool.Pool? && SoundPool(pool) && pool'.Pool? && SoundPool(pool')
    requires GatewayFits(pool, gateway) && GatewayFits(pool', gateway')
    requires Overlap(pool, gateway, pool', gateway', a) && pool'.allocation.bits < pool.allocation.bits
    ensures PairCollides(pool, gateway, pool', gateway', hash)
  {
    var p, q := pool.allocation, pool'.allocation;
    var b :| b != a && Available(pool, gateway, b);
    var b' :| b' != a && Available(pool', gateway', b');
    var m0 := AimAside(p, q, a);
    var m1 := AimAt(q, b');
    var n0 := AimAt(q, a);
    var n1 := AimAt(p, b);
    hash := Script(m0, m1, n0, n1);
    NarrowScript(pool, gateway, pool', gateway', a, b, b', hash);
  }

  /** One range, and an address of it that is available on one side only. */
  lemma OneSided(pool: Pool, gateway: AddrText, pool': Pool, gateway': AddrText, a: Addr, g: Addr) returns (hash: Hash)
    requires pool.Pool? && SoundPool(pool) && pool'.Pool? && SoundPool(pool')
    requires GatewayFits(pool, gateway) && GatewayFits(pool', gateway')
    requires Overlap(pool, gateway, pool', gateway', a) && pool.allocation.bits == pool'.allocation.bits
    requires Available(pool, gateway, g) && !Available(pool', gateway', g)
    ensures PairCollides(pool, gateway, pool', gateway', hash)
  {
    var p, q := pool.allocation, pool'.allocation;
    var b' :| b' != a && Available(pool', gateway', b');
    SharedRangeIsSame(p, q, a);
    var forG := AimAtBoth(p, q, g);
    var forA := AimAtBoth(p, q, a);
    var forB := AimAtBoth(p, q, b');
    hash := Script(forG, forA, forA, forB);
    OneSidedScript(pool, gateway, pool', gateway', a, g, b', hash);
  }

  lemma CollisionComes(pool: Pool, gateway: AddrText, pool': Pool, gateway': AddrText) returns (hash: Hash)
    requires pool.Pool? && SoundPool(pool) && pool'.Pool? && SoundPool(pool')
    requires CanCollide(pool, gateway, pool', gateway')
    ensures PairCollides(pool, gateway, pool', gateway', hash)
  {
    var a :| Overlap(pool, gateway, pool', gateway', a);
    assert Overlap(pool', gateway', pool, gateway, a);
    if pool'.allocation.bits < pool.allocation.bits {
      hash := NarrowAndWide(pool, gateway, pool', gateway', a);
    } else if pool.allocation.bits < pool'.allocation.bits {
      hash := NarrowAndWide(pool', gateway', pool, gateway, a);
      CollidesEitherWay(pool, gateway, pool', gateway', hash);
    } else {
      var g :| Available(pool, gateway, g) != Available(pool', gateway', g);
      if Available(pool, gateway, g) {
        hash := OneSided(pool, gateway, pool', gateway', a, g);
      } else {
        hash := OneSided(pool', gateway', pool, gateway, a, g);
        CollidesEitherWay(pool, gateway, pool', gateway', hash);
      }
    }
  }

  /** For some Nodes and some digests two allocations collide exactly if they can: an address is offered
      by both, each offers another one besides, and they do not offer the same addresses. */
  lemma CollisionIff(pool: Pool, gateway: AddrText, pool': Pool, gateway': AddrText)
    requires pool.Pool? && SoundPool(pool) && pool'.Pool? && SoundPool(pool')
    ensures CanCollide(pool, gateway, pool', gateway') <==>
              exists nodes, hash, walks, walks', m, n ::
                Collide(pool, gateway, pool', gateway', nodes, hash, walks, walks', m, n)
  {
    if nodes, hash, walks, walks', m, n :| Collide(pool, gateway, pool', gateway', nodes, hash, walks, walks', m, n) {
      CollisionNeeds(pool, gateway, pool', gateway', nodes, hash, walks, walks', m, n);
    }
    if CanCollide(pool, gateway, pool', gateway') {
      var hash := CollisionComes(pool, gateway, pool', gateway');
    }
  }

  // ---------------------------------------------------------------- plans under two policies

  /** Two allocations of one family that never collide, or no allocation. */
  ghost predicate FamilyApart(pool: Pool, gateway: AddrText, pool': Pool, gateway': AddrText) {
    pool.Pool? && pool'.Pool? ==> !CanCollide(pool, gateway, pool', gateway')
  }

  /** The policy is one that Nodes can be planned under. */
  predicate Ready(mgmt: Option<Policy>) {
    !IsDisabled(mgmt) && Settings(mgmt).Ok? && Pools(Settings(mgmt).value).Ok?
  }

  ghost predicate PoliciesApart(mgmt: Option<Policy>, mgmt': Option<Policy>)
    requires Ready(mgmt) && Ready(mgmt')
  {
    var s, s' := Settings(mgmt).value, Settings(mgmt').value;
    && FamilyApart(Pools(s).value.0, s.gateway4, Pools(s').value.0, s'.gateway4)
    && FamilyApart(Pools(s).value.1, s.gateway6, Pools(s').value.1, s'.gateway6)
  }

  /** No address is in both allocation ranges. */
  ghost predicate RangesDisjoint(pool: Pool, pool': Pool) {
    pool.Pool? && pool'.Pool? ==> forall a :: !(Contains(pool.allocation, a) && Contains(pool'.allocation, a))
  }

  /** Policies are apart in particular if their ranges are, and if they are the same policy. */
  lemma ApartInParticular(mgmt: Option<Policy>, mgmt': Option<Policy>)
    requires Ready(mgmt) && Ready(mgmt')
    requires var p, p' := Pools(Settings(mgmt).value).value, Pools(Settings(mgmt').value).value;
             mgmt == mgmt' || (RangesDisjoint(p.0, p'.0) && RangesDisjoint(p.1, p'.1))
    ensures PoliciesApart(mgmt, mgmt')
  {
  }

  /** One family of a compiled namespace: what was allocated, and that it is sound. */
  ghost predicate FamilyAllocated(nodes: Nodes, ns: Namespace, ipv4: bool, hash: Hash, walks: Ranges) {
    && PlainNames(nodes) && RangesOver(walks, nodes) && FamilySound(nodes, ns, ipv4)
    && Allocate(nodes, PoolOf(ns, ipv4), GatewayIn(ns.settings, ipv4), hash, walks) == Ok(GrantedIn(ns, ipv4))
  }

  /** Two Nodes never come out with the same address of a family, one under each policy. */
  lemma AddressesApart(nodes: Nodes, ns: Namespace, ns': Namespace, ipv4: bool, hash: Hash, walks: Ranges,
                       walks': Ranges, m: string, n: string)
    requires FamilyAllocated(nodes, ns, ipv4, hash, walks) && FamilyAllocated(nodes, ns', ipv4, hash, walks')
    requires FamilyApart(PoolOf(ns, ipv4), GatewayIn(ns.settings, ipv4),
                         PoolOf(ns', ipv4), GatewayIn(ns'.settings, ipv4))
    requires m in nodes && n in nodes && m != n
    requires AddressFor(nodes[m], m, PoolOf(ns, ipv4), GrantedIn(ns, ipv4)).Ok?
    requires AddressFor(nodes[n], n, PoolOf(ns', ipv4), GrantedIn(ns', ipv4)).Ok?
    ensures var a := AddressFor(nodes[m], m, PoolOf(ns, ipv4), GrantedIn(ns, ipv4)).value;
            var b := AddressFor(nodes[n], n, PoolOf(ns', ipv4), GrantedIn(ns', ipv4)).value;
            a.Some? && b.Some? ==> a.value.addr != b.value.addr
  {
    AddressSource(nodes, ns, ipv4, m);
    AddressSource(nodes, ns', ipv4, n);
    var a := AddressFor(nodes[m], m, PoolOf(ns, ipv4), GrantedIn(ns, ipv4)).value;
    var b := AddressFor(nodes[n], n, PoolOf(ns', ipv4), GrantedIn(ns', ipv4)).value;
    if a.Some? && b.Some? && a.value.addr == b.value.addr {
      var x := a.value.addr;
      if Declares(nodes, ipv4, m, x) && Declares(nodes, ipv4, n, x) {
        assert Reserves(nodes, ipv4, Anywhere, m, x) && Reserves(nodes, ipv4, Anywhere, n, x);
      } else {
        CollisionNeeds(PoolOf(ns, ipv4), GatewayIn(ns.settings, ipv4), PoolOf(ns', ipv4), GatewayIn(ns'.settings, ipv4),
          nodes, hash, walks, walks', m, n);
      }
    }
  }

  /** A planned Node has the address of each family, and of that family. */
  lemma PlannedAddresses(nodes: Nodes, ns: Namespace, n: string)
    requires FamilySound(nodes, ns, true) && FamilySound(nodes, ns, false)
    requires n in nodes && PlanNode(nodes, ns, n).Ok?
    ensures var x := PlanNode(nodes, ns, n).value;
            && AddressFor(nodes[n], n, PoolOf(ns, true), GrantedIn(ns, true)) == Ok(x.ipv4)
            && AddressFor(nodes[n], n, PoolOf(ns, false), GrantedIn(ns, false)) == Ok(x.ipv6)
            && (x.ipv4.Some? ==> x.ipv4.value.addr.v4) && (x.ipv6.Some? ==> !x.ipv6.value.addr.v4)
  {
    AddressSource(nodes, ns, true, n);
    AddressSource(nodes, ns, false, n);
  }

  /** Two Nodes, one planned under each policy. */
  ghost predicate PlannedApart(nodes: Nodes, mgmt: Option<Policy>, mgmt': Option<Policy>, hash: Hash,
                               group: seq<string>, orders: Orders, group': seq<string>, orders': Orders,
                               x: Managed, y: Managed) {
    && PlainNames(nodes) && OrdersOver(orders, nodes) && OrdersOver(orders', nodes)
    && NoDuplicates(group) && NoDuplicates(group') && x.name != y.name
    && CompileGroup(group, nodes, mgmt, hash, orders).Ok?
    && x in CompileGroup(group, nodes, mgmt, hash, orders).value
    && CompileGroup(group', nodes, mgmt', hash, orders').Ok?
    && y in CompileGroup(group', nodes, mgmt', hash, orders').value
  }

  /** Uniqueness across policies: if in neither family the two allocations can collide, groups compiled
      under the two policies never give two different Nodes a common address, declared or allocated. */
  lemma PoliciesNeverShareAnAddress(nodes: Nodes, mgmt: Option<Policy>, mgmt': Option<Policy>, hash: Hash,
                                    group: seq<string>, orders: Orders, group': seq<string>, orders': Orders,
                                    x: Managed, y: Managed)
    requires Ready(mgmt) && Ready(mgmt') && PoliciesApart(mgmt, mgmt')
    requires PlannedApart(nodes, mgmt, mgmt', hash, group, orders, group', orders', x, y)
    ensures AddrsOf(x) !! AddrsOf(y)
  {
    CompiledGroup(group, nodes, mgmt, hash, orders);
    CompiledGroup(group', nodes, mgmt', hash, orders');
    Stages(nodes, mgmt, hash, orders);
    Stages(nodes, mgmt', hash, orders');
    PlansApart(nodes, CompileNamespace(nodes, mgmt, hash, orders).value,
      CompileNamespace(nodes, mgmt', hash, orders').value, hash, orders, orders', x.name, y.name);
  }

  lemma PlansApart(nodes: Nodes, ns: Namespace, ns': Namespace, hash: Hash, orders: Orders, orders': Orders,
                   m: string, n: string)
    requires FamilyAllocated(nodes, ns, true, hash, orders.family4)
    requires FamilyAllocated(nodes, ns, false, hash, orders.family6)
    requires FamilyAllocated(nodes, ns', true, hash, orders'.family4)
    requires FamilyAllocated(nodes, ns', false, hash, orders'.family6)
    requires FamilyApart(ns.pool4, ns.settings.gateway4, ns'.pool4, ns'.settings.gateway4)
    requires FamilyApart(ns.pool6, ns.settings.gateway6, ns'.pool6, ns'.settings.gateway6)
    requires m in nodes && n in nodes && m != n && PlanNode(nodes, ns, m).Ok? && PlanNode(nodes, ns', n).Ok?
    ensures AddrsOf(PlanNode(nodes, ns, m).value) !! AddrsOf(PlanNode(nodes, ns', n).value)
  {
    PlannedAddresses(nodes, ns, m);
    PlannedAddresses(nodes, ns', n);
    AddressesApart(nodes, ns, ns', true, hash, orders.family4, orders'.family4, m, n);
    AddressesApart(nodes, ns, ns', false, hash, orders.family6, orders'.family6, m, n);
  }

  /** The policy has nothing to say about IPv6. */
  predicate OnlyIPv4(mgmt: Option<Policy>) {
    mgmt.Some? ==> mgmt.value.subnet6.NoPrefix? && mgmt.value.range6.NoPrefix? && mgmt.value.gateway6.NoAddr?
  }

  lemma IPv4Settings(mgmt: Option<Policy>)
    requires Ready(mgmt) && OnlyIPv4(mgmt)
    ensures var s := Settings(mgmt).value;
            Pools(s).value.0.Pool? && Pools(s).value.1 == NoPool(false) && s.gateway6.NoAddr?
  {
  }

  const PairOrders := Orders(["m", "n"], PairWalks, PairWalks, ["m", "n"])

  lemma PairOrdered()
    ensures PlainNames(Pair) && OrdersOver(PairOrders, Pair)
  {
    PairIsPlain();
  }

  /** Each of the two Nodes is planned with what it was allocated. */
  lemma PairIsPlanned(mgmt: Option<Policy>, hash: Hash, name: string)
    requires Ready(mgmt) && OnlyIPv4(mgmt) && name in Pair
    requires var s := Settings(mgmt).value;
             var r := Allocate(Pair, Pools(s).value.0, s.gateway4, hash, PairWalks);
             r.Ok? && name in r.value
    ensures var s := Settings(mgmt).value;
            var granted := Allocate(Pair, Pools(s).value.0, s.gateway4, hash, PairWalks).value;
            CompileGroup([name], Pair, mgmt, hash, PairOrders) == Ok([Managed(name, "", Some(granted[name]), None)])
  {
    PairOrdered();
    IPv4Settings(mgmt);
    var s := Settings(mgmt).value;
    var pool := Pools(s).value.0;
    var granted := Allocate(Pair, pool, s.gateway4, hash, PairWalks).value;
    var ns := Namespace(s, pool, NoPool(false), granted, map[]);
    PairCompiles(mgmt, hash);
    AllocationIsSafe(Pair, pool, s.gateway4, hash, PairWalks);
    AllocationFitsGateway(pool, s.gateway4, Pair, hash, PairWalks);
    GrantIsPlanned(Pair, ns, name);
    PlanOfOne(Pair, ns, name);
  }

  lemma PairCompiles(mgmt: Option<Policy>, hash: Hash)
    requires Ready(mgmt) && OnlyIPv4(mgmt)
    requires var s := Settings(mgmt).value; Allocate(Pair, Pools(s).value.0, s.gateway4, hash, PairWalks).Ok?
    ensures var s := Settings(mgmt).value;
            CompileNamespace(Pair, mgmt, hash, PairOrders) ==
              Ok(Namespace(s, Pools(s).value.0, NoPool(false),
                           Allocate(Pair, Pools(s).value.0, s.gateway4, hash, PairWalks).value, map[]))
  {
    PairOrdered();
    IPv4Settings(mgmt);
    ExplicitUnique(Pair, PairOrders.explicit);
  }

  /** A good grant passes the checks of the plan. */
  lemma GrantIsPlanned(nodes: Nodes, ns: Namespace, n: string)
    requires n in nodes && nodes[n].ipv4.Undeclared? && nodes[n].ipv6.Undeclared?
    requires ns.pool4.Pool? && SoundPool(ns.pool4) && ns.pool4.ipv4 && GatewayFits(ns.pool4, ns.settings.gateway4)
    requires ns.pool6 == NoPool(false) && ns.granted6 == map[] && ns.settings.gateway6.NoAddr?
    requires n in ns.granted4 && GoodGrant(nodes, ns.pool4, ns.settings.gateway4, ns.granted4, n)
    ensures PlanNode(nodes, ns, n) == Ok(Managed(n, nodes[n].uid, Some(ns.granted4[n]), None))
  {
    OnLink(ns.pool4.network, ns.granted4[n], ns.settings.gateway4);
  }

  lemma PlanOfOne(nodes: Nodes, ns: Namespace, n: string)
    requires n in nodes && !nodes[n].sharesNamespace && PlanNode(nodes, ns, n).Ok?
    requires PlanNode(nodes, ns, n).value.ipv6.None?
    ensures PlanGroup(nodes, ns, [n]).Ok? && PlanGroup(nodes, ns, [n]).value.inputs == [PlanNode(nodes, ns, n).value]
  {
    assert [n][..0] == [];
  }

  /** A gateway of the subnet is on the link of every address of the subnet. */
  lemma OnLink(network: Prefix, source: Prefix, gateway: AddrText)
    requires source.bits == network.bits && Contains(network, source.addr)
    requires gateway.AnAddr? ==> Contains(network, gateway.addr)
    ensures gateway.AnAddr? ==> Contains(source, gateway.addr)
  {
  }

  /** For policies that leave IPv6 alone: some Nodes and some digests make two plans share an address
      exactly if the policies are not apart. */
  lemma SharedAddressIff(mgmt: Option<Policy>, mgmt': Option<Policy>)
    requires Ready(mgmt) && Ready(mgmt') && OnlyIPv4(mgmt) && OnlyIPv4(mgmt')
    ensures !PoliciesApart(mgmt, mgmt') <==>
              exists nodes, hash, group, orders, group', orders', x, y ::
                PlannedApart(nodes, mgmt, mgmt', hash, group, orders, group', orders', x, y) &&
                !(AddrsOf(x) !! AddrsOf(y))
  {
    if nodes, hash, group, orders, group', orders', x, y :|
        PlannedApart(nodes, mgmt, mgmt', hash, group, orders, group', orders', x, y) && !(AddrsOf(x) !! AddrsOf(y)) {
      if PoliciesApart(mgmt, mgmt') {
        PoliciesNeverShareAnAddress(nodes, mgmt, mgmt', hash, group, orders, group', orders', x, y);
      }
    }
    if !PoliciesApart(mgmt, mgmt') {
      var hash, m, n, x, y := SharedAddress(mgmt, mgmt');
    }
  }

  lemma SharedAddress(mgmt: Option<Policy>, mgmt': Option<Policy>)
    returns (hash: Hash, m: string, n: string, x: Managed, y: Managed)
    requires Ready(mgmt) && Ready(mgmt') && OnlyIPv4(mgmt) && OnlyIPv4(mgmt') && !PoliciesApart(mgmt, mgmt')
    ensures PlannedApart(Pair, mgmt, mgmt', hash, [m], PairOrders, [n], PairOrders, x, y)
    ensures !(AddrsOf(x) !! AddrsOf(y))
  {
    IPv4Settings(mgmt);
    IPv4Settings(mgmt');
    var s, s' := Settings(mgmt).value, Settings(mgmt').value;
    var pool, pool' := Pools(s).value.0, Pools(s').value.0;
    hash := CollisionComes(pool, s.gateway4, pool', s'.gateway4);
    m, n := "m", "n";
    if !Collide(pool, s.gateway4, pool', s'.gateway4, Pair, hash, PairWalks, PairWalks, "m", "n") {
      m, n := "n", "m";
    }
    assert Collide(pool, s.gateway4, pool', s'.gateway4, Pair, hash, PairWalks, PairWalks, m, n);
    PairIsPlanned(mgmt, hash, m);
    PairIsPlanned(mgmt', hash, n);
    PairOrdered();
    x := Managed(m, "", Some(Allocate(Pair, pool, s.gateway4, hash, PairWalks).value[m]), None);
    y := Managed(n, "", Some(Allocate(Pair, pool', s'.gateway4, hash, PairWalks).value[n]), None);
    assert x.ipv4.value.addr in AddrsOf(x) && x.ipv4.value.addr in AddrsOf(y);
  }

  // ---------------------------------------------------------------- an instance

  function Host(last: Byte): Addr { RawAddr(true, [172, 20, 20, last], "") }

  const UpperHalf: Prefix := RawPrefix(Host(128), 25)

  /** The default policy, and the same subnet with the upper half as its range. */
  const Upper := Some(EmptyPolicy.(range4 := APrefix(UpperHalf)))

  lemma MaskedItself(p: Prefix)
    requires p.addr.zone == "" && forall i: nat :: p.bits <= i < BitLen(p.addr.v4) ==> !Bit(p.addr.bytes, i)
    ensures First(p) == p.addr && Masked(p) == p
  {
    forall i: nat | i < BitLen(p.addr.v4) ensures Bit(First(p).bytes, i) == Bit(p.addr.bytes, i) {
      BitOfHostBits(p, Zeros, i);
    }
    SameBitsSameAddr(First(p), p.addr);
  }

  lemma UpperPools()
    ensures Ready(None) && Ready(Upper)
    ensures Settings(None).value.gateway4 == AnAddr(Host(1)) == Settings(Upper).value.gateway4
    ensures Pools(Settings(None).value).value.0 == Pool(DefaultSubnet, DefaultSubnet, true)
    ensures Pools(Settings(Upper).value).value.0 == Pool(DefaultSubnet, UpperHalf, true)
  {
    MaskedItself(DefaultSubnet);
    MaskedItself(UpperHalf);
    assert Increment([172, 20, 20, 0]) == [172, 20, 20, 1];
    UpperIsInside();
  }

  lemma UpperIsInside()
    ensures Contains(DefaultSubnet, Host(128)) && Contains(DefaultSubnet, Last(UpperHalf))
  {
    forall i: nat | i < 24 ensures Bit(Last(UpperHalf).bytes, i) == Bit(DefaultSubnet.addr.bytes, i) {
      BitOfHostBits(UpperHalf, Ones, i);
    }
  }

  lemma NeitherEnd(p: Prefix, a: Addr, one: nat, zero: nat)
    requires a.v4 == p.addr.v4 && p.bits <= one < BitLen(a.v4) && p.bits <= zero < BitLen(a.v4)
    requires Bit(a.bytes, one) && !Bit(a.bytes, zero)
    ensures a != First(p) && a != Last(p)
  {
    BitOfHostBits(p, Zeros, one);
    BitOfHostBits(p, Ones, zero);
  }

  const DefaultPool := Pool(DefaultSubnet, DefaultSubnet, true)

  const UpperPool := Pool(DefaultSubnet, UpperHalf, true)

  /** Both offer 172.20.20.129 and 172.20.20.130. */
  lemma BothOffer(last: Byte)
    requires last == 129 || last == 130
    ensures Available(DefaultPool, AnAddr(Host(1)), Host(last)) && Available(UpperPool, AnAddr(Host(1)), Host(last))
  {
    var one := if last == 129 then 31 else 30;
    NeitherEnd(DefaultSubnet, Host(last), one, 25);
    NeitherEnd(UpperHalf, Host(last), one, 25);
    assert Host(last).bytes[3] != Host(1).bytes[3];
  }

  lemma UpperCollides()
    ensures CanCollide(DefaultPool, AnAddr(Host(1)), UpperPool, AnAddr(Host(1)))
  {
    BothOffer(129);
    BothOffer(130);
    assert Host(129).bytes[3] != Host(130).bytes[3];
    assert Overlap(DefaultPool, AnAddr(Host(1)), UpperPool, AnAddr(Host(1)), Host(129));
  }

  /** Under the default policy and one whose range is the upper half of the default subnet, there are
      digests for which two Nodes are planned with one address. */
  lemma HalfRangeShares() returns (hash: Hash, m: string, n: string, x: Managed, y: Managed)
    ensures PlannedApart(Pair, None, Upper, hash, [m], PairOrders, [n], PairOrders, x, y)
    ensures !(AddrsOf(x) !! AddrsOf(y))
  {
    UpperPools();
    UpperCollides();
    hash, m, n, x, y := SharedAddress(None, Upper);
  }
}
