/** The management allocation as an operator would describe it: in the order of their UIDs every Node
    without a declared address gets the first address that its hashes come to and that is free.
  */
module FirstFree {
  import opened Wrappers
  import opened Ordering
  import opened Addresses
  import opened Management

  /** UIDs hold no NUL. */
  ghost predicate PlainUIDs(nodes: Nodes) {
    forall n :: n in nodes ==> '\0' !in nodes[n].uid
  }

  /** The order of allocation: by UID, and by name among equal UIDs. */
  predicate Earlier(nodes: Nodes, m: string, n: string) {
    m in nodes && n in nodes &&
    (Less(nodes[m].uid, nodes[n].uid) || (nodes[m].uid == nodes[n].uid && Less(m, n)))
  }

  /** The Node declares this address, with a prefix length or without. */
  predicate DeclaresAddr(nodes: Nodes, ipv4: bool, m: string, a: Addr) {
    m in nodes && a.v4 == ipv4 &&
    match if ipv4 then nodes[m].ipv4 else nodes[m].ipv6
    case Cidr(p) => p.addr == a
    case Bare(b) => b == a
    case Undeclared => false
    case Malformed => false
  }

  predicate DeclaresNothing(nodes: Nodes, pool: Pool, n: string) {
    n in nodes && (if pool.ipv4 then nodes[n].ipv4 else nodes[n].ipv6) == Undeclared
  }

  /** The address cannot be given to `n`: it is an end of the range that hosts may not have, the gateway,
      declared by some Node, or given to an earlier one. */
  ghost predicate Withheld(nodes: Nodes, pool: Pool, gateway: AddrText, granted: map<string, Prefix>, n: string,
                           a: Addr)
    requires pool.Pool?
  {
    || a == First(pool.allocation) || (pool.ipv4 && a == Last(pool.allocation)) || gateway == AnAddr(a)
    || (exists m :: DeclaresAddr(nodes, pool.ipv4, m, a))
    || (exists m :: m in granted && Earlier(nodes, m, n) && granted[m].addr == a)
  }

  /** The `k`-th address that the UID hashes to, or the name if there is no UID. */
  function HashOf(nodes: Nodes, pool: Pool, hash: Hash, n: string, k: nat): Addr
    requires pool.Pool?
  {
    Hashed(pool.allocation, hash(if n in nodes && nodes[n].uid != "" then nodes[n].uid else n, k))
  }

  /** The first address that `n` hashes to and that is not withheld, within the bound on attempts. */
  ghost predicate FirstAt(nodes: Nodes, pool: Pool, gateway: AddrText, hash: Hash, granted: map<string, Prefix>,
                          n: string, k: nat)
    requires pool.Pool?
  {
    && (k < 4096 || k < 1024 * |nodes|)
    && !Withheld(nodes, pool, gateway, granted, n, HashOf(nodes, pool, hash, n, k))
    && forall i: nat :: i < k ==> Withheld(nodes, pool, gateway, granted, n, HashOf(nodes, pool, hash, n, i))
  }

  ghost predicate HasFirst(nodes: Nodes, pool: Pool, gateway: AddrText, hash: Hash, granted: map<string, Prefix>,
                           n: string)
    requires pool.Pool? && n in granted
  {
    exists k: nat :: FirstAt(nodes, pool, gateway, hash, granted, n, k) &&
      granted[n].addr == HashOf(nodes, pool, hash, n, k) && granted[n].bits == pool.network.bits
  }

  /** Exactly the Nodes that declare nothing have an address, each the first it can have, with the prefix
      length of the subnet. */
  ghost predicate FirstFreeGrants(nodes: Nodes, pool: Pool, gateway: AddrText, hash: Hash,
                                  granted: map<string, Prefix>)
    requires pool.Pool?
  {
    && (forall n :: n in granted <==> DeclaresNothing(nodes, pool, n))
    && (forall n :: n in granted ==> HasFirst(nodes, pool, gateway, hash, granted, n))
  }

  /** No two Nodes declare one address of the range. */
  ghost predicate NoSharedDeclaration(nodes: Nodes, pool: Pool)
    requires pool.Pool?
  {
    forall m, n, a | DeclaresAddr(nodes, pool.ipv4, m, a) && DeclaresAddr(nodes, pool.ipv4, n, a)
      :: Contains(pool.allocation, a) ==> m == n
  }

  /** There is no gateway, or it is in the subnet and no Node declares it inside the range. */
  ghost predicate GatewayFree(nodes: Nodes, pool: Pool, gateway: AddrText)
    requires pool.Pool?
  {
    gateway.NoAddr? || (
      && gateway.AnAddr? && Contains(pool.network, gateway.addr)
      && (Contains(pool.allocation, gateway.addr) ==>
            forall m :: !DeclaresAddr(nodes, pool.ipv4, m, gateway.addr)))
  }

  // ---------------------------------------------------------------- the order

  lemma {:induction false} LessWithNul(u: string, m: string, v: string, n: string)
    requires '\0' !in u && '\0' !in v
    ensures Less(u + "\0" + m, v + "\0" + n) <==> Less(u, v) || (u == v && Less(m, n))
    decreases |u|
  {
    var a, b := u + "\0" + m, v + "\0" + n;
    if |u| == 0 && |v| == 0 {
      assert a == "\0" + m && b == "\0" + n;
      LessAfterPrefix("\0", m, n);
    } else if |u| > 0 && |v| > 0 {
      assert a[1..] == u[1..] + "\0" + m && b[1..] == v[1..] + "\0" + n;
      LessWithNul(u[1..], m, v[1..], n);
      assert u == [u[0]] + u[1..] && v == [v[0]] + v[1..];
    } else if |u| > 0 {
      assert a[0] == u[0] && b[0] == '\0' && u[0] in u;
    } else {
      assert a[0] == '\0' && b[0] == v[0] && v[0] in v;
    }
  }

  /** The sort key orders Nodes by UID, then name. */
  lemma IdentityOrder(nodes: Nodes, m: string, n: string)
    requires PlainUIDs(nodes) && m in nodes && n in nodes
    ensures Less(Identity(nodes)(m), Identity(nodes)(n)) <==> Earlier(nodes, m, n)
  {
    LessWithNul(nodes[m].uid, m, nodes[n].uid, n);
  }

  lemma NamesInOrder(nodes: Nodes, pool: Pool, walk: seq<string>, i: nat, j: nat)
    requires PlainNames(nodes) && PlainUIDs(nodes) && Walks(walk, nodes.Keys)
    requires i < |NamesToGrant(nodes, pool, walk)| && j < |NamesToGrant(nodes, pool, walk)|
    ensures var names := NamesToGrant(nodes, pool, walk); i < j <==> Earlier(nodes, names[i], names[j])
  {
    var listed, key := UndeclaredIn(nodes, pool, walk), Identity(nodes);
    var names := Sort(listed, key);
    UndeclaredKeysDistinct(nodes, pool, walk);
    SortSorted(listed, key);
    SameElements(names, listed);
    assert names[i] in listed && names[j] in listed;
    IdentityOrder(nodes, names[i], names[j]);
    LessIrreflexive(key(names[i]));
    if j < i { LessAsymmetric(key(names[j]), key(names[i])); }
  }

  // ---------------------------------------------------------------- probing

  ghost predicate FirstFreeFrom(t: Terms, reserved: Reserved, seed: string, from: nat, k: nat)
    requires t.pool.Pool?
  {
    from <= k && Free(t, reserved, Candidate(t, seed, k)) &&
    forall i: nat :: from <= i < k ==> !Free(t, reserved, Candidate(t, seed, i))
  }

  /** The search finds the first free candidate within the bound, and nothing exactly if there is none. */
  lemma {:induction false} ProbeIff(t: Terms, reserved: Reserved, seed: string, from: nat, attempts: nat, a: Addr)
    requires t.pool.Pool?
    ensures Probe(t, reserved, seed, from, attempts) == Some(a) <==>
              exists k: nat :: k < attempts && FirstFreeFrom(t, reserved, seed, from, k) && Candidate(t, seed, k) == a
    decreases attempts - from
  {
    if from < attempts {
      if Free(t, reserved, Candidate(t, seed, from)) {
        assert FirstFreeFrom(t, reserved, seed, from, from);
        forall k: nat | FirstFreeFrom(t, reserved, seed, from, k) ensures k == from {}
      } else {
        ProbeIff(t, reserved, seed, from + 1, attempts, a);
        forall k: nat ensures FirstFreeFrom(t, reserved, seed, from, k) <==>
                              FirstFreeFrom(t, reserved, seed, from + 1, k) {
          SkipOne(t, reserved, seed, from, k);
        }
      }
    }
  }

  lemma SkipOne(t: Terms, reserved: Reserved, seed: string, from: nat, k: nat)
    requires t.pool.Pool? && !Free(t, reserved, Candidate(t, seed, from))
    ensures FirstFreeFrom(t, reserved, seed, from, k) <==> FirstFreeFrom(t, reserved, seed, from + 1, k)
  {
  }

  // ---------------------------------------------------------------- one name after the other

  /** Free before the first grant, and not given to one of the first `j` names. */
  ghost predicate FreeAfter(t: Terms, before: Reserved, names: seq<string>, granted: map<string, Prefix>, j: nat,
                            a: Addr)
    requires t.pool.Pool? && j <= |names|
  {
    Free(t, before, a) && forall i :: 0 <= i < j && names[i] in granted ==> granted[names[i]].addr != a
  }

  ghost predicate FirstAfter(t: Terms, before: Reserved, names: seq<string>, granted: map<string, Prefix>, j: nat,
                             seed: string, k: nat)
    requires t.pool.Pool? && j <= |names|
  {
    FreeAfter(t, before, names, granted, j, Candidate(t, seed, k)) &&
    forall i: nat :: i < k ==> !FreeAfter(t, before, names, granted, j, Candidate(t, seed, i))
  }

  /** Name `j` has the first free address, given what the names before it have. */
  ghost predicate Served(nodes: Nodes, t: Terms, before: Reserved, names: seq<string>, granted: map<string, Prefix>,
                         j: nat, attempts: nat)
    requires t.pool.Pool? && j < |names|
  {
    names[j] in granted &&
    exists k: nat :: k < attempts && FirstAfter(t, before, names, granted, j, Seed(nodes, names[j]), k) &&
      granted[names[j]].addr == Candidate(t, Seed(nodes, names[j]), k) && granted[names[j]].bits == t.pool.network.bits
  }

  ghost predicate AllServed(nodes: Nodes, t: Terms, before: Reserved, names: seq<string>, granted: map<string, Prefix>,
                            attempts: nat)
    requires t.pool.Pool?
  {
    && (forall n :: n in granted <==> n in names)
    && (forall j :: 0 <= j < |names| ==> Served(nodes, t, before, names, granted, j, attempts))
  }

  /** What is free in the table after the first names. */
  ghost predicate TableAfter(t: Terms, before: Reserved, names: seq<string>, book: Book)
    requires t.pool.Pool?
  {
    forall a :: Free(t, book.reserved, a) <==> FreeAfter(t, before, names, book.granted, |names|, a)
  }

  /** Without the last name and its grant. */
  lemma ServedBefore(nodes: Nodes, t: Terms, before: Reserved, init: seq<string>, last: string,
                     granted: map<string, Prefix>, attempts: nat)
    requires t.pool.Pool? && last !in init && (forall n :: n in granted <==> n in init || n == last)
    ensures AllServed(nodes, t, before, init, granted - {last}, attempts) <==>
              forall j :: 0 <= j < |init| ==> Served(nodes, t, before, init + [last], granted, j, attempts)
  {
    var names, fewer := init + [last], granted - {last};
    forall j | 0 <= j < |init| ensures
        Served(nodes, t, before, init, fewer, j, attempts) <==> Served(nodes, t, before, names, granted, j, attempts) {
      ServedSame(nodes, t, before, init, last, granted, j, attempts);
    }
  }

  lemma ServedSame(nodes: Nodes, t: Terms, before: Reserved, init: seq<string>, last: string,
                   granted: map<string, Prefix>, j: nat, attempts: nat)
    requires t.pool.Pool? && last !in init && j < |init|
    ensures Served(nodes, t, before, init, granted - {last}, j, attempts) <==>
              Served(nodes, t, before, init + [last], granted, j, attempts)
  {
    var names, fewer := init + [last], granted - {last};
    assert init[j] in init && names[j] == init[j];
    forall a ensures FreeAfter(t, before, init, fewer, j, a) <==> FreeAfter(t, before, names, granted, j, a) {
      FreeSame(t, before, init, last, granted, j, a);
    }
  }

  lemma FreeSame(t: Terms, before: Reserved, init: seq<string>, last: string, granted: map<string, Prefix>, j: nat,
                 a: Addr)
    requires t.pool.Pool? && last !in init && j <= |init|
    ensures FreeAfter(t, before, init, granted - {last}, j, a) <==> FreeAfter(t, before, init + [last], granted, j, a)
  {
    forall i | 0 <= i < j ensures (init + [last])[i] == init[i] && init[i] != last {
      assert init[i] in init;
    }
  }

  /** The last name is served exactly if the search, in the table the others leave, ends at its grant. */
  lemma LastServedIff(nodes: Nodes, t: Terms, before: Reserved, init: seq<string>, last: string, book: Book,
                      p: Prefix, attempts: nat)
    requires t.pool.Pool? && last !in init && last !in book.granted && TableAfter(t, before, init, book)
    ensures var granted := book.granted[last := p];
            Served(nodes, t, before, init + [last], granted, |init|, attempts) <==>
              Probe(t, book.reserved, Seed(nodes, last), 0, attempts) == Some(p.addr) && p.bits == t.pool.network.bits
  {
    var granted, names, seed := book.granted[last := p], init + [last], Seed(nodes, last);
    assert granted - {last} == book.granted && names[|init|] == last;
    forall a ensures Free(t, book.reserved, a) <==> FreeAfter(t, before, names, granted, |init|, a) {
      FreeSame(t, before, init, last, granted, |init|, a);
    }
    forall k: nat ensures FirstFreeFrom(t, book.reserved, seed, 0, k) <==>
                          FirstAfter(t, before, names, granted, |init|, seed, k) {}
    ProbeIff(t, book.reserved, seed, 0, attempts, p.addr);
  }

  lemma TableGrows(t: Terms, before: Reserved, init: seq<string>, last: string, book: Book, p: Prefix)
    requires t.pool.Pool? && last != "" && last !in init && last !in book.granted && TableAfter(t, before, init, book)
    ensures TableAfter(t, before, init + [last], Book(book.reserved[p.addr := last], book.granted[last := p]))
  {
    var granted, names := book.granted[last := p], init + [last];
    var next := Book(book.reserved[p.addr := last], granted);
    assert granted - {last} == book.granted;
    forall a ensures Free(t, next.reserved, a) <==> FreeAfter(t, before, names, granted, |names|, a) {
      FreeSame(t, before, init, last, granted, |init|, a);
      assert FreeAfter(t, before, names, granted, |names|, a) <==>
        FreeAfter(t, before, names, granted, |init|, a) && p.addr != a by {
        assert names[|init|] == last;
      }
    }
  }

  /** The grants of a walk are exactly those that serve every name in its turn. */
  lemma {:induction false} GrantsIff(nodes: Nodes, t: Terms, before: Reserved, names: seq<string>, attempts: nat,
                                     granted: map<string, Prefix>)
    requires t.pool.Pool? && SoundPool(t.pool) && NoDuplicates(names) && "" !in names
    ensures var r := AllocateAll(nodes, t, before, names, attempts);
            && (r.Ok? && r.value.granted == granted <==> AllServed(nodes, t, before, names, granted, attempts))
            && (r.Ok? ==> TableAfter(t, before, names, r.value) && r.value.granted.Keys == set n | n in names)
    decreases |names|
  {
    if |names| == 0 {
      assert granted == map[] <==> forall n :: n !in granted;
    } else {
      var init, last := names[..|names| - 1], names[|names| - 1];
      assert names == init + [last] && last !in init && last in names;
      GrantsIff(nodes, t, before, init, attempts, granted - {last});
      if AllocateAll(nodes, t, before, init, attempts).Ok? {
        var book := AllocateAll(nodes, t, before, init, attempts).value;
        GrantsIff(nodes, t, before, init, attempts, book.granted);
        OneMoreGrant(nodes, t, before, init, last, book, attempts, granted);
      } else {
        NoneServed(nodes, t, before, init, last, attempts, granted);
      }
    }
  }

  lemma NoneServed(nodes: Nodes, t: Terms, before: Reserved, init: seq<string>, last: string, attempts: nat,
                   granted: map<string, Prefix>)
    requires t.pool.Pool? && last !in init && !AllServed(nodes, t, before, init, granted - {last}, attempts)
    ensures !AllServed(nodes, t, before, init + [last], granted, attempts)
  {
    if AllServed(nodes, t, before, init + [last], granted, attempts) {
      assert forall n :: n in init + [last] <==> n in init || n == last;
      ServedBefore(nodes, t, before, init, last, granted, attempts);
    }
  }

  lemma OneMoreGrant(nodes: Nodes, t: Terms, before: Reserved, init: seq<string>, last: string, book: Book,
                     attempts: nat, granted: map<string, Prefix>)
    requires t.pool.Pool? && SoundPool(t.pool) && last != "" && last !in init
    requires TableAfter(t, before, init, book) && book.granted.Keys == set n | n in init
    requires AllServed(nodes, t, before, init, book.granted, attempts)
    requires AllServed(nodes, t, before, init, granted - {last}, attempts) ==> book.granted == granted - {last}
    ensures var r := AllocateOne(nodes, t, book, last, attempts);
            && (r.Ok? && r.value.granted == granted <==> AllServed(nodes, t, before, init + [last], granted, attempts))
            && (r.Ok? ==> TableAfter(t, before, init + [last], r.value))
            && (r.Ok? ==> r.value.granted.Keys == set n | n in init + [last])
  {
    var r := AllocateOne(nodes, t, book, last, attempts);
    if r.Ok? {
      var p := r.value.granted[last];
      TableGrows(t, before, init, last, book, p);
      assert r.value.granted == book.granted[last := p];
      if r.value.granted == granted {
        GrantServes(nodes, t, before, init, last, book, p, attempts);
      }
    }
    if AllServed(nodes, t, before, init + [last], granted, attempts) {
      ServesGrant(nodes, t, before, init, last, book, attempts, granted);
    }
  }

  lemma GrantServes(nodes: Nodes, t: Terms, before: Reserved, init: seq<string>, last: string, book: Book, p: Prefix,
                    attempts: nat)
    requires t.pool.Pool? && SoundPool(t.pool) && last !in init && TableAfter(t, before, init, book)
    requires book.granted.Keys == set n | n in init
    requires AllServed(nodes, t, before, init, book.granted, attempts)
    requires Probe(t, book.reserved, Seed(nodes, last), 0, attempts) == Some(p.addr) && p.bits == t.pool.network.bits
    ensures AllServed(nodes, t, before, init + [last], book.granted[last := p], attempts)
  {
    var granted, names := book.granted[last := p], init + [last];
    assert granted - {last} == book.granted;
    LastServedIff(nodes, t, before, init, last, book, p, attempts);
    ServedBefore(nodes, t, before, init, last, granted, attempts);
  }

  lemma ServesGrant(nodes: Nodes, t: Terms, before: Reserved, init: seq<string>, last: string, book: Book,
                    attempts: nat, granted: map<string, Prefix>)
    requires t.pool.Pool? && SoundPool(t.pool) && last !in init && TableAfter(t, before, init, book)
    requires book.granted.Keys == set n | n in init
    requires AllServed(nodes, t, before, init, granted - {last}, attempts) ==> book.granted == granted - {last}
    requires AllServed(nodes, t, before, init + [last], granted, attempts)
    ensures var r := AllocateOne(nodes, t, book, last, attempts); r.Ok? && r.value.granted == granted
  {
    assert forall n :: n in init + [last] <==> n in init || n == last;
    ServedBefore(nodes, t, before, init, last, granted, attempts);
    assert (init + [last])[|init|] == last && last in granted;
    var p := granted[last];
    assert granted == book.granted[last := p];
    LastServedIff(nodes, t, before, init, last, book, p, attempts);
  }

  // ---------------------------------------------------------------- the whole allocation

  lemma DeclaresSame(nodes: Nodes, ipv4: bool, m: string, a: Addr)
    ensures DeclaresAddr(nodes, ipv4, m, a) <==> Declares(nodes, ipv4, m, a)
  {
  }

  lemma ClashSame(nodes: Nodes, pool: Pool)
    requires pool.Pool?
    ensures NoSharedDeclaration(nodes, pool) <==> NoClash(nodes, pool.ipv4, InRange(pool))
  {
    forall m, a ensures DeclaresAddr(nodes, pool.ipv4, m, a) && Contains(pool.allocation, a) <==>
                        Reserves(nodes, pool.ipv4, InRange(pool), m, a) {
      DeclaresSame(nodes, pool.ipv4, m, a);
    }
  }

  /** The declarations and the gateway are booked. */
  ghost predicate Opening(nodes: Nodes, t: Terms, gateway: AddrText, walk: seq<string>, declared: Reserved,
                          reserved: Reserved)
  {
    && t.pool.Pool? && "" !in nodes && Walks(walk, nodes.Keys)
    && TableOf(nodes, t.pool.ipv4, InRange(t.pool), walk, declared)
    && BookGateway(t.pool, gateway, declared) == Ok((t.gateway, reserved))
  }

  /** What is free at the opening. */
  lemma FreeAtOpening(nodes: Nodes, t: Terms, gateway: AddrText, walk: seq<string>, declared: Reserved,
                      reserved: Reserved, a: Addr)
    requires Opening(nodes, t, gateway, walk, declared, reserved) && Contains(t.pool.allocation, a)
    ensures Free(t, reserved, a) <==>
              && a != First(t.pool.allocation) && !(t.pool.ipv4 && a == Last(t.pool.allocation))
              && gateway != AnAddr(a) && forall m :: !DeclaresAddr(nodes, t.pool.ipv4, m, a)
  {
    DeclaredIffBooked(nodes, t.pool, walk, declared, a);
    forall m ensures DeclaresAddr(nodes, t.pool.ipv4, m, a) <==> Declares(nodes, t.pool.ipv4, m, a) {
      DeclaresSame(nodes, t.pool.ipv4, m, a);
    }
  }

  lemma GatewayBooks(nodes: Nodes, pool: Pool, gateway: AddrText, walk: seq<string>, declared: Reserved)
    requires pool.Pool? && SoundPool(pool) && "" !in nodes && Walks(walk, nodes.Keys)
    requires TableOf(nodes, pool.ipv4, InRange(pool), walk, declared)
    ensures BookGateway(pool, gateway, declared).Ok? <==> GatewayFree(nodes, pool, gateway)
  {
    if gateway.AnAddr? {
      var g := gateway.addr;
      forall m ensures DeclaresAddr(nodes, pool.ipv4, m, g) <==> Declares(nodes, pool.ipv4, m, g) {
        DeclaresSame(nodes, pool.ipv4, m, g);
      }
      assert g in declared ==> Reserves(nodes, pool.ipv4, InRange(pool), declared[g], g);
      if Contains(pool.allocation, g) {
        DeclaredIffBooked(nodes, pool, walk, declared, g);
      }
    }
  }

  /** The names are listed in the order of allocation, and the grants are theirs. */
  ghost predicate InTurn(nodes: Nodes, names: seq<string>, granted: map<string, Prefix>) {
    && (forall n :: n in granted <==> n in names)
    && (forall i, j :: 0 <= i < |names| && 0 <= j < |names| ==> (i < j <==> Earlier(nodes, names[i], names[j])))
  }

  lemma FreeIffNotWithheld(nodes: Nodes, t: Terms, gateway: AddrText, walk: seq<string>, declared: Reserved,
                           reserved: Reserved, names: seq<string>, granted: map<string, Prefix>, j: nat, a: Addr)
    requires Opening(nodes, t, gateway, walk, declared, reserved) && Contains(t.pool.allocation, a)
    requires InTurn(nodes, names, granted) && j < |names|
    ensures FreeAfter(t, reserved, names, granted, j, a) <==> !Withheld(nodes, t.pool, gateway, granted, names[j], a)
  {
    FreeAtOpening(nodes, t, gateway, walk, declared, reserved, a);
    if m :| m in granted && Earlier(nodes, m, names[j]) && granted[m].addr == a {
      var i :| 0 <= i < |names| && names[i] == m;
      assert i < j;
    }
  }

  lemma ServedIffFirst(nodes: Nodes, t: Terms, gateway: AddrText, walk: seq<string>, declared: Reserved,
                       reserved: Reserved, names: seq<string>, granted: map<string, Prefix>, j: nat)
    requires Opening(nodes, t, gateway, walk, declared, reserved) && InTurn(nodes, names, granted) && j < |names|
    ensures Served(nodes, t, reserved, names, granted, j, MaxAttempts(|nodes|)) <==>
              names[j] in granted && HasFirst(nodes, t.pool, gateway, t.hash, granted, names[j])
  {
    var n := names[j];
    forall k: nat ensures
        Candidate(t, Seed(nodes, n), k) == HashOf(nodes, t.pool, t.hash, n, k) &&
        (FreeAfter(t, reserved, names, granted, j, Candidate(t, Seed(nodes, n), k)) <==>
         !Withheld(nodes, t.pool, gateway, granted, n, HashOf(nodes, t.pool, t.hash, n, k))) {
      HashedContained(t.pool.allocation, t.hash(Seed(nodes, n), k));
      FreeIffNotWithheld(nodes, t, gateway, walk, declared, reserved, names, granted, j,
        Candidate(t, Seed(nodes, n), k));
    }
    forall k: nat ensures
        k < MaxAttempts(|nodes|) && FirstAfter(t, reserved, names, granted, j, Seed(nodes, n), k) <==>
        FirstAt(nodes, t.pool, gateway, t.hash, granted, n, k) {}
  }

  lemma AllServedIffFirst(nodes: Nodes, t: Terms, gateway: AddrText, walks: Ranges, declared: Reserved,
                          reserved: Reserved, granted: map<string, Prefix>)
    requires PlainNames(nodes) && PlainUIDs(nodes) && RangesOver(walks, nodes)
    requires Opening(nodes, t, gateway, walks.reserve, declared, reserved)
    ensures var names := NamesToGrant(nodes, t.pool, walks.names);
            AllServed(nodes, t, reserved, names, granted, MaxAttempts(|nodes|)) <==>
              FirstFreeGrants(nodes, t.pool, gateway, t.hash, granted)
  {
    var names := NamesToGrant(nodes, t.pool, walks.names);
    NamesAreUndeclared(nodes, t.pool, walks.names);
    if forall n :: n in granted <==> n in names {
      NamesInTurn(nodes, t.pool, walks.names, granted);
    }
    ServedToNames(nodes, t, gateway, walks.reserve, declared, reserved, names, granted);
  }

  lemma ServedToNames(nodes: Nodes, t: Terms, gateway: AddrText, walk: seq<string>, declared: Reserved,
                      reserved: Reserved, names: seq<string>, granted: map<string, Prefix>)
    requires Opening(nodes, t, gateway, walk, declared, reserved)
    requires forall n :: n in names <==> DeclaresNothing(nodes, t.pool, n)
    requires (forall n :: n in granted <==> n in names) ==> InTurn(nodes, names, granted)
    ensures AllServed(nodes, t, reserved, names, granted, MaxAttempts(|nodes|)) <==>
              FirstFreeGrants(nodes, t.pool, gateway, t.hash, granted)
  {
    if InTurn(nodes, names, granted) {
      EachServedIffFirst(nodes, t, gateway, walk, declared, reserved, names, granted);
    }
  }

  lemma NamesInTurn(nodes: Nodes, pool: Pool, walk: seq<string>, granted: map<string, Prefix>)
    requires PlainNames(nodes) && PlainUIDs(nodes) && Walks(walk, nodes.Keys)
    requires forall n :: n in granted <==> n in NamesToGrant(nodes, pool, walk)
    ensures InTurn(nodes, NamesToGrant(nodes, pool, walk), granted)
  {
    var names := NamesToGrant(nodes, pool, walk);
    forall i, j | 0 <= i < |names| && 0 <= j < |names| ensures i < j <==> Earlier(nodes, names[i], names[j]) {
      NamesInOrder(nodes, pool, walk, i, j);
    }
  }

  lemma EachServedIffFirst(nodes: Nodes, t: Terms, gateway: AddrText, walk: seq<string>, declared: Reserved,
                           reserved: Reserved, names: seq<string>, granted: map<string, Prefix>)
    requires Opening(nodes, t, gateway, walk, declared, reserved) && InTurn(nodes, names, granted)
    ensures (forall j :: 0 <= j < |names| ==> Served(nodes, t, reserved, names, granted, j, MaxAttempts(|nodes|))) <==>
            (forall n :: n in granted ==> HasFirst(nodes, t.pool, gateway, t.hash, granted, n))
  {
    forall j | 0 <= j < |names| ensures names[j] in granted &&
        (Served(nodes, t, reserved, names, granted, j, MaxAttempts(|nodes|)) <==>
         HasFirst(nodes, t.pool, gateway, t.hash, granted, names[j])) {
      assert names[j] in names;
      ServedIffFirst(nodes, t, gateway, walk, declared, reserved, names, granted, j);
    }
  }

  lemma NamesAreUndeclared(nodes: Nodes, pool: Pool, walk: seq<string>)
    requires PlainNames(nodes) && Walks(walk, nodes.Keys)
    ensures var names := NamesToGrant(nodes, pool, walk);
            && NoDuplicates(names) && "" !in names
            && forall n :: n in names <==> DeclaresNothing(nodes, pool, n)
  {
    UndeclaredKeysDistinct(nodes, pool, walk);
    SameElements(NamesToGrant(nodes, pool, walk), UndeclaredIn(nodes, pool, walk));
  }

  /** What allocation yields, said without running it: it succeeds with these grants if and only if no two
      Nodes declare one address of the range, the gateway is free and in the subnet, and every Node that
      declares nothing has the first address that it hashes to and that is not withheld from it. */
  lemma AllocationIff(nodes: Nodes, pool: Pool, gateway: AddrText, hash: Hash, walks: Ranges,
                      granted: map<string, Prefix>)
    requires pool.Pool? && SoundPool(pool) && PlainNames(nodes) && PlainUIDs(nodes) && RangesOver(walks, nodes)
    ensures Allocate(nodes, pool, gateway, hash, walks) == Ok(granted) <==>
              && NoSharedDeclaration(nodes, pool) && GatewayFree(nodes, pool, gateway)
              && FirstFreeGrants(nodes, pool, gateway, hash, granted)
  {
    ClashSame(nodes, pool);
    ReserveAllForgetsOrder(nodes, pool.ipv4, InRange(pool), walks.reserve, walks.reserve);
    ReserveAllExact(nodes, pool.ipv4, InRange(pool), walks.reserve);
    var booked := ReserveAll(nodes, pool.ipv4, InRange(pool), walks.reserve);
    if booked.Ok? {
      GatewayBooks(nodes, pool, gateway, walks.reserve, booked.value);
      if BookGateway(pool, gateway, booked.value).Ok? {
        var (g, reserved) := BookGateway(pool, gateway, booked.value).value;
        var t := Terms(pool, g, hash);
        NamesAreUndeclared(nodes, pool, walks.names);
        GrantsIff(nodes, t, reserved, NamesToGrant(nodes, pool, walks.names), MaxAttempts(|nodes|), granted);
        AllServedIffFirst(nodes, t, gateway, walks, booked.value, reserved, granted);
      }
    }
  }
}
