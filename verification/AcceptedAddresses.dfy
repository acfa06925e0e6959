/** Which declared management addresses are accepted, with which prefix length they are planned, and so
    which groups are planned at all.
  */
module AcceptedAddresses {
  import opened Wrappers
  import opened Ordering
  import opened Addresses
  import opened Management
  import opened ManagementPlans

  /** The declaration is good for this pool, and this is the address with its prefix length. Without a pool
      only a declaration with a length is good. With one, the address is in the subnet and the length, if
      it is given, is the subnet's. */
  ghost predicate Accepted(d: Declared, pool: Pool, p: Prefix) {
    match d
    case Undeclared => false
    case Malformed => false
    case Cidr(q) =>
      && p == q && q.addr.v4 == pool.ipv4
      && (pool.Pool? ==> q.bits == pool.network.bits && Contains(pool.network, q.addr))
    case Bare(a) =>
      && pool.Pool? && a.v4 == pool.ipv4 && Contains(pool.network, a)
      && p.addr == a && p.bits == pool.network.bits
  }

  /** A host may have the address: it is neither end of the range, as far as hosts may not have these,
      nor the gateway. */
  ghost predicate HostMayHave(pool: Pool, gateway: AddrText, a: Addr) {
    pool.Pool? ==>
      a != First(pool.allocation) && !(pool.ipv4 && a == Last(pool.allocation)) && gateway != AnAddr(a)
  }

  ghost predicate OnLink(gateway: AddrText, r: Option<Prefix>) {
    gateway.NoAddr? || (gateway.AnAddr? && r.Some? && Contains(r.value, gateway.addr))
  }

  /** The address of one family of a planned Node: what it declares if that is accepted, what it was
      allocated if it declares nothing; a host may have it, and the gateway is on its link. */
  ghost predicate FamilyPlanned(d: Declared, pool: Pool, grant: Option<Prefix>, gateway: AddrText, r: Option<Prefix>) {
    && (if d == Undeclared then r == grant else r.Some? && Accepted(d, pool, r.value))
    && (r.Some? ==> HostMayHave(pool, gateway, r.value.addr))
    && OnLink(gateway, r)
  }

  lemma NormalizeIff(d: Declared, pool: Pool, p: Prefix)
    ensures Normalize(d, pool) == Ok(Some(p)) <==> Accepted(d, pool, p)
    ensures Normalize(d, pool) == Ok(None) <==> d == Undeclared
  {
  }

  /** What fits in the directory is what is accepted in a plan. */
  lemma FitsIff(nodes: Nodes, pool: Pool, n: string, a: Addr)
    ensures Fits(nodes, pool, n, a) <==>
              n in nodes && exists p :: Accepted(DeclaredIn(nodes[n], pool.ipv4), pool, p) && p.addr == a
  {
    if n in nodes {
      var d := DeclaredIn(nodes[n], pool.ipv4);
      if Fits(nodes, pool, n, a) { NormalizeIff(d, pool, Normalize(d, pool).value.value); }
      if p :| Accepted(d, pool, p) && p.addr == a { NormalizeIff(d, pool, p); }
    }
  }

  function GrantOf(granted: map<string, Prefix>, n: string): Option<Prefix> {
    if n in granted then Some(granted[n]) else None
  }

  lemma AddressForIff(node: Node, n: string, pool: Pool, granted: map<string, Prefix>, r: Option<Prefix>)
    ensures AddressFor(node, n, pool, granted) == Ok(r) <==>
              var d := DeclaredIn(node, pool.ipv4);
              if d == Undeclared then r == GrantOf(granted, n) else r.Some? && Accepted(d, pool, r.value)
  {
    var d := DeclaredIn(node, pool.ipv4);
    if r.Some? { NormalizeIff(d, pool, r.value); }
    if Normalize(d, pool).Ok? && Normalize(d, pool).value.Some? {
      NormalizeIff(d, pool, Normalize(d, pool).value.value);
    }
  }

  lemma ChecksIff(pool: Pool, gateway: AddrText, r: Option<Prefix>)
    requires r.Some? ==> r.value.addr.v4 == pool.ipv4
    ensures CheckHost(r, pool, gateway).None? <==> (r.Some? ==> HostMayHave(pool, gateway, r.value.addr))
    ensures CheckGateway(gateway, r, pool.ipv4).None? <==> OnLink(gateway, r)
  {
  }

  ghost predicate PlannedIn(nodes: Nodes, ns: Namespace, ipv4: bool, n: string, r: Option<Prefix>)
    requires n in nodes
  {
    FamilyPlanned(if ipv4 then nodes[n].ipv4 else nodes[n].ipv6, PoolOf(ns, ipv4), GrantOf(GrantedIn(ns, ipv4), n),
                  GatewayIn(ns.settings, ipv4), r)
  }

  lemma FamilyOf(nodes: Nodes, ns: Namespace, ipv4: bool, n: string, r: Option<Prefix>)
    requires FamilySound(nodes, ns, ipv4) && n in nodes
    requires AddressFor(nodes[n], n, PoolOf(ns, ipv4), GrantedIn(ns, ipv4)) == Ok(r)
    ensures r.Some? ==> r.value.addr.v4 == ipv4
  {
    AddressSource(nodes, ns, ipv4, n);
  }

  lemma FamilyIff(nodes: Nodes, ns: Namespace, ipv4: bool, n: string, r: Option<Prefix>)
    requires FamilySound(nodes, ns, ipv4) && n in nodes
    ensures PlannedIn(nodes, ns, ipv4, n, r) <==>
              && AddressFor(nodes[n], n, PoolOf(ns, ipv4), GrantedIn(ns, ipv4)) == Ok(r)
              && CheckHost(r, PoolOf(ns, ipv4), GatewayIn(ns.settings, ipv4)).None?
              && CheckGateway(GatewayIn(ns.settings, ipv4), r, ipv4).None?
  {
    AddressForIff(nodes[n], n, PoolOf(ns, ipv4), GrantedIn(ns, ipv4), r);
    if AddressFor(nodes[n], n, PoolOf(ns, ipv4), GrantedIn(ns, ipv4)) == Ok(r) {
      FamilyOf(nodes, ns, ipv4, n, r);
      ChecksIff(PoolOf(ns, ipv4), GatewayIn(ns.settings, ipv4), r);
    }
  }

  /** The plan of a Node: its UID, and in each family the address it declares or was allocated. */
  lemma PlanNodeIff(nodes: Nodes, ns: Namespace, n: string, x: Managed)
    requires FamilySound(nodes, ns, true) && FamilySound(nodes, ns, false) && n in nodes
    ensures PlanNode(nodes, ns, n) == Ok(x) <==>
              && x.name == n && x.nodeID == nodes[n].uid
              && PlannedIn(nodes, ns, true, n, x.ipv4) && PlannedIn(nodes, ns, false, n, x.ipv6)
  {
    FamilyIff(nodes, ns, true, n, x.ipv4);
    FamilyIff(nodes, ns, false, n, x.ipv6);
  }

  // ---------------------------------------------------------------- a group

  lemma {:induction false} PlanGroupOkIff(nodes: Nodes, ns: Namespace, group: seq<string>)
    requires FamilySound(nodes, ns, true) && FamilySound(nodes, ns, false) && NoDuplicates(group)
    ensures PlanGroup(nodes, ns, group).Ok? <==>
              forall n :: n in group && n in nodes && !nodes[n].sharesNamespace ==> PlanNode(nodes, ns, n).Ok?
    decreases |group|
  {
    if |group| > 0 {
      var before, name := group[..|group| - 1], group[|group| - 1];
      assert group == before + [name] && name !in before;
      PlanGroupOkIff(nodes, ns, before);
      PlanGroupExact(nodes, ns, before);
      if PlanGroup(nodes, ns, before).Ok? {
        MemberNeverShares(nodes, ns, before, PlanGroup(nodes, ns, before).value, name);
      }
    }
  }

  /** With a pool a Node can be planned exactly if it declares nothing, or an accepted address that a host
      may have. Without one it must declare an address that has the gateway on its link, if there is one. */
  ghost predicate Plannable(d: Declared, pool: Pool, gateway: AddrText) {
    if pool.Pool? then d == Undeclared || exists p :: Accepted(d, pool, p) && HostMayHave(pool, gateway, p.addr)
    else
      || (d == Undeclared && gateway.NoAddr?)
      || exists p :: Accepted(d, pool, p) && OnLink(gateway, Some(p))
  }

  /** The gateway is one of the subnet. */
  ghost predicate GatewayInside(pool: Pool, gateway: AddrText) {
    pool.Pool? ==> gateway.NoAddr? || (gateway.AnAddr? && Contains(pool.network, gateway.addr))
  }

  /** Every prefix of the subnet's length inside the subnet has the subnet's addresses. */
  lemma SameLink(network: Prefix, p: Prefix, g: Addr)
    requires p.bits == network.bits && Contains(network, p.addr) && Contains(network, g)
    ensures Contains(p, g)
  {
  }

  lemma PlannableIff(nodes: Nodes, ns: Namespace, ipv4: bool, n: string)
    requires FamilySound(nodes, ns, ipv4) && n in nodes
    requires GatewayInside(PoolOf(ns, ipv4), GatewayIn(ns.settings, ipv4))
    ensures (exists r :: PlannedIn(nodes, ns, ipv4, n, r)) <==>
              Plannable(if ipv4 then nodes[n].ipv4 else nodes[n].ipv6, PoolOf(ns, ipv4), GatewayIn(ns.settings, ipv4))
  {
    var pool, gateway := PoolOf(ns, ipv4), GatewayIn(ns.settings, ipv4);
    var d := if ipv4 then nodes[n].ipv4 else nodes[n].ipv6;
    if d == Undeclared {
      GrantIsPlanned(nodes, ns, ipv4, n);
    } else {
      if p :| Accepted(d, pool, p) && HostMayHave(pool, gateway, p.addr) && OnLink(gateway, Some(p)) {
        assert PlannedIn(nodes, ns, ipv4, n, Some(p));
      }
      forall p | pool.Pool? && Accepted(d, pool, p) && gateway.AnAddr? ensures OnLink(gateway, Some(p)) {
        SameLink(pool.network, p, gateway.addr);
      }
    }
  }

  /** A Node that declares nothing is planned with its grant, or with nothing if there is no pool. */
  lemma GrantIsPlanned(nodes: Nodes, ns: Namespace, ipv4: bool, n: string)
    requires FamilySound(nodes, ns, ipv4) && n in nodes
    requires (if ipv4 then nodes[n].ipv4 else nodes[n].ipv6) == Undeclared
    requires GatewayInside(PoolOf(ns, ipv4), GatewayIn(ns.settings, ipv4))
    ensures (exists r :: PlannedIn(nodes, ns, ipv4, n, r)) <==>
              PoolOf(ns, ipv4).Pool? || GatewayIn(ns.settings, ipv4).NoAddr?
  {
    var pool, gateway, granted := PoolOf(ns, ipv4), GatewayIn(ns.settings, ipv4), GrantedIn(ns, ipv4);
    if pool.Pool? {
      assert n in granted && GoodGrant(nodes, pool, gateway, granted, n);
      if gateway.AnAddr? { SameLink(pool.network, granted[n], gateway.addr); }
      assert PlannedIn(nodes, ns, ipv4, n, Some(granted[n]));
    } else if gateway.NoAddr? {
      assert PlannedIn(nodes, ns, ipv4, n, None);
    }
  }

  /** The plan of a Node carries, in a family with a pool, the prefix length of the subnet. */
  lemma PlannedLength(nodes: Nodes, ns: Namespace, ipv4: bool, n: string, r: Option<Prefix>)
    requires FamilySound(nodes, ns, ipv4) && n in nodes && PlannedIn(nodes, ns, ipv4, n, r)
    requires PoolOf(ns, ipv4).Pool?
    ensures r.Some? && r.value.bits == PoolOf(ns, ipv4).network.bits && Contains(PoolOf(ns, ipv4).network, r.value.addr)
  {
    var pool, granted := PoolOf(ns, ipv4), GrantedIn(ns, ipv4);
    if (if ipv4 then nodes[n].ipv4 else nodes[n].ipv6) == Undeclared {
      assert n in granted && GoodGrant(nodes, pool, GatewayIn(ns.settings, ipv4), granted, n);
    }
  }

  lemma PlanNodeOkIff(nodes: Nodes, ns: Namespace, n: string)
    requires FamilySound(nodes, ns, true) && FamilySound(nodes, ns, false) && n in nodes
    requires GatewayInside(ns.pool4, ns.settings.gateway4) && GatewayInside(ns.pool6, ns.settings.gateway6)
    ensures PlanNode(nodes, ns, n).Ok? <==>
              && Plannable(nodes[n].ipv4, ns.pool4, ns.settings.gateway4)
              && Plannable(nodes[n].ipv6, ns.pool6, ns.settings.gateway6)
  {
    PlannableIff(nodes, ns, true, n);
    PlannableIff(nodes, ns, false, n);
    if PlanNode(nodes, ns, n).Ok? {
      PlanNodeIff(nodes, ns, n, PlanNode(nodes, ns, n).value);
    }
    if r4, r6 :| PlannedIn(nodes, ns, true, n, r4) && PlannedIn(nodes, ns, false, n, r6) {
      PlanNodeIff(nodes, ns, n, Managed(n, nodes[n].uid, r4, r6));
    }
  }

  lemma AllocationHasGateway(nodes: Nodes, pool: Pool, gateway: AddrText, hash: Hash, walks: Ranges)
    requires SoundPool(pool) && Allocate(nodes, pool, gateway, hash, walks).Ok?
    ensures GatewayInside(pool, gateway)
  {
  }

  /** The namespace has a policy, pools and allocations, and no address is declared twice. */
  ghost predicate Compiles(nodes: Nodes, mgmt: Option<Policy>, hash: Hash, orders: Orders) {
    && NoClash(nodes, true, Anywhere) && NoClash(nodes, false, Anywhere)
    && Settings(mgmt).Ok? && Pools(Settings(mgmt).value).Ok?
    && var s := Settings(mgmt).value;
       var (pool4, pool6) := Pools(s).value;
       && Allocate(nodes, pool4, s.gateway4, hash, orders.family4).Ok?
       && Allocate(nodes, pool6, s.gateway6, hash, orders.family6).Ok?
  }

  lemma CompilesIff(nodes: Nodes, mgmt: Option<Policy>, hash: Hash, orders: Orders)
    requires PlainNames(nodes) && OrdersOver(orders, nodes)
    ensures CompileNamespace(nodes, mgmt, hash, orders).Ok? <==> Compiles(nodes, mgmt, hash, orders)
  {
    ExplicitUnique(nodes, orders.explicit);
  }

  /** A group is planned if and only if no address is declared twice in the namespace, its policy has pools
      and allocations, and every member with an identity of its own declares in each family nothing or an
      address that is accepted and that a host may have. */
  lemma GroupIsPlannedIff(group: seq<string>, nodes: Nodes, mgmt: Option<Policy>, hash: Hash, orders: Orders)
    requires PlainNames(nodes) && OrdersOver(orders, nodes) && NoDuplicates(group) && !IsDisabled(mgmt)
    ensures CompileGroup(group, nodes, mgmt, hash, orders).Ok? <==>
              && Compiles(nodes, mgmt, hash, orders)
              && var s := Settings(mgmt).value;
                 forall n :: n in group && n in nodes && !nodes[n].sharesNamespace ==>
                   && Plannable(nodes[n].ipv4, Pools(s).value.0, s.gateway4)
                   && Plannable(nodes[n].ipv6, Pools(s).value.1, s.gateway6)
  {
    CompilesIff(nodes, mgmt, hash, orders);
    if Compiles(nodes, mgmt, hash, orders) {
      var ns := CompileNamespace(nodes, mgmt, hash, orders).value;
      Stages(nodes, mgmt, hash, orders);
      NamespaceIsSound(nodes, mgmt, hash, orders);
      AllocationHasGateway(nodes, ns.pool4, ns.settings.gateway4, hash, orders.family4);
      AllocationHasGateway(nodes, ns.pool6, ns.settings.gateway6, hash, orders.family6);
      MembersPlannedIff(group, nodes, ns);
    }
  }

  lemma MembersPlannedIff(group: seq<string>, nodes: Nodes, ns: Namespace)
    requires FamilySound(nodes, ns, true) && FamilySound(nodes, ns, false) && NoDuplicates(group)
    requires GatewayInside(ns.pool4, ns.settings.gateway4) && GatewayInside(ns.pool6, ns.settings.gateway6)
    ensures PlanGroup(nodes, ns, group).Ok? <==>
              forall n :: n in group && n in nodes && !nodes[n].sharesNamespace ==>
                && Plannable(nodes[n].ipv4, ns.pool4, ns.settings.gateway4)
                && Plannable(nodes[n].ipv6, ns.pool6, ns.settings.gateway6)
  {
    PlanGroupOkIff(nodes, ns, group);
    forall n | n in group && n in nodes && !nodes[n].sharesNamespace
      ensures PlanNode(nodes, ns, n).Ok? <==>
                && Plannable(nodes[n].ipv4, ns.pool4, ns.settings.gateway4)
                && Plannable(nodes[n].ipv6, ns.pool6, ns.settings.gateway6)
    {
      PlanNodeOkIff(nodes, ns, n);
    }
  }

  /** Under a disabled policy nothing is planned, and that is an error exactly if a member declares an
      address. */
  lemma DisabledGroup(group: seq<string>, nodes: Nodes, mgmt: Option<Policy>, hash: Hash, orders: Orders)
    requires mgmt.Some? && mgmt.value.disabled
    ensures CompileGroup(group, nodes, mgmt, hash, orders) ==
              if exists n :: n in group && n in nodes && (nodes[n].ipv4 != Undeclared || nodes[n].ipv6 != Undeclared)
              then Err(ConflictsWithDisabled) else Ok([])
  {
    if n :| n in group && n in nodes && (nodes[n].ipv4 != Undeclared || nodes[n].ipv6 != Undeclared) {
      assert DeclaresAny(nodes, n);
    }
    if n :| n in group && DeclaresAny(nodes, n) {
      assert nodes[n].ipv4 != Undeclared || nodes[n].ipv6 != Undeclared;
    }
  }

  /** In a planned group: every planned address, with what it carries. */
  lemma PlannedAs(group: seq<string>, nodes: Nodes, mgmt: Option<Policy>, hash: Hash, orders: Orders, x: Managed)
    requires PlainNames(nodes) && OrdersOver(orders, nodes) && NoDuplicates(group) && !IsDisabled(mgmt)
    requires CompileGroup(group, nodes, mgmt, hash, orders).Ok?
    ensures x in CompileGroup(group, nodes, mgmt, hash, orders).value <==>
              && x.name in group && x.name in nodes && !nodes[x.name].sharesNamespace
              && var ns := CompileNamespace(nodes, mgmt, hash, orders).value;
                 && x.nodeID == nodes[x.name].uid
                 && PlannedIn(nodes, ns, true, x.name, x.ipv4) && PlannedIn(nodes, ns, false, x.name, x.ipv6)
  {
    CompiledGroup(group, nodes, mgmt, hash, orders);
    if x.name in nodes {
      PlanNodeIff(nodes, CompileNamespace(nodes, mgmt, hash, orders).value, x.name, x);
    }
  }

  // ---------------------------------------------------------------- the policy

  /** The address after the first of the subnet: its network bits, zeros, and a one at the end. */
  ghost predicate SecondAddress(subnet: Prefix, g: Addr) {
    && g.v4 == subnet.addr.v4 && g.zone == ""
    && forall i: nat :: i < BitLen(g.v4) ==>
         Bit(g.bytes, i) == if i < subnet.bits then Bit(subnet.addr.bytes, i) else i == BitLen(g.v4) - 1
  }

  /** The gateway of a family: as written, or the second address of a subnet that has one. */
  ghost predicate RightGateway(written: AddrText, subnet: PrefixText, g: AddrText) {
    if written.NoAddr? && subnet.APrefix?
    then subnet.prefix.bits < BitLen(subnet.prefix.addr.v4) ==> g.AnAddr? && SecondAddress(subnet.prefix, g.addr)
    else g == written
  }

  /** The settings of a policy: everything as written, 172.20.20.0/24 for a missing IPv4 subnet, and the
      second address of the subnet for a missing gateway. There are none exactly if a gateway is missing
      and the subnet to take it from is malformed. */
  lemma SettingsAre(mgmt: Option<Policy>)
    ensures var p := if mgmt.Some? then mgmt.value else EmptyPolicy;
            && (Settings(mgmt).Ok? <==>
                  && !(p.gateway4.NoAddr? && p.subnet4.BadPrefix?) && !(p.gateway6.NoAddr? && p.subnet6.BadPrefix?))
            && (Settings(mgmt).Ok? ==>
                  var s := Settings(mgmt).value;
                  && s.disabled == p.disabled && s.range4 == p.range4 && s.range6 == p.range6 && s.subnet6 == p.subnet6
                  && s.subnet4 == (if p.subnet4.NoPrefix?
                                   then APrefix(RawPrefix(RawAddr(true, [172, 20, 20, 0], ""), 24)) else p.subnet4)
                  && RightGateway(p.gateway4, s.subnet4, s.gateway4) && RightGateway(p.gateway6, s.subnet6, s.gateway6))
  {
    var p := if mgmt.Some? then mgmt.value else EmptyPolicy;
    var subnet4 := if p.subnet4.NoPrefix? then APrefix(DefaultSubnet) else p.subnet4;
    if subnet4.APrefix? { SecondIsFirstUsable(subnet4.prefix); }
    if p.subnet6.APrefix? { SecondIsFirstUsable(p.subnet6.prefix); }
  }

  lemma SecondIsFirstUsable(subnet: Prefix)
    ensures subnet.bits < BitLen(subnet.addr.v4) ==>
              FirstUsable(APrefix(subnet)).Ok? && FirstUsable(APrefix(subnet)).value.AnAddr? &&
              SecondAddress(subnet, FirstUsable(APrefix(subnet)).value.addr)
  {
    if subnet.bits < BitLen(subnet.addr.v4) {
      forall i: nat | i < BitLen(subnet.addr.v4)
        ensures |Following(First(subnet))| == 1 && Following(First(subnet))[0].zone == ""
        ensures Bit(Following(First(subnet))[0].bytes, i) ==
                  if i < subnet.bits then Bit(subnet.addr.bytes, i) else i == BitLen(subnet.addr.v4) - 1
      {
        FirstUsableBits(subnet, i);
      }
      FirstUsableBits(subnet, 0);
    }
  }
}
