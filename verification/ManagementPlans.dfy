/** Who uses the management allocation: the plan of each pod group, compiled on its own, and the
    peer directory of the whole namespace.
  */
module ManagementPlans {
  import opened Wrappers
  import opened Ordering
  import opened Addresses
  import opened Management

  /** A management policy as written; empty fields are completed by defaults. */
  datatype Policy = Policy(
    disabled: bool,
    subnet4: PrefixText, range4: PrefixText, gateway4: AddrText,
    subnet6: PrefixText, range6: PrefixText, gateway6: AddrText)

  const EmptyPolicy := Policy(false, NoPrefix, NoPrefix, NoAddr, NoPrefix, NoPrefix, NoAddr)

  const DefaultSubnet: Prefix := RawPrefix(RawAddr(true, [172, 20, 20, 0], ""), 24)

  function FirstUsable(subnet: PrefixText): Result<AddrText> {
    match subnet
    case APrefix(p) =>
      var next := Following(First(p));
      Ok(if |next| == 0 then BadAddr else AnAddr(next[0]))
    case _ => Err(BadSubnet)
  }

  /** A missing IPv4 subnet becomes the default one, a missing gateway the first usable address. */
  function WithDefaults(p: Policy): Result<Policy> {
    var subnet4 := if p.subnet4.NoPrefix? then APrefix(DefaultSubnet) else p.subnet4;
    var gateway4 := if p.gateway4.NoAddr? then FirstUsable(subnet4) else Ok(p.gateway4);
    var gateway6 := if p.gateway6.NoAddr? && !p.subnet6.NoPrefix? then FirstUsable(p.subnet6) else Ok(p.gateway6);
    if gateway4.Err? then Err(gateway4.error)
    else if gateway6.Err? then Err(gateway6.error)
    else Ok(p.(subnet4 := subnet4, gateway4 := gateway4.value, gateway6 := gateway6.value))
  }

  function Settings(mgmt: Option<Policy>): Result<Policy> {
    WithDefaults(if mgmt.Some? then mgmt.value else EmptyPolicy)
  }

  predicate IsDisabled(mgmt: Option<Policy>) {
    mgmt.Some? && mgmt.value.disabled
  }

  function GatewayIn(settings: Policy, ipv4: bool): AddrText {
    if ipv4 then settings.gateway4 else settings.gateway6
  }

  function PoolIn(settings: Policy, ipv4: bool): Result<Pool> {
    if ipv4 then NewPool(settings.subnet4, settings.range4, true)
    else NewPool(settings.subnet6, settings.range6, false)
  }

  // ---------------------------------------------------------------- one address

  /** The explicit address in normal form, nothing if none is declared. */
  function Normalize(raw: Declared, pool: Pool): Result<Option<Prefix>> {
    match raw
    case Undeclared => Ok(None)
    case Malformed => Err(BadAddress)
    case Cidr(p) =>
      if p.addr.v4 != pool.ipv4 then Err(WrongFamily)
      else if pool.Pool? && (p.bits != pool.network.bits || !Contains(pool.network, p.addr)) then Err(OutsideSubnet)
      else Ok(Some(p))
    case Bare(a) =>
      if a.v4 != pool.ipv4 then Err(BadAddress)
      else if pool.NoPool? || !Contains(pool.network, a) then Err(NeedsSubnet)
      else
        assert pool.network.bits <= BitLen(a.v4);
        Ok(Some(RawPrefix(a, pool.network.bits)))
  }

  /** Explicit if declared, allocated otherwise. */
  function AddressFor(node: Node, name: string, pool: Pool, granted: map<string, Prefix>): Result<Option<Prefix>> {
    match Normalize(DeclaredIn(node, pool.ipv4), pool)
    case Err(e) => Err(e)
    case Ok(None) => Ok(if name in granted then Some(granted[name]) else None)
    case Ok(Some(p)) => Ok(Some(p))
  }

  /** The chosen address must be a usable host, and the gateway must be on its link. */
  function CheckHost(address: Option<Prefix>, pool: Pool, gateway: AddrText): Option<Error> {
    if address.Some? && pool.Pool? && !Usable(pool, address.value.addr, GatewayAddr(gateway)) then Some(ReservedAddress)
    else None
  }

  function CheckGateway(gateway: AddrText, source: Option<Prefix>, ipv4: bool): Option<Error> {
    if gateway.NoAddr? then None
    else if source.None? || source.value.addr.v4 != ipv4 then Some(GatewayOffLink)
    else if gateway.BadAddr? || gateway.addr.v4 != ipv4 || !Contains(source.value, gateway.addr) then
      Some(GatewayOffLink)
    else None
  }

  // ---------------------------------------------------------------- a group

  /** What all groups of a namespace share under one policy. */
  datatype Namespace = Namespace(settings: Policy, pool4: Pool, pool6: Pool,
                                 granted4: map<string, Prefix>, granted6: map<string, Prefix>)

  function PoolOf(ns: Namespace, ipv4: bool): Pool { if ipv4 then ns.pool4 else ns.pool6 }

  function GrantedIn(ns: Namespace, ipv4: bool): map<string, Prefix> { if ipv4 then ns.granted4 else ns.granted6 }

  function Pools(settings: Policy): (r: Result<(Pool, Pool)>)
    ensures r.Ok? ==> SoundPool(r.value.0) && SoundPool(r.value.1) && r.value.0.ipv4 && !r.value.1.ipv4
  {
    match PoolIn(settings, true)
    case Err(e) => Err(e)
    case Ok(pool4) =>
      match PoolIn(settings, false)
      case Err(e) => Err(e)
      case Ok(pool6) =>
        NewPoolSound(settings.subnet4, settings.range4, true);
        NewPoolSound(settings.subnet6, settings.range6, false);
        Ok((pool4, pool6))
  }

  /** Explicit addresses must be unique in the namespace, family by family. */
  function ExplicitClash(nodes: Nodes, walk: seq<string>): Option<Error> {
    var names := Sort(walk, s => s);
    var r4 := ReserveAll(nodes, true, Anywhere, names);
    var r6 := ReserveAll(nodes, false, Anywhere, names);
    if r4.Err? then Some(r4.error) else if r6.Err? then Some(r6.error) else None
  }

  method ValidateUniqueExplicitManagementAddresses(nodes: Nodes, walk: seq<string>) returns (r: Option<Error>)
    requires Walks(walk, nodes.Keys) && "" !in nodes
    ensures r == ExplicitClash(nodes, walk)
    ensures r.None? <==> NoClash(nodes, true, Anywhere) && NoClash(nodes, false, Anywhere)
  {
    var names := Sort(walk, s => s);
    SortedWalk(nodes, walk);
    ReserveAllForgetsOrder(nodes, true, Anywhere, names, names);
    ReserveAllForgetsOrder(nodes, false, Anywhere, names, names);
    var owners4 := ReserveDeclared(nodes, true, Anywhere, names);
    if owners4.Err? {
      return Some(owners4.error);
    }
    var owners6 := ReserveDeclared(nodes, false, Anywhere, names);
    if owners6.Err? {
      return Some(owners6.error);
    }
    r := None;
  }

  lemma SortedWalk(nodes: Nodes, walk: seq<string>)
    requires Walks(walk, nodes.Keys)
    ensures Walks(Sort(walk, s => s), nodes.Keys)
  {
    var names := Sort(walk, s => s);
    SameElements(names, walk);
    SortSorted(walk, s => s);
    forall i, j | 0 <= i < j < |names| ensures names[i] != names[j] {
      LessIrreflexive(names[i]);
    }
  }

  /** The orders in which the loops over the Nodes happen to visit them: the uniqueness check, the two
      allocations, and the listing of the directory. */
  datatype Orders = Orders(explicit: seq<string>, family4: Ranges, family6: Ranges, members: seq<string>)

  ghost predicate OrdersOver(orders: Orders, nodes: Nodes) {
    && Walks(orders.explicit, nodes.Keys) && Walks(orders.members, nodes.Keys)
    && RangesOver(orders.family4, nodes) && RangesOver(orders.family6, nodes)
  }

  function CompileNamespace(nodes: Nodes, mgmt: Option<Policy>, hash: Hash, orders: Orders): Result<Namespace> {
    if ExplicitClash(nodes, orders.explicit).Some? then Err(ExplicitClash(nodes, orders.explicit).value)
    else
      match Settings(mgmt)
      case Err(e) => Err(e)
      case Ok(settings) =>
        match Pools(settings)
        case Err(e) => Err(e)
        case Ok((pool4, pool6)) =>
          match Allocate(nodes, pool4, settings.gateway4, hash, orders.family4)
          case Err(e) => Err(e)
          case Ok(granted4) =>
            match Allocate(nodes, pool6, settings.gateway6, hash, orders.family6)
            case Err(e) => Err(e)
            case Ok(granted6) => Ok(Namespace(settings, pool4, pool6, granted4, granted6))
  }

  datatype Managed = Managed(name: string, nodeID: string, ipv4: Option<Prefix>, ipv6: Option<Prefix>)

  /** The management identity of one Node, with all its checks. */
  function PlanNode(nodes: Nodes, ns: Namespace, name: string): Result<Managed>
    requires name in nodes
  {
    var node := nodes[name];
    match AddressFor(node, name, ns.pool4, ns.granted4)
    case Err(e) => Err(e)
    case Ok(ipv4) =>
      if CheckHost(ipv4, ns.pool4, ns.settings.gateway4).Some? then Err(ReservedAddress)
      else
        match AddressFor(node, name, ns.pool6, ns.granted6)
        case Err(e) => Err(e)
        case Ok(ipv6) =>
          if CheckHost(ipv6, ns.pool6, ns.settings.gateway6).Some? then Err(ReservedAddress)
          else if CheckGateway(ns.settings.gateway4, ipv4, true).Some? then Err(GatewayOffLink)
          else if CheckGateway(ns.settings.gateway6, ipv6, false).Some? then Err(GatewayOffLink)
          else Ok(Managed(name, node.uid, ipv4, ipv6))
  }

  /** Addresses seen so far in the group, and the inputs built. */
  datatype Plan = Plan(seen: map<Addr, string>, inputs: seq<Managed>)

  function Note(seen: map<Addr, string>, address: Option<Prefix>, name: string): Result<map<Addr, string>> {
    if address.None? then Ok(seen)
    else if Holder(seen, address.value.addr) != "" then Err(SharedAddress(Holder(seen, address.value.addr), name))
    else Ok(seen[address.value.addr := name])
  }

  /** Every compiled member is kept: the settings carry an IPv4 gateway once defaults are applied, so
      the input is never empty. */
  function AddMember(nodes: Nodes, ns: Namespace, plan: Plan, name: string): Result<Plan> {
    if name !in nodes || nodes[name].sharesNamespace then Ok(plan)
    else
      match PlanNode(nodes, ns, name)
      case Err(e) => Err(e)
      case Ok(managed) =>
        match Note(plan.seen, managed.ipv4, name)
        case Err(e) => Err(e)
        case Ok(seen4) =>
          match Note(seen4, managed.ipv6, name)
          case Err(e) => Err(e)
          case Ok(seen6) => Ok(Plan(seen6, plan.inputs + [managed]))
  }

  function PlanGroup(nodes: Nodes, ns: Namespace, group: seq<string>): Result<Plan> {
    if |group| == 0 then Ok(Plan(map[], []))
    else
      match PlanGroup(nodes, ns, group[..|group| - 1])
      case Err(e) => Err(e)
      case Ok(plan) => AddMember(nodes, ns, plan, group[|group| - 1])
  }

  predicate DeclaresAny(nodes: Nodes, name: string) {
    name in nodes && !(nodes[name].ipv4.Undeclared? && nodes[name].ipv6.Undeclared?)
  }

  function CompileGroup(group: seq<string>, nodes: Nodes, mgmt: Option<Policy>, hash: Hash, orders: Orders)
      : Result<seq<Managed>> {
    if IsDisabled(mgmt) then
      if exists n :: n in group && DeclaresAny(nodes, n) then Err(ConflictsWithDisabled) else Ok([])
    else
      match CompileNamespace(nodes, mgmt, hash, orders)
      case Err(e) => Err(e)
      case Ok(ns) =>
        match PlanGroup(nodes, ns, group)
        case Err(e) => Err(e)
        case Ok(plan) => Ok(plan.inputs)
  }

  method CompileDirectManagement(group: seq<string>, nodes: Nodes, mgmt: Option<Policy>, hash: Hash, orders: Orders)
      returns (r: Result<seq<Managed>>)
    requires OrdersOver(orders, nodes) && "" !in nodes
    ensures r == CompileGroup(group, nodes, mgmt, hash, orders)
  {
    if IsDisabled(mgmt) {
      for i := 0 to |group|
        invariant forall n :: n in group[..i] ==> !DeclaresAny(nodes, n)
      {
        assert group[i] in group && group[..i + 1] == group[..i] + [group[i]];
        if DeclaresAny(nodes, group[i]) {
          return Err(ConflictsWithDisabled);
        }
      }
      assert group[..|group|] == group;
      return Ok([]);
    }
    var clash := ValidateUniqueExplicitManagementAddresses(nodes, orders.explicit);
    if clash.Some? {
      return Err(clash.value);
    }
    var settings := Settings(mgmt);
    if settings.Err? {
      return Err(settings.error);
    }
    var pools := Pools(settings.value);
    if pools.Err? {
      return Err(pools.error);
    }
    var (pool4, pool6) := pools.value;
    var granted4 := AllocateDirectManagementAddresses(nodes, pool4, settings.value.gateway4, hash, orders.family4);
    if granted4.Err? {
      return Err(granted4.error);
    }
    var granted6 := AllocateDirectManagementAddresses(nodes, pool6, settings.value.gateway6, hash, orders.family6);
    if granted6.Err? {
      return Err(granted6.error);
    }
    var ns := Namespace(settings.value, pool4, pool6, granted4.value, granted6.value);
    var plan := CompileMembers(nodes, ns, group);
    return if plan.Err? then Err(plan.error) else Ok(plan.value.inputs);
  }

  method CompileMembers(nodes: Nodes, ns: Namespace, group: seq<string>) returns (r: Result<Plan>)
    ensures r == PlanGroup(nodes, ns, group)
  {
    var plan := Plan(map[], []);
    for i := 0 to |group|
      invariant PlanGroup(nodes, ns, group[..i]) == Ok(plan)
    {
      assert group[..i + 1][..i] == group[..i];
      PlanErrorStops(nodes, ns, group, i + 1);
      var next := AddMember(nodes, ns, plan, group[i]);
      if next.Err? {
        return Err(next.error);
      }
      plan := next.value;
    }
    assert group[..|group|] == group;
    r := Ok(plan);
  }

  lemma {:induction false} PlanErrorStops(nodes: Nodes, ns: Namespace, group: seq<string>, k: nat)
    requires k <= |group|
    ensures var r := PlanGroup(nodes, ns, group[..k]); r.Err? ==> PlanGroup(nodes, ns, group) == r
    decreases |group|
  {
    if k == |group| {
      assert group[..k] == group;
    } else {
      var shorter := group[..|group| - 1];
      assert shorter[..k] == group[..k];
      PlanErrorStops(nodes, ns, shorter, k);
    }
  }

  // ---------------------------------------------------------------- uniqueness

  /** What a compiled namespace guarantees about one family. */
  ghost predicate FamilySound(nodes: Nodes, ns: Namespace, ipv4: bool) {
    var pool, granted := PoolOf(ns, ipv4), GrantedIn(ns, ipv4);
    && pool.ipv4 == ipv4 && SoundPool(pool) && NoClash(nodes, ipv4, Anywhere)
    && (pool.NoPool? ==> granted == map[])
    && (pool.Pool? ==>
          && (forall n :: n in granted <==> IsUndeclared(nodes, pool, n))
          && (forall n :: n in granted ==> GoodGrant(nodes, pool, GatewayIn(ns.settings, ipv4), granted, n)))
  }

  /** The stages of a successful compilation. */
  lemma Stages(nodes: Nodes, mgmt: Option<Policy>, hash: Hash, orders: Orders)
    requires CompileNamespace(nodes, mgmt, hash, orders).Ok?
    ensures ExplicitClash(nodes, orders.explicit).None?
    ensures var ns := CompileNamespace(nodes, mgmt, hash, orders).value;
            && Settings(mgmt) == Ok(ns.settings) && Pools(ns.settings) == Ok((ns.pool4, ns.pool6))
            && SoundPool(ns.pool4) && SoundPool(ns.pool6) && ns.pool4.ipv4 && !ns.pool6.ipv4
            && Allocate(nodes, ns.pool4, ns.settings.gateway4, hash, orders.family4) == Ok(ns.granted4)
            && Allocate(nodes, ns.pool6, ns.settings.gateway6, hash, orders.family6) == Ok(ns.granted6)
  {
  }

  lemma ExplicitUnique(nodes: Nodes, walk: seq<string>)
    requires "" !in nodes && Walks(walk, nodes.Keys)
    ensures ExplicitClash(nodes, walk).None? <==> NoClash(nodes, true, Anywhere) && NoClash(nodes, false, Anywhere)
  {
    SortedWalk(nodes, walk);
    var names := Sort(walk, s => s);
    ReserveAllForgetsOrder(nodes, true, Anywhere, names, names);
    ReserveAllForgetsOrder(nodes, false, Anywhere, names, names);
  }

  lemma FamilyIsSound(nodes: Nodes, ns: Namespace, ipv4: bool, hash: Hash, walks: Ranges)
    requires PlainNames(nodes) && RangesOver(walks, nodes)
    requires PoolOf(ns, ipv4).ipv4 == ipv4 && SoundPool(PoolOf(ns, ipv4)) && NoClash(nodes, ipv4, Anywhere)
    requires Allocate(nodes, PoolOf(ns, ipv4), GatewayIn(ns.settings, ipv4), hash, walks) == Ok(GrantedIn(ns, ipv4))
    ensures FamilySound(nodes, ns, ipv4)
  {
    if PoolOf(ns, ipv4).Pool? {
      AllocationIsSafe(nodes, PoolOf(ns, ipv4), GatewayIn(ns.settings, ipv4), hash, walks);
    }
  }

  lemma NamespaceIsSound(nodes: Nodes, mgmt: Option<Policy>, hash: Hash, orders: Orders)
    requires PlainNames(nodes) && OrdersOver(orders, nodes)
    requires CompileNamespace(nodes, mgmt, hash, orders).Ok?
    ensures var ns := CompileNamespace(nodes, mgmt, hash, orders).value;
            FamilySound(nodes, ns, true) && FamilySound(nodes, ns, false)
  {
    Stages(nodes, mgmt, hash, orders);
    var ns := CompileNamespace(nodes, mgmt, hash, orders).value;
    ExplicitUnique(nodes, orders.explicit);
    FamilyIsSound(nodes, ns, true, hash, orders.family4);
    FamilyIsSound(nodes, ns, false, hash, orders.family6);
  }

  /** Both callers see the same namespace, in whatever orders their loops visit the Nodes. */
  lemma NamespaceForgetsOrder(nodes: Nodes, mgmt: Option<Policy>, hash: Hash, orders: Orders, orders': Orders)
    requires PlainNames(nodes) && OrdersOver(orders, nodes) && OrdersOver(orders', nodes)
    requires CompileNamespace(nodes, mgmt, hash, orders).Ok?
    ensures CompileNamespace(nodes, mgmt, hash, orders') == CompileNamespace(nodes, mgmt, hash, orders)
  {
    Stages(nodes, mgmt, hash, orders);
    var ns := CompileNamespace(nodes, mgmt, hash, orders).value;
    ExplicitUnique(nodes, orders.explicit);
    ExplicitUnique(nodes, orders'.explicit);
    AllocationForgetsOrder(nodes, ns.pool4, ns.settings.gateway4, hash, orders.family4, orders'.family4);
    AllocationForgetsOrder(nodes, ns.pool6, ns.settings.gateway6, hash, orders.family6, orders'.family6);
  }

  /** An address is either the Node's own declaration or its own allocation. */
  lemma AddressSource(nodes: Nodes, ns: Namespace, ipv4: bool, n: string)
    requires FamilySound(nodes, ns, ipv4) && n in nodes
    requires AddressFor(nodes[n], n, PoolOf(ns, ipv4), GrantedIn(ns, ipv4)).Ok?
    ensures var r := AddressFor(nodes[n], n, PoolOf(ns, ipv4), GrantedIn(ns, ipv4)).value;
            r.Some? ==>
              && r.value.addr.v4 == ipv4
              && (|| Declares(nodes, ipv4, n, r.value.addr)
                  || (&& PoolOf(ns, ipv4).Pool? && n in GrantedIn(ns, ipv4)
                      && GrantedIn(ns, ipv4)[n] == r.value
                      && GoodGrant(nodes, PoolOf(ns, ipv4), GatewayIn(ns.settings, ipv4), GrantedIn(ns, ipv4), n)))
  {
    var pool, granted := PoolOf(ns, ipv4), GrantedIn(ns, ipv4);
    if n in granted {
      assert GoodGrant(nodes, pool, GatewayIn(ns.settings, ipv4), granted, n);
    }
  }

  /** Two Nodes never come out with the same address. */
  lemma AddressesDiffer(nodes: Nodes, ns: Namespace, ipv4: bool, m: string, n: string)
    requires FamilySound(nodes, ns, ipv4) && m in nodes && n in nodes && m != n
    requires AddressFor(nodes[m], m, PoolOf(ns, ipv4), GrantedIn(ns, ipv4)).Ok?
    requires AddressFor(nodes[n], n, PoolOf(ns, ipv4), GrantedIn(ns, ipv4)).Ok?
    ensures var a := AddressFor(nodes[m], m, PoolOf(ns, ipv4), GrantedIn(ns, ipv4)).value;
            var b := AddressFor(nodes[n], n, PoolOf(ns, ipv4), GrantedIn(ns, ipv4)).value;
            a.Some? && b.Some? ==> a.value.addr != b.value.addr
  {
    AddressSource(nodes, ns, ipv4, m);
    AddressSource(nodes, ns, ipv4, n);
    var a := AddressFor(nodes[m], m, PoolOf(ns, ipv4), GrantedIn(ns, ipv4)).value;
    var b := AddressFor(nodes[n], n, PoolOf(ns, ipv4), GrantedIn(ns, ipv4)).value;
    if a.Some? && b.Some? && a.value.addr == b.value.addr {
      var x := a.value.addr;
      if Declares(nodes, ipv4, m, x) && Declares(nodes, ipv4, n, x) {
        assert Reserves(nodes, ipv4, Anywhere, m, x) && Reserves(nodes, ipv4, Anywhere, n, x);
      }
    }
  }

  /** The addresses of a planned Node, over both families. */
  function AddrsOf(x: Managed): set<Addr> {
    (if x.ipv4.Some? then {x.ipv4.value.addr} else {}) + (if x.ipv6.Some? then {x.ipv6.value.addr} else {})
  }

  /** No address of one Node is an address of another, across families too. */
  lemma PlansDiffer(nodes: Nodes, ns: Namespace, m: string, n: string)
    requires FamilySound(nodes, ns, true) && FamilySound(nodes, ns, false)
    requires m in nodes && n in nodes && m != n && PlanNode(nodes, ns, m).Ok? && PlanNode(nodes, ns, n).Ok?
    ensures AddrsOf(PlanNode(nodes, ns, m).value) !! AddrsOf(PlanNode(nodes, ns, n).value)
  {
    AddressSource(nodes, ns, true, m);
    AddressSource(nodes, ns, false, m);
    AddressSource(nodes, ns, true, n);
    AddressSource(nodes, ns, false, n);
    AddressesDiffer(nodes, ns, true, m, n);
    AddressesDiffer(nodes, ns, false, m, n);
  }

  /** The two addresses of one Node differ. */
  lemma FamiliesDiffer(nodes: Nodes, ns: Namespace, n: string)
    requires FamilySound(nodes, ns, true) && FamilySound(nodes, ns, false)
    requires n in nodes && PlanNode(nodes, ns, n).Ok?
    ensures var x := PlanNode(nodes, ns, n).value;
            x.ipv4.Some? && x.ipv6.Some? ==> x.ipv4.value.addr != x.ipv6.value.addr
  {
    AddressSource(nodes, ns, true, n);
    AddressSource(nodes, ns, false, n);
  }

  /** The inputs are the plans of the members that have an identity of their own, and the table
      of seen addresses holds theirs. */
  ghost predicate PlanExact(nodes: Nodes, ns: Namespace, group: seq<string>, plan: Plan) {
    && (forall x :: x in plan.inputs <==>
          x.name in group && x.name in nodes && !nodes[x.name].sharesNamespace && PlanNode(nodes, ns, x.name) == Ok(x))
    && (forall a :: a in plan.seen ==> exists x :: x in plan.inputs && a in AddrsOf(x))
  }

  lemma {:induction false} PlanGroupExact(nodes: Nodes, ns: Namespace, group: seq<string>)
    requires FamilySound(nodes, ns, true) && FamilySound(nodes, ns, false) && NoDuplicates(group)
    ensures match PlanGroup(nodes, ns, group)
            case Ok(plan) => PlanExact(nodes, ns, group, plan)
            case Err(e) => !e.SharedAddress?
    decreases |group|
  {
    if |group| > 0 {
      var k := |group| - 1;
      var before, name := group[..k], group[k];
      assert group == before + [name] && name !in before;
      PlanGroupExact(nodes, ns, before);
      if PlanGroup(nodes, ns, before).Ok? {
        MemberNeverShares(nodes, ns, before, PlanGroup(nodes, ns, before).value, name);
      }
    }
  }

  lemma MemberNeverShares(nodes: Nodes, ns: Namespace, before: seq<string>, plan: Plan, name: string)
    requires FamilySound(nodes, ns, true) && FamilySound(nodes, ns, false)
    requires PlanExact(nodes, ns, before, plan) && name !in before
    ensures match AddMember(nodes, ns, plan, name)
            case Ok(next) => PlanExact(nodes, ns, before + [name], next)
            case Err(e) => !e.SharedAddress?
  {
    if name in nodes && !nodes[name].sharesNamespace && PlanNode(nodes, ns, name).Ok? {
      var managed := PlanNode(nodes, ns, name).value;
      FamiliesDiffer(nodes, ns, name);
      NotSeenBefore(nodes, ns, before, plan, name);
      MemberAdded(nodes, ns, plan, name);
      SeenCovered(plan, AddMember(nodes, ns, plan, name).value, managed);
    }
  }

  lemma MemberAdded(nodes: Nodes, ns: Namespace, plan: Plan, name: string)
    requires name in nodes && !nodes[name].sharesNamespace && PlanNode(nodes, ns, name).Ok?
    requires var x := PlanNode(nodes, ns, name).value;
             && (forall a :: a in AddrsOf(x) ==> a !in plan.seen)
             && (x.ipv4.Some? && x.ipv6.Some? ==> x.ipv4.value.addr != x.ipv6.value.addr)
    ensures var x := PlanNode(nodes, ns, name).value;
            && AddMember(nodes, ns, plan, name).Ok?
            && AddMember(nodes, ns, plan, name).value.inputs == plan.inputs + [x]
            && AddMember(nodes, ns, plan, name).value.seen.Keys == plan.seen.Keys + AddrsOf(x)
  {
  }

  lemma SeenCovered(plan: Plan, next: Plan, managed: Managed)
    requires next.inputs == plan.inputs + [managed] && next.seen.Keys == plan.seen.Keys + AddrsOf(managed)
    requires forall a :: a in plan.seen ==> exists x :: x in plan.inputs && a in AddrsOf(x)
    ensures forall a :: a in next.seen ==> exists x :: x in next.inputs && a in AddrsOf(x)
  {
    forall a | a in next.seen ensures exists x :: x in next.inputs && a in AddrsOf(x) {
      if a in plan.seen {
        var x :| x in plan.inputs && a in AddrsOf(x);
        assert x in next.inputs;
      } else {
        assert managed in next.inputs;
      }
    }
  }

  lemma NotSeenBefore(nodes: Nodes, ns: Namespace, before: seq<string>, plan: Plan, name: string)
    requires FamilySound(nodes, ns, true) && FamilySound(nodes, ns, false)
    requires PlanExact(nodes, ns, before, plan) && name !in before && name in nodes && PlanNode(nodes, ns, name).Ok?
    ensures forall a :: a in AddrsOf(PlanNode(nodes, ns, name).value) ==> a !in plan.seen
  {
    var managed := PlanNode(nodes, ns, name).value;
    forall a | a in AddrsOf(managed) ensures a !in plan.seen {
      if a in plan.seen {
        var x :| x in plan.inputs && a in AddrsOf(x);
        PlansDiffer(nodes, ns, x.name, name);
      }
    }
  }

  /** For a group without repeated members the duplicate check inside the loop never fires. */
  lemma DuplicateCheckNeverFires(group: seq<string>, nodes: Nodes, mgmt: Option<Policy>, hash: Hash, orders: Orders)
    requires PlainNames(nodes) && OrdersOver(orders, nodes) && NoDuplicates(group)
    ensures var r := CompileGroup(group, nodes, mgmt, hash, orders);
            r.Err? && CompileNamespace(nodes, mgmt, hash, orders).Ok? ==> !r.error.SharedAddress?
  {
    if CompileNamespace(nodes, mgmt, hash, orders).Ok? && !IsDisabled(mgmt) {
      NamespaceIsSound(nodes, mgmt, hash, orders);
      PlanGroupExact(nodes, CompileNamespace(nodes, mgmt, hash, orders).value, group);
    }
  }

  lemma CompiledGroup(group: seq<string>, nodes: Nodes, mgmt: Option<Policy>, hash: Hash, orders: Orders)
    requires PlainNames(nodes) && OrdersOver(orders, nodes) && NoDuplicates(group)
    requires CompileGroup(group, nodes, mgmt, hash, orders).Ok? && !IsDisabled(mgmt)
    ensures CompileNamespace(nodes, mgmt, hash, orders).Ok?
    ensures var ns := CompileNamespace(nodes, mgmt, hash, orders).value;
            && FamilySound(nodes, ns, true) && FamilySound(nodes, ns, false)
            && forall x :: x in CompileGroup(group, nodes, mgmt, hash, orders).value <==>
                 && x.name in group && x.name in nodes && !nodes[x.name].sharesNamespace
                 && PlanNode(nodes, ns, x.name) == Ok(x)
  {
    NamespaceIsSound(nodes, mgmt, hash, orders);
    PlanGroupExact(nodes, CompileNamespace(nodes, mgmt, hash, orders).value, group);
  }

  /** Namespace-wide uniqueness: groups compiled independently, each walking the Nodes in its own
      order, never give two different Nodes a common address, explicit or allocated. */
  lemma GroupsNeverShareAnAddress(nodes: Nodes, mgmt: Option<Policy>, hash: Hash,
                                  group: seq<string>, orders: Orders, group': seq<string>, orders': Orders,
                                  x: Managed, y: Managed)
    requires PlainNames(nodes) && OrdersOver(orders, nodes) && OrdersOver(orders', nodes)
    requires NoDuplicates(group) && NoDuplicates(group')
    requires CompileGroup(group, nodes, mgmt, hash, orders).Ok?
    requires x in CompileGroup(group, nodes, mgmt, hash, orders).value
    requires CompileGroup(group', nodes, mgmt, hash, orders').Ok?
    requires y in CompileGroup(group', nodes, mgmt, hash, orders').value
    requires x.name != y.name
    ensures AddrsOf(x) !! AddrsOf(y)
  {
    CompiledGroup(group, nodes, mgmt, hash, orders);
    CompiledGroup(group', nodes, mgmt, hash, orders');
    NamespaceForgetsOrder(nodes, mgmt, hash, orders, orders');
    PlansDiffer(nodes, CompileNamespace(nodes, mgmt, hash, orders).value, x.name, y.name);
  }

  // ---------------------------------------------------------------- the peer directory

  datatype Peer = Peer(name: string, ipv4: Option<Addr>, ipv6: Option<Addr>)

  /** The part of `address/bits` before the slash. */
  function BareOf(p: Option<Prefix>): Option<Addr> {
    if p.Some? then Some(p.value.addr) else None
  }

  /** Best effort: a declaration that cannot be normalized contributes nothing. */
  function PeerAddress(node: Node, name: string, pool: Pool, granted: map<string, Prefix>): Option<Addr> {
    match AddressFor(node, name, pool, granted)
    case Err(_) => None
    case Ok(p) => BareOf(p)
  }

  function PeerOf(nodes: Nodes, ns: Namespace, name: string): Option<Peer> {
    if name !in nodes || nodes[name].sharesNamespace then None
    else
      var peer := Peer(name, PeerAddress(nodes[name], name, ns.pool4, ns.granted4),
                       PeerAddress(nodes[name], name, ns.pool6, ns.granted6));
      if peer.ipv4.None? && peer.ipv6.None? then None else Some(peer)
  }

  function GrantsOrNone(nodes: Nodes, pool: Pool, gateway: AddrText, hash: Hash, walks: Ranges): map<string, Prefix>
    requires SoundPool(pool)
  {
    match Allocate(nodes, pool, gateway, hash, walks)
    case Err(_) => map[]
    case Ok(granted) => granted
  }

  /** The namespace as the directory sees it: the same policy and allocations, no clash check. */
  function DirectoryView(nodes: Nodes, mgmt: Option<Policy>, hash: Hash, orders: Orders): Option<Namespace> {
    if IsDisabled(mgmt) || Settings(mgmt).Err? || Pools(Settings(mgmt).value).Err? then None
    else
      var settings := Settings(mgmt).value;
      var (pool4, pool6) := Pools(settings).value;
      Some(Namespace(settings, pool4, pool6,
        GrantsOrNone(nodes, pool4, settings.gateway4, hash, orders.family4),
        GrantsOrNone(nodes, pool6, settings.gateway6, hash, orders.family6)))
  }

  /** What the directory publishes under one policy. */
  ghost predicate Published(nodes: Nodes, mgmt: Option<Policy>, hash: Hash, orders: Orders, peer: Peer) {
    var view := DirectoryView(nodes, mgmt, hash, orders);
    view.Some? && PeerOf(nodes, view.value, peer.name) == Some(peer)
  }

  method CompileNamespaceManagementIdentities(nodes: Nodes, mgmt: Option<Policy>, hash: Hash, orders: Orders)
      returns (peers: seq<Peer>)
    requires OrdersOver(orders, nodes)
    ensures forall p :: p in peers <==> Published(nodes, mgmt, hash, orders, p)
    ensures Sorted(peers, (p: Peer) => p.name)
  {
    var walk := orders.members;
    var view := DirectoryView(nodes, mgmt, hash, orders);
    if view.None? {
      return [];
    }
    var result: seq<Peer> := [];
    for i := 0 to |walk|
      invariant forall p :: p in result <==> p.name in walk[..i] && PeerOf(nodes, view.value, p.name) == Some(p)
      invariant DistinctKeys(result, (p: Peer) => p.name)
    {
      var name := walk[i];
      assert walk[..i + 1] == walk[..i] + [name] && name !in walk[..i];
      var peer := PeerOf(nodes, view.value, name);
      if peer.None? {
        continue;
      }
      forall j | 0 <= j < |result| ensures result[j].name != name {
        assert result[j] in result;
      }
      result := result + [peer.value];
    }
    assert walk[..|walk|] == walk;
    SortSorted(result, (p: Peer) => p.name);
    peers := Sort(result, (p: Peer) => p.name);
    SameElements(peers, result);
    forall p ensures p in peers <==> Published(nodes, mgmt, hash, orders, p) {
      if PeerOf(nodes, view.value, p.name) == Some(p) { assert p.name in nodes && p.name in walk; }
    }
  }

  /** What is published follows from the Nodes and the policy, whatever the orders. */
  lemma DirectoryForgetsOrder(nodes: Nodes, mgmt: Option<Policy>, hash: Hash, orders: Orders, orders': Orders, p: Peer)
    requires PlainNames(nodes) && OrdersOver(orders, nodes) && OrdersOver(orders', nodes)
    ensures Published(nodes, mgmt, hash, orders, p) <==> Published(nodes, mgmt, hash, orders', p)
  {
    if !IsDisabled(mgmt) && Settings(mgmt).Ok? && Pools(Settings(mgmt).value).Ok? {
      var settings := Settings(mgmt).value;
      var (pool4, pool6) := Pools(settings).value;
      AllocationForgetsOrder(nodes, pool4, settings.gateway4, hash, orders.family4, orders'.family4);
      AllocationForgetsOrder(nodes, pool6, settings.gateway6, hash, orders.family6, orders'.family6);
    }
  }

  /** The directory agrees with the plans: under one policy, the directory publishes for a planned
      Node exactly the bare form of the addresses its plan got. */
  lemma DirectoryAgreesWithPlans(group: seq<string>, nodes: Nodes, mgmt: Option<Policy>, hash: Hash,
                                 orders: Orders, orders': Orders, x: Managed, p: Peer)
    requires PlainNames(nodes) && OrdersOver(orders, nodes) && OrdersOver(orders', nodes) && NoDuplicates(group)
    requires CompileGroup(group, nodes, mgmt, hash, orders).Ok?
    requires x in CompileGroup(group, nodes, mgmt, hash, orders).value
    requires p.name == x.name
    ensures Published(nodes, mgmt, hash, orders', p) <==>
              AddrsOf(x) != {} && p == Peer(x.name, BareOf(x.ipv4), BareOf(x.ipv6))
  {
    CompiledGroup(group, nodes, mgmt, hash, orders);
    NamespaceForgetsOrder(nodes, mgmt, hash, orders, orders');
    var ns := CompileNamespace(nodes, mgmt, hash, orders).value;
    ViewIsNamespace(nodes, mgmt, hash, orders');
    PlannedPeer(nodes, ns, x);
  }

  lemma ViewIsNamespace(nodes: Nodes, mgmt: Option<Policy>, hash: Hash, orders: Orders)
    requires !IsDisabled(mgmt) && CompileNamespace(nodes, mgmt, hash, orders).Ok?
    ensures DirectoryView(nodes, mgmt, hash, orders) == Some(CompileNamespace(nodes, mgmt, hash, orders).value)
  {
    Stages(nodes, mgmt, hash, orders);
  }

  lemma PlannedPeer(nodes: Nodes, ns: Namespace, x: Managed)
    requires x.name in nodes && !nodes[x.name].sharesNamespace && PlanNode(nodes, ns, x.name) == Ok(x)
    ensures PeerOf(nodes, ns, x.name) ==
              if AddrsOf(x) == {} then None else Some(Peer(x.name, BareOf(x.ipv4), BareOf(x.ipv6)))
  {
  }

  function AddressIn(p: Peer, ipv4: bool): Option<Addr> { if ipv4 then p.ipv4 else p.ipv6 }

  /** The Node declares this address, and in a form that fits the subnet. */
  predicate Fits(nodes: Nodes, pool: Pool, n: string, a: Addr) {
    n in nodes && Normalize(DeclaredIn(nodes[n], pool.ipv4), pool).Ok? &&
    BareOf(Normalize(DeclaredIn(nodes[n], pool.ipv4), pool).value) == Some(a)
  }

  lemma FitsIsDeclared(nodes: Nodes, pool: Pool, n: string, a: Addr)
    requires Fits(nodes, pool, n, a)
    ensures Declares(nodes, pool.ipv4, n, a)
  {
  }

  /** What the directory publishes for a family is a fitting declaration or a good allocation. */
  lemma PeerSource(nodes: Nodes, pool: Pool, gateway: AddrText, hash: Hash, walks: Ranges, n: string, a: Addr)
    requires PlainNames(nodes) && RangesOver(walks, nodes) && SoundPool(pool) && n in nodes
    ensures var granted := GrantsOrNone(nodes, pool, gateway, hash, walks);
            PeerAddress(nodes[n], n, pool, granted) == Some(a) <==>
              || Fits(nodes, pool, n, a)
              || (&& pool.Pool? && IsUndeclared(nodes, pool, n) && n in granted && granted[n].addr == a
                  && GoodGrant(nodes, pool, gateway, granted, n))
  {
    var granted := GrantsOrNone(nodes, pool, gateway, hash, walks);
    if pool.Pool? && Allocate(nodes, pool, gateway, hash, walks).Ok? {
      AllocationIsSafe(nodes, pool, gateway, hash, walks);
      if n in granted { assert GoodGrant(nodes, pool, gateway, granted, n); }
    }
  }

  /** Two Nodes are published with one address exactly if both declare it and it fits. */
  lemma FamilySharesIff(nodes: Nodes, pool: Pool, gateway: AddrText, hash: Hash, walks: Ranges,
                        m: string, n: string, a: Addr)
    requires PlainNames(nodes) && RangesOver(walks, nodes) && SoundPool(pool)
    requires m in nodes && n in nodes && m != n
    ensures var granted := GrantsOrNone(nodes, pool, gateway, hash, walks);
            PeerAddress(nodes[m], m, pool, granted) == Some(a) && PeerAddress(nodes[n], n, pool, granted) == Some(a)
            <==> Fits(nodes, pool, m, a) && Fits(nodes, pool, n, a)
  {
    PeerSource(nodes, pool, gateway, hash, walks, m, a);
    PeerSource(nodes, pool, gateway, hash, walks, n, a);
    if Fits(nodes, pool, m, a) { FitsIsDeclared(nodes, pool, m, a); }
    if Fits(nodes, pool, n, a) { FitsIsDeclared(nodes, pool, n, a); }
  }

  /** The directory has no clash check: under one policy it publishes two Nodes with a common address
      exactly if both declare it in a form that fits the subnet. Then every plan of the namespace
      under that policy is refused. */
  lemma DirectorySharesIff(nodes: Nodes, mgmt: Option<Policy>, hash: Hash, orders: Orders, p: Peer, q: Peer,
                           ipv4: bool, a: Addr)
    requires PlainNames(nodes) && OrdersOver(orders, nodes) && p.name != q.name
    requires Published(nodes, mgmt, hash, orders, p) && Published(nodes, mgmt, hash, orders, q)
    ensures var pool := PoolOf(DirectoryView(nodes, mgmt, hash, orders).value, ipv4);
            AddressIn(p, ipv4) == Some(a) == AddressIn(q, ipv4) <==>
              Fits(nodes, pool, p.name, a) && Fits(nodes, pool, q.name, a)
    ensures AddressIn(p, ipv4) == Some(a) == AddressIn(q, ipv4) ==>
              forall group, orders' :: OrdersOver(orders', nodes) ==>
                CompileGroup(group, nodes, mgmt, hash, orders').Err?
  {
    var view := DirectoryView(nodes, mgmt, hash, orders).value;
    var walks := if ipv4 then orders.family4 else orders.family6;
    FamilySharesIff(nodes, PoolOf(view, ipv4), GatewayIn(view.settings, ipv4), hash, walks, p.name, q.name, a);
    if AddressIn(p, ipv4) == Some(a) == AddressIn(q, ipv4) {
      FitsIsDeclared(nodes, PoolOf(view, ipv4), p.name, a);
      FitsIsDeclared(nodes, PoolOf(view, ipv4), q.name, a);
      assert Reserves(nodes, ipv4, Anywhere, p.name, a) && Reserves(nodes, ipv4, Anywhere, q.name, a);
      forall group, orders' | OrdersOver(orders', nodes)
        ensures CompileGroup(group, nodes, mgmt, hash, orders').Err?
      {
        ExplicitUnique(nodes, orders'.explicit);
      }
    }
  }

  // ---------------------------------------------------------------- mixed policies

  /** The policy a Node is under, by its JSON text, or the fact that its profile is missing. */
  datatype Choice = Missing | Under(text: string)

  /** The namespace directory when Nodes may be under different policies. Policies are told apart by
      their text, so that two texts of one policy are compiled twice; `policyOf` is what a text says.
      Each text is compiled with map orders of its own. */
  method ReconcileNamespacePeerDirectory(nodes: Nodes, choices: map<string, Choice>, hash: Hash,
                                         policyOf: string -> Option<Policy>,
                                         walk: seq<string>, keyOrder: set<string> -> seq<string>,
                                         orders: string -> Orders)
      returns (peers: seq<Peer>)
    requires Walks(walk, nodes.Keys) && choices.Keys == nodes.Keys
    requires forall keys :: Walks(keyOrder(keys), keys)
    requires forall key :: OrdersOver(orders(key), nodes)
    // Every Node appears at most once, and exactly as its own policy has it.
    ensures DistinctKeys(peers, (p: Peer) => p.name)
    ensures forall p :: p in peers <==>
              p.name in choices && choices[p.name].Under? &&
              Published(nodes, policyOf(choices[p.name].text), hash, orders(choices[p.name].text), p)
  {
    var policies, nodePolicies := PoliciesOf(choices, policyOf, walk);
    var keys := keyOrder(policies.Keys);
    assert Walks(keys, policies.Keys);
    peers := [];
    for i := 0 to |keys|
      invariant DistinctKeys(peers, (p: Peer) => p.name)
      invariant forall p :: p in peers <==>
                  && p.name in nodePolicies && nodePolicies[p.name] in keys[..i]
                  && Published(nodes, policyOf(nodePolicies[p.name]), hash, orders(nodePolicies[p.name]), p)
    {
      assert keys[i] in keys && keys[..i + 1] == keys[..i] + [keys[i]] && keys[i] !in keys[..i];
      var compiled := CompileNamespaceManagementIdentities(nodes, policies[keys[i]], hash, orders(keys[i]));
      var mine := OfPolicy(compiled, nodePolicies, keys[i]);
      DistinctAppend(peers, mine);
      peers := peers + mine;
    }
    assert keys[..|keys|] == keys;
  }

  /** The policies in use by their text, and the text of each Node's policy. */
  method PoliciesOf(choices: map<string, Choice>, policyOf: string -> Option<Policy>, walk: seq<string>)
      returns (policies: map<string, Option<Policy>>, nodePolicies: map<string, string>)
    requires Walks(walk, choices.Keys)
    ensures forall n :: n in nodePolicies <==> n in choices && choices[n].Under?
    ensures forall n :: n in nodePolicies ==> nodePolicies[n] == choices[n].text && nodePolicies[n] in policies
    ensures forall k :: k in policies ==> policies[k] == policyOf(k)
  {
    policies, nodePolicies := map[], map[];
    for i := 0 to |walk|
      invariant forall n :: n in nodePolicies <==> n in walk[..i] && choices[n].Under?
      invariant forall n :: n in nodePolicies ==> nodePolicies[n] == choices[n].text && nodePolicies[n] in policies
      invariant forall k :: k in policies ==> policies[k] == policyOf(k)
    {
      var name := walk[i];
      assert name in walk && walk[..i + 1] == walk[..i] + [name];
      if choices[name].Missing? {
        continue;
      }
      var key := choices[name].text;
      policies := policies[key := policyOf(key)];
      nodePolicies := nodePolicies[name := key];
    }
    assert walk[..|walk|] == walk;
  }

  /** The peers whose Node is under the policy with this key. */
  method OfPolicy(compiled: seq<Peer>, nodePolicies: map<string, string>, key: string) returns (mine: seq<Peer>)
    requires Sorted(compiled, (p: Peer) => p.name)
    ensures forall p :: p in mine <==> p in compiled && p.name in nodePolicies && nodePolicies[p.name] == key
    ensures DistinctKeys(mine, (p: Peer) => p.name)
  {
    mine := [];
    for i := 0 to |compiled|
      invariant forall p :: p in mine <==> p in compiled[..i] && p.name in nodePolicies && nodePolicies[p.name] == key
      invariant DistinctKeys(mine, (p: Peer) => p.name)
    {
      var peer := compiled[i];
      assert compiled[..i + 1] == compiled[..i] + [peer];
      if peer.name in nodePolicies && nodePolicies[peer.name] == key {
        forall j | 0 <= j < |mine| ensures mine[j].name != peer.name {
          assert mine[j] in mine;
          var k :| 0 <= k < i && compiled[k] == mine[j];
          LessIrreflexive(peer.name);
        }
        mine := mine + [peer];
      }
    }
    assert compiled[..|compiled|] == compiled;
  }

  lemma DistinctAppend(a: seq<Peer>, b: seq<Peer>)
    requires DistinctKeys(a, (p: Peer) => p.name) && DistinctKeys(b, (p: Peer) => p.name)
    requires forall p, q :: p in a && q in b ==> p.name != q.name
    ensures DistinctKeys(a + b, (p: Peer) => p.name)
  {
    var all := a + b;
    forall i, j | 0 <= i < j < |all| ensures all[i].name != all[j].name {
      if j < |a| {
      } else if |a| <= i {
        assert all[i] == b[i - |a|] && all[j] == b[j - |a|];
      } else {
        assert a[i] in a && b[j - |a|] in b;
      }
    }
  }
}
