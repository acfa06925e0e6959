/** Which member of a pod group exposes which port. The members share one network namespace, so a
    destination port belongs to one of them: a declared owner beats an image-derived one, the
    first image-derived owner beats the later ones, and the default set fills the gaps.
  */
module ExposedPorts {
  import opened Wrappers
  import opened Ordering
  import opened PortText

  datatype Error = NoProfile | InvalidPort(node: string) | UnknownContainer | SharedPort

  type Result<+T> = Attempt<T, Error>

  /** A destination port with its protocol in upper case. */
  datatype Key = Key(number: int, protocol: string)

  datatype Node = Node(uid: string, ports: seq<string>)

  type Nodes = map<string, Node>

  datatype Container = Container(nodeID: string, ports: seq<(int, string)>)

  datatype Profile = Profile(exposeNone: bool, disableAutoExpose: bool)

  const DefaultPorts: seq<Key> := [
    Key(21, "TCP"), Key(22, "TCP"), Key(23, "TCP"), Key(80, "TCP"), Key(443, "TCP"), Key(830, "TCP"),
    Key(5000, "TCP"), Key(5900, "TCP"), Key(6030, "TCP"), Key(9339, "TCP"), Key(9340, "TCP"),
    Key(9559, "TCP"), Key(57400, "TCP"), Key(161, "UDP")]

  // ---------------------------------------------------------------- declarations

  /** Node id to the ports it declares. */
  type Explicit = map<string, set<Key>>

  predicate Declares(explicit: Explicit, id: string, key: Key) {
    id in explicit && key in explicit[id]
  }

  function KeyOf(p: Port): Key {
    Key(p.number, if p.protocol == TCP then "TCP" else "UDP")
  }

  function DeclaredKeys(ports: seq<string>): Option<set<Key>> {
    if |ports| == 0 then Some({})
    else
      match DeclaredKeys(ports[..|ports| - 1])
      case None => None
      case Some(keys) =>
        match ProcessPort(ports[|ports| - 1])
        case None => None
        case Some(p) => Some(keys + {KeyOf(p)})
  }

  function Explicits(group: seq<string>, nodes: Nodes): Result<Explicit> {
    if |group| == 0 then Ok(map[])
    else
      var name := group[|group| - 1];
      match Explicits(group[..|group| - 1], nodes)
      case Err(e) => Err(e)
      case Ok(explicit) =>
        if name !in nodes then Ok(explicit)
        else
          match DeclaredKeys(nodes[name].ports)
          case None => Err(InvalidPort(name))
          case Some(keys) => Ok(explicit[nodes[name].uid := keys])
  }

  // ---------------------------------------------------------------- planned ports

  /** The plan as a sequence: a container is opened, then its ports are planned. */
  datatype Event = Open(id: string) | Plan(id: string, key: Key)

  function EventsOf(c: Container): seq<Event> {
    [Open(c.nodeID)] +
    seq(|c.ports|, i requires 0 <= i < |c.ports| => Plan(c.nodeID, Key(c.ports[i].0, ToUpper(c.ports[i].1))))
  }

  function Events(containers: seq<Container>): seq<Event> {
    if |containers| == 0 then []
    else Events(containers[..|containers| - 1]) + EventsOf(containers[|containers| - 1])
  }

  type Owners = map<Key, string>

  function PlanPort(owners: Owners, explicit: Explicit, disableAuto: bool, id: string, key: Key): Result<Owners> {
    if disableAuto && !Declares(explicit, id, key) then Ok(owners)
    else if key in owners && owners[key] != id then
      if Declares(explicit, id, key) && Declares(explicit, owners[key], key) then Err(SharedPort)
      else if !Declares(explicit, id, key) then Ok(owners)
      else Ok(owners[key := id])
    else Ok(owners[key := id])
  }

  function Step(owners: Owners, explicit: Explicit, disableAuto: bool, e: Event): Result<Owners> {
    match e
    case Open(id) => if id in explicit then Ok(owners) else Err(UnknownContainer)
    case Plan(id, key) => PlanPort(owners, explicit, disableAuto, id, key)
  }

  function Own(events: seq<Event>, explicit: Explicit, disableAuto: bool): Result<Owners> {
    if |events| == 0 then Ok(map[])
    else
      match Own(events[..|events| - 1], explicit, disableAuto)
      case Err(e) => Err(e)
      case Ok(owners) => Step(owners, explicit, disableAuto, events[|events| - 1])
  }

  /** Member `id` both declares and plans the port. */
  ghost predicate Claims(events: seq<Event>, explicit: Explicit, id: string, key: Key) {
    Plan(id, key) in events && Declares(explicit, id, key)
  }

  /** The first event that plans the port. */
  ghost predicate FirstPlan(events: seq<Event>, i: nat, key: Key) {
    && i < |events| && events[i].Plan? && events[i].key == key
    && forall j :: 0 <= j < i ==> !(events[j].Plan? && events[j].key == key)
  }

  ghost predicate Planned(events: seq<Event>, key: Key) {
    exists id :: Plan(id, key) in events
  }

  /** Ownership without the fold: the declared owner if there is one, else, unless auto expose is
      off, whoever planned the port first. */
  ghost predicate RightOwner(events: seq<Event>, explicit: Explicit, disableAuto: bool, key: Key, id: string) {
    if exists m :: Claims(events, explicit, m, key) then Claims(events, explicit, id, key)
    else !disableAuto && exists i: nat :: FirstPlan(events, i, key) && events[i].id == id
  }

  ghost predicate Unclaimed(events: seq<Event>, explicit: Explicit, disableAuto: bool, key: Key) {
    (forall m :: !Claims(events, explicit, m, key)) && (disableAuto || !Planned(events, key))
  }

  ghost predicate OwnersRight(events: seq<Event>, explicit: Explicit, disableAuto: bool, owners: Owners) {
    forall key ::
      (key in owners ==> RightOwner(events, explicit, disableAuto, key, owners[key])) &&
      (key !in owners ==> Unclaimed(events, explicit, disableAuto, key))
  }

  ghost predicate NoSharedClaim(events: seq<Event>, explicit: Explicit) {
    forall m, n, key :: Claims(events, explicit, m, key) && Claims(events, explicit, n, key) ==> m == n
  }

  ghost predicate AllKnown(events: seq<Event>, explicit: Explicit) {
    forall i :: 0 <= i < |events| && events[i].Open? ==> events[i].id in explicit
  }

  lemma ClaimsSnoc(events: seq<Event>, e: Event, explicit: Explicit, id: string, key: Key)
    ensures Claims(events + [e], explicit, id, key) <==>
              Claims(events, explicit, id, key) || (e == Plan(id, key) && Declares(explicit, id, key))
  {
  }

  lemma FirstPlanSnoc(events: seq<Event>, e: Event, key: Key)
    ensures forall i: nat :: FirstPlan(events, i, key) ==> FirstPlan(events + [e], i, key)
    ensures e.Plan? && e.key == key && !Planned(events, key) ==> FirstPlan(events + [e], |events|, key)
  {
    forall i: nat | FirstPlan(events, i, key) ensures FirstPlan(events + [e], i, key) {
      forall j | 0 <= j < i ensures !((events + [e])[j].Plan? && (events + [e])[j].key == key) {
        assert (events + [e])[j] == events[j];
      }
    }
    forall j | 0 <= j < |events| && events[j].Plan? && events[j].key == key ensures Planned(events, key) {
      assert Plan(events[j].id, key) in events;
    }
  }

  /** An event that adds no new claim on the port leaves its right owner right. */
  lemma RightOwnerStays(events: seq<Event>, e: Event, explicit: Explicit, disableAuto: bool, key: Key, id: string)
    requires RightOwner(events, explicit, disableAuto, key, id)
    requires !(e.Plan? && e.key == key && Declares(explicit, e.id, key)) || e.id == id
    ensures RightOwner(events + [e], explicit, disableAuto, key, id)
  {
    forall m ensures Claims(events + [e], explicit, m, key) <==>
                     Claims(events, explicit, m, key) || (e == Plan(m, key) && Declares(explicit, m, key)) {
      ClaimsSnoc(events, e, explicit, m, key);
    }
    FirstPlanSnoc(events, e, key);
    if forall m :: !Claims(events + [e], explicit, m, key) {
      var i: nat :| FirstPlan(events, i, key) && events[i].id == id;
      assert FirstPlan(events + [e], i, key) && (events + [e])[i].id == id;
    }
  }

  lemma UnclaimedStays(events: seq<Event>, e: Event, explicit: Explicit, disableAuto: bool, key: Key)
    requires Unclaimed(events, explicit, disableAuto, key)
    requires !(e.Plan? && e.key == key) || (disableAuto && !Declares(explicit, e.id, key))
    ensures Unclaimed(events + [e], explicit, disableAuto, key)
  {
    forall m ensures !Claims(events + [e], explicit, m, key) {
      ClaimsSnoc(events, e, explicit, m, key);
    }
    PlannedSnoc(events, e, key);
  }

  lemma PlannedSnoc(events: seq<Event>, e: Event, key: Key)
    ensures Planned(events + [e], key) <==> Planned(events, key) || (e.Plan? && e.key == key)
  {
    if id :| Plan(id, key) in events {
      assert Plan(id, key) in events + [e];
    }
    if e.Plan? && e.key == key {
      assert Plan(e.id, key) in events + [e];
    }
  }

  /** The owner of a port planned it. */
  lemma OwnerPlanned(events: seq<Event>, explicit: Explicit, disableAuto: bool, key: Key, id: string)
    requires RightOwner(events, explicit, disableAuto, key, id)
    ensures Plan(id, key) in events
  {
    if forall m :: !Claims(events, explicit, m, key) {
      var i: nat :| FirstPlan(events, i, key) && events[i].id == id;
      assert events[i] == Plan(id, key);
    }
  }

  /** A newcomer that takes a port is its right owner. */
  lemma TakerIsRight(events: seq<Event>, explicit: Explicit, disableAuto: bool, id: string, key: Key, owners: Owners)
    requires OwnersRight(events, explicit, disableAuto, owners)
    requires PlanPort(owners, explicit, disableAuto, id, key) == Ok(owners[key := id])
    requires key !in owners || owners[key] != id
    ensures RightOwner(events + [Plan(id, key)], explicit, disableAuto, key, id)
  {
    var e := Plan(id, key);
    ClaimsSnoc(events, e, explicit, id, key);
    FirstPlanSnoc(events, e, key);
    if !Declares(explicit, id, key) {
      assert key !in owners ==> Unclaimed(events, explicit, disableAuto, key);
      assert FirstPlan(events + [e], |events|, key) && (events + [e])[|events|].id == id;
      forall m ensures !Claims(events + [e], explicit, m, key) {
        ClaimsSnoc(events, e, explicit, m, key);
      }
    }
  }

  lemma PlanKeepsRight(events: seq<Event>, explicit: Explicit, disableAuto: bool, id: string, key: Key, owners: Owners)
    requires OwnersRight(events, explicit, disableAuto, owners)
    requires PlanPort(owners, explicit, disableAuto, id, key).Ok?
    ensures OwnersRight(events + [Plan(id, key)], explicit, disableAuto,
                        PlanPort(owners, explicit, disableAuto, id, key).value)
  {
    var e := Plan(id, key);
    var after := PlanPort(owners, explicit, disableAuto, id, key).value;
    forall k
      ensures k in after ==> RightOwner(events + [e], explicit, disableAuto, k, after[k])
      ensures k !in after ==> Unclaimed(events + [e], explicit, disableAuto, k)
    {
      if k in after {
        if k == key && (key !in owners || owners[key] != after[key]) {
          TakerIsRight(events, explicit, disableAuto, id, key, owners);
        } else {
          RightOwnerStays(events, e, explicit, disableAuto, k, after[k]);
        }
      } else {
        UnclaimedStays(events, e, explicit, disableAuto, k);
      }
    }
  }

  lemma PlanKeepsClaims(events: seq<Event>, explicit: Explicit, disableAuto: bool, id: string, key: Key, owners: Owners)
    requires OwnersRight(events, explicit, disableAuto, owners) && NoSharedClaim(events, explicit)
    ensures PlanPort(owners, explicit, disableAuto, id, key).Ok? <==> NoSharedClaim(events + [Plan(id, key)], explicit)
  {
    var e := Plan(id, key);
    forall m, k ensures Claims(events + [e], explicit, m, k) <==>
                        Claims(events, explicit, m, k) || (e == Plan(m, k) && Declares(explicit, m, k)) {
      ClaimsSnoc(events, e, explicit, m, k);
    }
    if key in owners && owners[key] != id && Declares(explicit, id, key) && Declares(explicit, owners[key], key) {
      OwnerPlanned(events, explicit, disableAuto, key, owners[key]);
      assert Claims(events + [e], explicit, id, key) && Claims(events + [e], explicit, owners[key], key);
    } else {
      forall m | Claims(events, explicit, m, key) && Declares(explicit, id, key) ensures m == id {
        assert key in owners by {
          assert key !in owners ==> Unclaimed(events, explicit, disableAuto, key);
        }
        assert Claims(events, explicit, owners[key], key);
      }
    }
  }

  /** No stray container and no port that two members both declare and plan. */
  ghost predicate Sound(events: seq<Event>, explicit: Explicit) {
    AllKnown(events, explicit) && NoSharedClaim(events, explicit)
  }

  /** The first event that breaks this, and the error it stands for. */
  ghost predicate FirstFault(events: seq<Event>, explicit: Explicit, i: nat, e: Error) {
    && i < |events| && Sound(events[..i], explicit) && !Sound(events[..i + 1], explicit)
    && e == if events[i].Open? then UnknownContainer else SharedPort
  }

  ghost predicate FailsWith(events: seq<Event>, explicit: Explicit, e: Error) {
    exists i: nat :: FirstFault(events, explicit, i, e)
  }

  /** The fold yields the right owners. It fails exactly if a container belongs to nobody known or
      two members both declare and plan a port, with the error of whichever comes first. */
  lemma {:induction false} OwnExact(events: seq<Event>, explicit: Explicit, disableAuto: bool)
    ensures match Own(events, explicit, disableAuto)
            case Ok(owners) => OwnersRight(events, explicit, disableAuto, owners) && Sound(events, explicit)
            case Err(e) => !Sound(events, explicit) && FailsWith(events, explicit, e)
    decreases |events|
  {
    if |events| > 0 {
      var n := |events| - 1;
      var before, e := events[..n], events[n];
      assert events == before + [e];
      OwnExact(before, explicit, disableAuto);
      match Own(before, explicit, disableAuto)
      case Err(error) =>
        FailureLasts(before, e, explicit);
        FaultLasts(before, e, explicit, error);
      case Ok(owners) =>
        StepExact(before, explicit, disableAuto, e, owners);
        var r := Own(events, explicit, disableAuto);
        assert r == Step(owners, explicit, disableAuto, e);
        if r.Err? {
          assert events[..n + 1] == events;
          assert FirstFault(events, explicit, n, r.error);
        }
    }
  }

  lemma FaultLasts(before: seq<Event>, e: Event, explicit: Explicit, error: Error)
    requires FailsWith(before, explicit, error)
    ensures FailsWith(before + [e], explicit, error)
  {
    var i: nat :| FirstFault(before, explicit, i, error);
    var events := before + [e];
    assert events[..i] == before[..i] && events[..i + 1] == before[..i + 1];
    assert FirstFault(events, explicit, i, error);
  }

  lemma StepExact(before: seq<Event>, explicit: Explicit, disableAuto: bool, e: Event, owners: Owners)
    requires OwnersRight(before, explicit, disableAuto, owners) && Sound(before, explicit)
    ensures match Step(owners, explicit, disableAuto, e)
            case Ok(after) => OwnersRight(before + [e], explicit, disableAuto, after) && Sound(before + [e], explicit)
            case Err(error) =>
              !Sound(before + [e], explicit) && error == if e.Open? then UnknownContainer else SharedPort
  {
    match e
    case Open(id) =>
      assert (before + [e])[|before|] == e;
      OpenKeepsRight(before, explicit, disableAuto, id, owners);
    case Plan(id, key) =>
      PlanKeepsClaims(before, explicit, disableAuto, id, key, owners);
      if PlanPort(owners, explicit, disableAuto, id, key).Ok? {
        PlanKeepsRight(before, explicit, disableAuto, id, key, owners);
      }
  }

  lemma FailureLasts(events: seq<Event>, e: Event, explicit: Explicit)
    ensures !AllKnown(events, explicit) ==> !AllKnown(events + [e], explicit)
    ensures !NoSharedClaim(events, explicit) ==> !NoSharedClaim(events + [e], explicit)
  {
    if !AllKnown(events, explicit) {
      var i :| 0 <= i < |events| && events[i].Open? && events[i].id !in explicit;
      assert (events + [e])[i] == events[i];
    }
    if !NoSharedClaim(events, explicit) {
      var m, n, key :| Claims(events, explicit, m, key) && Claims(events, explicit, n, key) && m != n;
      ClaimsSnoc(events, e, explicit, m, key);
      ClaimsSnoc(events, e, explicit, n, key);
    }
  }

  lemma OpenKeepsRight(events: seq<Event>, explicit: Explicit, disableAuto: bool, id: string, owners: Owners)
    requires OwnersRight(events, explicit, disableAuto, owners) && NoSharedClaim(events, explicit)
    ensures OwnersRight(events + [Open(id)], explicit, disableAuto, owners)
    ensures NoSharedClaim(events + [Open(id)], explicit)
  {
    var e := Open(id);
    forall key
      ensures key in owners ==> RightOwner(events + [e], explicit, disableAuto, key, owners[key])
      ensures key !in owners ==> Unclaimed(events + [e], explicit, disableAuto, key)
    {
      if key in owners {
        RightOwnerStays(events, e, explicit, disableAuto, key, owners[key]);
      } else {
        UnclaimedStays(events, e, explicit, disableAuto, key);
      }
    }
    forall m, n, key | Claims(events + [e], explicit, m, key) && Claims(events + [e], explicit, n, key) ensures m == n {
      ClaimsSnoc(events, e, explicit, m, key);
      ClaimsSnoc(events, e, explicit, n, key);
    }
  }

  // ---------------------------------------------------------------- defaults and listing

  function PortsOf(owners: Owners, id: string): set<Key> {
    set key | key in owners && owners[key] == id
  }

  /** The ports kept per node id say the same as the owners. */
  ghost predicate Tracks(portsByNode: map<string, set<Key>>, owners: Owners) {
    && (forall id :: id in portsByNode ==> portsByNode[id] == PortsOf(owners, id))
    && (forall key :: key in owners ==> owners[key] in portsByNode)
  }

  /** Member `id` takes every listed port nobody owns. */
  function Filled(owners: Owners, ports: seq<Key>, id: string): Owners {
    map key | key in owners.Keys + (set k | k in ports) :: if key in owners then owners[key] else id
  }

  predicate Least(name: string, group: seq<string>, nodes: Nodes) {
    && name in group && name in nodes
    && forall m :: m in group && m in nodes ==> m == name || Less(name, m)
  }

  ghost predicate NoMember(group: seq<string>, nodes: Nodes) {
    forall m :: m in group ==> m !in nodes
  }

  /** The owners once the default set is handed out: unless auto expose is off, its free ports go
      to the member whose name sorts first. */
  ghost predicate Completed(owners: Owners, all: Owners, disableAuto: bool, group: seq<string>, nodes: Nodes) {
    if disableAuto then all == owners else HandedOut(owners, all, DefaultPorts, group, nodes)
  }

  ghost predicate HandedOut(owners: Owners, all: Owners, ports: seq<Key>, group: seq<string>, nodes: Nodes) {
    if NoMember(group, nodes) then all == owners
    else exists name :: Least(name, group, nodes) && all == Filled(owners, ports, nodes[name].uid)
  }

  ghost predicate SharedUid(group: seq<string>, nodes: Nodes) {
    exists m, n :: m in group && n in group && m in nodes && n in nodes && m != n && nodes[m].uid == nodes[n].uid
  }

  /** By protocol, then by number. */
  predicate Before(a: Key, b: Key) {
    Less(a.protocol, b.protocol) || (a.protocol == b.protocol && a.number < b.number)
  }

  ghost predicate InOrder(keys: seq<Key>) {
    forall i, j :: 0 <= i < j < |keys| ==> Before(keys[i], keys[j])
  }

  function InsertKey(key: Key, keys: seq<Key>): (r: seq<Key>)
    ensures multiset(r) == multiset{key} + multiset(keys)
    decreases |keys|
  {
    if |keys| == 0 then [key]
    else if Before(key, keys[0]) then [key] + keys
    else
      assert keys == [keys[0]] + keys[1..];
      [keys[0]] + InsertKey(key, keys[1..])
  }

  /** `slices.SortFunc` with this comparison. */
  function SortKeys(keys: seq<Key>): (r: seq<Key>)
    ensures multiset(r) == multiset(keys)
    decreases |keys|
  {
    if |keys| == 0 then []
    else
      assert keys == [keys[0]] + keys[1..];
      InsertKey(keys[0], SortKeys(keys[1..]))
  }

  lemma BeforeTransitive(a: Key, b: Key, c: Key)
    requires Before(a, b) && Before(b, c)
    ensures Before(a, c)
  {
    if Less(a.protocol, b.protocol) && Less(b.protocol, c.protocol) {
      LessTransitive(a.protocol, b.protocol, c.protocol);
    }
  }

  lemma {:induction false} InsertKeyInOrder(key: Key, keys: seq<Key>)
    requires InOrder(keys) && key !in keys
    ensures InOrder(InsertKey(key, keys))
    decreases |keys|
  {
    if |keys| > 0 {
      if Before(key, keys[0]) {
        forall j | 0 < j < |keys| ensures Before(key, keys[j]) {
          BeforeTransitive(key, keys[0], keys[j]);
        }
      } else {
        LessTotal(key.protocol, keys[0].protocol);
        InsertKeyInOrder(key, keys[1..]);
        var t := InsertKey(key, keys[1..]);
        forall j | 0 <= j < |t| ensures Before(keys[0], t[j]) {
          assert t[j] in multiset(t);
          assert t[j] == key || t[j] in keys[1..];
        }
      }
    }
  }

  lemma {:induction false} SortKeysInOrder(keys: seq<Key>)
    requires NoDuplicates(keys)
    ensures InOrder(SortKeys(keys))
    decreases |keys|
  {
    if |keys| > 0 {
      SortKeysInOrder(keys[1..]);
      SameElements(SortKeys(keys[1..]), keys[1..]);
      InsertKeyInOrder(keys[0], SortKeys(keys[1..]));
    }
  }

  type Listing = map<string, seq<Key>>

  /** The ports in order, each once. */
  ghost predicate ListedAs(keys: seq<Key>, ports: set<Key>) {
    InOrder(keys) && forall k :: k in keys <==> k in ports
  }

  /** The listing holds each member's ports in order, and no member without any. */
  ghost predicate Lists(listing: Listing, all: Owners, group: seq<string>, nodes: Nodes) {
    && (forall name :: name in listing ==> name in group && name in nodes && listing[name] != [])
    && (forall name :: name in group && name in nodes ==>
          ListedAs(if name in listing then listing[name] else [], PortsOf(all, nodes[name].uid)))
  }

  method CollectExplicit(group: seq<string>, nodes: Nodes) returns (r: Result<Explicit>)
    ensures r == Explicits(group, nodes)
  {
    var explicit: Explicit := map[];
    for i := 0 to |group|
      invariant Explicits(group[..i], nodes) == Ok(explicit)
    {
      assert group[..i + 1][..i] == group[..i];
      var name := group[i];
      if name in nodes {
        var keys := DeclareAll(nodes[name].ports);
        if keys == None {
          ExplicitsStop(group, nodes, i + 1);
          return Err(InvalidPort(name));
        }
        explicit := explicit[nodes[name].uid := keys.value];
      }
    }
    assert group[..|group|] == group;
    r := Ok(explicit);
  }

  method DeclareAll(ports: seq<string>) returns (r: Option<set<Key>>)
    ensures r == DeclaredKeys(ports)
  {
    var keys: set<Key> := {};
    for i := 0 to |ports|
      invariant DeclaredKeys(ports[..i]) == Some(keys)
    {
      assert ports[..i + 1][..i] == ports[..i];
      var port := ProcessPort(ports[i]);
      if port == None {
        DeclaredStop(ports, i + 1);
        return None;
      }
      keys := keys + {KeyOf(port.value)};
    }
    assert ports[..|ports|] == ports;
    r := Some(keys);
  }

  lemma {:induction false} DeclaredStop(ports: seq<string>, i: nat)
    requires i <= |ports| && DeclaredKeys(ports[..i]) == None
    ensures DeclaredKeys(ports) == None
    decreases |ports|
  {
    if i == |ports| {
      assert ports[..i] == ports;
    } else {
      assert ports[..|ports| - 1][..i] == ports[..i];
      DeclaredStop(ports[..|ports| - 1], i);
    }
  }

  lemma {:induction false} ExplicitsStop(group: seq<string>, nodes: Nodes, i: nat)
    requires i <= |group| && Explicits(group[..i], nodes).Err?
    ensures Explicits(group, nodes) == Explicits(group[..i], nodes)
    decreases |group|
  {
    if i == |group| {
      assert group[..i] == group;
    } else {
      assert group[..|group| - 1][..i] == group[..i];
      ExplicitsStop(group[..|group| - 1], nodes, i);
    }
  }

  lemma {:induction false} OwnStop(events: seq<Event>, more: seq<Event>, explicit: Explicit, disableAuto: bool)
    requires Own(events, explicit, disableAuto).Err?
    ensures Own(events + more, explicit, disableAuto) == Own(events, explicit, disableAuto)
    decreases |more|
  {
    if more == [] {
      assert events + more == events;
    } else {
      var n := |more| - 1;
      assert (events + more)[..|events| + n] == events + more[..n];
      OwnStop(events, more[..n], explicit, disableAuto);
    }
  }

  lemma {:induction false} EventsSplit(containers: seq<Container>, i: nat)
    requires i <= |containers|
    ensures exists rest :: Events(containers) == Events(containers[..i]) + rest
    decreases |containers|
  {
    if i == |containers| {
      assert containers[..i] == containers;
      assert Events(containers) == Events(containers[..i]) + [];
    } else {
      var n := |containers| - 1;
      assert containers[..n][..i] == containers[..i];
      EventsSplit(containers[..n], i);
      var rest :| Events(containers[..n]) == Events(containers[..i]) + rest;
      assert Events(containers) == Events(containers[..i]) + (rest + EventsOf(containers[n]));
    }
  }

  /** Walks the planned containers, keeping the ports of every node beside their owners. */
  method OwnPlanned(containers: seq<Container>, explicit: Explicit, disableAuto: bool)
    returns (r: Result<map<string, set<Key>>>, ghost owners: Owners)
    ensures r.Err? ==> Own(Events(containers), explicit, disableAuto) == Err(r.error)
    ensures r.Ok? ==> Own(Events(containers), explicit, disableAuto) == Ok(owners) && Tracks(r.value, owners)
  {
    var portsByNode: map<string, set<Key>>, portOwners: Owners := map[], map[];
    for i := 0 to |containers|
      invariant Own(Events(containers[..i]), explicit, disableAuto) == Ok(portOwners)
      invariant Tracks(portsByNode, portOwners)
    {
      var container := containers[i];
      ghost var before := Events(containers[..i]);
      assert containers[..i + 1][..i] == containers[..i];
      assert Events(containers[..i + 1]) == before + EventsOf(container);
      var failure, ports, owned := PlanContainer(container, before, explicit, disableAuto, portsByNode, portOwners);
      if failure.Some? {
        EventsSplit(containers, i + 1);
        ghost var rest :| Events(containers) == Events(containers[..i + 1]) + rest;
        OwnStop(before + EventsOf(container), rest, explicit, disableAuto);
        return Err(failure.value), portOwners;
      }
      portsByNode, portOwners := ports, owned;
    }
    assert containers[..|containers|] == containers;
    r, owners := Ok(portsByNode), portOwners;
  }

  method PlanContainer(container: Container, ghost before: seq<Event>, explicit: Explicit, disableAuto: bool,
                       ports: map<string, set<Key>>, owned: Owners)
    returns (failure: Option<Error>, portsByNode: map<string, set<Key>>, portOwners: Owners)
    requires Own(before, explicit, disableAuto) == Ok(owned) && Tracks(ports, owned)
    ensures failure.None? ==> Own(before + EventsOf(container), explicit, disableAuto) == Ok(portOwners)
    ensures failure.None? ==> Tracks(portsByNode, portOwners)
    ensures failure.Some? ==> Own(before + EventsOf(container), explicit, disableAuto) == Err(failure.value)
  {
    portsByNode, portOwners := ports, owned;
    ghost var events := EventsOf(container);
    var id := container.nodeID;
    assert before + events[..0] == before;
    OwnSnoc(before, events, 0, explicit, disableAuto);
    if id !in explicit {
      OwnBreaks(before, events, 1, explicit, disableAuto);
      return Some(UnknownContainer), portsByNode, portOwners;
    }
    if id !in portsByNode {
      TracksOpen(portsByNode, portOwners, id);
      portsByNode := portsByNode[id := {}];
    }
    failure, portsByNode, portOwners := PlanPorts(container, before, explicit, disableAuto, portsByNode, portOwners);
  }

  method PlanPorts(container: Container, ghost before: seq<Event>, explicit: Explicit, disableAuto: bool,
                   ports: map<string, set<Key>>, owned: Owners)
    returns (failure: Option<Error>, portsByNode: map<string, set<Key>>, portOwners: Owners)
    requires container.nodeID in ports && Tracks(ports, owned)
    requires Own(before + EventsOf(container)[..1], explicit, disableAuto) == Ok(owned)
    ensures failure.None? ==> Own(before + EventsOf(container), explicit, disableAuto) == Ok(portOwners)
    ensures failure.None? ==> Tracks(portsByNode, portOwners)
    ensures failure.Some? ==> Own(before + EventsOf(container), explicit, disableAuto) == Err(failure.value)
  {
    portsByNode, portOwners, failure := ports, owned, None;
    ghost var events := EventsOf(container);
    var id := container.nodeID;
    for j := 0 to |container.ports|
      invariant Own(before + events[..j + 1], explicit, disableAuto) == Ok(portOwners)
      invariant id in portsByNode && Tracks(portsByNode, portOwners)
    {
      var key := Key(container.ports[j].0, ToUpper(container.ports[j].1));
      var clash;
      clash, portsByNode, portOwners :=
        PlanNext(id, key, before, events, j + 1, explicit, disableAuto, portsByNode, portOwners);
      if clash {
        return Some(SharedPort), portsByNode, portOwners;
      }
    }
    assert events[..|container.ports| + 1] == events;
  }

  /** The event at `j` of a container, with the events before it behind us. */
  method PlanNext(id: string, key: Key, ghost before: seq<Event>, ghost events: seq<Event>, ghost j: nat,
                  explicit: Explicit, disableAuto: bool, ports: map<string, set<Key>>, owned: Owners)
    returns (clash: bool, portsByNode: map<string, set<Key>>, portOwners: Owners)
    requires j < |events| && events[j] == Plan(id, key)
    requires Own(before + events[..j], explicit, disableAuto) == Ok(owned)
    requires id in ports && Tracks(ports, owned)
    ensures !clash ==> Own(before + events[..j + 1], explicit, disableAuto) == Ok(portOwners)
    ensures !clash ==> id in portsByNode && Tracks(portsByNode, portOwners)
    ensures clash ==> Own(before + events, explicit, disableAuto) == Err(SharedPort)
  {
    OwnSnoc(before, events, j, explicit, disableAuto);
    clash, portsByNode, portOwners := PlanOne(id, key, explicit, disableAuto, ports, owned);
    if clash {
      OwnBreaks(before, events, j + 1, explicit, disableAuto);
    }
  }

  method PlanOne(id: string, key: Key, explicit: Explicit, disableAuto: bool, ports: map<string, set<Key>>,
                 owned: Owners)
    returns (clash: bool, portsByNode: map<string, set<Key>>, portOwners: Owners)
    requires id in ports && Tracks(ports, owned)
    ensures clash ==> PlanPort(owned, explicit, disableAuto, id, key) == Err(SharedPort)
    ensures !clash ==> PlanPort(owned, explicit, disableAuto, id, key) == Ok(portOwners)
    ensures !clash ==> id in portsByNode && Tracks(portsByNode, portOwners)
  {
    clash, portsByNode, portOwners := false, ports, owned;
    if disableAuto && !Declares(explicit, id, key) {
      return;
    }
    if key in portOwners && portOwners[key] != id {
      var owner := portOwners[key];
      if Declares(explicit, id, key) && Declares(explicit, owner, key) {
        clash := true;
        return;
      }
      if !Declares(explicit, id, key) {
        return;
      }
      portsByNode := portsByNode[owner := portsByNode[owner] - {key}];
    }
    portOwners := portOwners[key := id];
    portsByNode := portsByNode[id := portsByNode[id] + {key}];
    TracksUpdate(ports, portsByNode, owned, key, id);
  }

  lemma TracksUpdate(ports: map<string, set<Key>>, ports': map<string, set<Key>>, owners: Owners, key: Key, id: string)
    requires Tracks(ports, owners) && id in ports && ports'.Keys == ports.Keys
    requires forall n :: n in ports ==> ports'[n] == if n == id then ports[n] + {key} else ports[n] - {key}
    ensures Tracks(ports', owners[key := id])
  {
    forall n | n in ports' ensures ports'[n] == PortsOf(owners[key := id], n) {
      assert ports[n] == PortsOf(owners, n);
    }
  }

  lemma TracksOpen(ports: map<string, set<Key>>, owners: Owners, id: string)
    requires Tracks(ports, owners) && id !in ports
    ensures Tracks(ports[id := {}], owners)
  {
    assert PortsOf(owners, id) == {};
  }

  lemma OwnBreaks(before: seq<Event>, events: seq<Event>, j: nat, explicit: Explicit, disableAuto: bool)
    requires j <= |events| && Own(before + events[..j], explicit, disableAuto).Err?
    ensures Own(before + events, explicit, disableAuto) == Own(before + events[..j], explicit, disableAuto)
  {
    OwnStop(before + events[..j], events[j..], explicit, disableAuto);
    assert before + events[..j] + events[j..] == before + events;
  }

  lemma OwnSnoc(before: seq<Event>, events: seq<Event>, j: nat, explicit: Explicit, disableAuto: bool)
    requires j < |events|
    requires Own(before + events[..j], explicit, disableAuto).Ok?
    ensures Own(before + events[..j + 1], explicit, disableAuto) ==
            Step(Own(before + events[..j], explicit, disableAuto).value, explicit, disableAuto, events[j])
  {
    var all := before + events[..j + 1];
    assert all[..|all| - 1] == before + events[..j];
  }

  method ClaimDefaults(ports: map<string, set<Key>>, ghost owners: Owners, defaults: seq<Key>, group: seq<string>,
                       nodes: Nodes)
    returns (portsByNode: map<string, set<Key>>, ghost all: Owners)
    requires Tracks(ports, owners)
    ensures Tracks(portsByNode, all) && HandedOut(owners, all, defaults, group, nodes)
  {
    var claimed := set id, key | id in ports && key in ports[id] :: key;
    portsByNode, all := ports, owners;
    ClaimedIsOwned(ports, owners, claimed);
    var sorted := Sort(group, (s: string) => s);
    ghost var first := 0;
    for i := 0 to |sorted|
      invariant Tracks(portsByNode, all) && claimed == all.Keys
      invariant HandedTo(owners, all, defaults, sorted[..i], nodes, first)
    {
      var name := sorted[i];
      assert sorted[..i + 1] == sorted[..i] + [name];
      HandedSnoc(owners, all, defaults, sorted[..i], nodes, first, name);
      if name in nodes {
        portsByNode, claimed, all := ClaimFor(nodes[name].uid, defaults, portsByNode, claimed, all);
      } else if first == i {
        first := first + 1;
      }
    }
    assert sorted[..|sorted|] == sorted;
    HandedIsHandedOut(owners, all, defaults, group, nodes, first);
  }

  lemma ClaimedIsOwned(ports: map<string, set<Key>>, owners: Owners, claimed: set<Key>)
    requires Tracks(ports, owners) && claimed == set id, key | id in ports && key in ports[id] :: key
    ensures claimed == owners.Keys
  {
    forall key | key in owners ensures key in claimed {
      assert key in PortsOf(owners, owners[key]);
    }
  }

  /** The first `first` names are no members; the next, if there is one, took what was free. */
  ghost predicate HandedTo(owners: Owners, all: Owners, ports: seq<Key>, names: seq<string>, nodes: Nodes, first: nat) {
    && first <= |names| && (forall j :: 0 <= j < first ==> names[j] !in nodes)
    && if first == |names| then all == owners
       else names[first] in nodes && all == Filled(owners, ports, nodes[names[first]].uid)
  }

  lemma HandedSnoc(owners: Owners, all: Owners, ports: seq<Key>, names: seq<string>, nodes: Nodes, first: nat,
                   name: string)
    requires HandedTo(owners, all, ports, names, nodes, first)
    ensures name in nodes ==> HandedTo(owners, Filled(all, ports, nodes[name].uid), ports, names + [name], nodes, first)
    ensures name !in nodes ==>
              HandedTo(owners, all, ports, names + [name], nodes, if first == |names| then first + 1 else first)
  {
    if name in nodes && first < |names| {
      assert Filled(all, ports, nodes[name].uid) == all;
    }
  }

  lemma HandedIsHandedOut(owners: Owners, all: Owners, ports: seq<Key>, group: seq<string>, nodes: Nodes, first: nat)
    requires HandedTo(owners, all, ports, Sort(group, (s: string) => s), nodes, first)
    ensures HandedOut(owners, all, ports, group, nodes)
  {
    var sorted := Sort(group, (s: string) => s);
    SameElements(sorted, group);
    if first < |sorted| {
      FirstIsLeast(group, nodes, first);
    } else {
      forall m | m in group ensures m !in nodes {
        assert m in sorted;
      }
    }
  }

  method ClaimFor(id: string, defaults: seq<Key>, ports: map<string, set<Key>>, taken: set<Key>, ghost owners: Owners)
    returns (portsByNode: map<string, set<Key>>, claimed: set<Key>, ghost all: Owners)
    requires Tracks(ports, owners) && taken == owners.Keys
    ensures Tracks(portsByNode, all) && claimed == all.Keys && all == Filled(owners, defaults, id)
  {
    portsByNode, claimed, all := ports, taken, owners;
    for j := 0 to |defaults|
      invariant Tracks(portsByNode, all) && claimed == all.Keys && all == Filled(owners, defaults[..j], id)
    {
      var key := defaults[j];
      FilledSnoc(owners, defaults, j, id);
      if key in claimed {
        continue;
      }
      claimed := claimed + {key};
      portsByNode := ClaimPort(id, key, portsByNode, all);
      all := all[key := id];
    }
    assert defaults[..|defaults|] == defaults;
  }

  method ClaimPort(id: string, key: Key, ports: map<string, set<Key>>, ghost owners: Owners)
    returns (portsByNode: map<string, set<Key>>)
    requires Tracks(ports, owners) && key !in owners
    ensures Tracks(portsByNode, owners[key := id])
  {
    portsByNode := ports;
    if id !in portsByNode {
      TracksOpen(portsByNode, owners, id);
      portsByNode := portsByNode[id := {}];
    }
    ghost var before := portsByNode;
    portsByNode := portsByNode[id := portsByNode[id] + {key}];
    TracksUpdate(before, portsByNode, owners, key, id);
  }

  lemma FilledSnoc(owners: Owners, ports: seq<Key>, j: nat, id: string)
    requires j < |ports|
    ensures var f := Filled(owners, ports[..j], id);
            Filled(owners, ports[..j + 1], id) == if ports[j] in f then f else f[ports[j] := id]
  {
    assert ports[..j + 1] == ports[..j] + [ports[j]];
  }

  lemma FirstIsLeast(group: seq<string>, nodes: Nodes, first: nat)
    requires var sorted := Sort(group, (s: string) => s);
             first < |sorted| && sorted[first] in nodes && forall j :: 0 <= j < first ==> sorted[j] !in nodes
    ensures Least(Sort(group, (s: string) => s)[first], group, nodes)
  {
    var byName := (s: string) => s;
    var sorted := Sort(group, byName);
    SortOrdered(group, byName);
    SameElements(sorted, group);
    forall m | m in group && m in nodes ensures m == sorted[first] || Less(sorted[first], m) {
      var j :| 0 <= j < |sorted| && sorted[j] == m;
      if m != sorted[first] {
        assert first < j;
        assert !Less(byName(sorted[j]), byName(sorted[first]));
        LessTotal(m, sorted[first]);
      }
    }
  }

  /** Every port noted so far belongs to the member it is noted for. */
  ghost predicate Noted(noted: map<Key, string>, all: Owners, group: seq<string>, nodes: Nodes) {
    forall key :: key in noted ==>
      && noted[key] in group && noted[key] in nodes && key in all
      && all[key] == nodes[noted[key]].uid
  }

  method ListPorts(portsByNode: map<string, set<Key>>, ghost all: Owners, group: seq<string>, nodes: Nodes)
    returns (r: Result<Listing>)
    requires Tracks(portsByNode, all)
    ensures r.Ok? ==> Lists(r.value, all, group, nodes)
    ensures r.Err? ==> r.error == SharedPort && SharedUid(group, nodes)
  {
    var listing: Listing, owners: map<Key, string> := map[], map[];
    for i := 0 to |group|
      invariant Lists(listing, all, group[..i], nodes) && Noted(owners, all, group, nodes)
    {
      var name := group[i];
      assert group[..i + 1] == group[..i] + [name];
      if name !in nodes {
        continue;
      }
      var id := nodes[name].uid;
      var mine := if id in portsByNode then portsByNode[id] else {};
      assert mine == PortsOf(all, id);
      var ports: seq<Key>, left := [], mine;
      while left != {}
        invariant left <= mine && Noted(owners, all, group, nodes)
        invariant NoDuplicates(ports) && forall k :: k in ports <==> k in mine && k !in left
        decreases left
      {
        var key :| key in left;
        if key in owners && owners[key] != "" && owners[key] != name {
          return Err(SharedPort);
        }
        owners := owners[key := name];
        ports := ports + [key];
        left := left - {key};
      }
      SortKeysInOrder(ports);
      SameElements(SortKeys(ports), ports);
      ListsMore(listing, all, group[..i], nodes, name, SortKeys(ports));
      if |ports| != 0 {
        listing := listing[name := SortKeys(ports)];
      }
    }
    assert group[..|group|] == group;
    r := Ok(listing);
  }

  lemma ListsMore(listing: Listing, all: Owners, done: seq<string>, nodes: Nodes, name: string, keys: seq<Key>)
    requires Lists(listing, all, done, nodes) && name in nodes && ListedAs(keys, PortsOf(all, nodes[name].uid))
    ensures Lists(if |keys| == 0 then listing else listing[name := keys], all, done + [name], nodes)
  {
  }

  /** What the compilation yields once a profile asks for exposure. */
  ghost predicate Outcome(containers: seq<Container>, disableAuto: bool, group: seq<string>, nodes: Nodes,
                          r: Result<Listing>)
  {
    match Explicits(group, nodes)
    case Err(e) => r == Err(e)
    case Ok(explicit) =>
      var events := Events(containers);
      if !Sound(events, explicit) then r.Err? && FailsWith(events, explicit, r.error)
      else
        exists owners, all :: Exposed(events, explicit, disableAuto, group, nodes, owners, all, r)
  }

  ghost predicate Exposed(events: seq<Event>, explicit: Explicit, disableAuto: bool, group: seq<string>, nodes: Nodes,
                          owners: Owners, all: Owners, r: Result<Listing>)
  {
    && OwnersRight(events, explicit, disableAuto, owners)
    && Completed(owners, all, disableAuto, group, nodes)
    && if r.Ok? then Lists(r.value, all, group, nodes) else r.error == SharedPort && SharedUid(group, nodes)
  }

  lemma OwnedIsOutcome(containers: seq<Container>, disableAuto: bool, group: seq<string>, nodes: Nodes,
                       owners: Owners, all: Owners, r: Result<Listing>)
    requires Explicits(group, nodes).Ok?
    requires Own(Events(containers), Explicits(group, nodes).value, disableAuto) == Ok(owners)
    requires Completed(owners, all, disableAuto, group, nodes)
    requires if r.Ok? then Lists(r.value, all, group, nodes) else r.error == SharedPort && SharedUid(group, nodes)
    ensures Outcome(containers, disableAuto, group, nodes, r)
  {
    var explicit := Explicits(group, nodes).value;
    OwnExact(Events(containers), explicit, disableAuto);
    assert Exposed(Events(containers), explicit, disableAuto, group, nodes, owners, all, r);
  }

  lemma FailedIsOutcome(containers: seq<Container>, disableAuto: bool, group: seq<string>, nodes: Nodes, e: Error)
    requires Explicits(group, nodes).Ok?
    requires Own(Events(containers), Explicits(group, nodes).value, disableAuto) == Err(e)
    ensures Outcome(containers, disableAuto, group, nodes, Err(e))
  {
    OwnExact(Events(containers), Explicits(group, nodes).value, disableAuto);
  }

  method CompileDirectExposedPorts(containers: seq<Container>, profile: Option<Profile>, group: seq<string>,
                                   nodes: Nodes)
    returns (r: Result<Listing>)
    ensures profile.None? ==> r == Err(NoProfile)
    ensures profile.Some? && profile.value.exposeNone ==> r == Ok(map[])
    ensures profile.Some? && !profile.value.exposeNone ==>
              Outcome(containers, profile.value.disableAutoExpose, group, nodes, r)
  {
    if profile.None? {
      return Err(NoProfile);
    }
    if profile.value.exposeNone {
      return Ok(map[]);
    }
    var disableAuto := profile.value.disableAutoExpose;
    var explicit := CollectExplicit(group, nodes);
    if explicit.Err? {
      return Err(explicit.error);
    }
    var planned, owners := OwnPlanned(containers, explicit.value, disableAuto);
    if planned.Err? {
      FailedIsOutcome(containers, disableAuto, group, nodes, planned.error);
      return Err(planned.error);
    }
    var portsByNode, all := planned.value, owners;
    if !disableAuto {
      portsByNode, all := ClaimDefaults(portsByNode, owners, DefaultPorts, group, nodes);
    }
    r := ListPorts(portsByNode, all, group, nodes);
    OwnedIsOutcome(containers, disableAuto, group, nodes, owners, all, r);
  }

  // ---------------------------------------------------------------- what the listing guarantees

  ghost predicate Holds(listing: Listing, name: string, key: Key) {
    name in listing && key in listing[name]
  }

  /** A member's name holds exactly the ports of its uid. */
  lemma HoldsIffOwns(listing: Listing, all: Owners, group: seq<string>, nodes: Nodes, name: string, key: Key)
    requires Lists(listing, all, group, nodes)
    ensures Holds(listing, name, key) <==>
              name in group && name in nodes && key in all && all[key] == nodes[name].uid
  {
    if name in group && name in nodes {
      assert key in PortsOf(all, nodes[name].uid) <==> key in all && all[key] == nodes[name].uid;
    }
  }

  ghost predicate AllPorts(ports: seq<string>) {
    forall raw :: raw in ports ==> ProcessPort(raw).Some?
  }

  lemma {:induction false} DeclaredOkIff(ports: seq<string>)
    ensures DeclaredKeys(ports).Some? <==> AllPorts(ports)
    decreases |ports|
  {
    if |ports| > 0 {
      var n := |ports| - 1;
      DeclaredOkIff(ports[..n]);
      assert ports == ports[..n] + [ports[n]];
    }
  }

  /** The declarations are in order exactly if every text that a member declares is a port. */
  lemma {:induction false} ExplicitsOkIff(group: seq<string>, nodes: Nodes)
    ensures Explicits(group, nodes).Ok? <==> forall m :: m in group && m in nodes ==> AllPorts(nodes[m].ports)
    decreases |group|
  {
    if |group| > 0 {
      var n := |group| - 1;
      ExplicitsOkIff(group[..n], nodes);
      assert group == group[..n] + [group[n]];
      if group[n] in nodes {
        DeclaredOkIff(nodes[group[n]].ports);
      }
    }
  }

  /** An explicit entry belongs to a member, and a member's entry holds what its definition declares. */
  lemma {:induction false} ExplicitsExact(group: seq<string>, nodes: Nodes)
    requires Explicits(group, nodes).Ok?
    ensures forall id :: id in Explicits(group, nodes).value ==> Named(group, nodes, id)
    ensures forall m :: m in group && m in nodes ==> nodes[m].uid in Explicits(group, nodes).value
    ensures !SharedUid(group, nodes) ==> forall m :: m in group && m in nodes ==>
              DeclaredKeys(nodes[m].ports) == Some(Explicits(group, nodes).value[nodes[m].uid])
    decreases |group|
  {
    if |group| > 0 {
      var n := |group| - 1;
      ExplicitsExact(group[..n], nodes);
      assert group == group[..n] + [group[n]];
      var before, explicit := Explicits(group[..n], nodes).value, Explicits(group, nodes).value;
      forall id | id in explicit ensures Named(group, nodes, id) {
        if id in before {
          var m :| m in group[..n] && m in nodes && nodes[m].uid == id;
          assert m in group;
        } else {
          assert group[n] in group;
        }
      }
      if !SharedUid(group, nodes) {
        assert !SharedUid(group[..n], nodes);
      }
    }
  }

  ghost predicate Named(group: seq<string>, nodes: Nodes, id: string) {
    exists m :: m in group && m in nodes && nodes[m].uid == id
  }

  lemma {:induction false} PlannedIsOpened(containers: seq<Container>, id: string, key: Key)
    requires Plan(id, key) in Events(containers)
    ensures Open(id) in Events(containers)
    decreases |containers|
  {
    if |containers| > 0 {
      var n := |containers| - 1;
      var last := EventsOf(containers[n]);
      if Plan(id, key) in last {
        assert last[0] == Open(id);
        assert Open(id) in last;
      } else {
        PlannedIsOpened(containers[..n], id, key);
      }
    }
  }

  lemma OwnerIsMember(containers: seq<Container>, disableAuto: bool, group: seq<string>, nodes: Nodes,
                      owners: Owners, all: Owners, key: Key)
    requires Explicits(group, nodes).Ok? && AllKnown(Events(containers), Explicits(group, nodes).value)
    requires OwnersRight(Events(containers), Explicits(group, nodes).value, disableAuto, owners)
    requires Completed(owners, all, disableAuto, group, nodes) && key in all
    ensures Named(group, nodes, all[key])
  {
    var events, explicit := Events(containers), Explicits(group, nodes).value;
    if key in owners {
      assert RightOwner(events, explicit, disableAuto, key, owners[key]);
      OwnerPlanned(events, explicit, disableAuto, key, owners[key]);
      PlannedIsOpened(containers, owners[key], key);
      ExplicitsExact(group, nodes);
      assert Open(owners[key]) in events;
      assert owners[key] in explicit;
    }
  }

  /** A port has one holder. */
  ghost predicate OneHolder(listing: Listing) {
    forall m, n, key :: Holds(listing, m, key) && Holds(listing, n, key) ==> m == n
  }

  /** A port is held by the member that declares and plans it. */
  ghost predicate DeclarersHold(listing: Listing, events: seq<Event>, explicit: Explicit, group: seq<string>,
                                nodes: Nodes)
  {
    forall name, key | name in group && name in nodes ::
      Claims(events, explicit, nodes[name].uid, key) ==> Holds(listing, name, key)
  }

  ghost predicate SomebodyHolds(listing: Listing, key: Key) {
    exists name :: Holds(listing, name, key)
  }

  ghost predicate OnlyDeclared(listing: Listing, events: seq<Event>, explicit: Explicit, nodes: Nodes) {
    forall name, key :: Holds(listing, name, key) ==> name in nodes && Claims(events, explicit, nodes[name].uid, key)
  }

  lemma HoldersUnique(listing: Listing, all: Owners, group: seq<string>, nodes: Nodes)
    requires Lists(listing, all, group, nodes) && !SharedUid(group, nodes)
    ensures OneHolder(listing)
  {
    forall m, n, key | Holds(listing, m, key) && Holds(listing, n, key) ensures m == n {
      HoldsIffOwns(listing, all, group, nodes, m, key);
      HoldsIffOwns(listing, all, group, nodes, n, key);
    }
  }

  lemma DeclaredIsHeld(listing: Listing, events: seq<Event>, explicit: Explicit, disableAuto: bool, group: seq<string>,
                       nodes: Nodes, owners: Owners, all: Owners)
    requires Exposed(events, explicit, disableAuto, group, nodes, owners, all, Ok(listing))
    requires NoSharedClaim(events, explicit)
    ensures DeclarersHold(listing, events, explicit, group, nodes)
    ensures disableAuto ==> OnlyDeclared(listing, events, explicit, nodes)
  {
    forall name, key | name in group && name in nodes && Claims(events, explicit, nodes[name].uid, key)
      ensures Holds(listing, name, key)
    {
      ClaimantOwns(events, explicit, disableAuto, owners, nodes[name].uid, key);
      HoldsIffOwns(listing, all, group, nodes, name, key);
    }
    forall name, key | Holds(listing, name, key) && disableAuto
      ensures name in nodes && Claims(events, explicit, nodes[name].uid, key)
    {
      HoldsIffOwns(listing, all, group, nodes, name, key);
      assert RightOwner(events, explicit, disableAuto, key, owners[key]);
    }
  }

  lemma OwnedIsHeld(containers: seq<Container>, disableAuto: bool, group: seq<string>, nodes: Nodes,
                    listing: Listing, owners: Owners, all: Owners, key: Key)
    requires Explicits(group, nodes).Ok? && AllKnown(Events(containers), Explicits(group, nodes).value)
    requires Exposed(Events(containers), Explicits(group, nodes).value, disableAuto, group, nodes, owners, all,
                     Ok(listing))
    requires key in all
    ensures SomebodyHolds(listing, key)
  {
    OwnerIsMember(containers, disableAuto, group, nodes, owners, all, key);
    var m :| m in group && m in nodes && nodes[m].uid == all[key];
    HoldsIffOwns(listing, all, group, nodes, m, key);
  }

  /** With auto expose on, planned ports and default ports all have an owner. */
  lemma NothingUnowned(events: seq<Event>, explicit: Explicit, group: seq<string>, nodes: Nodes,
                       owners: Owners, all: Owners, key: Key)
    requires OwnersRight(events, explicit, false, owners) && Completed(owners, all, false, group, nodes)
    requires Planned(events, key) || (key in DefaultPorts && !NoMember(group, nodes))
    ensures key in all
  {
    if Planned(events, key) {
      assert key !in owners ==> Unclaimed(events, explicit, false, key);
    }
  }

  /** The whole promise for members with distinct uids. The compilation fails exactly for a bad
      declaration, a stray container or a port that two members both declare and plan. A listing
      gives a port to one member, and a declared and planned port to its declarer. With auto expose
      on it leaves no planned or default port out; with auto expose off it holds declared ports only.
    */
  lemma ListingIsPartition(containers: seq<Container>, disableAuto: bool, group: seq<string>, nodes: Nodes,
                           r: Result<Listing>)
    requires !SharedUid(group, nodes) && Outcome(containers, disableAuto, group, nodes, r)
    ensures r.Ok? <==>
              && Explicits(group, nodes).Ok?
              && AllKnown(Events(containers), Explicits(group, nodes).value)
              && NoSharedClaim(Events(containers), Explicits(group, nodes).value)
    ensures r.Ok? ==>
              && OneHolder(r.value)
              && DeclarersHold(r.value, Events(containers), Explicits(group, nodes).value, group, nodes)
              && (disableAuto ==> OnlyDeclared(r.value, Events(containers), Explicits(group, nodes).value, nodes))
    ensures r.Ok? && !disableAuto ==>
              forall key :: Planned(Events(containers), key) || (key in DefaultPorts && !NoMember(group, nodes)) ==>
                SomebodyHolds(r.value, key)
  {
    if r.Ok? {
      var events, explicit := Events(containers), Explicits(group, nodes).value;
      var owners, all :| Exposed(events, explicit, disableAuto, group, nodes, owners, all, r);
      HoldersUnique(r.value, all, group, nodes);
      DeclaredIsHeld(r.value, events, explicit, disableAuto, group, nodes, owners, all);
      if !disableAuto {
        forall key | Planned(events, key) || (key in DefaultPorts && !NoMember(group, nodes))
          ensures SomebodyHolds(r.value, key)
        {
          NothingUnowned(events, explicit, group, nodes, owners, all, key);
          OwnedIsHeld(containers, disableAuto, group, nodes, r.value, owners, all, key);
        }
      }
    }
  }

  /** Who is to hold a port with auto expose on: the member that declares and plans it, else the one that
      plans it first, and a default port that nobody plans the member whose name sorts first. */
  ghost predicate ToHold(events: seq<Event>, explicit: Explicit, group: seq<string>, nodes: Nodes, name: string,
                         key: Key)
  {
    && name in group && name in nodes
    && if exists id :: Claims(events, explicit, id, key) then Claims(events, explicit, nodes[name].uid, key)
       else if Planned(events, key) then exists i: nat :: FirstPlan(events, i, key) && events[i].id == nodes[name].uid
       else key in DefaultPorts && Least(name, group, nodes)
  }

  /** The listing with auto expose on, port by port: exactly the members that are to hold it do. */
  lemma ListingIff(containers: seq<Container>, group: seq<string>, nodes: Nodes, r: Result<Listing>, name: string,
                   key: Key)
    requires !SharedUid(group, nodes) && Outcome(containers, false, group, nodes, r) && r.Ok?
    ensures Holds(r.value, name, key) <==>
              ToHold(Events(containers), Explicits(group, nodes).value, group, nodes, name, key)
  {
    ListingIsPartition(containers, false, group, nodes, r);
    var events, explicit := Events(containers), Explicits(group, nodes).value;
    var owners, all :| Exposed(events, explicit, false, group, nodes, owners, all, r);
    HoldsIffOwns(r.value, all, group, nodes, name, key);
    if name in group && name in nodes {
      OwnedIffToHold(events, explicit, group, nodes, owners, all, name, key);
    }
  }

  lemma OwnedIffToHold(events: seq<Event>, explicit: Explicit, group: seq<string>, nodes: Nodes, owners: Owners,
                       all: Owners, name: string, key: Key)
    requires OwnersRight(events, explicit, false, owners) && Completed(owners, all, false, group, nodes)
    requires NoSharedClaim(events, explicit) && !SharedUid(group, nodes) && name in group && name in nodes
    ensures key in all && all[key] == nodes[name].uid <==> ToHold(events, explicit, group, nodes, name, key)
  {
    var least :| Least(least, group, nodes) && all == Filled(owners, DefaultPorts, nodes[least].uid);
    if key in owners {
      assert RightOwner(events, explicit, false, key, owners[key]);
      OwnerPlanned(events, explicit, false, key, owners[key]);
      OwnerIsToHold(events, explicit, owners[key], nodes[name].uid, key);
    } else {
      assert Unclaimed(events, explicit, false, key);
      LeastIsUnique(group, nodes, least, name);
    }
  }

  lemma OwnerIsToHold(events: seq<Event>, explicit: Explicit, owner: string, id: string, key: Key)
    requires RightOwner(events, explicit, false, key, owner) && NoSharedClaim(events, explicit)
    ensures owner == id <==>
              if exists m :: Claims(events, explicit, m, key) then Claims(events, explicit, id, key)
              else exists i: nat :: FirstPlan(events, i, key) && events[i].id == id
  {
    if forall m :: !Claims(events, explicit, m, key) {
      var i: nat :| FirstPlan(events, i, key) && events[i].id == owner;
      forall j: nat | FirstPlan(events, j, key) ensures j == i {}
    }
  }

  lemma LeastIsUnique(group: seq<string>, nodes: Nodes, m: string, n: string)
    requires Least(m, group, nodes) && !SharedUid(group, nodes) && n in group && n in nodes
    ensures nodes[m].uid == nodes[n].uid <==> Least(n, group, nodes)
  {
    if Least(n, group, nodes) && m != n {
      LessAsymmetric(m, n);
    }
  }

  lemma ClaimantOwns(events: seq<Event>, explicit: Explicit, disableAuto: bool, owners: Owners, id: string, key: Key)
    requires OwnersRight(events, explicit, disableAuto, owners) && NoSharedClaim(events, explicit)
    requires Claims(events, explicit, id, key)
    ensures key in owners && owners[key] == id
  {
    assert key !in owners ==> Unclaimed(events, explicit, disableAuto, key);
    assert RightOwner(events, explicit, disableAuto, key, owners[key]);
  }

  /** Reordering the containers never moves a declared port, and with auto expose off moves nothing. */
  lemma DeclaredForgetsOrder(events: seq<Event>, other: seq<Event>, explicit: Explicit, disableAuto: bool, key: Key)
    requires multiset(events) == multiset(other)
    requires Own(events, explicit, disableAuto).Ok?
    requires disableAuto || exists id :: Claims(events, explicit, id, key)
    ensures var a, b := Own(events, explicit, disableAuto), Own(other, explicit, disableAuto);
            b.Ok? && (key in a.value <==> key in b.value) && (key in a.value ==> a.value[key] == b.value[key])
  {
    SameElements(events, other);
    OwnExact(events, explicit, disableAuto);
    OwnExact(other, explicit, disableAuto);
    var a := Own(events, explicit, disableAuto).value;
    forall id, k ensures Claims(events, explicit, id, k) <==> Claims(other, explicit, id, k) {}
    assert NoSharedClaim(other, explicit);
    assert AllKnown(other, explicit) by {
      forall i | 0 <= i < |other| && other[i].Open? ensures other[i].id in explicit {
        assert other[i] in events;
      }
    }
    var b := Own(other, explicit, disableAuto).value;
    if id :| Claims(events, explicit, id, key) {
      ClaimantOwns(events, explicit, disableAuto, a, id, key);
      ClaimantOwns(other, explicit, disableAuto, b, id, key);
    } else {
      if key in a {
        OwnedIsClaimed(events, explicit, a, key);
      }
      if key in b {
        OwnedIsClaimed(other, explicit, b, key);
      }
    }
  }

  lemma OwnedIsClaimed(events: seq<Event>, explicit: Explicit, owners: Owners, key: Key)
    requires OwnersRight(events, explicit, true, owners) && key in owners
    ensures exists id :: Claims(events, explicit, id, key)
  {
    assert RightOwner(events, explicit, true, key, owners[key]);
  }

  lemma EventsSnoc(containers: seq<Container>, c: Container)
    ensures Events(containers + [c]) == Events(containers) + EventsOf(c)
  {
    assert (containers + [c])[..|containers|] == containers;
  }

  lemma {:induction false} EventsConcat(a: seq<Container>, b: seq<Container>)
    ensures Events(a + b) == Events(a) + Events(b)
    decreases |b|
  {
    if |b| == 0 {
      assert a + b == a;
    } else {
      var init, last := b[..|b| - 1], b[|b| - 1];
      assert a + b == a + init + [last] && b == init + [last];
      EventsConcat(a, init);
      EventsSnoc(a + init, last);
      EventsSnoc(init, last);
    }
  }

  /** Removing one container removes its events. */
  lemma EventsWithout(a: seq<Container>, c: Container, b: seq<Container>)
    ensures multiset(Events(a + [c] + b)) == multiset(Events(a + b)) + multiset(EventsOf(c))
  {
    EventsConcat(a + [c], b);
    EventsSnoc(a, c);
    EventsConcat(a, b);
  }

  lemma {:induction false} EventsPermuted(containers: seq<Container>, other: seq<Container>)
    requires multiset(containers) == multiset(other)
    ensures multiset(Events(containers)) == multiset(Events(other))
    decreases |containers|
  {
    SameElements(containers, other);
    if |containers| > 0 {
      var init, last := containers[..|containers| - 1], containers[|containers| - 1];
      assert containers == init + [last] && last in other;
      var j :| 0 <= j < |other| && other[j] == last;
      var a, b := other[..j], other[j + 1..];
      assert other == a + [last] + b;
      RemoveOne(a, last, b, init);
      EventsPermuted(init, a + b);
      EventsWithout(a, last, b);
      EventsSnoc(init, last);
    }
  }

  /** However the containers are ordered, a declared port has the same owner; with auto expose off, so
      has every port. */
  lemma ContainersForgetOrder(containers: seq<Container>, other: seq<Container>, explicit: Explicit, disableAuto: bool,
                              key: Key)
    requires multiset(containers) == multiset(other)
    requires Own(Events(containers), explicit, disableAuto).Ok?
    requires disableAuto || exists id :: Claims(Events(containers), explicit, id, key)
    ensures var a, b := Own(Events(containers), explicit, disableAuto), Own(Events(other), explicit, disableAuto);
            b.Ok? && (key in a.value <==> key in b.value) && (key in a.value ==> a.value[key] == b.value[key])
  {
    EventsPermuted(containers, other);
    DeclaredForgetsOrder(Events(containers), Events(other), explicit, disableAuto, key);
  }

  predicate PlansPort(c: Container, key: Key) {
    exists p :: p in c.ports && key == Key(p.0, ToUpper(p.1))
  }

  /** The events name exactly the containers and their ports. */
  lemma {:induction false} EventsExact(containers: seq<Container>)
    ensures forall id :: Open(id) in Events(containers) <==> exists c :: c in containers && c.nodeID == id
    ensures forall id, key :: Plan(id, key) in Events(containers) <==>
              exists c :: c in containers && c.nodeID == id && PlansPort(c, key)
    decreases |containers|
  {
    if |containers| > 0 {
      var n := |containers| - 1;
      var before, last := containers[..n], containers[n];
      assert containers == before + [last];
      EventsExact(before);
      ContainerEvents(last);
      forall id, key ensures Plan(id, key) in Events(containers) <==>
          exists c :: c in containers && c.nodeID == id && PlansPort(c, key) {
        assert Plan(id, key) in Events(containers) <==>
               Plan(id, key) in Events(before) || Plan(id, key) in EventsOf(last);
      }
      forall id ensures Open(id) in Events(containers) <==> exists c :: c in containers && c.nodeID == id {
        assert Open(id) in Events(containers) <==> Open(id) in Events(before) || Open(id) in EventsOf(last);
      }
    }
  }

  lemma ContainerEvents(c: Container)
    ensures forall id :: Open(id) in EventsOf(c) <==> id == c.nodeID
    ensures forall id, key :: Plan(id, key) in EventsOf(c) <==> id == c.nodeID && PlansPort(c, key)
  {
    var events := EventsOf(c);
    assert events[0] == Open(c.nodeID);
    forall id, key | id == c.nodeID && PlansPort(c, key) ensures Plan(id, key) in events {
      var p :| p in c.ports && key == Key(p.0, ToUpper(p.1));
      var j :| 0 <= j < |c.ports| && c.ports[j] == p;
      assert events[j + 1] == Plan(id, key);
    }
    forall id, key | Plan(id, key) in events ensures id == c.nodeID && PlansPort(c, key) {
      var i :| 0 <= i < |events| && events[i] == Plan(id, key);
      assert c.ports[i - 1] in c.ports;
    }
  }
}
