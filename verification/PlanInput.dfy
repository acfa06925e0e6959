/** The interface section of a Pod's planning input. Each Pod is compiled on its own, from its own
    snapshot; what makes a wire work is that the two sides come out as mirror images.
  */
module PlanInput {
  import opened Wrappers
  import opened Ordering
  import opened PodGroups
  import opened Links
  import opened LinkWorld
  import opened LinkPass
  import opened LinkSafety
  import opened LinkTheorems
  import opened LinkVerdicts

  datatype Connectivity = HostPort | Loopback | SamePod | Wire

  /** `peerTransport` is the Node behind the fabric Service a wire is sent to. */
  datatype Interface = Interface(
    id: string, nodeID: string, name: string, linkID: string, linkName: string,
    peerNodeID: string, peerInterface: string, peerTransport: string,
    connectivity: Connectivity, wireID: int, mtu: int)

  datatype Error = NotAccepted | StaleName | HostHasUID | Unresolved | StaleUID | WireNotReady

  type Result<+T> = Attempt<T, Error>

  function Classify(endpoint: Endpoint, peer: Endpoint, members: Nodes): Connectivity {
    if peer.nodeName == HostNode then HostPort
    else if endpoint.nodeName == peer.nodeName then Loopback
    else if peer.nodeName in members then SamePod
    else Wire
  }

  /** The bound identity must be the one that the current snapshot knows. */
  function CheckEndpoint(e: Endpoint, bound: Bound, nodes: Nodes): Option<Error> {
    if bound.nodeName != e.nodeName then Some(StaleName)
    else if e.nodeName == HostNode then if bound.uid != "" then Some(HostHasUID) else None
    else if bound.uid == "" then Some(Unresolved)
    else if e.nodeName in nodes && nodes[e.nodeName].uid != bound.uid then Some(StaleUID)
    else None
  }

  /** Side A (`'a'`) or side B (`'b'`) of a Link. */
  datatype Side = A | B

  function Near(spec: Spec, side: Side): Endpoint { if side.A? then spec.a else spec.b }

  function Far(spec: Spec, side: Side): Endpoint { if side.A? then spec.b else spec.a }

  function BoundAt(binding: Binding, side: Side): Bound { if side.A? then binding.a else binding.b }

  function InterfaceID(uid: string, side: Side): string {
    uid + (if side.A? then "/a" else "/b")
  }

  function InterfaceAt(link: Link, side: Side, members: Nodes): Interface
    requires link.status.binding.Some? && Near(link.spec, side).nodeName in members
  {
    var near, far := Near(link.spec, side), Far(link.spec, side);
    var connectivity := Classify(near, far, members);
    Interface(
      InterfaceID(link.uid, side), members[near.nodeName].uid, near.interfaceName, link.uid, link.name,
      if far.nodeName == HostNode then "" else BoundAt(link.status.binding.value, if side.A? then B else A).uid,
      far.interfaceName,
      if connectivity == Wire then far.nodeName else "",
      connectivity, link.status.wireID, link.spec.mtu)
  }

  predicate IsAcceptedNow(link: Link) {
    link.uid != "" && link.status.condition.Some? && link.status.condition.value.reason.Accepted? &&
    link.status.binding.Some?
  }

  /** One side of a terminating Link: nothing if the near end is not a member. */
  function SideInterfaces(link: Link, side: Side, nodes: Nodes, members: Nodes): Result<seq<Interface>>
    requires link.status.binding.Some?
  {
    var near := Near(link.spec, side);
    var check := CheckEndpoint(near, BoundAt(link.status.binding.value, side), nodes);
    if check.Some? then Err(check.value)
    else if near.nodeName !in members then Ok([])
    else if Classify(near, Far(link.spec, side), members) == Wire && link.status.wireID == 0 then Err(WireNotReady)
    else Ok([InterfaceAt(link, side, members)])
  }

  predicate Terminates(link: Link, members: Nodes) {
    link.spec.a.nodeName in members || link.spec.b.nodeName in members
  }

  function LinkInterfaces(link: Link, nodes: Nodes, members: Nodes): Result<seq<Interface>> {
    if !Terminates(link, members) then Ok([])
    else if !IsAcceptedNow(link) then Err(NotAccepted)
    else
      match SideInterfaces(link, A, nodes, members)
      case Err(e) => Err(e)
      case Ok(a) =>
        match SideInterfaces(link, B, nodes, members)
        case Err(e) => Err(e)
        case Ok(b) => Ok(a + b)
  }

  function AllInterfaces(links: seq<Link>, nodes: Nodes, members: Nodes): Result<seq<Interface>> {
    if |links| == 0 then Ok([])
    else
      match AllInterfaces(links[..|links| - 1], nodes, members)
      case Err(e) => Err(e)
      case Ok(before) =>
        match LinkInterfaces(links[|links| - 1], nodes, members)
        case Err(e) => Err(e)
        case Ok(more) => Ok(before + more)
  }

  /** One Link: both of its ends, the first error ends it. */
  method CompileLink(link: Link, nodes: Nodes, members: Nodes) returns (r: Result<seq<Interface>>)
    ensures r == LinkInterfaces(link, nodes, members)
  {
    if link.spec.a.nodeName !in members && link.spec.b.nodeName !in members {
      return Ok([]);
    }
    if !IsAcceptedNow(link) {
      return Err(NotAccepted);
    }
    var a := SideInterfaces(link, A, nodes, members);
    if a.Err? {
      return Err(a.error);
    }
    var b := SideInterfaces(link, B, nodes, members);
    if b.Err? {
      return Err(b.error);
    }
    r := Ok(a.value + b.value);
  }

  method CompileAcceptedInterfaces(links: seq<Link>, nodes: Nodes, members: Nodes)
      returns (r: Result<seq<Interface>>)
    ensures match AllInterfaces(links, nodes, members)
            case Err(e) => r == Err(e)
            case Ok(all) =>
              && r == Ok(Sort(all, (i: Interface) => i.id))
              && multiset(r.value) == multiset(all) && Ordered(r.value, (i: Interface) => i.id)
  {
    var result: seq<Interface> := [];
    for index := 0 to |links|
      invariant AllInterfaces(links[..index], nodes, members) == Ok(result)
    {
      var link := links[index];
      assert links[..index + 1][..index] == links[..index];
      AnErrorStops(links, nodes, members, index + 1);
      var more := CompileLink(link, nodes, members);
      if more.Err? {
        return Err(more.error);
      }
      result := result + more.value;
    }
    assert links[..|links|] == links;
    SortOrdered(result, (i: Interface) => i.id);
    r := Ok(Sort(result, (i: Interface) => i.id));
  }

  /** The first error ends the compilation. */
  lemma {:induction false} AnErrorStops(links: seq<Link>, nodes: Nodes, members: Nodes, k: nat)
    requires k <= |links|
    ensures var prefix := AllInterfaces(links[..k], nodes, members);
            prefix.Err? ==> AllInterfaces(links, nodes, members) == prefix
    decreases |links|
  {
    if k == |links| {
      assert links[..k] == links;
    } else {
      var shorter := links[..|links| - 1];
      assert shorter[..k] == links[..k];
      AnErrorStops(shorter, nodes, members, k);
    }
  }

  /** The interfaces of a successful compilation are exactly those of its Links. */
  lemma {:induction false} CompiledExactly(links: seq<Link>, nodes: Nodes, members: Nodes)
    requires AllInterfaces(links, nodes, members).Ok?
    ensures forall l :: l in links ==> LinkInterfaces(l, nodes, members).Ok?
    ensures forall x :: x in AllInterfaces(links, nodes, members).value <==>
              exists l :: l in links && LinkInterfaces(l, nodes, members).Ok? &&
                x in LinkInterfaces(l, nodes, members).value
    decreases |links|
  {
    if |links| > 0 {
      var shorter, last := links[..|links| - 1], links[|links| - 1];
      assert links == shorter + [last];
      CompiledExactly(shorter, nodes, members);
    }
  }

  /** The Nodes of a group as the request carries them: the listed objects themselves. */
  ghost predicate MembersListed(members: Nodes, nodes: Nodes) {
    forall n :: n in members ==> n in nodes && nodes[n] == members[n]
  }

  // ---------------------------------------------------------------- what is compiled

  /** How the interface at `near` reaches the far end, if these are the Nodes of the Pod. */
  ghost predicate RightClass(c: Connectivity, near: Endpoint, far: Endpoint, members: Nodes) {
    match c
    case HostPort => far.nodeName == "host"
    case Loopback => far.nodeName != "host" && far.nodeName == near.nodeName
    case SamePod => far.nodeName != "host" && far.nodeName != near.nodeName && far.nodeName in members
    case Wire => far.nodeName != "host" && far.nodeName != near.nodeName && far.nodeName !in members
  }

  /** The interface of the Link at its end `near`, whose far end is bound to `farUID`. */
  ghost predicate Describes(x: Interface, link: Link, near: Endpoint, far: Endpoint, farUID: string, members: Nodes)
    requires near.nodeName in members
  {
    && x.linkID == link.uid && x.linkName == link.name && x.mtu == link.spec.mtu && x.wireID == link.status.wireID
    && x.nodeID == members[near.nodeName].uid && x.name == near.interfaceName
    && x.peerNodeID == (if far.nodeName == "host" then "" else farUID) && x.peerInterface == far.interfaceName
    && RightClass(x.connectivity, near, far, members)
    && x.peerTransport == (if x.connectivity.Wire? then far.nodeName else "")
  }

  /** One end of a terminating Link: an interface exactly if its Node is a member. */
  ghost predicate EndCompiled(xs: seq<Interface>, id: string, link: Link, near: Endpoint, far: Endpoint, farUID: string,
                              members: Nodes)
  {
    if near.nodeName in members then |xs| == 1 && xs[0].id == id && Describes(xs[0], link, near, far, farUID, members)
    else xs == []
  }

  /** The identity an end is bound to is fit for planning: it names the end, a host end has no UID, and
      any other end has one that is not known to be out of date. */
  ghost predicate FitEnd(e: Endpoint, bound: Bound, nodes: Nodes) {
    && bound.nodeName == e.nodeName
    && (e.nodeName == "host" <==> bound.uid == "")
    && (e.nodeName != "host" && e.nodeName in nodes ==> nodes[e.nodeName].uid == bound.uid)
  }

  /** The Link was accepted, is bound, and has a wire id if one end is a member and the other is not. */
  ghost predicate FitLink(link: Link, nodes: Nodes, members: Nodes) {
    var spec, status := link.spec, link.status;
    && link.uid != ""
    && status.condition.Some? && status.condition.value.reason.Accepted? && status.binding.Some?
    && FitEnd(spec.a, status.binding.value.a, nodes) && FitEnd(spec.b, status.binding.value.b, nodes)
    && (spec.a.nodeName in members && spec.b.nodeName != "host" && spec.b.nodeName !in members ==> status.wireID != 0)
    && (spec.b.nodeName in members && spec.a.nodeName != "host" && spec.a.nodeName !in members ==> status.wireID != 0)
  }

  lemma SideExact(link: Link, side: Side, nodes: Nodes, members: Nodes)
    requires link.status.binding.Some?
    ensures var near, far := if side.A? then link.spec.a else link.spec.b, if side.A? then link.spec.b else link.spec.a;
            var bound := link.status.binding.value;
            var r := SideInterfaces(link, side, nodes, members);
            && (r.Ok? <==>
                  && FitEnd(near, if side.A? then bound.a else bound.b, nodes)
                  && (near.nodeName in members && far.nodeName !in members && far.nodeName != "host" ==>
                        link.status.wireID != 0))
            && (r.Ok? ==> EndCompiled(r.value, link.uid + (if side.A? then "/a" else "/b"), link, near, far,
                                      if side.A? then bound.b.uid else bound.a.uid, members))
  {
  }

  /** A Link is compiled exactly if it is fit, or has no end in the Pod; what comes out is one interface
      for each end at a member, end A before end B. */
  lemma LinkCompiledExactly(link: Link, nodes: Nodes, members: Nodes)
    ensures var r := LinkInterfaces(link, nodes, members);
            var inPod := link.spec.a.nodeName in members || link.spec.b.nodeName in members;
            && (r.Ok? <==> (inPod ==> FitLink(link, nodes, members)))
            && (r.Ok? && !inPod ==> r.value == [])
            && (r.Ok? && inPod ==>
                  exists a, b :: r.value == a + b &&
                    EndCompiled(a, link.uid + "/a", link, link.spec.a, link.spec.b,
                                link.status.binding.value.b.uid, members) &&
                    EndCompiled(b, link.uid + "/b", link, link.spec.b, link.spec.a,
                                link.status.binding.value.a.uid, members))
  {
    if Terminates(link, members) && link.status.binding.Some? {
      SideExact(link, A, nodes, members);
      SideExact(link, B, nodes, members);
    }
  }

  lemma {:induction false} AllCompiledIff(links: seq<Link>, nodes: Nodes, members: Nodes)
    ensures AllInterfaces(links, nodes, members).Ok? <==>
              forall l :: l in links && (l.spec.a.nodeName in members || l.spec.b.nodeName in members) ==>
                FitLink(l, nodes, members)
    decreases |links|
  {
    if |links| > 0 {
      var shorter, last := links[..|links| - 1], links[|links| - 1];
      assert links == shorter + [last];
      AllCompiledIff(shorter, nodes, members);
      LinkCompiledExactly(last, nodes, members);
    }
  }

  /** One end's interface is the other end's, seen from the far side. */
  ghost predicate Mirrors(x: Interface, y: Interface) {
    && x.linkID == y.linkID && x.linkName == y.linkName
    && x.nodeID == y.peerNodeID && y.nodeID == x.peerNodeID
    && x.name == y.peerInterface && y.name == x.peerInterface
    && x.wireID == y.wireID && x.mtu == y.mtu
    && x.connectivity == y.connectivity
  }

  lemma FitIsMember(e: Endpoint, bound: Bound, nodes: Nodes, members: Nodes)
    requires FitEnd(e, bound, nodes) && MembersListed(members, nodes) && e.nodeName in members && e.nodeName != "host"
    ensures members[e.nodeName].uid == bound.uid
  {
  }

  /** Inside one Pod: a Link with both ends at members gives two interfaces that mirror each other, both
      loopback if the ends are on one Node and both same-Pod otherwise, and no third. */
  lemma PodMirrors(link: Link, links: seq<Link>, nodes: Nodes, members: Nodes) returns (x: Interface, y: Interface)
    requires link in links && forall l :: l in links && l.uid == link.uid ==> l == link
    requires MembersListed(members, nodes) && AllInterfaces(links, nodes, members).Ok?
    requires link.spec.a.nodeName in members && link.spec.b.nodeName in members
    requires link.spec.a.nodeName != HostNode && link.spec.b.nodeName != HostNode
    ensures Mirrors(x, y) && x.id == link.uid + "/a" && y.id == link.uid + "/b"
    ensures x.nodeID == members[link.spec.a.nodeName].uid && x.name == link.spec.a.interfaceName
    ensures y.nodeID == members[link.spec.b.nodeName].uid && y.name == link.spec.b.interfaceName
    ensures x.connectivity == (if link.spec.a.nodeName == link.spec.b.nodeName then Loopback else SamePod)
    ensures forall i :: i in AllInterfaces(links, nodes, members).value && i.linkID == link.uid <==> i == x || i == y
  {
    CompiledExactly(links, nodes, members);
    LinkCompiledExactly(link, nodes, members);
    var all := LinkInterfaces(link, nodes, members).value;
    var binding := link.status.binding.value;
    var a, b :| all == a + b &&
      EndCompiled(a, link.uid + "/a", link, link.spec.a, link.spec.b, binding.b.uid, members) &&
      EndCompiled(b, link.uid + "/b", link, link.spec.b, link.spec.a, binding.a.uid, members);
    x, y := a[0], b[0];
    FitIsMember(link.spec.a, binding.a, nodes, members);
    FitIsMember(link.spec.b, binding.b, nodes, members);
    TwoOfLink(link, links, nodes, members, x, y);
  }

  lemma TwoOfLink(link: Link, links: seq<Link>, nodes: Nodes, members: Nodes, x: Interface, y: Interface)
    requires link in links && AllInterfaces(links, nodes, members).Ok?
    requires forall l :: l in links && l.uid == link.uid ==> l == link
    requires LinkInterfaces(link, nodes, members) == Ok([x] + [y])
    ensures forall i :: i in AllInterfaces(links, nodes, members).value && i.linkID == link.uid <==> i == x || i == y
  {
    CompiledExactly(links, nodes, members);
    assert x in LinkInterfaces(link, nodes, members).value && y in LinkInterfaces(link, nodes, members).value;
    InterfacesNameTheirLink(link, nodes, members, x);
    InterfacesNameTheirLink(link, nodes, members, y);
    forall i | i in AllInterfaces(links, nodes, members).value && i.linkID == link.uid ensures i == x || i == y {
      var l :| l in links && LinkInterfaces(l, nodes, members).Ok? && i in LinkInterfaces(l, nodes, members).value;
      InterfacesNameTheirLink(l, nodes, members, i);
    }
  }

  /** A Link to the host gives one interface, with no peer Node and the host's interface. */
  lemma HostLinkCompiled(link: Link, links: seq<Link>, nodes: Nodes, members: Nodes, near: Endpoint, far: Endpoint)
    returns (x: Interface)
    requires link in links && forall l :: l in links && l.uid == link.uid ==> l == link
    requires AllInterfaces(links, nodes, members).Ok? && HostNode !in members
    requires (near, far) == (link.spec.a, link.spec.b) || (near, far) == (link.spec.b, link.spec.a)
    requires near.nodeName in members && far.nodeName == HostNode
    ensures x.connectivity == HostPort && x.peerNodeID == "" && x.peerInterface == far.interfaceName
    ensures x.nodeID == members[near.nodeName].uid && x.name == near.interfaceName
    ensures x.mtu == link.spec.mtu && x.peerTransport == ""
    ensures forall i :: i in AllInterfaces(links, nodes, members).value && i.linkID == link.uid <==> i == x
  {
    CompiledExactly(links, nodes, members);
    LinkCompiledExactly(link, nodes, members);
    var all := LinkInterfaces(link, nodes, members).value;
    var binding := link.status.binding.value;
    var a, b :| all == a + b &&
      EndCompiled(a, link.uid + "/a", link, link.spec.a, link.spec.b, binding.b.uid, members) &&
      EndCompiled(b, link.uid + "/b", link, link.spec.b, link.spec.a, binding.a.uid, members);
    x := if link.spec.a.nodeName in members then a[0] else b[0];
    assert all == [x];
    OnlyFromLink(link, links, nodes, members, x);
  }

  /** Two-sided agreement: the Pods at both ends of a Link are compiled from their own listings,
      taken at different times perhaps, and still plan mirror images of the same wire, one
      interface each. */
  lemma BothSidesAgree(link: Link,
                       links1: seq<Link>, nodes1: Nodes, members1: Nodes,
                       links2: seq<Link>, nodes2: Nodes, members2: Nodes)
    returns (x: Interface, y: Interface)
    requires link in links1 && link in links2
    requires forall l :: (l in links1 || l in links2) && l.uid == link.uid ==> l == link
    requires MembersListed(members1, nodes1) && MembersListed(members2, nodes2)
    requires link.spec.a.nodeName in members1 && link.spec.b.nodeName in members2
    requires link.spec.a.nodeName !in members2 && link.spec.b.nodeName !in members1
    requires link.spec.a.nodeName != HostNode && link.spec.b.nodeName != HostNode
    requires AllInterfaces(links1, nodes1, members1).Ok? && AllInterfaces(links2, nodes2, members2).Ok?
    ensures Mirrors(x, y) && x.connectivity == Wire && x.wireID != 0
    ensures x.id == link.uid + "/a" && y.id == link.uid + "/b"
    ensures x.peerTransport == link.spec.b.nodeName && y.peerTransport == link.spec.a.nodeName
    ensures forall i :: i in AllInterfaces(links1, nodes1, members1).value && i.linkID == link.uid <==> i == x
    ensures forall i :: i in AllInterfaces(links2, nodes2, members2).value && i.linkID == link.uid <==> i == y
  {
    CompiledExactly(links1, nodes1, members1);
    CompiledExactly(links2, nodes2, members2);
    x := InterfaceAt(link, A, members1);
    y := InterfaceAt(link, B, members2);
    assert LinkInterfaces(link, nodes1, members1) == Ok([x]) by {
      assert [x] + [] == [x];
    }
    assert LinkInterfaces(link, nodes2, members2) == Ok([y]) by {
      assert [] + [y] == [y];
    }
    OnlyFromLink(link, links1, nodes1, members1, x);
    OnlyFromLink(link, links2, nodes2, members2, y);
  }

  lemma InterfacesNameTheirLink(link: Link, nodes: Nodes, members: Nodes, i: Interface)
    requires LinkInterfaces(link, nodes, members).Ok? && i in LinkInterfaces(link, nodes, members).value
    ensures i.linkID == link.uid && i.wireID == link.status.wireID
    ensures i.connectivity == Wire ==> link.status.wireID != 0
  {
  }

  lemma OnlyFromLink(link: Link, links: seq<Link>, nodes: Nodes, members: Nodes, x: Interface)
    requires link in links && AllInterfaces(links, nodes, members).Ok?
    requires forall l :: l in links && l.uid == link.uid ==> l == link
    requires LinkInterfaces(link, nodes, members) == Ok([x])
    ensures forall i :: i in AllInterfaces(links, nodes, members).value && i.linkID == link.uid <==> i == x
  {
    CompiledExactly(links, nodes, members);
    var all := AllInterfaces(links, nodes, members).value;
    assert x in LinkInterfaces(link, nodes, members).value;
    InterfacesNameTheirLink(link, nodes, members, x);
    forall i | i in all && i.linkID == link.uid ensures i == x {
      var l :| l in links && LinkInterfaces(l, nodes, members).Ok? && i in LinkInterfaces(l, nodes, members).value;
      InterfacesNameTheirLink(l, nodes, members, i);
    }
  }

  // ---------------------------------------------------------------- agreement with the allocator

  /** The Nodes hosted by `primary`, as the Node controller lists them. */
  ghost predicate IsHosted(members: Nodes, nodes: Nodes, primary: string) {
    && MembersListed(members, nodes) && primary in nodes
    && forall n :: n in nodes ==> (n in members <==> InGroup(ModesOf(nodes), primary, n))
  }

  /** The Node controller plans a Pod for a Node only if the Node hosts itself. */
  predicate Plans(nodes: Nodes, n: string) {
    Resolve(ModesOf(nodes), n) == n
  }

  /** A group that is planned. */
  ghost predicate IsGroup(members: Nodes, nodes: Nodes, primary: string) {
    IsHosted(members, nodes, primary) && Plans(nodes, primary)
  }

  /** For every Link with an end at a member: the planner classes it wire exactly if the allocator
      gives it a wire id. */
  ghost predicate WiresAgree(members: Nodes, nodes: Nodes) {
    forall spec: Spec, side: Side ::
      MissingEndpoint(spec, nodes).None? && Near(spec, side).nodeName in members ==>
        (Classify(Near(spec, side), Far(spec, side), members) == Wire <==> NeedsWire(spec, nodes))
  }

  /** Planner and allocator agree on a listed group exactly if its primary hosts itself -- the very
      guard under which the Node controller plans the group, so that no planned group disagrees. */
  lemma WiresAgreeIff(members: Nodes, nodes: Nodes, n: string)
    requires HostNode !in nodes && n in nodes && IsHosted(members, nodes, Resolve(ModesOf(nodes), n))
    ensures WiresAgree(members, nodes) <==> Plans(nodes, Resolve(ModesOf(nodes), n))
  {
    var modes, p := ModesOf(nodes), Resolve(ModesOf(nodes), n);
    if Plans(nodes, p) {
      forall spec: Spec, side: Side | MissingEndpoint(spec, nodes).None? && Near(spec, side).nodeName in members
        ensures Classify(Near(spec, side), Far(spec, side), members) == Wire <==> NeedsWire(spec, nodes)
      {
        var near, far := Near(spec, side).nodeName, Far(spec, side).nodeName;
        assert InGroup(modes, p, near);
        assert far in nodes ==> (far in members <==> InGroup(modes, p, far));
      }
    } else {
      var spec := Spec(Endpoint(n, ""), Endpoint(p, ""), 0);
      assert InGroup(modes, p, n) && InGroup(modes, p, p);
      assert Near(spec, A).nodeName in members && Far(spec, A).nodeName in members;
      assert NeedsWire(spec, nodes) && Classify(Near(spec, A), Far(spec, A), members) == SamePod;
    }
  }

  /** The planner and the allocator agree on what a wire is: on the Nodes the Link was settled
      for, the near end of a member is classed wire exactly if the Link was given a wire id. */
  lemma WireClassIffWireID(pass: Pass, j: nat, side: Side, members: Nodes, primary: string)
    requires j < |pass.links| && SettledAt(pass.links, j, pass.nodes, pass.conflicts)
    requires IsAccepted(pass.links[j])
    requires IsGroup(members, pass.nodes, primary)
    requires Near(pass.links[j].spec, side).nodeName in members
    requires Near(pass.links[j].spec, side).nodeName != HostNode
    ensures var spec := pass.links[j].spec;
            Classify(Near(spec, side), Far(spec, side), members) == Wire <==> pass.links[j].status.wireID != 0
  {
    var spec := pass.links[j].spec;
    var near, far := Near(spec, side), Far(spec, side);
    assert Rejection(pass.links[j].name, spec, pass.nodes, pass.conflicts).None?;
    assert InGroup(ModesOf(pass.nodes), primary, near.nodeName);
    assert far.nodeName != HostNode ==> far.nodeName in pass.nodes;
    assert far.nodeName in pass.nodes ==>
             (far.nodeName in members <==> InGroup(ModesOf(pass.nodes), primary, far.nodeName));
  }

  /** So a Link that a completed pass has settled is never reported as stale or waiting, over any run. */
  lemma SettledLinkIsReady(w: World, events: seq<Event>, j: nat, members: Nodes, primary: string)
    requires WellFormed(w) && BindingsWhole(State(w, Idle)) && Completed(Run(State(w, Idle), events))
    requires var pass := Run(State(w, Idle), events).phase.pass;
             && j < |pass.links| && AcceptedHere(pass, j) && pass.links[j].uid != ""
             && HostNode !in pass.nodes && "" !in pass.nodes
             && (forall n :: n in pass.nodes ==> pass.nodes[n].uid != "")
             && IsGroup(members, pass.nodes, primary)
    ensures var pass := Run(State(w, Idle), events).phase.pass;
            LinkInterfaces(pass.links[j], pass.nodes, members).Ok?
  {
    RunKeepsInv(State(w, Idle), events);
    RunKeepsBindingsWhole(State(w, Idle), events);
    var pass := Run(State(w, Idle), events).phase.pass;
    assert DealtWith(pass, j);
    WholeLinkIsReady(pass, j, members, primary);
  }

  lemma WholeLinkIsReady(pass: Pass, j: nat, members: Nodes, primary: string)
    requires j < |pass.links| && SettledAt(pass.links, j, pass.nodes, pass.conflicts)
    requires IsAccepted(pass.links[j]) && pass.links[j].uid != "" && Whole(pass.links[j].status.binding)
    requires HostNode !in pass.nodes && "" !in pass.nodes
    requires forall n :: n in pass.nodes ==> pass.nodes[n].uid != ""
    requires IsGroup(members, pass.nodes, primary)
    ensures LinkInterfaces(pass.links[j], pass.nodes, members).Ok?
  {
    var link := pass.links[j];
    assert Rejection(link.name, link.spec, pass.nodes, pass.conflicts).None?;
    SettledBinding(link, pass.nodes);
    if link.spec.a.nodeName in members { WireClassIffWireID(pass, j, A, members, primary); }
    if link.spec.b.nodeName in members { WireClassIffWireID(pass, j, B, members, primary); }
  }

  /** After a completed pass the wire ids inside one Pod's input are pairwise distinct among the
      Links that the pass processed. */
  lemma PodWiresDistinct(w: World, events: seq<Event>, nodes: Nodes, members: Nodes,
                         i: nat, j: nat, x: Interface, y: Interface)
    requires WellFormed(w) && Completed(Run(State(w, Idle), events))
    requires var pass := Run(State(w, Idle), events).phase.pass;
             && i < j < |pass.links|
             && !Skipped(pass.links[j]) && pass.links[j].name !in pass.removed
             && LinkInterfaces(pass.links[i], nodes, members).Ok? && LinkInterfaces(pass.links[j], nodes, members).Ok?
             && x in LinkInterfaces(pass.links[i], nodes, members).value
             && y in LinkInterfaces(pass.links[j], nodes, members).value
    requires x.connectivity == Wire && y.connectivity == Wire
    ensures x.wireID != y.wireID
  {
    RunKeepsInv(State(w, Idle), events);
    var pass := Run(State(w, Idle), events).phase.pass;
    InterfacesNameTheirLink(pass.links[i], nodes, members, x);
    InterfacesNameTheirLink(pass.links[j], nodes, members, y);
    assert DealtWith(pass, j);
  }

  /** Two Nodes that refer to each other: no Pod is planned for either, and yet the allocator sees two
      Pods and gives a Link between them a wire id. */
  lemma CyclicPairIsNeverPlanned(nodes: Nodes, a: string, b: string, spec: Spec)
    requires a in nodes && b in nodes && a != b && a != "" && b != "" && a != HostNode && b != HostNode
    requires Next(ModesOf(nodes), a) == b && Next(ModesOf(nodes), b) == a
    requires spec.a.nodeName == a && spec.b.nodeName == b
    ensures !Plans(nodes, a) && !Plans(nodes, b) && NeedsWire(spec, nodes)
  {
    var modes := ModesOf(nodes);
    HostsItselfIff(modes, a);
    HostsItselfIff(modes, b);
    ResolveStep(modes, a, {});
    ResolveStep(modes, b, {});
    assert {} + {a} == {a} && {} + {b} == {b};
    assert Resolve(modes, a) == b && Resolve(modes, b) == a;
  }
}
