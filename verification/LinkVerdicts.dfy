/** What a completed pass leaves on a Link, said in terms of the listed Links and Nodes alone: its
    binding, its condition and whether it has a wire id.
  */
module LinkVerdicts {
  import opened Wrappers
  import opened Ordering
  import PodGroups
  import opened Links
  import opened Wires
  import opened LinkWorld
  import opened LinkPass
  import opened LinkSafety
  import opened LinkTheorems

  predicate Present(e: Endpoint, nodes: Nodes) {
    e.nodeName == "host" || e.nodeName in nodes
  }

  /** The Link joins two different interfaces, and its Nodes are there. */
  predicate Candidate(link: Link, nodes: Nodes) {
    Joins(link.spec) && Present(link.spec.a, nodes) && Present(link.spec.b, nodes)
  }

  /** Link `j` of the sorted listing owns its ends: no owner before it has one of them. */
  ghost predicate OwnsAt(links: seq<Link>, nodes: Nodes, j: nat)
    requires j < |links|
    decreases j
  {
    && Candidate(links[j], nodes)
    && forall i: nat :: i < j && OwnsAt(links, nodes, i) ==> !Overlap(links[i].spec, links[j].spec)
  }

  /** Link `i` owns this end, and comes before Link `j`. */
  ghost predicate HoldsEnd(links: seq<Link>, nodes: Nodes, j: nat, i: nat, e: Endpoint)
    requires j < |links|
  {
    i < j && OwnsAt(links, nodes, i) && HasEnd(links[i].spec, e)
  }

  /** An earlier owner has this end, and this is its name. */
  ghost predicate HeldBy(links: seq<Link>, nodes: Nodes, j: nat, e: Endpoint, owner: string)
    requires j < |links|
  {
    exists i: nat :: HoldsEnd(links, nodes, j, i, e) && links[i].name == owner
  }

  ghost predicate Held(links: seq<Link>, nodes: Nodes, j: nat, e: Endpoint)
    requires j < |links|
  {
    exists i: nat :: HoldsEnd(links, nodes, j, i, e)
  }

  /** Both ends as the listed Nodes have them, or none if one of them has no identity. */
  ghost predicate RightBinding(link: Link, nodes: Nodes) {
    link.status.binding ==
      if Bindable(link.spec.a, nodes) && Bindable(link.spec.b, nodes)
      then Some(Binding(Identity(link.spec.a, nodes), Identity(link.spec.b, nodes))) else None
  }

  /** The first of the four reasons that applies. */
  ghost predicate RightReason(links: seq<Link>, nodes: Nodes, j: nat, reason: Reason)
    requires j < |links|
  {
    var spec := links[j].spec;
    match reason
    case InvalidSpec => !Joins(spec)
    case EndpointsUnresolved(n) =>
      && Joins(spec)
      && if !Present(spec.a, nodes) then n == spec.a.nodeName else !Present(spec.b, nodes) && n == spec.b.nodeName
    case EndpointConflict(owner) =>
      && Candidate(links[j], nodes)
      && HeldBy(links, nodes, j, if Held(links, nodes, j, spec.a) then spec.a else spec.b, owner)
    case Accepted(_) => OwnsAt(links, nodes, j)
  }

  /** The wire leaves the Pod: no end at the host, and the ends in different Pods. */
  predicate LeavesPod(spec: Spec, nodes: Nodes) {
    && spec.a.nodeName != "host" && spec.b.nodeName != "host"
    && PodGroups.Resolve(ModesOf(nodes), spec.a.nodeName) != PodGroups.Resolve(ModesOf(nodes), spec.b.nodeName)
  }

  /** An accepted Link has an id of its own exactly if it leaves its Pod, any other Link has none. */
  ghost predicate RightWire(links: seq<Link>, nodes: Nodes, j: nat, accepted: bool)
    requires j < |links|
  {
    var id := links[j].status.wireID;
    && (id != 0 <==> accepted && LeavesPod(links[j].spec, nodes))
    && (id != 0 ==> 1 <= id <= 16_000_000 && forall i :: 0 <= i < j ==> links[i].status.wireID != id)
  }

  ghost predicate RightStatus(links: seq<Link>, nodes: Nodes, j: nat)
    requires j < |links|
  {
    var link := links[j];
    && RightBinding(link, nodes)
    && link.status.condition.Some? && link.status.condition.value.observedGeneration == link.generation
    && RightReason(links, nodes, j, link.status.condition.value.reason)
    && RightWire(links, nodes, j, link.status.condition.value.reason.Accepted?)
    && (link.status.condition.value.reason.Accepted? ==>
          link.status.condition.value.reason.wireID == link.status.wireID)
  }

  // ---------------------------------------------------------------- ownership of the listing

  lemma ClaimAt(links: seq<Link>, nodes: Nodes, j: nat)
    requires j < |links|
    ensures Present(links[j].spec.a, nodes) && Present(links[j].spec.b, nodes) ==>
              Claim(links[j].name, links[j].spec) in ClaimsOf(links, nodes)
  {
    assert links[j] in links;
  }

  /** A claim is that of a listed Link whose Nodes are there. */
  lemma ClaimIsListed(links: seq<Link>, nodes: Nodes, c: Claim) returns (i: nat)
    requires c in ClaimsOf(links, nodes)
    ensures i < |links| && c == Claim(links[i].name, links[i].spec)
    ensures Present(links[i].spec.a, nodes) && Present(links[i].spec.b, nodes)
  {
    var l :| l in links && c == Claim(l.name, l.spec) && MissingEndpoint(l.spec, nodes).None?;
    i :| 0 <= i < |links| && links[i] == l;
  }

  lemma ClaimsPlain(links: seq<Link>, nodes: Nodes)
    requires PlainNames(nodes)
    ensures forall c :: c in ClaimsOf(links, nodes) ==> PlainEnds(c.spec)
  {
    forall c | c in ClaimsOf(links, nodes) ensures PlainEnds(c.spec) {
      var i := ClaimIsListed(links, nodes, c);
      assert ':' !in "host";
    }
  }

  /** The listing is sorted, and the conflicts are those of its ownership. */
  ghost predicate Solved(links: seq<Link>, nodes: Nodes, conflicts: map<string, string>) {
    Sorted(links, (l: Link) => l.name) && EndpointOwnership(ClaimsOf(links, nodes), conflicts)
  }

  lemma SmallerIsListedBefore(links: seq<Link>, i: nat, j: nat)
    requires Sorted(links, (l: Link) => l.name) && i < |links| && j < |links|
    ensures Less(links[i].name, links[j].name) <==> i < j
  {
    LessIrreflexive(links[i].name);
    if j < i { LessAsymmetric(links[j].name, links[i].name); }
  }

  /** The owners up to here are those that no conflict is reported for. */
  ghost predicate OwnersBefore(links: seq<Link>, nodes: Nodes, conflicts: map<string, string>, j: nat) {
    forall i: nat :: i < j && i < |links| ==>
      (OwnsAt(links, nodes, i) <==> Candidate(links[i], nodes) && !Conflicted(links[i].name, conflicts))
  }

  /** Among the claims the smaller owners of an end are the earlier Links that hold it. */
  lemma HolderIsSmallerOwner(links: seq<Link>, nodes: Nodes, conflicts: map<string, string>, j: nat, e: Endpoint,
                             owner: string)
    requires Solved(links, nodes, conflicts) && j < |links| && OwnersBefore(links, nodes, conflicts, j)
    ensures var c, claims := Claim(links[j].name, links[j].spec), ClaimsOf(links, nodes);
            HeldBy(links, nodes, j, e, owner) <==>
              exists d :: SmallerOwner(claims, conflicts, d, c, e) && d.name == owner
  {
    var c, claims := Claim(links[j].name, links[j].spec), ClaimsOf(links, nodes);
    if i: nat :| HoldsEnd(links, nodes, j, i, e) && links[i].name == owner {
      ClaimAt(links, nodes, i);
      SmallerIsListedBefore(links, i, j);
      assert SmallerOwner(claims, conflicts, Claim(links[i].name, links[i].spec), c, e);
    }
    if d :| SmallerOwner(claims, conflicts, d, c, e) && d.name == owner {
      var i := ClaimIsListed(links, nodes, d);
      SmallerIsListedBefore(links, i, j);
      assert HoldsEnd(links, nodes, j, i, e);
    }
  }

  lemma HeldIffTaken(links: seq<Link>, nodes: Nodes, conflicts: map<string, string>, j: nat, e: Endpoint)
    requires Solved(links, nodes, conflicts) && j < |links| && OwnersBefore(links, nodes, conflicts, j)
    ensures Held(links, nodes, j, e) <==>
              EndTaken(ClaimsOf(links, nodes), conflicts, Claim(links[j].name, links[j].spec), e)
  {
    var c, claims := Claim(links[j].name, links[j].spec), ClaimsOf(links, nodes);
    if i: nat :| HoldsEnd(links, nodes, j, i, e) {
      HolderIsSmallerOwner(links, nodes, conflicts, j, e, links[i].name);
    }
    if d :| SmallerOwner(claims, conflicts, d, c, e) {
      HolderIsSmallerOwner(links, nodes, conflicts, j, e, d.name);
    }
  }

  /** A candidate owns its ends exactly if neither is held before it. */
  lemma OwnsIffNotHeld(links: seq<Link>, nodes: Nodes, j: nat)
    requires j < |links|
    ensures OwnsAt(links, nodes, j) <==>
              && Candidate(links[j], nodes)
              && !Held(links, nodes, j, links[j].spec.a) && !Held(links, nodes, j, links[j].spec.b)
  {
    if i: nat :| i < j && OwnsAt(links, nodes, i) && Overlap(links[i].spec, links[j].spec) {
      var e :| HasEnd(links[i].spec, e) && HasEnd(links[j].spec, e);
      assert HoldsEnd(links, nodes, j, i, e);
    }
    if i: nat :| HoldsEnd(links, nodes, j, i, links[j].spec.a) {
      assert HasEnd(links[i].spec, links[j].spec.a) && HasEnd(links[j].spec, links[j].spec.a);
    }
    if i: nat :| HoldsEnd(links, nodes, j, i, links[j].spec.b) {
      assert HasEnd(links[i].spec, links[j].spec.b) && HasEnd(links[j].spec, links[j].spec.b);
    }
  }

  lemma OwnerIsFreeOfConflict(links: seq<Link>, nodes: Nodes, conflicts: map<string, string>, j: nat)
    requires Solved(links, nodes, conflicts) && j < |links| && OwnersBefore(links, nodes, conflicts, j)
    ensures OwnsAt(links, nodes, j) <==> Candidate(links[j], nodes) && !Conflicted(links[j].name, conflicts)
  {
    OwnsIffNotHeld(links, nodes, j);
    HeldIffTaken(links, nodes, conflicts, j, links[j].spec.a);
    HeldIffTaken(links, nodes, conflicts, j, links[j].spec.b);
    ClaimAt(links, nodes, j);
    if Candidate(links[j], nodes) {
      VerdictOn(ClaimsOf(links, nodes), conflicts, Claim(links[j].name, links[j].spec));
    }
  }

  lemma VerdictOn(claims: seq<Claim>, conflicts: map<string, string>, c: Claim)
    requires EndpointOwnership(claims, conflicts) && c in claims && Joins(c.spec)
    ensures Conflicted(c.name, conflicts) <==>
              EndTaken(claims, conflicts, c, c.spec.a) || EndTaken(claims, conflicts, c, c.spec.b)
  {
  }

  lemma {:induction false} OwnersAreFreeOfConflict(links: seq<Link>, nodes: Nodes, conflicts: map<string, string>,
                                                   k: nat)
    requires Solved(links, nodes, conflicts) && k <= |links|
    ensures OwnersBefore(links, nodes, conflicts, k)
    decreases k
  {
    if k > 0 {
      var j := k - 1;
      OwnersAreFreeOfConflict(links, nodes, conflicts, j);
      OwnerIsFreeOfConflict(links, nodes, conflicts, j);
    }
  }

  // ---------------------------------------------------------------- the verdict on one Link

  lemma SettledReason(links: seq<Link>, nodes: Nodes, conflicts: map<string, string>, j: nat)
    requires Solved(links, nodes, conflicts) && j < |links|
    ensures match Rejection(links[j].name, links[j].spec, nodes, conflicts)
            case Some(reason) => RightReason(links, nodes, j, reason) && !reason.Accepted?
            case None => OwnsAt(links, nodes, j)
  {
    var spec := links[j].spec;
    OwnersAreFreeOfConflict(links, nodes, conflicts, |links|);
    ClaimAt(links, nodes, j);
    assert OwnersBefore(links, nodes, conflicts, j);
    HeldIffTaken(links, nodes, conflicts, j, spec.a);
    if Candidate(links[j], nodes) && Conflicted(links[j].name, conflicts) {
      var e := if Held(links, nodes, j, spec.a) then spec.a else spec.b;
      HolderIsSmallerOwner(links, nodes, conflicts, j, e, conflicts[links[j].name]);
    }
  }

  lemma SettledBinding(link: Link, nodes: Nodes)
    requires Whole(link.status.binding)
    requires ResolveLinkEndpoints(link.spec, link.status.binding, nodes) == Resolved(link.status.binding)
    ensures RightBinding(link, nodes)
  {
    if link.status.binding.Some? {
      var b := link.status.binding.value;
      assert b.a in Ends(link.status.binding) && b.b in Ends(link.status.binding);
    }
  }

  lemma SettledIsRight(links: seq<Link>, nodes: Nodes, conflicts: map<string, string>, j: nat)
    requires j < |links| && Solved(links, nodes, conflicts) && Whole(links[j].status.binding)
    requires SettledAt(links, j, nodes, conflicts)
    ensures RightStatus(links, nodes, j)
  {
    SettledReason(links, nodes, conflicts, j);
    SettledBinding(links[j], nodes);
  }

  lemma PassIsSolved(w: World, pass: Pass)
    requires PassInv(w, pass) && PlainNames(pass.nodes)
    ensures Solved(pass.links, pass.nodes, pass.conflicts)
  {
    PassSolvesOwnership(w, pass);
    ClaimsPlain(pass.links, pass.nodes);
    OwnershipOnEndpoints(ClaimsOf(pass.links, pass.nodes), pass.conflicts);
  }

  /** The verdict of a completed pass, over every run up to it: a Link that is neither on its way out nor
      ignored is deleted, or carries the binding, the reason and the wire id that follow from the listed
      Links and Nodes. */
  lemma CompletedPassVerdict(w: World, events: seq<Event>, j: nat)
    requires WellFormed(w) && BindingsWhole(State(w, Idle)) && Completed(Run(State(w, Idle), events))
    requires var pass := Run(State(w, Idle), events).phase.pass; j < |pass.links| && PlainNames(pass.nodes)
    ensures var pass := Run(State(w, Idle), events).phase.pass;
            var link := pass.links[j];
            link.deleting || link.ignored || link.name in pass.removed || RightStatus(pass.links, pass.nodes, j)
  {
    RunKeepsInv(State(w, Idle), events);
    RunKeepsBindingsWhole(State(w, Idle), events);
    var s := Run(State(w, Idle), events);
    PassIsSolved(s.world, s.phase.pass);
    assert DealtWith(s.phase.pass, j);
    if SettledAt(s.phase.pass.links, j, s.phase.pass.nodes, s.phase.pass.conflicts) {
      SettledIsRight(s.phase.pass.links, s.phase.pass.nodes, s.phase.pass.conflicts, j);
    }
  }

  /** A Link on its way out, or ignored, is passed over: nothing is written. */
  lemma SkippedIsLeftAlone(w: World, pass: Pass, outcome: Outcome)
    requires pass.idx < |pass.links|
    requires pass.links[pass.idx].deleting || pass.links[pass.idx].ignored
    ensures ProcessLink(w, pass, outcome) == State(w, Working(pass.(idx := pass.idx + 1)))
  {
  }
}
