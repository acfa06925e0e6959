/** The promises of the Link controller over whole runs and completed passes. */
module LinkTheorems {
  import opened Wrappers
  import opened Ordering
  import opened Links
  import opened Wires
  import opened LinkWorld
  import opened LinkPass
  import opened LinkSafety

  ghost predicate Completed(s: State) {
    s.phase.Working? && s.phase.pass.idx == |s.phase.pass.links|
  }

  function DecisionOf(w: World, pass: Pass): Decision
    requires pass.idx < |pass.links|
  {
    Decide(w.ns, pass.links[pass.idx], pass.nodes, pass.conflicts, pass.table).0
  }

  /** What processing one Link does to the stored objects. */
  lemma ProcessEffect(w: World, pass: Pass, outcome: Outcome)
    requires pass.idx < |pass.links|
    ensures var link, d, w' := pass.links[pass.idx], DecisionOf(w, pass), ProcessLink(w, pass, outcome).world;
            || w' == w
            || (d.Remove? && Unchanged(w, link) && w' == Deleted(w, link.name))
            || (d.Write? && Unchanged(w, link) && w' == Stored(w, link.(status := d.status)))
  {
  }

  /** A write keeps or renews the binding as resolved, a removal answers a stale one. */
  lemma DecisionBinding(w: World, pass: Pass)
    requires pass.idx < |pass.links|
    ensures var link, d := pass.links[pass.idx], DecisionOf(w, pass);
            var r := ResolveLinkEndpoints(link.spec, link.status.binding, pass.nodes);
            && (d.Write? ==> r == Resolved(d.status.binding))
            && (d.Remove? ==> r == Stale)
  {
  }

  /** The pass left this Link alone, or deleted it. */
  ghost predicate LeftAlone(pass: Pass, name: string) {
    exists j :: 0 <= j < |pass.links| && pass.links[j].name == name &&
      (Skipped(pass.links[j]) || name in pass.removed)
  }

  /** From any state, shared wire ids included: after a completed pass two stored Links share a
      nonzero id only if the pass skipped or deleted the lexically larger one. */
  lemma CompletedPassSeparatesWires(w: World, events: seq<Event>, m: string, n: string)
    requires WellFormed(w)
    requires Completed(Run(State(w, Idle), events))
    requires var links := Run(State(w, Idle), events).world.links;
             && m in links && n in links && Less(m, n)
             && links[m].status.wireID == links[n].status.wireID != 0
    ensures LeftAlone(Run(State(w, Idle), events).phase.pass, n)
  {
    RunKeepsInv(State(w, Idle), events);
    CompletedSeparatesWires(Run(State(w, Idle), events), m, n);
  }

  lemma CompletedSeparatesWires(s: State, m: string, n: string)
    requires Inv(s) && Completed(s)
    requires m in s.world.links && n in s.world.links && Less(m, n)
    requires s.world.links[m].status.wireID == s.world.links[n].status.wireID != 0
    ensures LeftAlone(s.phase.pass, n)
  {
    var pass := s.phase.pass;
    var links := pass.links;
    var id := s.world.links[n].status.wireID;
    assert Shows(links, m, id) && Shows(links, n, id);
    var i :| 0 <= i < |links| && links[i].name == m && links[i].status.wireID == id;
    var j :| 0 <= j < |links| && links[j].name == n && links[j].status.wireID == id;
    if j <= i {
      LessAsymmetric(m, n);
      LessIrreflexive(m);
    }
    assert DealtWith(pass, j);
  }

  // ---------------------------------------------------------------- endpoint exclusivity

  lemma {:induction false} ClaimNamesDistinct(links: seq<Link>, nodes: Nodes)
    requires Sorted(links, (l: Link) => l.name)
    ensures DistinctKeys(ClaimsOf(links, nodes), (c: Claim) => c.name)
    decreases |links|
  {
    if |links| > 0 {
      var n := |links| - 1;
      ClaimNamesDistinct(links[..n], nodes);
      forall c | c in ClaimsOf(links[..n], nodes) ensures c.name != links[n].name {
        var l :| l in links[..n] && c == Claim(l.name, l.spec);
        var i :| 0 <= i < n && links[..n][i] == l;
        LessIrreflexive(links[n].name);
        assert Less(links[i].name, links[n].name);
      }
    }
  }

  ghost predicate IsAccepted(link: Link) {
    link.status.condition.Some? && link.status.condition.value.reason.Accepted?
  }

  /** The pass accepted Link `j`. */
  ghost predicate AcceptedHere(pass: Pass, j: nat)
    requires j < |pass.links|
  {
    IsAccepted(pass.links[j]) && !Skipped(pass.links[j]) && pass.links[j].name !in pass.removed
  }

  lemma AcceptedOwns(pass: Pass, j: nat)
    requires j < |pass.links| && AcceptedHere(pass, j) && DealtWith(pass, j)
    ensures var claim := Claim(pass.links[j].name, pass.links[j].spec);
            claim in ClaimsOf(pass.links, pass.nodes) && Owns(claim, pass.conflicts)
  {
    var link := pass.links[j];
    assert link in pass.links;
    assert Rejection(link.name, link.spec, pass.nodes, pass.conflicts).None?;
  }

  lemma PassSolvesOwnership(w: World, pass: Pass)
    requires PassInv(w, pass)
    ensures SolvesOwnership(ClaimsOf(pass.links, pass.nodes), pass.conflicts)
  {
    var claims := ClaimsOf(pass.links, pass.nodes);
    ClaimNamesDistinct(pass.links, pass.nodes);
    forall c | c in claims ensures c.name != "" {
      var l :| l in pass.links && c == Claim(l.name, l.spec);
      var x :| 0 <= x < |pass.links| && pass.links[x] == l;
      assert Faithful(w, pass.links[x]);
    }
    ConflictsSolveOwnership(claims);
  }

  /** No Node name holds a colon, as Kubernetes guarantees. */
  predicate PlainNames(nodes: Nodes) {
    forall n :: n in nodes ==> ':' !in n
  }

  /** After a completed pass two Links that it accepted never share an interface: their keys differ, and
      no interface of any Node is an end of both. */
  lemma AcceptedLinksAreExclusive(w: World, events: seq<Event>, i: nat, j: nat)
    requires WellFormed(w)
    requires Completed(Run(State(w, Idle), events))
    requires var pass := Run(State(w, Idle), events).phase.pass;
             i < j < |pass.links| && AcceptedHere(pass, i) && AcceptedHere(pass, j)
    ensures var pass := Run(State(w, Idle), events).phase.pass;
            && Keys(pass.links[i].spec) !! Keys(pass.links[j].spec)
            && (PlainNames(pass.nodes) ==>
                  forall e :: !(HasEnd(pass.links[i].spec, e) && HasEnd(pass.links[j].spec, e)))
  {
    RunKeepsInv(State(w, Idle), events);
    var s := Run(State(w, Idle), events);
    var pass := s.phase.pass;
    AcceptedPairExclusive(s.world, pass, i, j);
    if PlainNames(pass.nodes) {
      AcceptedEndsPlain(pass, i);
      AcceptedEndsPlain(pass, j);
      KeysMeetIff(pass.links[i].spec, pass.links[j].spec);
    }
  }

  lemma AcceptedEndsPlain(pass: Pass, j: nat)
    requires j < |pass.links| && AcceptedHere(pass, j) && DealtWith(pass, j) && PlainNames(pass.nodes)
    ensures PlainEnds(pass.links[j].spec)
  {
    var link := pass.links[j];
    assert Rejection(link.name, link.spec, pass.nodes, pass.conflicts).None?;
    assert ':' !in HostNode;
  }

  lemma AcceptedPairExclusive(w: World, pass: Pass, i: nat, j: nat)
    requires PassInv(w, pass) && i < j < pass.idx
    requires AcceptedHere(pass, i) && AcceptedHere(pass, j)
    ensures Keys(pass.links[i].spec) !! Keys(pass.links[j].spec)
  {
    PassSolvesOwnership(w, pass);
    AcceptedOwns(pass, i);
    AcceptedOwns(pass, j);
    LessIrreflexive(pass.links[i].name);
    assert Less(pass.links[i].name, pass.links[j].name);
  }

  // ---------------------------------------------------------------- bindings

  /** The Link `n` is there with this identity and these endpoint names. */
  ghost predicate Wired(w: World, n: string, uid: string, a: string, b: string) {
    && n in w.links && w.links[n].uid == uid
    && w.links[n].spec.a.nodeName == a && w.links[n].spec.b.nodeName == b
  }

  lemma StepKeepsBinding(s: State, e: Event, n: string, uid: string, a: string, b: string)
    requires Inv(s)
    requires Wired(s.world, n, uid, a, b) && Wired(Step(s, e).world, n, uid, a, b)
    requires BindingMatches(s.world.links[n].spec, s.world.links[n].status.binding)
    ensures Step(s, e).world.links[n].status.binding == s.world.links[n].status.binding
  {
    match e
    case Change(edit) => ApplyKeepsStatus(s.world, edit, n);
    case ListLinks(_) =>
    case ListNodes =>
    case ListFails =>
    case Process(outcome) =>
      if s.phase.Working? && s.phase.pass.idx < |s.phase.pass.links| {
        ProcessKeepsBinding(s.world, s.phase.pass, outcome, n);
      }
  }

  lemma ProcessKeepsBinding(w: World, pass: Pass, outcome: Outcome, n: string)
    requires PassInv(w, pass) && pass.idx < |pass.links|
    requires n in w.links && n in ProcessLink(w, pass, outcome).world.links
    requires BindingMatches(w.links[n].spec, w.links[n].status.binding)
    ensures ProcessLink(w, pass, outcome).world.links[n].status.binding == w.links[n].status.binding
  {
    assert Faithful(w, pass.links[pass.idx]);
    ProcessEffect(w, pass, outcome);
    DecisionBinding(w, pass);
  }

  /** A complete binding: each end at the host, or with a UID. */
  ghost predicate CompleteEnd(b: Bound) {
    b.nodeName == "host" || b.uid != ""
  }

  /** No silent rebind: over any run, Nodes deleted and recreated included, a Link that keeps its
      identity and its endpoint names keeps a complete binding unchanged. */
  lemma {:induction false} RunNeverRebinds(s: State, events: seq<Event>, n: string, uid: string, a: Bound, b: Bound)
    requires Inv(s)
    requires forall k :: 0 <= k <= |events| ==> Wired(Run(s, events[..k]).world, n, uid, a.nodeName, b.nodeName)
    requires Wired(s.world, n, uid, a.nodeName, b.nodeName) && CompleteEnd(a) && CompleteEnd(b)
    requires s.world.links[n].status.binding == Some(Binding(a, b))
    ensures Wired(Run(s, events).world, n, uid, a.nodeName, b.nodeName)
    ensures Run(s, events).world.links[n].status.binding == Some(Binding(a, b))
    decreases |events|
  {
    assert events[..|events|] == events;
    if |events| > 0 {
      var last := |events| - 1;
      var before := events[..last];
      forall k | 0 <= k <= |before| ensures Wired(Run(s, before[..k]).world, n, uid, a.nodeName, b.nodeName) {
        assert before[..k] == events[..k];
      }
      RunNeverRebinds(s, before, n, uid, a, b);
      RunKeepsInv(s, before);
      StepKeepsBinding(Run(s, before), events[last], n, uid, a.nodeName, b.nodeName);
    }
  }

  /** Both ends or none: each end of a binding has a UID, and exactly the ends at the host have none. */
  ghost predicate Whole(binding: Option<Binding>) {
    binding.Some? ==> forall b :: b in Ends(binding) ==> (b.uid == "" <==> b.nodeName == "host")
  }

  ghost predicate AllWhole(links: seq<Link>) {
    forall i :: 0 <= i < |links| ==> Whole(links[i].status.binding)
  }

  /** The stored bindings, and those of the copy a pass works on. */
  ghost predicate BindingsWhole(s: State) {
    && (forall n :: n in s.world.links ==> Whole(s.world.links[n].status.binding))
    && (s.phase.Listed? ==> AllWhole(s.phase.links))
    && (s.phase.Working? ==> AllWhole(s.phase.pass.links))
  }

  lemma ResolvedIsWhole(spec: Spec, observed: Option<Binding>, nodes: Nodes)
    requires Whole(observed) && ResolveLinkEndpoints(spec, observed, nodes).Resolved?
    ensures Whole(ResolveLinkEndpoints(spec, observed, nodes).binding)
  {
  }

  lemma ListingIsWhole(s: State, order: seq<string>)
    requires WellFormed(s.world) && BindingsWhole(s) && Walks(order, s.world.links.Keys)
    ensures AllWhole(Sort(Listing(s.world.links, order), (l: Link) => l.name))
  {
    ListingIsSnapshot(s.world, order);
    var links := Sort(Listing(s.world.links, order), (l: Link) => l.name);
    forall i | 0 <= i < |links| ensures Whole(links[i].status.binding) {
      assert links[i] in links;
    }
  }

  /** What processing one Link does to the copy of the pass. */
  lemma ProcessCopies(w: World, pass: Pass, outcome: Outcome)
    requires pass.idx < |pass.links|
    ensures var d, s := DecisionOf(w, pass), ProcessLink(w, pass, outcome);
            s.phase.Working? ==>
              && |s.phase.pass.links| == |pass.links|
              && forall i :: 0 <= i < |pass.links| ==>
                   s.phase.pass.links[i].status ==
                     if i == pass.idx && d.Write? then d.status else pass.links[i].status
  {
  }

  lemma ProcessKeepsWhole(w: World, pass: Pass, outcome: Outcome)
    requires pass.idx < |pass.links| && BindingsWhole(State(w, Working(pass)))
    ensures BindingsWhole(ProcessLink(w, pass, outcome))
  {
    ProcessEffect(w, pass, outcome);
    ProcessCopies(w, pass, outcome);
    DecisionBinding(w, pass);
    var link := pass.links[pass.idx];
    if DecisionOf(w, pass).Write? {
      ResolvedIsWhole(link.spec, link.status.binding, pass.nodes);
    }
  }

  lemma StepKeepsBindingsWhole(s: State, e: Event)
    requires WellFormed(s.world) && BindingsWhole(s)
    ensures BindingsWhole(Step(s, e))
  {
    match e
    case Change(edit) =>
      forall n | n in Apply(s.world, edit).links ensures Whole(Apply(s.world, edit).links[n].status.binding) {
        ApplyKeepsStatus(s.world, edit, n);
      }
    case ListLinks(order) =>
      if s.phase == Idle && Walks(order, s.world.links.Keys) { ListingIsWhole(s, order); }
    case ListNodes =>
    case ListFails =>
    case Process(outcome) =>
      if s.phase.Working? && s.phase.pass.idx < |s.phase.pass.links| {
        ProcessKeepsWhole(s.world, s.phase.pass, outcome);
      }
  }

  /** Over every run bindings stay whole: both ends or none, Node ends with a UID and host ends without. */
  lemma {:induction false} RunKeepsBindingsWhole(s: State, events: seq<Event>)
    requires Inv(s) && BindingsWhole(s)
    ensures BindingsWhole(Run(s, events))
    decreases |events|
  {
    if |events| > 0 {
      var before := events[..|events| - 1];
      RunKeepsBindingsWhole(s, before);
      RunKeepsInv(s, before);
      StepKeepsBindingsWhole(Run(s, before), events[|events| - 1]);
    }
  }

  /** The Node the end is bound to is not there, or another one has its name. */
  ghost predicate Orphaned(b: Bound, nodes: Nodes) {
    b.nodeName != "host" && b.uid != "" && (b.nodeName !in nodes || nodes[b.nodeName].uid != b.uid)
  }

  /** The controller deletes a Link only if, at the moment of the deletion, a Node it is bound
      to really is gone -- although it decides on an older listing of the Nodes. */
  lemma DeletesOnlyOrphans(w: World, events: seq<Event>, outcome: Outcome, n: string)
    requires WellFormed(w)
    requires var s := Run(State(w, Idle), events);
             var t := Step(s, Process(outcome));
             && n in s.world.links
             && (n !in t.world.links || (t.world.links[n].deleting && !s.world.links[n].deleting))
    ensures var s := Run(State(w, Idle), events);
            exists b :: b in Ends(s.world.links[n].status.binding) && Orphaned(b, s.world.nodes)
  {
    RunKeepsInv(State(w, Idle), events);
    var s := Run(State(w, Idle), events);
    RemovesOnlyOrphans(s.world, s.phase.pass, outcome, n);
  }

  lemma RemovesOnlyOrphans(w: World, pass: Pass, outcome: Outcome, n: string)
    requires PassInv(w, pass) && pass.idx < |pass.links| && n in w.links
    requires var links := ProcessLink(w, pass, outcome).world.links;
             n !in links || (links[n].deleting && !w.links[n].deleting)
    ensures exists b :: b in Ends(w.links[n].status.binding) && Orphaned(b, w.nodes)
  {
    var link := pass.links[pass.idx];
    assert Faithful(w, link);
    ProcessEffect(w, pass, outcome);
    DecisionBinding(w, pass);
    assert n == link.name && w.links[n] == link && DecisionOf(w, pass).Remove?;
    var binding := link.status.binding.value;
    var b := if Gone(binding.a, pass.nodes) then binding.a else binding.b;
    assert b in Ends(link.status.binding) && Gone(b, pass.nodes) && b.uid != "";
    assert GoneForGood(w, pass.nodes, link.status.binding);
    assert Orphaned(b, w.nodes);
  }

  // ---------------------------------------------------------------- convergence

  ghost function SortedListing(w: World, order: seq<string>): seq<Link>
    requires Walks(order, w.links.Keys)
  {
    Sort(Listing(w.links, order), (l: Link) => l.name)
  }

  /** The next `k` Links, without a disturbance. */
  ghost function Turns(s: State, k: nat): State {
    if k == 0 then s else Turn(Turns(s, k - 1), Done)
  }

  /** The first `k` Links of a pass that nothing disturbs. */
  ghost function Quiet(w: World, order: seq<string>, k: nat): State
    requires Walks(order, w.links.Keys)
  {
    Turns(QuietStart(w, order), k)
  }

  ghost function QuietEvents(order: seq<string>, k: nat): seq<Event> {
    if k == 0 then [ListLinks(order)] + [ListNodes] else QuietEvents(order, k - 1) + [Process(Done)]
  }

  lemma {:induction false} RunSnoc(s: State, events: seq<Event>, e: Event)
    ensures Run(s, events + [e]) == Step(Run(s, events), e)
  {
    assert (events + [e])[..|events|] == events;
  }

  lemma {:induction false} QuietIsRun(w: World, order: seq<string>, k: nat)
    requires Walks(order, w.links.Keys) && |order| > 0
    ensures Quiet(w, order, k) == Run(State(w, Idle), QuietEvents(order, k))
    decreases k
  {
    if k == 0 {
      QuietStartIsRun(w, order);
    } else {
      QuietIsRun(w, order, k - 1);
      QuietTurn(State(w, Idle), QuietEvents(order, k - 1), Quiet(w, order, k - 1));
    }
  }

  lemma QuietStartIsRun(w: World, order: seq<string>)
    requires Walks(order, w.links.Keys) && |order| > 0
    ensures QuietStart(w, order) == Run(State(w, Idle), [ListLinks(order)] + [ListNodes])
  {
    RunSnoc(State(w, Idle), [], ListLinks(order));
    assert [] + [ListLinks(order)] == [ListLinks(order)];
    RunSnoc(State(w, Idle), [ListLinks(order)], ListNodes);
  }

  lemma QuietTurn(start: State, events: seq<Event>, s: State)
    requires s == Run(start, events)
    ensures Turn(s, Done) == Run(start, events + [Process(Done)])
  {
    RunSnoc(start, events, Process(Done));
  }

  ghost predicate Stores(w: World, link: Link) {
    link.name in w.links && w.links[link.name] == link
  }

  /** The Link is no longer stored, or on its way out. */
  ghost predicate Leaving(w: World, name: string) {
    name in w.links ==> w.links[name].deleting
  }

  /** The listing and the stored Links agree, but for the Links this pass has deleted. */
  ghost predicate Synced(w: World, pass: Pass) {
    && w.nodes == pass.nodes
    && (forall i :: 0 <= i < |pass.links| && pass.links[i].name !in pass.removed ==> Stores(w, pass.links[i]))
    && (forall n :: n in w.links && n !in pass.removed ==> w.links[n] in pass.links)
    && Departed(w, pass)
  }

  ghost predicate Departed(w: World, pass: Pass) {
    && (forall n :: n in pass.removed ==> Leaving(w, n))
    && (forall n :: n in pass.removed ==> exists i :: 0 <= i < pass.idx && i < |pass.links| && pass.links[i].name == n)
  }

  lemma StillDeparted(w: World, pass: Pass, w': World, after: Pass)
    requires Departed(w, pass) && pass.idx <= after.idx && |pass.links| == |after.links|
    requires pass.removed == after.removed
    requires forall i :: 0 <= i < |pass.links| ==> after.links[i].name == pass.links[i].name
    requires forall n :: n in pass.removed ==> Leaving(w, n) ==> Leaving(w', n)
    ensures Departed(w', after)
  {
    forall n | n in after.removed
      ensures exists i :: 0 <= i < after.idx && i < |after.links| && after.links[i].name == n
    {
      var i :| 0 <= i < pass.idx && i < |pass.links| && pass.links[i].name == n;
      assert after.links[i].name == n;
    }
  }

  lemma CurrentNotRemoved(w: World, pass: Pass)
    requires Synced(w, pass) && pass.idx < |pass.links| && Sorted(pass.links, (l: Link) => l.name)
    ensures pass.links[pass.idx].name !in pass.removed && Stores(w, pass.links[pass.idx])
  {
    LessIrreflexive(pass.links[pass.idx].name);
  }

  lemma RemoveKeepsSynced(w: World, pass: Pass, after: Pass)
    requires WellFormed(w) && Sorted(pass.links, (l: Link) => l.name)
    requires pass.idx < |pass.links| && Synced(w, pass)
    requires var name := pass.links[pass.idx].name;
             after == pass.(idx := pass.idx + 1, removed := pass.removed + {name}, table := after.table)
    ensures Stores(w, pass.links[pass.idx])
    ensures Synced(Deleted(w, pass.links[pass.idx].name), after)
  {
    CurrentNotRemoved(w, pass);
    var k := pass.idx;
    var name := pass.links[k].name;
    var w' := Deleted(w, name);
    forall i | 0 <= i < |after.links| && after.links[i].name !in after.removed ensures Stores(w', after.links[i]) {
      assert Stores(w, pass.links[i]);
    }
    forall n | Leaving(w, n) ensures Leaving(w', n) {}
    OneMoreDeparted(w, pass, w', after);
  }

  lemma OneMoreDeparted(w: World, pass: Pass, w': World, after: Pass)
    requires Departed(w, pass) && pass.idx < |pass.links| && Leaving(w', pass.links[pass.idx].name)
    requires after.links == pass.links && after.idx == pass.idx + 1
    requires after.removed == pass.removed + {pass.links[pass.idx].name}
    requires forall n :: Leaving(w, n) ==> Leaving(w', n)
    ensures Departed(w', after)
  {
    forall n | n in after.removed
      ensures exists i :: 0 <= i < after.idx && i < |after.links| && after.links[i].name == n
    {
      if n != pass.links[pass.idx].name {
        var i :| 0 <= i < pass.idx && i < |pass.links| && pass.links[i].name == n;
        assert after.links[i].name == n;
      }
    }
  }

  lemma WriteKeepsSynced(w: World, pass: Pass, after: Pass, status: Status)
    requires WellFormed(w) && Sorted(pass.links, (l: Link) => l.name)
    requires pass.idx < |pass.links| && Synced(w, pass)
    requires var link, w' := pass.links[pass.idx], Stored(w, pass.links[pass.idx].(status := status));
             after == pass.(idx := pass.idx + 1, table := after.table,
                            links := pass.links[pass.idx := link.(status := status, version := w'.clock)])
    ensures Synced(Stored(w, pass.links[pass.idx].(status := status)), after)
  {
    CurrentNotRemoved(w, pass);
    var k := pass.idx;
    var link := pass.links[k];
    var w' := Stored(w, link.(status := status));
    forall i | 0 <= i < |after.links| && after.links[i].name !in after.removed ensures Stores(w', after.links[i]) {
      if i != k {
        assert Stores(w, pass.links[i]);
        assert pass.links[i].name != link.name by { LessIrreflexive(link.name); }
      }
    }
    forall n | n in w'.links && n !in after.removed ensures w'.links[n] in after.links {
      if n == link.name {
        assert after.links[k] == w'.links[n];
      } else {
        assert w.links[n] in pass.links;
        var i :| 0 <= i < |pass.links| && pass.links[i] == w.links[n];
        assert WellFormedLink(w, n, w.links[n]);
        assert after.links[i] == w.links[n];
      }
    }
    StillDeparted(w, pass, w', after);
  }

  lemma SkipKeepsSynced(w: World, pass: Pass, table: Table)
    requires Synced(w, pass) && pass.idx < |pass.links|
    ensures Synced(w, pass.(idx := pass.idx + 1, table := table))
  {
    StillDeparted(w, pass, w, pass.(idx := pass.idx + 1, table := table));
  }

  lemma ProcessKeepsSynced(w: World, pass: Pass)
    requires WellFormed(w) && PassInv(w, pass) && pass.idx < |pass.links| && Synced(w, pass)
    ensures var t := ProcessLink(w, pass, Done);
            t.phase.Working? ==> Synced(t.world, t.phase.pass)
  {
    CurrentNotRemoved(w, pass);
    var link := pass.links[pass.idx];
    var t := ProcessLink(w, pass, Done);
    match DecisionOf(w, pass)
    case Skip => SkipKeepsSynced(w, pass, t.phase.pass.table);
    case Keep => SkipKeepsSynced(w, pass, t.phase.pass.table);
    case Exhausted =>
    case Remove => RemoveKeepsSynced(w, pass, t.phase.pass);
    case Write(status) => WriteKeepsSynced(w, pass, t.phase.pass, status);
  }

  lemma ListingSynced(w: World, order: seq<string>)
    requires WellFormed(w) && Walks(order, w.links.Keys)
    ensures Synced(w, NewPass(w.ns, SortedListing(w, order), w.nodes))
    ensures |SortedListing(w, order)| == |order|
  {
    ListingIsSnapshot(w, order);
    var links := SortedListing(w, order);
    SameElements(links, Listing(w.links, order));
    forall i | 0 <= i < |links| ensures Stores(w, links[i]) {
      assert links[i] in links;
    }
  }

  ghost function QuietStart(w: World, order: seq<string>): State
    requires Walks(order, w.links.Keys)
  {
    State(w, Working(NewPass(w.ns, SortedListing(w, order), w.nodes)))
  }

  /** A quiet pass that is still going has processed `k` Links and knows the stored Links. */
  ghost predicate OnTrack(s: State, k: nat, n: nat) {
    && Inv(s)
    && (s.phase.Working? ==>
          s.phase.pass.idx == k && |s.phase.pass.links| == n && Synced(s.world, s.phase.pass))
  }

  lemma TurnKeepsOnTrack(s: State, k: nat, n: nat)
    requires OnTrack(s, k, n) && k < n
    ensures OnTrack(Turn(s, Done), k + 1, n)
  {
    if s.phase.Working? {
      var t := ProcessLink(s.world, s.phase.pass, Done);
      assert Inv(t) by { ProcessKeepsInv(s.world, s.phase.pass, Done); }
      assert t.phase.Working? ==> t.phase.pass.idx == k + 1 && |t.phase.pass.links| == n by {
        ProcessAdvances(s.world, s.phase.pass, Done);
      }
      assert t.phase.Working? ==> Synced(t.world, t.phase.pass) by {
        ProcessKeepsSynced(s.world, s.phase.pass);
      }
      assert OnTrack(t, k + 1, n);
    }
  }

  /** One turn carries the property from `j` Links to the next. */
  ghost predicate Carries(p: (State, nat) -> bool, s: State, j: nat) {
    p(s, j) ==> p(Turn(s, Done), j + 1)
  }

  /** What every turn carries on holds after any number of them. */
  lemma {:induction false} TurnsInduction(s: State, k: nat, p: (State, nat) -> bool)
    requires p(s, 0) && forall t: State, j: nat :: j < k ==> Carries(p, t, j)
    ensures p(Turns(s, k), k)
    decreases k
  {
    if k > 0 {
      TurnsInduction(s, k - 1, p);
      assert Carries(p, Turns(s, k - 1), k - 1);
    }
  }

  lemma TurnsStayOnTrack(s: State, k: nat, n: nat)
    requires OnTrack(s, 0, n) && k <= n
    ensures OnTrack(Turns(s, k), k, n)
  {
    var p := (t: State, j: nat) => OnTrack(t, j, n);
    forall t: State, j: nat | j < k ensures Carries(p, t, j) {
      if p(t, j) {
        TurnKeepsOnTrack(t, j, n);
      }
    }
    TurnsInduction(s, k, p);
  }

  lemma QuietStarts(w: World, order: seq<string>)
    requires WellFormed(w) && Walks(order, w.links.Keys)
    ensures OnTrack(QuietStart(w, order), 0, |order|)
  {
    ListingSynced(w, order);
    ListingIsSnapshot(w, order);
    StepKeepsInv(State(w, Listed(SortedListing(w, order))), ListNodes);
  }

  lemma ProcessAdvances(w: World, pass: Pass, outcome: Outcome)
    requires pass.idx < |pass.links|
    ensures var t := ProcessLink(w, pass, outcome);
            t.phase.Working? ==>
              && t.phase.pass.idx == pass.idx + 1 && |t.phase.pass.links| == |pass.links|
              && pass.removed <= t.phase.pass.removed
  {
  }

  /** Every Link that is not skipped is settled. */
  ghost predicate AllSettled(links: seq<Link>, nodes: Nodes, conflicts: map<string, string>) {
    forall j :: 0 <= j < |links| ==> Skipped(links[j]) || SettledAt(links, j, nodes, conflicts)
  }

  /** A settled Link is kept as it is by a pass that starts from the settled listing. */
  lemma SettledIsKept(ns: string, links: seq<Link>, j: nat, nodes: Nodes, conflicts: map<string, string>)
    requires Sorted(links, (l: Link) => l.name) && j < |links|
    requires Skipped(links[j]) || SettledAt(links, j, nodes, conflicts)
    ensures var (d, moved) := Decide(ns, links[j], nodes, conflicts, NewTable(ns, links));
            (d.Skip? || d.Keep?) && moved == NewTable(ns, links)
  {
    var link, table := links[j], NewTable(ns, links);
    if !Skipped(link) && Rejection(link.name, link.spec, nodes, conflicts).None? && link.status.wireID != 0 {
      var id, key := link.status.wireID, Key(ns, link.name);
      NewTableTracks(ns, links);
      if Contested(table.owners, key, id) {
        var o :| o in Holders(table.owners, id) && Less(o, key);
        assert Holds(table.owners, o, id);
        var i := HoldingsOnly(ns, links, o);
        HoldingsAt(ns, links, i);
        LessAfterPrefix(ns + "/", links[i].name, link.name);
        if i >= j {
          LessIrreflexive(link.name);
          LessAsymmetric(links[i].name, link.name);
        }
      }
      assert Retains(table.owners, key, id);
    }
  }

  lemma SettledPassDoesNothing(s: State, w: World, pass: Pass, k: nat)
    requires Sorted(pass.links, (l: Link) => l.name) && k <= |pass.links|
    requires pass.table == NewTable(w.ns, pass.links)
    requires AllSettled(pass.links, pass.nodes, pass.conflicts) && StandsAt(s, w, pass, 0)
    ensures StandsAt(Turns(s, k), w, pass, k)
  {
    var p := (t: State, j: nat) => StandsAt(t, w, pass, j);
    forall t: State, j: nat | j < k ensures Carries(p, t, j) {
      if p(t, j) {
        SettledTurn(t, w, pass, j);
      }
    }
    TurnsInduction(s, k, p);
  }

  /** The pass has come to Link `j` and has changed nothing. */
  ghost predicate StandsAt(t: State, w: World, pass: Pass, j: nat) {
    t == State(w, Working(pass.(idx := j)))
  }

  lemma SettledTurn(t: State, w: World, pass: Pass, j: nat)
    requires Sorted(pass.links, (l: Link) => l.name) && j < |pass.links|
    requires pass.table == NewTable(w.ns, pass.links)
    requires AllSettled(pass.links, pass.nodes, pass.conflicts) && StandsAt(t, w, pass, j)
    ensures StandsAt(Turn(t, Done), w, pass, j + 1)
  {
    SettledStep(w, pass.(idx := j));
  }

  lemma SettledStep(w: World, pass: Pass)
    requires Sorted(pass.links, (l: Link) => l.name) && pass.idx < |pass.links|
    requires pass.table == NewTable(w.ns, pass.links)
    requires AllSettled(pass.links, pass.nodes, pass.conflicts)
    ensures ProcessLink(w, pass, Done) == State(w, Working(pass.(idx := pass.idx + 1)))
  {
    SettledIsKept(w.ns, pass.links, pass.idx, pass.nodes, pass.conflicts);
  }

  /** Convergence: if an undisturbed pass completed without deleting a Link, the next undisturbed
      pass completes without a single write -- no wire id, binding or condition changes. */
  lemma SecondPassIsIdle(w: World, order: seq<string>, order': seq<string>)
    requires WellFormed(w) && Walks(order, w.links.Keys)
    requires var s := Quiet(w, order, |order|);
             Completed(s) && s.phase.pass.removed == {} && Walks(order', s.world.links.Keys)
    ensures var s := Quiet(w, order, |order|);
            var t := Quiet(s.world, order', |order'|);
            Completed(t) && t.world == s.world && t.phase.pass.links == s.phase.pass.links
  {
    QuietStarts(w, order);
    TurnsStayOnTrack(QuietStart(w, order), |order|, |order|);
    CompletedThenIdle(Quiet(w, order, |order|), order');
  }

  lemma CompletedThenIdle(s: State, order: seq<string>)
    requires Inv(s) && Completed(s) && s.phase.pass.removed == {} && Synced(s.world, s.phase.pass)
    requires Walks(order, s.world.links.Keys)
    ensures var t := Quiet(s.world, order, |order|);
            Completed(t) && t.world == s.world && t.phase.pass.links == s.phase.pass.links
  {
    var pass := s.phase.pass;
    SyncedListing(s.world, pass, order);
    forall j | 0 <= j < |pass.links|
      ensures Skipped(pass.links[j]) || SettledAt(pass.links, j, s.world.nodes, pass.conflicts)
    {
      assert DealtWith(pass, j);
    }
    ListingSynced(s.world, order);
    var start := QuietStart(s.world, order);
    SettledPassDoesNothing(start, s.world, start.phase.pass, |order|);
  }

  lemma SyncedListing(w: World, pass: Pass, order: seq<string>)
    requires WellFormed(w) && Walks(order, w.links.Keys)
    requires Synced(w, pass) && pass.removed == {} && Sorted(pass.links, (l: Link) => l.name)
    ensures SortedListing(w, order) == pass.links
  {
    var links := SortedListing(w, order);
    ListingIsSnapshot(w, order);
    forall l ensures l in links <==> l in pass.links {
      if l in pass.links {
        var i :| 0 <= i < |pass.links| && pass.links[i] == l;
        assert Stores(w, pass.links[i]);
      }
    }
    SortedUnique(links, pass.links, (l: Link) => l.name);
  }

  // ---------------------------------------------------------------- two passes are enough

  lemma NotExhausted(w: World, pass: Pass)
    requires PassInv(w, pass) && pass.idx < |pass.links| <= MaxWireID
    ensures !DecisionOf(w, pass).Exhausted?
  {
    var link := pass.links[pass.idx];
    HoldingsCount(w.ns, pass.links);
    HoldingsAt(w.ns, pass.links, pass.idx);
    NeverExhausted(pass.table, HoldingsOf(w.ns, pass.links), Key(w.ns, link.name), NeedsWire(link.spec, pass.nodes));
  }

  /** With at most 16,000,000 Links an undisturbed pass does not fail. */
  lemma ProcessGoesOn(w: World, pass: Pass)
    requires PassInv(w, pass) && pass.idx < |pass.links| <= MaxWireID && Synced(w, pass)
    ensures ProcessLink(w, pass, Done).phase.Working?
  {
    CurrentNotRemoved(w, pass);
    NotExhausted(w, pass);
    assert Unchanged(w, pass.links[pass.idx]);
  }

  lemma TurnGoesOn(s: State, k: nat, n: nat)
    requires OnTrack(s, k, n) && s.phase.Working? && k < n <= MaxWireID
    ensures Turn(s, Done).phase.Working?
  {
    ProcessGoesOn(s.world, s.phase.pass);
  }

  /** The quiet pass has processed `k` Links and is still going. */
  ghost predicate Running(s: State, k: nat, n: nat) {
    s.phase.Working? && OnTrack(s, k, n)
  }

  lemma TurnKeepsRunning(s: State, k: nat, n: nat)
    requires Running(s, k, n) && k < n <= MaxWireID
    ensures Running(Turn(s, Done), k + 1, n)
  {
    TurnKeepsOnTrack(s, k, n);
    TurnGoesOn(s, k, n);
  }

  lemma TurnsKeepRunning(s: State, k: nat, n: nat)
    requires Running(s, 0, n) && k <= n <= MaxWireID
    ensures Running(Turns(s, k), k, n)
  {
    var p := (t: State, j: nat) => Running(t, j, n);
    forall t: State, j: nat | j < k ensures Carries(p, t, j) {
      if p(t, j) {
        TurnKeepsRunning(t, j, n);
      }
    }
    TurnsInduction(s, k, p);
  }

  /** No Link of the listing is bound to a Node that is gone. */
  ghost predicate NoneStale(links: seq<Link>, nodes: Nodes) {
    forall i :: 0 <= i < |links| ==>
      Skipped(links[i]) || ResolveLinkEndpoints(links[i].spec, links[i].status.binding, nodes).Resolved?
  }

  lemma ProcessKeepsNoneStale(w: World, pass: Pass)
    requires pass.idx < |pass.links| && NoneStale(pass.links, pass.nodes)
    ensures var t := ProcessLink(w, pass, Done);
            t.phase.Working? ==>
              NoneStale(t.phase.pass.links, t.phase.pass.nodes) && t.phase.pass.removed == pass.removed
  {
    var link := pass.links[pass.idx];
    DecisionBinding(w, pass);
    if !Skipped(link) {
      ResolutionIsStable(link.spec, link.status.binding, pass.nodes);
    }
  }

  ghost predicate Spotless(s: State) {
    s.phase.Working? ==> NoneStale(s.phase.pass.links, s.phase.pass.nodes) && s.phase.pass.removed == {}
  }

  lemma TurnKeepsSpotless(s: State)
    requires Spotless(s)
    ensures Spotless(Turn(s, Done))
  {
    if s.phase.Working? && s.phase.pass.idx < |s.phase.pass.links| {
      ProcessKeepsNoneStale(s.world, s.phase.pass);
    }
  }

  lemma TurnsRemoveNone(s: State, k: nat)
    requires Spotless(s)
    ensures Spotless(Turns(s, k))
  {
    var p := (t: State, j: nat) => Spotless(t);
    forall t: State, j: nat | j < k ensures Carries(p, t, j) {
      if p(t, j) {
        TurnKeepsSpotless(t);
      }
    }
    TurnsInduction(s, k, p);
  }

  /** After a completed quiet pass no stored Link is bound to a Node that is gone. */
  lemma CompletedLeavesNoneStale(s: State, order: seq<string>)
    requires Inv(s) && Completed(s) && Synced(s.world, s.phase.pass)
    requires Walks(order, s.world.links.Keys)
    ensures NoneStale(SortedListing(s.world, order), s.world.nodes)
  {
    var w, pass := s.world, s.phase.pass;
    var links := SortedListing(w, order);
    ListingIsSnapshot(w, order);
    forall i | 0 <= i < |links|
      ensures Skipped(links[i]) || ResolveLinkEndpoints(links[i].spec, links[i].status.binding, w.nodes).Resolved?
    {
      var n := links[i].name;
      assert links[i] in links;
      if n in pass.removed {
        assert Leaving(w, n);
      } else {
        assert w.links[n] in pass.links;
        var j :| 0 <= j < |pass.links| && pass.links[j] == w.links[n];
        assert DealtWith(pass, j);
      }
    }
  }

  /** From any state, deletions included: two undisturbed passes complete, and the third finds
      nothing to do. */
  lemma ThirdPassIsIdle(w: World, first: seq<string>, second: seq<string>, third: seq<string>)
    requires WellFormed(w) && Walks(first, w.links.Keys) && 0 < |first| <= MaxWireID
    requires var s := Quiet(w, first, |first|);
             Walks(second, s.world.links.Keys) && 0 < |second| <= MaxWireID
    requires var s := Quiet(w, first, |first|);
             Walks(third, Quiet(s.world, second, |second|).world.links.Keys)
    ensures var s := Quiet(w, first, |first|);
            var t := Quiet(s.world, second, |second|);
            var u := Quiet(t.world, third, |third|);
            Completed(s) && Completed(t) && Completed(u) && u.world == t.world
  {
    PassCompletes(w, first);
    var s := Quiet(w, first, |first|);
    CompletedLeavesNoneStale(s, second);
    PassCompletes(s.world, second);
    TurnsRemoveNone(QuietStart(s.world, second), |second|);
    CompletedThenIdle(Quiet(s.world, second, |second|), third);
  }

  /** With at most 16,000,000 Links an undisturbed pass completes. */
  lemma PassCompletes(w: World, order: seq<string>)
    requires WellFormed(w) && Walks(order, w.links.Keys) && 0 < |order| <= MaxWireID
    ensures OnTrack(QuietStart(w, order), 0, |order|)
    ensures var s := Quiet(w, order, |order|);
            Inv(s) && Completed(s) && Synced(s.world, s.phase.pass)
  {
    QuietStarts(w, order);
    TurnsKeepRunning(QuietStart(w, order), |order|, |order|);
  }
}
