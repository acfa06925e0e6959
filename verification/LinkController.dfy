/** The Link controller as it runs: methods that update the stored objects and the reservation
    table in place, each proved to follow the state machine of `LinkPass` step by step.
  */
module LinkController {
  import opened Wrappers
  import opened Ordering
  import opened Links
  import opened Wires
  import opened LinkWorld
  import opened LinkPass
  import opened LinkSafety
  import opened LinkTheorems

  /** What happens around the processing of one Link: edits by others, then the API server's
      answer to the write. */
  datatype Around = Around(edits: seq<Edit>, outcome: Outcome)

  ghost function Changes(edits: seq<Edit>): seq<Event> {
    if |edits| == 0 then [] else Changes(edits[..|edits| - 1]) + [Change(edits[|edits| - 1])]
  }

  /** The events of a pass up to and including its first `k` Links. */
  ghost function Schedule(order: seq<string>, between: seq<Edit>, turn: nat -> Around, k: nat): seq<Event> {
    if k == 0 then [] + [ListLinks(order)] + Changes(between) + [ListNodes]
    else Schedule(order, between, turn, k - 1) + Changes(turn(k - 1).edits) + [Process(turn(k - 1).outcome)]
  }

  class Controller {
    var world: World

    /** A status write under the precondition that the stored object is the listed one. */
    method UpdateLinkStatus(link: Link, status: Status, outcome: Outcome) returns (ok: bool, updated: Link)
      modifies this
      ensures if link.status == status then
                ok && updated == link && world == old(world)
              else if !Unchanged(old(world), link) || outcome == Refused then
                !ok && world == old(world)
              else
                && world == Stored(old(world), link.(status := status))
                && ok == (outcome == Done)
                && updated == link.(status := status, version := world.clock)
    {
      updated := link;
      if link.status == status {
        return true, link;
      }
      if !Unchanged(world, link) || outcome == Refused {
        return false, link;
      }
      world := Stored(world, link.(status := status));
      updated := link.(status := status, version := world.clock);
      ok := outcome == Done;
    }

    /** `deleted` reports that the Link is gone, by this call or already before it. */
    method ReconcileLink(link: Link, nodes: Nodes, conflicts: map<string, string>,
                         reservations: WireReservations, outcome: Outcome)
        returns (ok: bool, updated: Link, deleted: bool)
      modifies this, reservations
      ensures world.ns == old(world.ns)
      ensures var (d, table) := Decide(old(world.ns), link, nodes, conflicts, old(reservations.Value()));
              && reservations.Value() == table
              && match d
                 case Skip => ok && !deleted && updated == link && world == old(world)
                 case Keep => ok && !deleted && updated == link && world == old(world)
                 case Exhausted => !ok && world == old(world)
                 case Remove =>
                   if link.name !in old(world.links) then
                     ok == (outcome == Done) && deleted && updated == link && world == old(world)
                   else if !Unchanged(old(world), link) || outcome == Refused then !ok && world == old(world)
                   else
                     && world == Deleted(old(world), link.name)
                     && ok == (outcome == Done) && updated == link && deleted
                 case Write(status) =>
                   if !Unchanged(old(world), link) || outcome == Refused then !ok && world == old(world)
                   else
                     && world == Stored(old(world), link.(status := status))
                     && ok == (outcome == Done) && !deleted
                     && updated == link.(status := status, version := world.clock)
    {
      updated, deleted := link, false;
      if link.deleting || link.ignored {
        return true, link, false;
      }
      var resolution := ResolveLinkEndpoints(link.spec, link.status.binding, nodes);
      if resolution.Stale? {
        if link.name !in world.links {
          return outcome == Done, link, true;
        }
        if !Unchanged(world, link) || outcome == Refused {
          return false, link, false;
        }
        world := Deleted(world, link.name);
        return outcome == Done, link, true;
      }
      var rejection := Rejection(link.name, link.spec, nodes, conflicts);
      if rejection.Some? {
        var status := Status(0, resolution.binding, Some(Condition(link.generation, rejection.value)));
        ok, updated := UpdateLinkStatus(link, status, outcome);
        return ok, updated, false;
      }
      var wireID := reservations.Desired(Key(world.ns, link.name), link.status.wireID, NeedsWire(link.spec, nodes));
      if wireID.None? {
        return false, link, false;
      }
      var status := Status(wireID.value, resolution.binding, Some(Condition(link.generation, Accepted(wireID.value))));
      ok, updated := UpdateLinkStatus(link, status, outcome);
    }

    method ApplyAll(edits: seq<Edit>, ghost start: State, ghost events: seq<Event>, ghost phase: Phase)
      requires State(world, phase) == Run(start, events)
      modifies this
      ensures State(world, phase) == Run(start, events + Changes(edits))
    {
      assert events + Changes(edits[..0]) == events;
      for i := 0 to |edits|
        invariant State(world, phase) == Run(start, events + Changes(edits[..i]))
      {
        assert edits[..i + 1][..i] == edits[..i];
        RunSnoc(start, events + Changes(edits[..i]), Change(edits[i]));
        assert events + Changes(edits[..i]) + [Change(edits[i])] == events + Changes(edits[..i + 1]);
        world := Apply(world, edits[i]);
      }
      assert edits[..|edits|] == edits;
    }

    /** One namespace pass. `order` is the order of the API listing; `between` is what others do
        between the two listings and `turn(i)` what happens around Link `i`. */
    method Reconcile(order: seq<string>, between: seq<Edit>, turn: nat -> Around)
        returns (completed: bool, processed: nat)
      requires WellFormed(world) && Walks(order, world.links.Keys)
      modifies this
      ensures |order| == 0 ==> completed && processed == 0 && world == old(world)
      ensures |order| > 0 ==>
                var s := Run(State(old(world), Idle), Schedule(order, between, turn, processed));
                && s.world == world && processed <= |order|
                && if completed then Completed(s) && processed == |order| else s.phase == Idle
      ensures WellFormed(world) && (UniqueWires(old(world)) ==> UniqueWires(world))
    {
      ghost var start := State(world, Idle);
      if |order| == 0 {
        return true, 0;
      }
      var links := ListSorted(order);
      RunSnoc(start, [], ListLinks(order));
      ghost var events := [] + [ListLinks(order)];
      ApplyAll(between, start, events, Listed(links));
      events := events + Changes(between);
      assert Snapshot(world, links) by { RunKeepsInv(start, events); }
      var nodes := world.nodes;
      RunSnoc(start, events, ListNodes);
      var conflicts, reservations := Prepare(links, nodes);
      assert |links| == |order| by { SameElements(links, Listing(old(world).links, order)); }
      completed, processed := ReconcileLinks(start, order, between, NewPass(world.ns, links, nodes),
        links, nodes, conflicts, reservations, turn);
      RunKeepsInv(start, Schedule(order, between, turn, processed));
      if UniqueWires(old(world)) {
        RunKeepsWiresUnique(old(world), Schedule(order, between, turn, processed));
      }
    }

    method ListSorted(order: seq<string>) returns (links: seq<Link>)
      requires Walks(order, world.links.Keys)
      ensures links == Sort(Listing(world.links, order), (l: Link) => l.name)
    {
      links := Sort(Listing(world.links, order), (l: Link) => l.name);
    }

    /** Endpoint ownership and the reservation table of a fresh pass. */
    method Prepare(links: seq<Link>, nodes: Nodes)
        returns (conflicts: map<string, string>, reservations: WireReservations)
      requires Snapshot(world, links)
      ensures fresh(reservations)
      ensures conflicts == ConflictsAmong(links, nodes)
      ensures reservations.Value() == NewTable(world.ns, links)
    {
      ClaimNamesDistinct(links, nodes);
      SnapshotNamed(world, links, nodes);
      conflicts := EndpointConflicts(ClaimsOf(links, nodes));
      reservations := NewReservations(world.ns, links);
    }

    static method NewReservations(ns: string, links: seq<Link>) returns (reservations: WireReservations)
      ensures fresh(reservations) && reservations.Value() == NewTable(ns, links)
    {
      reservations := new WireReservations();
      for i := 0 to |links|
        modifies reservations
        invariant reservations.Value() == NewTable(ns, links[..i])
      {
        assert links[..i + 1][..i] == links[..i];
        reservations.Record(Key(ns, links[i].name), links[i].status.wireID, 0);
      }
      assert links[..|links|] == links;
    }

    /** The loop of the pass over the sorted Links. */
    method ReconcileLinks(ghost start: State, ghost order: seq<string>, ghost between: seq<Edit>, ghost first: Pass,
                          listed: seq<Link>, nodes: Nodes, conflicts: map<string, string>,
                          reservations: WireReservations, turn: nat -> Around)
        returns (completed: bool, processed: nat)
      requires first == Pass(listed, nodes, conflicts, reservations.Value(), 0, {})
      requires State(world, Working(first)) == Run(start, Schedule(order, between, turn, 0))
      modifies this, reservations
      ensures var s := Run(start, Schedule(order, between, turn, processed));
              && s.world == world && processed <= |listed|
              && if completed then Completed(s) && processed == |listed| else s.phase == Idle
    {
      var links := listed;
      ghost var pass := first;
      for idx := 0 to |links|
        invariant |links| == |listed|
        invariant pass == Pass(links, nodes, conflicts, reservations.Value(), idx, pass.removed)
        invariant State(world, Working(pass)) == Run(start, Schedule(order, between, turn, idx))
      {
        var ok;
        ok, links, pass := ReconcileTurn(start, order, between, turn, pass, links, idx, nodes, conflicts, reservations);
        if !ok {
          return false, idx + 1;
        }
      }
      return true, |links|;
    }

    /** The turn of Link `idx` within the schedule of the pass. */
    method ReconcileTurn(ghost start: State, ghost order: seq<string>, ghost between: seq<Edit>, turn: nat -> Around,
                         ghost pass: Pass, links: seq<Link>, idx: nat, nodes: Nodes, conflicts: map<string, string>,
                         reservations: WireReservations)
        returns (ok: bool, links': seq<Link>, ghost pass': Pass)
      requires idx < |links| && pass == Pass(links, nodes, conflicts, reservations.Value(), idx, pass.removed)
      requires State(world, Working(pass)) == Run(start, Schedule(order, between, turn, idx))
      modifies this, reservations
      ensures |links'| == |links|
      ensures Run(start, Schedule(order, between, turn, idx + 1)) == State(world, if ok then Working(pass') else Idle)
      ensures ok ==> pass' == Pass(links', nodes, conflicts, reservations.Value(), idx + 1, pass'.removed)
    {
      ghost var events := Schedule(order, between, turn, idx);
      ok, links', pass' := ReconcileNext(start, events, pass, links, idx, nodes, conflicts, reservations, turn(idx));
    }

    /** The body of that loop: others edit, the Link is reconciled, the table follows. */
    method ReconcileNext(ghost start: State, ghost events: seq<Event>, ghost pass: Pass,
                         links: seq<Link>, idx: nat, nodes: Nodes, conflicts: map<string, string>,
                         reservations: WireReservations, around: Around)
        returns (ok: bool, links': seq<Link>, ghost pass': Pass)
      requires idx < |links| && pass == Pass(links, nodes, conflicts, reservations.Value(), idx, pass.removed)
      requires State(world, Working(pass)) == Run(start, events)
      modifies this, reservations
      ensures |links'| == |links|
      ensures Run(start, events + Changes(around.edits) + [Process(around.outcome)]) ==
              State(world, if ok then Working(pass') else Idle)
      ensures ok ==> pass' == Pass(links', nodes, conflicts, reservations.Value(), idx + 1, pass'.removed)
    {
      ApplyAll(around.edits, start, events, Working(pass));
      RunSnoc(start, events + Changes(around.edits), Process(around.outcome));
      ghost var s := Step(State(world, Working(pass)), Process(around.outcome));
      var link := links[idx];
      var key := Key(world.ns, link.name);
      var updated, deleted;
      ok, updated, deleted := ReconcileLink(link, nodes, conflicts, reservations, around.outcome);
      if !ok {
        return false, links, pass;
      }
      assert links[idx := link] == links;
      links', pass' := links[idx := updated], s.phase.pass;
      reservations.Record(key, updated.status.wireID, link.status.wireID);
    }
  }

  lemma SnapshotNamed(w: World, links: seq<Link>, nodes: Nodes)
    requires Snapshot(w, links)
    ensures forall c :: c in ClaimsOf(links, nodes) ==> c.name != ""
  {
    forall c | c in ClaimsOf(links, nodes) ensures c.name != "" {
      var l :| l in links && c == Claim(l.name, l.spec);
      var i :| 0 <= i < |links| && links[i] == l;
      assert Faithful(w, links[i]);
    }
  }
}
