/** What every run of the Link controller keeps, and what a completed pass establishes. */
module LinkSafety {
  import opened Wrappers
  import opened Ordering
  import opened Links
  import opened Wires
  import opened LinkWorld
  import opened LinkPass

  // ---------------------------------------------------------------- what a pass knows

  ghost predicate Booked(ns: string, links: seq<Link>, table: Table) {
    CursorSound(table) && Tracks(table, HoldingsOf(ns, links))
  }

  ghost predicate SettledAs(link: Link, wireID: int, reason: Reason) {
    link.status.wireID == wireID && link.status.condition == Some(Condition(link.generation, reason))
  }

  /** Link `j` needs nothing more: its binding is current, its condition states the verdict on
      it, and its wire id is held by no Link before it. */
  ghost predicate SettledAt(links: seq<Link>, j: nat, nodes: Nodes, conflicts: map<string, string>)
    requires j < |links|
  {
    var link := links[j];
    var wireID := link.status.wireID;
    && ResolveLinkEndpoints(link.spec, link.status.binding, nodes) == Resolved(link.status.binding)
    && match Rejection(link.name, link.spec, nodes, conflicts)
       case Some(reason) => SettledAs(link, 0, reason)
       case None =>
         && SettledAs(link, wireID, Accepted(wireID))
         && 0 <= wireID <= MaxWireID && (NeedsWire(link.spec, nodes) <==> wireID != 0)
         && (wireID != 0 ==> forall i :: 0 <= i < j ==> links[i].status.wireID != wireID)
  }

  /** The pass has dealt with the Link at `j`. */
  ghost predicate DealtWith(pass: Pass, j: nat)
    requires j < |pass.links|
  {
    || Skipped(pass.links[j])
    || pass.links[j].name in pass.removed
    || SettledAt(pass.links, j, pass.nodes, pass.conflicts)
  }

  /** A bound Node missing from the pass's Node listing is missing for good. */
  ghost predicate GoneForGood(w: World, nodes: Nodes, binding: Option<Binding>) {
    forall b :: b in Ends(binding) && b.uid != "" && Gone(b, nodes) ==> Gone(b, w.nodes)
  }

  ghost predicate KnownNodes(nodes: Nodes, used: set<string>) {
    forall n :: n in nodes ==> nodes[n].uid in used
  }

  ghost predicate PassInv(w: World, pass: Pass) {
    && Snapshot(w, pass.links)
    && pass.idx <= |pass.links|
    && Booked(w.ns, pass.links, pass.table)
    && KnownNodes(pass.nodes, w.used)
    && pass.conflicts == ConflictsAmong(pass.links, pass.nodes)
    && (forall j :: 0 <= j < pass.idx ==> DealtWith(pass, j))
    && (forall i :: 0 <= i < |pass.links| ==> GoneForGood(w, pass.nodes, pass.links[i].status.binding))
  }

  ghost predicate Inv(s: State) {
    && WellFormed(s.world)
    && (s.phase.Listed? ==> Snapshot(s.world, s.phase.links))
    && (s.phase.Working? ==> PassInv(s.world, s.phase.pass))
  }

  // ---------------------------------------------------------------- edits

  lemma ApplyKeepsGoneForGood(w: World, nodes: Nodes, binding: Option<Binding>, e: Edit)
    requires KnownEnds(binding, w.used) && GoneForGood(w, nodes, binding)
    ensures GoneForGood(Apply(w, e), nodes, binding)
  {
  }

  lemma ApplyKeepsPassInv(w: World, pass: Pass, e: Edit)
    requires WellFormed(w) && PassInv(w, pass)
    ensures PassInv(Apply(w, e), pass)
  {
    ApplyKeepsSnapshot(w, pass.links, e);
    forall i | 0 <= i < |pass.links| ensures GoneForGood(Apply(w, e), pass.nodes, pass.links[i].status.binding) {
      assert Faithful(w, pass.links[i]);
      ApplyKeepsGoneForGood(w, pass.nodes, pass.links[i].status.binding, e);
    }
  }

  // ---------------------------------------------------------------- one Link

  /** A wire id that may be given to Link `k`. */
  ghost predicate Grantable(links: seq<Link>, k: nat, id: int)
    requires k < |links|
  {
    id == 0 || (
      && 1 <= id <= MaxWireID
      && (forall i :: 0 <= i < k ==> links[i].status.wireID != id)
      && (id != links[k].status.wireID ==>
            forall i :: 0 <= i < |links| && i != k ==> links[i].status.wireID != id))
  }

  lemma ChosenIsGrantable(ns: string, links: seq<Link>, table: Table, k: nat, needsWire: bool)
    requires Sorted(links, (l: Link) => l.name) && k < |links|
    requires Booked(ns, links, table)
    ensures var (id, moved) := Chosen(table, Key(ns, links[k].name), links[k].status.wireID, needsWire);
            && Booked(ns, links, moved)
            && (id.Some? ==> Grantable(links, k, id.value) && (needsWire <==> id.value != 0))
  {
    var key, held := Key(ns, links[k].name), HoldingsOf(ns, links);
    var (id, moved) := Chosen(table, key, links[k].status.wireID, needsWire);
    HoldingsAt(ns, links, k);
    ChosenKeepsCursorSound(table, key, links[k].status.wireID, needsWire);
    ChosenIsUncontested(table, held, key, needsWire);
    assert Tracks(moved, held);
    if id.Some? && id.value != 0 {
      forall i | 0 <= i < k ensures links[i].status.wireID != id.value {
        HoldingsAt(ns, links, i);
        LessAfterPrefix(ns + "/", links[i].name, links[k].name);
        assert Less(Key(ns, links[i].name), key);
      }
      if id.value != links[k].status.wireID {
        forall i | 0 <= i < |links| && i != k ensures links[i].status.wireID != id.value {
          HoldingsAt(ns, links, i);
          if i < k { KeysDiffer(ns, links, i, k); } else { KeysDiffer(ns, links, k, i); }
          assert !HeldByOther(held, key, id.value);
        }
      }
    }
  }

  /** The status a decision leaves a Link with. */
  function StatusAfter(link: Link, decision: Decision): Status {
    if decision.Write? then decision.status else link.status
  }

  /** A decision to keep or to write settles the Link. */
  lemma DecisionSettles(ns: string, links: seq<Link>, k: nat, nodes: Nodes, conflicts: map<string, string>,
                        table: Table, used: set<string>)
    requires Sorted(links, (l: Link) => l.name) && k < |links|
    requires Booked(ns, links, table) && KnownNodes(nodes, used) && KnownEnds(links[k].status.binding, used)
    ensures var (d, moved) := Decide(ns, links[k], nodes, conflicts, table);
            && Booked(ns, links, moved)
            && (d.Keep? || d.Write? ==>
                  var status := StatusAfter(links[k], d);
                  && Grantable(links, k, status.wireID)
                  && KnownEnds(status.binding, used)
                  && SettledAt(links[k := links[k].(status := status)], k, nodes, conflicts))
  {
    var link := links[k];
    var (d, moved) := Decide(ns, link, nodes, conflicts, table);
    if d.Keep? || d.Write? {
      var status := StatusAfter(link, d);
      ResolutionIsStable(link.spec, link.status.binding, nodes);
      var links' := links[k := link.(status := status)];
      forall i | 0 <= i < k ensures links'[i] == links[i] {}
    }
    if !Skipped(link) && ResolveLinkEndpoints(link.spec, link.status.binding, nodes).Resolved?
       && Rejection(link.name, link.spec, nodes, conflicts).None? {
      ChosenIsGrantable(ns, links, table, k, NeedsWire(link.spec, nodes));
    }
  }

  /** Endpoint ownership does not depend on statuses. */
  lemma {:induction false} ClaimsIgnoreStatus(links: seq<Link>, k: nat, link: Link, nodes: Nodes)
    requires k < |links| && link.name == links[k].name && link.spec == links[k].spec
    ensures ClaimsOf(links[k := link], nodes) == ClaimsOf(links, nodes)
    decreases |links|
  {
    var n := |links| - 1;
    if k == n {
      assert links[k := link][..n] == links[..n];
    } else {
      assert links[k := link][..n] == links[..n][k := link];
      ClaimsIgnoreStatus(links[..n], k, link, nodes);
    }
  }

  lemma DealtWithLater(before: Pass, after: Pass, j: nat)
    requires j < |before.links| == |after.links|
    requires before.links[..j + 1] == after.links[..j + 1]
    requires before.nodes == after.nodes && before.conflicts == after.conflicts && before.removed <= after.removed
    requires DealtWith(before, j)
    ensures DealtWith(after, j)
  {
    forall i | 0 <= i <= j ensures before.links[i] == after.links[i] {
      assert before.links[..j + 1][i] == after.links[..j + 1][i];
    }
  }

  /** Passing over a Link without a write. */
  lemma AdvanceKeepsInv(w: World, pass: Pass, table: Table, removed: set<string>)
    requires WellFormed(w) && PassInv(w, pass) && pass.idx < |pass.links|
    requires Booked(w.ns, pass.links, table) && pass.removed <= removed
    requires DealtWith(pass.(removed := removed), pass.idx)
    ensures PassInv(w, pass.(table := table, idx := pass.idx + 1, removed := removed))
  {
    var after := pass.(table := table, idx := pass.idx + 1, removed := removed);
    forall j | 0 <= j < after.idx ensures DealtWith(after, j) {
      DealtWithLater(if j < pass.idx then pass else pass.(removed := removed), after, j);
    }
  }

  /** A successful deletion. */
  lemma RemoveKeepsInv(w: World, pass: Pass, table: Table, removed: set<string>)
    requires WellFormed(w) && PassInv(w, pass) && pass.idx < |pass.links| && pass.links[pass.idx].name in w.links
    requires Booked(w.ns, pass.links, table) && pass.removed <= removed
    requires DealtWith(pass.(removed := removed), pass.idx)
    ensures WellFormed(Deleted(w, pass.links[pass.idx].name))
    ensures PassInv(Deleted(w, pass.links[pass.idx].name),
                    pass.(table := table, idx := pass.idx + 1, removed := removed))
  {
    var name := pass.links[pass.idx].name;
    var w' := Deleted(w, name);
    DeletedKeepsSnapshot(w, pass.links, name);
    assert w' == Apply(w, DeleteLink(name));
    ApplyKeepsPassInv(w, pass, DeleteLink(name));
    AdvanceKeepsInv(w', pass, table, removed);
  }

  /** A successful status write. */
  lemma WriteKeepsInv(w: World, pass: Pass, table: Table, status: Status)
    requires WellFormed(w) && PassInv(w, pass) && pass.idx < |pass.links|
    requires Unchanged(w, pass.links[pass.idx])
    requires Booked(w.ns, pass.links, table) && KnownEnds(status.binding, w.used)
    requires SettledAt(pass.links[pass.idx := pass.links[pass.idx].(status := status)], pass.idx, pass.nodes,
                       pass.conflicts)
    ensures var link := pass.links[pass.idx];
            var w' := Stored(w, link.(status := status));
            var links := pass.links[pass.idx := link.(status := status, version := w'.clock)];
            && WellFormed(w')
            && PassInv(w', pass.(
                 links := links, idx := pass.idx + 1,
                 table := Recorded(table, Key(w.ns, link.name), status.wireID, link.status.wireID)))
  {
    var k := pass.idx;
    var link := pass.links[k];
    var w' := Stored(w, link.(status := status));
    var stored := link.(status := status, version := w'.clock);
    var links := pass.links[k := stored];
    var key := Key(w.ns, link.name);
    var after := pass.(links := links, idx := k + 1, table := Recorded(table, key, status.wireID, link.status.wireID));
    StoredKeepsSnapshot(w, pass.links, k, status);
    WriteKeepsBooked(w.ns, pass.links, k, table, stored);
    ClaimsIgnoreStatus(pass.links, k, stored, pass.nodes);
    SettledIgnoresVersion(pass.links, k, link.(status := status), stored, pass.nodes, pass.conflicts);
    WriteKeepsDealtWith(pass, after, stored);
    WriteKeepsGone(w, w', pass.nodes, pass.links, k, links, pass.conflicts);
  }

  lemma WriteKeepsGone(w: World, w': World, nodes: Nodes, links: seq<Link>, k: nat, links': seq<Link>,
                       conflicts: map<string, string>)
    requires k < |links| == |links'| && links' == links[k := links'[k]]
    requires w'.nodes == w.nodes && SettledAt(links', k, nodes, conflicts)
    requires forall i :: 0 <= i < |links| ==> GoneForGood(w, nodes, links[i].status.binding)
    ensures forall i :: 0 <= i < |links'| ==> GoneForGood(w', nodes, links'[i].status.binding)
  {
    assert GoneForGood(w', nodes, links'[k].status.binding);
    forall i | 0 <= i < |links'| ensures GoneForGood(w', nodes, links'[i].status.binding) {
      if i != k { assert links'[i] == links[i] && GoneForGood(w, nodes, links[i].status.binding); }
    }
  }

  lemma SettledIgnoresVersion(links: seq<Link>, k: nat, a: Link, b: Link, nodes: Nodes, conflicts: map<string, string>)
    requires k < |links| && b == a.(version := b.version)
    requires SettledAt(links[k := a], k, nodes, conflicts)
    ensures SettledAt(links[k := b], k, nodes, conflicts)
  {
    var la, lb := links[k := a], links[k := b];
    forall i | 0 <= i < k ensures la[i] == lb[i] {}
  }

  lemma WriteKeepsBooked(ns: string, links: seq<Link>, k: nat, table: Table, link: Link)
    requires Sorted(links, (l: Link) => l.name) && k < |links| && link.name == links[k].name
    requires Booked(ns, links, table)
    ensures Booked(ns, links[k := link],
              Recorded(table, Key(ns, link.name), link.status.wireID, links[k].status.wireID))
  {
    var key := Key(ns, link.name);
    HoldingsAt(ns, links, k);
    RecordedKeepsCursorSound(table, key, link.status.wireID, links[k].status.wireID);
    RecordedTracks(table, HoldingsOf(ns, links), key, link.status.wireID, links[k].status.wireID);
    HoldingsAfterWrite(ns, links, k, link);
  }

  lemma WriteKeepsDealtWith(pass: Pass, after: Pass, stored: Link)
    requires pass.idx < |pass.links|
    requires after == pass.(links := pass.links[pass.idx := stored], idx := pass.idx + 1, table := after.table)
    requires forall j :: 0 <= j < pass.idx ==> DealtWith(pass, j)
    requires SettledAt(after.links, pass.idx, pass.nodes, pass.conflicts)
    ensures forall j :: 0 <= j < after.idx ==> DealtWith(after, j)
  {
    forall j | 0 <= j < after.idx ensures DealtWith(after, j) {
      if j < pass.idx {
        assert pass.links[..j + 1] == after.links[..j + 1];
        DealtWithLater(pass, after, j);
      }
    }
  }

  /** What a decision promises about the Link it is for. */
  ghost predicate GoodDecision(w: World, pass: Pass, d: Decision, table: Table)
    requires pass.idx < |pass.links|
  {
    var link := pass.links[pass.idx];
    && Booked(w.ns, pass.links, table)
    && (d.Skip? || d.Keep? ==> DealtWith(pass, pass.idx))
    && (d.Remove? ==> DealtWith(pass.(removed := pass.removed + {link.name}), pass.idx))
    && (d.Write? ==>
          && KnownEnds(d.status.binding, w.used)
          && SettledAt(pass.links[pass.idx := link.(status := d.status)], pass.idx, pass.nodes, pass.conflicts))
  }

  lemma DecisionIsGood(w: World, pass: Pass)
    requires PassInv(w, pass) && pass.idx < |pass.links|
    ensures var (d, table) := Decide(w.ns, pass.links[pass.idx], pass.nodes, pass.conflicts, pass.table);
            GoodDecision(w, pass, d, table)
  {
    var link := pass.links[pass.idx];
    assert Faithful(w, link);
    DecisionSettles(w.ns, pass.links, pass.idx, pass.nodes, pass.conflicts, pass.table, w.used);
    assert pass.links[pass.idx := link.(status := link.status)] == pass.links;
  }

  lemma CarriedKeepsInv(w: World, pass: Pass, d: Decision, table: Table, outcome: Outcome)
    requires WellFormed(w) && PassInv(w, pass) && pass.idx < |pass.links| && GoodDecision(w, pass, d, table)
    ensures Inv(Carried(w, pass, d, table, outcome))
  {
    var link := pass.links[pass.idx];
    match d
    case Skip => AdvanceKeepsInv(w, pass, table, pass.removed);
    case Keep => AdvanceKeepsInv(w, pass, table, pass.removed);
    case Exhausted =>
    case Remove =>
      if link.name !in w.links {
        AdvanceKeepsInv(w, pass, table, pass.removed + {link.name});
      } else {
        RemoveKeepsInv(w, pass, table, pass.removed + {link.name});
      }
      CarriedRemove(w, pass, table, outcome);
    case Write(status) =>
      if Unchanged(w, link) {
        WriteKeepsInv(w, pass, table, status);
      }
      CarriedWrite(w, pass, status, table, outcome);
  }

  lemma CarriedRemove(w: World, pass: Pass, table: Table, outcome: Outcome)
    requires WellFormed(w) && pass.idx < |pass.links|
    requires var name := pass.links[pass.idx].name;
             var w' := if name in w.links then Deleted(w, name) else w;
             WellFormed(w') && PassInv(w', pass.(table := table, idx := pass.idx + 1, removed := pass.removed + {name}))
    ensures Inv(Carried(w, pass, Remove, table, outcome))
  {
    var name := pass.links[pass.idx].name;
    var w' := if name in w.links then Deleted(w, name) else w;
    WorkingInv(w', pass.(table := table, idx := pass.idx + 1, removed := pass.removed + {name}));
    CarriedRemoveIs(w, pass, table, outcome);
  }

  lemma WorkingInv(w: World, pass: Pass)
    requires WellFormed(w) && PassInv(w, pass)
    ensures Inv(State(w, Working(pass)))
  {
  }

  lemma CarriedRemoveIs(w: World, pass: Pass, table: Table, outcome: Outcome)
    requires pass.idx < |pass.links|
    ensures var name := pass.links[pass.idx].name;
            var w' := if name in w.links then Deleted(w, name) else w;
            var next := pass.(table := table, idx := pass.idx + 1, removed := pass.removed + {name});
            Carried(w, pass, Remove, table, outcome) in {State(w', Working(next)), State(w', Idle), State(w, Idle)}
  {
  }

  lemma CarriedWrite(w: World, pass: Pass, status: Status, table: Table, outcome: Outcome)
    requires WellFormed(w) && pass.idx < |pass.links|
    requires var link := pass.links[pass.idx];
             Unchanged(w, link) ==>
               var w' := Stored(w, link.(status := status));
               && WellFormed(w')
               && PassInv(w', pass.(
                    links := pass.links[pass.idx := link.(status := status, version := w'.clock)], idx := pass.idx + 1,
                    table := Recorded(table, Key(w.ns, link.name), status.wireID, link.status.wireID)))
    ensures Inv(Carried(w, pass, Write(status), table, outcome))
  {
  }

  lemma ProcessKeepsInv(w: World, pass: Pass, outcome: Outcome)
    requires WellFormed(w) && PassInv(w, pass) && pass.idx < |pass.links|
    ensures Inv(ProcessLink(w, pass, outcome))
  {
    var (d, table) := Decide(w.ns, pass.links[pass.idx], pass.nodes, pass.conflicts, pass.table);
    DecisionIsGood(w, pass);
    CarriedKeepsInv(w, pass, d, table, outcome);
  }

  lemma StepKeepsInv(s: State, e: Event)
    requires Inv(s)
    ensures Inv(Step(s, e))
  {
    match e
    case Change(edit) =>
      ApplyWellFormed(s.world, edit);
      if s.phase.Listed? { ApplyKeepsSnapshot(s.world, s.phase.links, edit); }
      if s.phase.Working? { ApplyKeepsPassInv(s.world, s.phase.pass, edit); }
    case ListLinks(order) =>
      if s.phase == Idle && Walks(order, s.world.links.Keys) {
        ListingIsSnapshot(s.world, order);
      }
    case ListNodes =>
      if s.phase.Listed? {
        NewTableTracks(s.world.ns, s.phase.links);
      }
    case ListFails =>
    case Process(outcome) =>
      if s.phase.Working? && s.phase.pass.idx < |s.phase.pass.links| {
        ProcessKeepsInv(s.world, s.phase.pass, outcome);
      }
  }

  lemma {:induction false} RunKeepsInv(s: State, events: seq<Event>)
    requires Inv(s)
    ensures Inv(Run(s, events))
    decreases |events|
  {
    if |events| > 0 {
      RunKeepsInv(s, events[..|events| - 1]);
      StepKeepsInv(Run(s, events[..|events| - 1]), events[|events| - 1]);
    }
  }

  // ---------------------------------------------------------------- unique wire ids

  /** No two listed Links hold the same nonzero wire id. */
  ghost predicate DistinctWires(links: seq<Link>) {
    forall i, j | 0 <= i < j < |links|
      :: links[i].status.wireID == links[j].status.wireID ==> links[i].status.wireID == 0
  }

  ghost predicate NoCollision(s: State) {
    match s.phase
    case Idle => UniqueWires(s.world)
    case Listed(links) => DistinctWires(links)
    case Working(pass) => DistinctWires(pass.links)
  }

  lemma SnapshotUnique(w: World, links: seq<Link>)
    requires Snapshot(w, links) && DistinctWires(links)
    ensures UniqueWires(w)
  {
  }

  lemma ListingDistinct(w: World, order: seq<string>)
    requires WellFormed(w) && UniqueWires(w) && Walks(order, w.links.Keys)
    ensures DistinctWires(Sort(Listing(w.links, order), (l: Link) => l.name))
  {
    var links := Sort(Listing(w.links, order), (l: Link) => l.name);
    ListingIsSnapshot(w, order);
    forall i, j | 0 <= i < j < |links| && links[i].status.wireID == links[j].status.wireID
      ensures links[i].status.wireID == 0
    {
      assert links[i] in links && links[j] in links;
      assert links[i].name != links[j].name by { LessIrreflexive(links[i].name); }
      assert w.links[links[i].name] == links[i] && w.links[links[j].name] == links[j];
    }
  }

  lemma ProcessKeepsNoCollision(w: World, pass: Pass, outcome: Outcome)
    requires WellFormed(w) && PassInv(w, pass) && pass.idx < |pass.links|
    requires DistinctWires(pass.links)
    ensures NoCollision(ProcessLink(w, pass, outcome))
  {
    var k := pass.idx;
    var link := pass.links[k];
    var (d, table) := Decide(w.ns, link, pass.nodes, pass.conflicts, pass.table);
    assert Faithful(w, link);
    DecisionSettles(w.ns, pass.links, k, pass.nodes, pass.conflicts, pass.table, w.used);
    SnapshotUnique(w, pass.links);
    if d.Remove? && link.name in w.links {
      DeletedKeepsSnapshot(w, pass.links, link.name);
      SnapshotUnique(Deleted(w, link.name), pass.links);
    }
    if d.Write? && Unchanged(w, link) {
      WriteKeepsDistinct(w, pass.links, k, d.status);
    }
    CarriedKeepsNoCollision(w, pass, d, table, outcome);
  }

  lemma CarriedKeepsNoCollision(w: World, pass: Pass, d: Decision, table: Table, outcome: Outcome)
    requires pass.idx < |pass.links| && UniqueWires(w) && DistinctWires(pass.links)
    requires var link := pass.links[pass.idx];
             && (d.Remove? && link.name in w.links ==> UniqueWires(Deleted(w, link.name)))
             && (d.Write? && Unchanged(w, link) ==>
                   var w' := Stored(w, link.(status := d.status));
                   && UniqueWires(w')
                   && DistinctWires(pass.links[pass.idx := link.(status := d.status, version := w'.clock)]))
    ensures NoCollision(Carried(w, pass, d, table, outcome))
  {
  }

  lemma WriteKeepsDistinct(w: World, links: seq<Link>, k: nat, status: Status)
    requires WellFormed(w) && Snapshot(w, links) && DistinctWires(links)
    requires k < |links| && Unchanged(w, links[k])
    requires KnownEnds(status.binding, w.used) && Grantable(links, k, status.wireID)
    ensures var w' := Stored(w, links[k].(status := status));
            UniqueWires(w') && DistinctWires(links[k := links[k].(status := status, version := w'.clock)])
  {
    var w' := Stored(w, links[k].(status := status));
    var links' := links[k := links[k].(status := status, version := w'.clock)];
    StoredKeepsSnapshot(w, links, k, status);
    assert DistinctWires(links') by {
      forall i | 0 <= i < |links'| && i != k ensures links'[i] == links[i] {}
    }
    SnapshotUnique(w', links');
  }

  lemma StepKeepsNoCollision(s: State, e: Event)
    requires Inv(s) && NoCollision(s)
    ensures NoCollision(Step(s, e))
  {
    match e
    case Change(edit) =>
      if s.phase.Idle? {
        var r := Apply(s.world, edit);
        forall n | n in r.links
          ensures r.links[n].status.wireID != 0 ==> n in s.world.links && s.world.links[n].status == r.links[n].status
        {
          ApplyKeepsStatus(s.world, edit, n);
        }
      }
    case ListLinks(order) =>
      if s.phase == Idle && Walks(order, s.world.links.Keys) { ListingDistinct(s.world, order); }
    case ListNodes =>
    case ListFails =>
      if s.phase.Listed? { SnapshotUnique(s.world, s.phase.links); }
    case Process(outcome) =>
      if s.phase.Working? {
        SnapshotUnique(s.world, s.phase.pass.links);
        if s.phase.pass.idx < |s.phase.pass.links| {
          ProcessKeepsNoCollision(s.world, s.phase.pass, outcome);
        }
      }
  }

  /** In every state of every run that starts without a shared wire id, whatever is edited in
      between and however passes are cut short by refused or ambiguous writes, no two stored
      Links hold the same nonzero wire id. */
  lemma {:induction false} RunKeepsWiresUnique(w: World, events: seq<Event>)
    requires WellFormed(w) && UniqueWires(w)
    ensures var s := Run(State(w, Idle), events);
            Inv(s) && NoCollision(s) && UniqueWires(s.world)
    decreases |events|
  {
    if |events| > 0 {
      var n := |events| - 1;
      RunKeepsWiresUnique(w, events[..n]);
      var s := Run(State(w, Idle), events[..n]);
      StepKeepsInv(s, events[n]);
      StepKeepsNoCollision(s, events[n]);
      var t := Step(s, events[n]);
      if t.phase.Listed? { SnapshotUnique(t.world, t.phase.links); }
      if t.phase.Working? { SnapshotUnique(t.world, t.phase.pass.links); }
    }
  }
}
