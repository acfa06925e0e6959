/** The Link controller as a state machine: one namespace pass lists the Links, lists the Nodes,
    and then processes the Links one by one in name order, while anything else may happen to the
    namespace between any two steps. A run is any sequence of events.
  */
module LinkPass {
  import opened Wrappers
  import opened Ordering
  import opened Links
  import opened Wires
  import opened LinkWorld

  /** What the API server makes of a write: done, refused, or done with the answer lost. */
  datatype Outcome = Done | Refused | Ambiguous

  datatype Event =
    | Change(edit: Edit)
    | ListLinks(order: seq<string>)
    | ListNodes
    | ListFails
    | Process(outcome: Outcome)

  datatype Pass = Pass(
    links: seq<Link>,
    nodes: Nodes,
    conflicts: map<string, string>,
    table: Table,
    idx: nat,
    removed: set<string>)

  datatype Phase = Idle | Listed(links: seq<Link>) | Working(pass: Pass)

  datatype State = State(world: World, phase: Phase)

  function Key(ns: string, name: string): string {
    ns + "/" + name
  }

  function NewTable(ns: string, links: seq<Link>): Table {
    if |links| == 0 then EmptyTable
    else
      var n := |links| - 1;
      Recorded(NewTable(ns, links[..n]), Key(ns, links[n].name), links[n].status.wireID, 0)
  }

  function ConflictsAmong(links: seq<Link>, nodes: Nodes): map<string, string> {
    Conflicts(Sort(ClaimsOf(links, nodes), (c: Claim) => c.name))
  }

  function NewPass(ns: string, links: seq<Link>, nodes: Nodes): Pass {
    Pass(links, nodes, ConflictsAmong(links, nodes), NewTable(ns, links), 0, {})
  }

  predicate Skipped(link: Link) {
    link.deleting || link.ignored
  }

  /** Why a Link with resolved lifecycle is not accepted, checked in this order. */
  function Rejection(name: string, spec: Spec, nodes: Nodes, conflicts: map<string, string>): Option<Reason> {
    if !ValidSpec(spec) then Some(InvalidSpec)
    else if MissingEndpoint(spec, nodes).Some? then Some(EndpointsUnresolved(MissingEndpoint(spec, nodes).value))
    else if Conflicted(name, conflicts) then Some(EndpointConflict(conflicts[name]))
    else None
  }

  datatype Decision = Skip | Remove | Keep | Write(status: Status) | Exhausted

  function Settle(link: Link, wireID: int, binding: Option<Binding>, reason: Reason): Decision {
    var status := Status(wireID, binding, Some(Condition(link.generation, reason)));
    if link.status == status then Keep else Write(status)
  }

  /** What to do about one Link, and the table with its cursor moved. */
  function Decide(ns: string, link: Link, nodes: Nodes, conflicts: map<string, string>, table: Table)
      : (Decision, Table)
  {
    if Skipped(link) then (Skip, table)
    else
      match ResolveLinkEndpoints(link.spec, link.status.binding, nodes)
      case Stale => (Remove, table)
      case Resolved(binding) =>
        match Rejection(link.name, link.spec, nodes, conflicts)
        case Some(reason) => (Settle(link, 0, binding, reason), table)
        case None =>
          var (wireID, moved) := Chosen(table, Key(ns, link.name), link.status.wireID, NeedsWire(link.spec, nodes));
          if wireID.None? then (Exhausted, moved)
          else (Settle(link, wireID.value, binding, Accepted(wireID.value)), moved)
  }

  /** Carrying a decision out, with the outcome of the write it may need. */
  function Carried(w: World, pass: Pass, decision: Decision, table: Table, outcome: Outcome): State
    requires pass.idx < |pass.links|
  {
    var link := pass.links[pass.idx];
    var next := pass.(table := table, idx := pass.idx + 1);
    match decision
    case Skip => State(w, Working(next))
    case Keep => State(w, Working(next))
    case Exhausted => State(w, Idle)
    case Remove =>
      if link.name !in w.links then
        State(w, if outcome == Done then Working(next.(removed := pass.removed + {link.name})) else Idle)
      else if !Unchanged(w, link) || outcome == Refused then State(w, Idle)
      else if outcome == Ambiguous then State(Deleted(w, link.name), Idle)
      else State(Deleted(w, link.name), Working(next.(removed := pass.removed + {link.name})))
    case Write(status) =>
      if !Unchanged(w, link) || outcome == Refused then State(w, Idle)
      else
        var w' := Stored(w, link.(status := status));
        if outcome == Ambiguous then State(w', Idle)
        else
          State(w', Working(next.(
            links := pass.links[pass.idx := link.(status := status, version := w'.clock)],
            table := Recorded(table, Key(w.ns, link.name), status.wireID, link.status.wireID))))
  }

  /** One Link of the pass: any failed write aborts the pass, whether or not it took effect. */
  function ProcessLink(w: World, pass: Pass, outcome: Outcome): State
    requires pass.idx < |pass.links|
  {
    var (decision, table) := Decide(w.ns, pass.links[pass.idx], pass.nodes, pass.conflicts, pass.table);
    Carried(w, pass, decision, table, outcome)
  }

  function Listing(links: map<string, Link>, order: seq<string>): seq<Link>
    requires forall n :: n in order ==> n in links
  {
    seq(|order|, i requires 0 <= i < |order| => assert order[i] in order; links[order[i]])
  }

  /** The next Link of the pass, or its end. */
  function Turn(s: State, outcome: Outcome): State {
    if s.phase.Working? && s.phase.pass.idx < |s.phase.pass.links| then
      ProcessLink(s.world, s.phase.pass, outcome)
    else if s.phase.Working? then s.(phase := Idle)
    else s
  }

  /** One event. An event that does not apply leaves the state alone. */
  ghost function Step(s: State, e: Event): State {
    match e
    case Change(edit) => s.(world := Apply(s.world, edit))
    case ListLinks(order) =>
      if s.phase == Idle && Walks(order, s.world.links.Keys) && |order| > 0 then
        s.(phase := Listed(Sort(Listing(s.world.links, order), (l: Link) => l.name)))
      else s
    case ListNodes =>
      if s.phase.Listed? then s.(phase := Working(NewPass(s.world.ns, s.phase.links, s.world.nodes))) else s
    case ListFails =>
      if s.phase.Listed? then s.(phase := Idle) else s
    case Process(outcome) => Turn(s, outcome)
  }

  ghost function Run(s: State, events: seq<Event>): State {
    if |events| == 0 then s else Step(Run(s, events[..|events| - 1]), events[|events| - 1])
  }

  // ---------------------------------------------------------------- the snapshot of a pass

  ghost predicate Shows(links: seq<Link>, name: string, id: int) {
    exists i :: 0 <= i < |links| && links[i].name == name && links[i].status.wireID == id
  }

  /** A listed Link is never newer than the stored one and equals it while the version stands. */
  ghost predicate Faithful(w: World, link: Link) {
    && link.name != "" && link.version <= w.clock && KnownEnds(link.status.binding, w.used)
    && (Unchanged(w, link) ==> w.links[link.name] == link)
  }

  /** The listing a pass works on, and writes through: outdated about specs perhaps, but no
      stored wire id is missing from it. */
  ghost predicate Snapshot(w: World, links: seq<Link>) {
    && Sorted(links, (l: Link) => l.name)
    && (forall i :: 0 <= i < |links| ==> Faithful(w, links[i]))
    && (forall n :: n in w.links && w.links[n].status.wireID != 0 ==> Shows(links, n, w.links[n].status.wireID))
  }

  lemma ApplyKeepsFaithful(w: World, link: Link, e: Edit)
    requires WellFormed(w) && Faithful(w, link)
    ensures Faithful(Apply(w, e), link)
  {
  }

  lemma ApplyKeepsStatus(w: World, e: Edit, n: string)
    requires n in Apply(w, e).links
    ensures if n in w.links then Apply(w, e).links[n].status == w.links[n].status
            else Apply(w, e).links[n].status == NoStatus
  {
  }

  lemma ApplyKeepsSnapshot(w: World, links: seq<Link>, e: Edit)
    requires WellFormed(w) && Snapshot(w, links)
    ensures Snapshot(Apply(w, e), links)
  {
    var r := Apply(w, e);
    forall i | 0 <= i < |links| ensures Faithful(r, links[i]) {
      ApplyKeepsFaithful(w, links[i], e);
    }
    forall n | n in r.links && r.links[n].status.wireID != 0 ensures Shows(links, n, r.links[n].status.wireID) {
      ApplyKeepsStatus(w, e, n);
    }
  }

  lemma DeletedKeepsSnapshot(w: World, links: seq<Link>, name: string)
    requires WellFormed(w) && Snapshot(w, links) && name in w.links
    ensures WellFormed(Deleted(w, name)) && Snapshot(Deleted(w, name), links)
  {
    assert Deleted(w, name) == Apply(w, DeleteLink(name));
    ApplyWellFormed(w, DeleteLink(name));
    ApplyKeepsSnapshot(w, links, DeleteLink(name));
  }

  lemma StoredKeepsSnapshot(w: World, links: seq<Link>, k: nat, status: Status)
    requires WellFormed(w) && Snapshot(w, links)
    requires k < |links| && Unchanged(w, links[k])
    requires KnownEnds(status.binding, w.used)
    ensures var w' := Stored(w, links[k].(status := status));
            && WellFormed(w')
            && Snapshot(w', links[k := links[k].(status := status, version := w'.clock)])
  {
    var link := links[k];
    var w' := Stored(w, link.(status := status));
    var stored := link.(status := status, version := w'.clock);
    var links' := links[k := stored];
    assert Faithful(w, link) && w.links[link.name] == link;
    assert w'.links[link.name] == stored;
    forall n | n in w'.links ensures WellFormedLink(w', n, w'.links[n]) {
      assert WellFormedLink(w, link.name, link);
      if n != link.name { assert WellFormedLink(w, n, w.links[n]); }
    }
    forall i | 0 <= i < |links'| ensures Faithful(w', links'[i]) {
      if i != k {
        assert Faithful(w, links[i]);
        assert links[i].name != link.name by { LessIrreflexive(link.name); }
      }
    }
    forall n | n in w'.links && w'.links[n].status.wireID != 0 ensures Shows(links', n, w'.links[n].status.wireID) {
      if n == link.name {
        assert links'[k].name == n;
      } else {
        assert Shows(links, n, w.links[n].status.wireID);
        var i :| 0 <= i < |links| && links[i].name == n && links[i].status.wireID == w.links[n].status.wireID;
        assert links'[i] == links[i];
      }
    }
    assert Sorted(links', (l: Link) => l.name);
  }

  lemma ListingIsSnapshot(w: World, order: seq<string>)
    requires WellFormed(w) && Walks(order, w.links.Keys)
    ensures var links := Sort(Listing(w.links, order), (l: Link) => l.name);
            && Snapshot(w, links)
            && (forall n :: n in w.links ==> w.links[n] in links)
            && (forall l :: l in links ==> l.name in w.links && w.links[l.name] == l)
  {
    var byName := (l: Link) => l.name;
    var listed := Listing(w.links, order);
    var links := Sort(listed, byName);
    forall i | 0 <= i < |order| ensures order[i] in w.links && WellFormedLink(w, order[i], listed[i]) {
      assert order[i] in order;
    }
    SortSorted(listed, byName);
    SameElements(links, listed);
    forall l | l in links ensures l.name in w.links && w.links[l.name] == l {
      assert l in listed;
      var i :| 0 <= i < |listed| && listed[i] == l;
      assert WellFormedLink(w, order[i], listed[i]);
    }
    forall n | n in w.links ensures w.links[n] in links && Shows(links, n, w.links[n].status.wireID) {
      assert n in order;
      var i :| 0 <= i < |order| && order[i] == n;
      assert listed[i] == w.links[n] && listed[i] in listed;
      assert w.links[n] in links;
      var j :| 0 <= j < |links| && links[j] == w.links[n];
      assert WellFormedLink(w, n, w.links[n]);
    }
    forall i | 0 <= i < |links| ensures Faithful(w, links[i]) {
      assert links[i] in links;
      assert WellFormedLink(w, links[i].name, links[i]);
    }
  }

  // ---------------------------------------------------------------- the reservation table

  /** Who holds what according to the listing. */
  function HoldingsOf(ns: string, links: seq<Link>): Holdings {
    if |links| == 0 then map[]
    else
      var n := |links| - 1;
      HoldingsOf(ns, links[..n])[Key(ns, links[n].name) := links[n].status.wireID]
  }

  lemma KeyInjective(ns: string, a: string, b: string)
    requires Key(ns, a) == Key(ns, b)
    ensures a == b
  {
    assert a == Key(ns, a)[|ns| + 1..] && b == Key(ns, b)[|ns| + 1..];
  }

  lemma {:induction false} HoldingsAt(ns: string, links: seq<Link>, i: nat)
    requires Sorted(links, (l: Link) => l.name) && i < |links|
    ensures var key := Key(ns, links[i].name);
            key in HoldingsOf(ns, links) && HoldingsOf(ns, links)[key] == links[i].status.wireID
    decreases |links|
  {
    var n := |links| - 1;
    if i < n {
      HoldingsAt(ns, links[..n], i);
      KeysDiffer(ns, links, i, n);
    }
  }

  lemma KeysDiffer(ns: string, links: seq<Link>, i: nat, j: nat)
    requires Sorted(links, (l: Link) => l.name) && i < j < |links|
    ensures Key(ns, links[i].name) != Key(ns, links[j].name)
  {
    LessIrreflexive(links[i].name);
    if Key(ns, links[i].name) == Key(ns, links[j].name) {
      KeyInjective(ns, links[i].name, links[j].name);
    }
  }

  lemma {:induction false} HoldingsOnly(ns: string, links: seq<Link>, k: string) returns (i: nat)
    requires k in HoldingsOf(ns, links)
    ensures i < |links| && k == Key(ns, links[i].name)
    decreases |links|
  {
    var n := |links| - 1;
    if k == Key(ns, links[n].name) {
      i := n;
    } else {
      i := HoldingsOnly(ns, links[..n], k);
    }
  }

  lemma LastKeyNew(ns: string, links: seq<Link>)
    requires Sorted(links, (l: Link) => l.name) && |links| > 0
    ensures Key(ns, links[|links| - 1].name) !in HoldingsOf(ns, links[..|links| - 1])
  {
    var n := |links| - 1;
    var key := Key(ns, links[n].name);
    if key in HoldingsOf(ns, links[..n]) {
      var i := HoldingsOnly(ns, links[..n], key);
      KeysDiffer(ns, links, i, n);
    }
  }

  lemma {:induction false} HoldingsCount(ns: string, links: seq<Link>)
    requires Sorted(links, (l: Link) => l.name)
    ensures |HoldingsOf(ns, links)| == |links|
    decreases |links|
  {
    if |links| > 0 {
      var n := |links| - 1;
      HoldingsCount(ns, links[..n]);
      LastKeyNew(ns, links);
      assert HoldingsOf(ns, links).Keys == HoldingsOf(ns, links[..n]).Keys + {Key(ns, links[n].name)};
    }
  }

  lemma {:induction false} NewTableTracks(ns: string, links: seq<Link>)
    requires Sorted(links, (l: Link) => l.name)
    ensures CursorSound(NewTable(ns, links)) && Tracks(NewTable(ns, links), HoldingsOf(ns, links))
    decreases |links|
  {
    if |links| > 0 {
      var n := |links| - 1;
      var rest := links[..n];
      NewTableTracks(ns, rest);
      var key := Key(ns, links[n].name);
      LastKeyNew(ns, links);
      RecordedKeepsCursorSound(NewTable(ns, rest), key, links[n].status.wireID, 0);
      RecordedTracks(NewTable(ns, rest), HoldingsOf(ns, rest), key, links[n].status.wireID, 0);
    }
  }

  /** Writing one Link moves one entry of the holdings. */
  lemma {:induction false} HoldingsAfterWrite(ns: string, links: seq<Link>, k: nat, link: Link)
    requires Sorted(links, (l: Link) => l.name)
    requires k < |links| && link.name == links[k].name
    ensures HoldingsOf(ns, links[k := link]) == HoldingsOf(ns, links)[Key(ns, link.name) := link.status.wireID]
    decreases |links|
  {
    var n := |links| - 1;
    if k == n {
      assert links[k := link][..n] == links[..n];
    } else {
      assert links[k := link][..n] == links[..n][k := link];
      HoldingsAfterWrite(ns, links[..n], k, link);
      KeysDiffer(ns, links, k, n);
    }
  }
}
