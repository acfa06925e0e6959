/** Status writes that take effect late: the reply is lost, the pass is given up, and the API server
    applies the write at any time after that, or never. The write still carries the resource version
    of the Link it was made for.
  */
module LateWrites {
  import opened Wrappers
  import opened Ordering
  import opened Links
  import opened Wires
  import opened LinkWorld
  import opened LinkPass
  import opened LinkSafety
  import opened LinkTheorems

  /** A write under way: the status, and the Link as the pass knew it. */
  datatype Pending = Pending(link: Link, status: Status)

  datatype Late = Late(state: State, pending: seq<Pending>)

  datatype LateEvent =
    | Plain(event: Event)
    | Delay
    | Land(k: nat)

  function Landed(w: World, p: Pending): World {
    if Unchanged(w, p.link) then Stored(w, p.link.(status := p.status)) else w
  }

  function DecisionAt(s: State): Decision
    requires s.phase.Working? && s.phase.pass.idx < |s.phase.pass.links|
  {
    var pass := s.phase.pass;
    Decide(s.world.ns, pass.links[pass.idx], pass.nodes, pass.conflicts, pass.table).0
  }

  /** The next Link of a pass is about to be written. */
  predicate Writes(s: State) {
    s.phase.Working? && s.phase.pass.idx < |s.phase.pass.links| && DecisionAt(s).Write?
  }

  /** The write that is about to be made. */
  function NextWrite(s: State): Pending
    requires Writes(s)
  {
    Pending(s.phase.pass.links[s.phase.pass.idx], DecisionAt(s).status)
  }

  ghost function LateStep(l: Late, e: LateEvent): Late {
    match e
    case Plain(event) => l.(state := Step(l.state, event))
    case Delay =>
      if Writes(l.state) then Late(State(l.state.world, Idle), l.pending + [NextWrite(l.state)]) else l
    case Land(k) =>
      if k < |l.pending| then
        Late(l.state.(world := Landed(l.state.world, l.pending[k])), l.pending[..k] + l.pending[k + 1..])
      else l
  }

  ghost function LateRun(l: Late, events: seq<LateEvent>): Late {
    if |events| == 0 then l else LateStep(LateRun(l, events[..|events| - 1]), events[|events| - 1])
  }

  /** No write under way can still take effect. */
  ghost predicate NoneLive(l: Late) {
    forall p :: p in l.pending ==> !Unchanged(l.state.world, p.link)
  }

  /** Whenever the Links are listed, every write made before has taken effect or no longer can. */
  ghost predicate Timely(l: Late, events: seq<LateEvent>) {
    |events| == 0 || (
      var n := |events| - 1;
      && Timely(l, events[..n])
      && (events[n].Plain? && events[n].event.ListLinks? ==> NoneLive(LateRun(l, events[..n]))))
  }

  // ---------------------------------------------------------------- timely runs

  /** The id of the write is held by no other stored Link. */
  ghost predicate Unheld(w: World, p: Pending) {
    p.status.wireID == 0 ||
    forall m :: m in w.links && m != p.link.name ==> w.links[m].status.wireID != p.status.wireID
  }

  /** What is known of a write under way. */
  ghost predicate Sent(w: World, p: Pending) {
    Faithful(w, p.link) && KnownEnds(p.status.binding, w.used)
  }

  ghost predicate Live(w: World, pending: seq<Pending>, p: Pending) {
    p in pending && Unchanged(w, p.link)
  }

  /** Only the last write can still take effect, and only between two passes. */
  ghost predicate LateInv(l: Late) {
    var w := l.state.world;
    && Inv(l.state) && NoCollision(l.state)
    && (forall p :: p in l.pending ==> Sent(w, p))
    && (forall p :: Live(w, l.pending, p) ==> l.state.phase.Idle? && Unheld(w, p))
    && (forall p, q :: Live(w, l.pending, p) && Live(w, l.pending, q) ==> p == q)
  }

  /** A write that can no longer take effect never can again. */
  ghost predicate Older(w: World, w': World, p: Pending) {
    Sent(w', p) && (Unchanged(w', p.link) ==> Unchanged(w, p.link))
  }

  lemma ApplyIsOlder(w: World, e: Edit, p: Pending)
    requires WellFormed(w) && Sent(w, p)
    ensures Older(w, Apply(w, e), p)
  {
    ApplyKeepsFaithful(w, p.link, e);
  }

  lemma StoredIsOlder(w: World, link: Link, p: Pending)
    requires Sent(w, p)
    ensures Older(w, Stored(w, link), p) && (link.name == p.link.name ==> !Unchanged(Stored(w, link), p.link))
  {
  }

  lemma CarriedIsOlder(w: World, pass: Pass, d: Decision, table: Table, outcome: Outcome, p: Pending)
    requires WellFormed(w) && pass.idx < |pass.links| && Sent(w, p)
    ensures Older(w, Carried(w, pass, d, table, outcome).world, p)
  {
    var link := pass.links[pass.idx];
    if d.Remove? && link.name in w.links {
      ApplyIsOlder(w, DeleteLink(link.name), p);
    }
    if d.Write? {
      StoredIsOlder(w, link.(status := d.status), p);
    }
  }

  lemma StepIsOlder(s: State, e: Event, p: Pending)
    requires WellFormed(s.world) && Sent(s.world, p)
    ensures Older(s.world, Step(s, e).world, p)
  {
    if e.Change? {
      ApplyIsOlder(s.world, e.edit, p);
    }
    if e.Process? && s.phase.Working? && s.phase.pass.idx < |s.phase.pass.links| {
      var pass := s.phase.pass;
      var (d, table) := Decide(s.world.ns, pass.links[pass.idx], pass.nodes, pass.conflicts, pass.table);
      CarriedIsOlder(s.world, pass, d, table, e.outcome, p);
    }
  }

  lemma ApplyKeepsUnheld(w: World, e: Edit, p: Pending)
    requires Unheld(w, p)
    ensures Unheld(Apply(w, e), p)
  {
    if p.status.wireID != 0 {
      var r := Apply(w, e);
      forall m | m in r.links && m != p.link.name ensures r.links[m].status.wireID != p.status.wireID {
        ApplyKeepsStatus(w, e, m);
      }
    }
  }

  lemma PlainKeepsLateInv(l: Late, e: Event)
    requires LateInv(l) && (e.ListLinks? ==> NoneLive(l))
    ensures LateInv(LateStep(l, Plain(e)))
  {
    var w, next := l.state.world, Step(l.state, e);
    StepKeepsInv(l.state, e);
    StepKeepsNoCollision(l.state, e);
    forall p | p in l.pending ensures Older(w, next.world, p) {
      StepIsOlder(l.state, e, p);
    }
    forall p | Live(next.world, l.pending, p) ensures next.phase.Idle? && Unheld(next.world, p) {
      assert Live(w, l.pending, p);
      if e.Change? { ApplyKeepsUnheld(w, e.edit, p); }
    }
    forall p, q | Live(next.world, l.pending, p) && Live(next.world, l.pending, q) ensures p == q {
      assert Live(w, l.pending, p) && Live(w, l.pending, q);
    }
  }

  /** The id that a pass is about to write is held by no other stored Link. */
  lemma NextIsUnheld(s: State)
    requires Inv(s) && NoCollision(s) && Writes(s)
    ensures Sent(s.world, NextWrite(s)) && Unheld(s.world, NextWrite(s)) && UniqueWires(s.world)
  {
    var pass, p := s.phase.pass, NextWrite(s);
    assert Faithful(s.world, p.link);
    DecisionSettles(s.world.ns, pass.links, pass.idx, pass.nodes, pass.conflicts, pass.table, s.world.used);
    SnapshotUnique(s.world, pass.links);
    GrantableIsUnheld(s.world, pass.links, pass.idx, p);
  }

  lemma GrantableIsUnheld(w: World, links: seq<Link>, k: nat, p: Pending)
    requires Snapshot(w, links) && DistinctWires(links) && k < |links|
    requires p.link == links[k] && Grantable(links, k, p.status.wireID)
    ensures Unheld(w, p)
  {
    if p.status.wireID != 0 {
      forall m | m in w.links && m != p.link.name ensures w.links[m].status.wireID != p.status.wireID {
        assert w.links[m].status.wireID != 0 ==> Shows(links, m, w.links[m].status.wireID);
      }
    }
  }

  lemma DelayKeepsLateInv(l: Late)
    requires LateInv(l)
    ensures LateInv(LateStep(l, Delay))
  {
    if Writes(l.state) {
      NextIsUnheld(l.state);
      var w, p := l.state.world, NextWrite(l.state);
      forall q | Live(w, l.pending + [p], q) ensures q == p {
        if q in l.pending { assert Live(w, l.pending, q); }
      }
    }
  }

  /** A landing stores the status, and the Link it was made for is no more. */
  lemma LandingStores(w: World, p: Pending)
    requires WellFormed(w) && Sent(w, p) && Unchanged(w, p.link)
    ensures WellFormed(Landed(w, p)) && !Unchanged(Landed(w, p), p.link)
    ensures Landed(w, p).links == w.links[p.link.name := p.link.(status := p.status, version := w.clock + 1)]
  {
    var r := Landed(w, p);
    assert w.links[p.link.name] == p.link;
    forall n | n in r.links ensures WellFormedLink(r, n, r.links[n]) {
      assert WellFormedLink(w, p.link.name, p.link);
      if n != p.link.name { assert WellFormedLink(w, n, w.links[n]); }
    }
  }

  lemma UnheldLandingKeepsUnique(w: World, p: Pending)
    requires WellFormed(w) && Sent(w, p) && UniqueWires(w) && (Unchanged(w, p.link) ==> Unheld(w, p))
    ensures WellFormed(Landed(w, p)) && UniqueWires(Landed(w, p))
  {
    if Unchanged(w, p.link) { LandingStores(w, p); }
  }

  lemma LandKeepsLateInv(l: Late, k: nat)
    requires LateInv(l)
    ensures LateInv(LateStep(l, Land(k)))
  {
    if k < |l.pending| {
      var w, p := l.state.world, l.pending[k];
      var rest := l.pending[..k] + l.pending[k + 1..];
      assert p in l.pending && forall q :: q in rest ==> q in l.pending;
      if Unchanged(w, p.link) {
        assert Live(w, l.pending, p);
        UnheldLandingKeepsUnique(w, p);
        forall q | q in rest ensures Sent(Landed(w, p), q) && !Unchanged(Landed(w, p), q.link) {
          StoredIsOlder(w, p.link.(status := p.status), q);
          assert Unchanged(w, q.link) ==> Live(w, l.pending, q);
        }
      } else {
        forall q | Live(w, rest, q) ensures Live(w, l.pending, q) {}
      }
    }
  }

  lemma LateStepKeepsInv(l: Late, e: LateEvent)
    requires LateInv(l) && (e.Plain? && e.event.ListLinks? ==> NoneLive(l))
    ensures LateInv(LateStep(l, e))
  {
    match e
    case Plain(event) => PlainKeepsLateInv(l, event);
    case Delay => DelayKeepsLateInv(l);
    case Land(k) => LandKeepsLateInv(l, k);
  }

  lemma LateInvUnique(l: Late)
    requires LateInv(l)
    ensures UniqueWires(l.state.world)
  {
    var s := l.state;
    if s.phase.Listed? { SnapshotUnique(s.world, s.phase.links); }
    if s.phase.Working? { SnapshotUnique(s.world, s.phase.pass.links); }
  }

  /** However long writes take, as long as none of them outlives the next listing of the Links no two
      stored Links ever hold the same nonzero wire id. */
  lemma {:induction false} TimelyRunKeepsWiresUnique(w: World, events: seq<LateEvent>)
    requires WellFormed(w) && UniqueWires(w) && Timely(Late(State(w, Idle), []), events)
    ensures var l := LateRun(Late(State(w, Idle), []), events);
            LateInv(l) && UniqueWires(l.state.world)
    decreases |events|
  {
    if |events| > 0 {
      var n := |events| - 1;
      TimelyRunKeepsWiresUnique(w, events[..n]);
      LateStepKeepsInv(LateRun(Late(State(w, Idle), []), events[..n]), events[n]);
      LateInvUnique(LateRun(Late(State(w, Idle), []), events));
    }
  }

  // ---------------------------------------------------------------- one landing

  /** No two stored Links hold one id after these events. */
  ghost predicate UniqueAfter(w: World, events: seq<Event>) {
    UniqueWires(Run(State(w, Idle), events).world)
  }

  /** A write that lands between two passes does no harm, then or in any run after it, exactly if it
      comes to nothing or its id is held by no other Link. */
  lemma LandingIsHarmlessIff(w: World, p: Pending)
    requires WellFormed(w) && UniqueWires(w) && Sent(w, p)
    ensures (forall events :: UniqueAfter(Landed(w, p), events)) <==> !Unchanged(w, p.link) || Unheld(w, p)
  {
    if !Unchanged(w, p.link) || Unheld(w, p) {
      UnheldLandingKeepsUnique(w, p);
      forall events ensures UniqueAfter(Landed(w, p), events) {
        RunKeepsWiresUnique(Landed(w, p), events);
      }
    } else {
      LandingStores(w, p);
      var r := Landed(w, p);
      var m :| m in w.links && m != p.link.name && w.links[m].status.wireID == p.status.wireID;
      assert r.links[m].status.wireID == r.links[p.link.name].status.wireID != 0;
      assert !UniqueAfter(r, []);
    }
  }

  /** A write that lands during a pass leaves the pass with a listing that knows every stored id exactly
      if it comes to nothing, or its id is no id, or the listing shows it for this Link already. */
  lemma LandingInPassIff(w: World, links: seq<Link>, p: Pending)
    requires WellFormed(w) && Sent(w, p) && Snapshot(w, links)
    ensures Snapshot(Landed(w, p), links) <==>
              !Unchanged(w, p.link) || p.status.wireID == 0 || Shows(links, p.link.name, p.status.wireID)
  {
    if Unchanged(w, p.link) {
      LandingStores(w, p);
      var r := Landed(w, p);
      forall i | 0 <= i < |links| ensures Faithful(r, links[i]) {
        assert Faithful(w, links[i]);
      }
    }
  }

  // ---------------------------------------------------------------- a run that is too late

  /** The first Link of a pass is never in conflict. */
  lemma FirstIsNeverInConflict(links: seq<Link>, nodes: Nodes)
    requires Sorted(links, (l: Link) => l.name) && |links| > 0 && (forall l :: l in links ==> l.name != "")
    requires MissingEndpoint(links[0].spec, nodes).None?
    ensures !Conflicted(links[0].name, ConflictsAmong(links, nodes))
  {
    var claims, conflicts := ClaimsOf(links, nodes), ConflictsAmong(links, nodes);
    var c := Claim(links[0].name, links[0].spec);
    ClaimNamesDistinct(links, nodes);
    ConflictsSolveOwnership(claims);
    assert links[0] in links && c in claims;
    forall d ensures !Blocks(claims, conflicts, d, c) {
      if d in claims {
        var l :| l in links && d == Claim(l.name, l.spec);
        var i :| 0 <= i < |links| && links[i] == l;
        LessIrreflexive(c.name);
        if i > 0 { LessAsymmetric(c.name, d.name); }
      }
    }
  }

  /** A Link of two Nodes that are there and share no Pod, with no status yet. */
  ghost predicate Fresh(link: Link, nodes: Nodes) {
    && link.name != "" && !Skipped(link) && link.status == NoStatus && NeedsWire(link.spec, nodes)
    && link.spec.a.nodeName in nodes && nodes[link.spec.a.nodeName].uid != ""
    && link.spec.b.nodeName in nodes && nodes[link.spec.b.nodeName].uid != ""
  }

  /** What the first Link of a pass over Links without ids is given. */
  function FirstStatus(link: Link, nodes: Nodes): Status
    requires link.spec.a.nodeName in nodes && link.spec.b.nodeName in nodes
  {
    Status(1, Some(Binding(Bound(link.spec.a.nodeName, nodes[link.spec.a.nodeName].uid),
                           Bound(link.spec.b.nodeName, nodes[link.spec.b.nodeName].uid))),
           Some(Condition(link.generation, Accepted(1))))
  }

  lemma {:induction false} NoIdsNoEntries(ns: string, links: seq<Link>)
    requires forall l :: l in links ==> l.status.wireID == 0
    ensures NewTable(ns, links) == EmptyTable
    decreases |links|
  {
    if |links| > 0 {
      var n := |links| - 1;
      assert links[n] in links;
      NoIdsNoEntries(ns, links[..n]);
    }
  }

  /** The first Link of a pass over Links without ids gets id 1. */
  lemma FirstGetsOne(w: World, links: seq<Link>)
    requires Sorted(links, (l: Link) => l.name) && |links| > 0
    requires forall l :: l in links ==> l.name != "" && l.status.wireID == 0
    requires Fresh(links[0], w.nodes)
    ensures var s := State(w, Working(NewPass(w.ns, links, w.nodes)));
            Writes(s) && NextWrite(s) == Pending(links[0], FirstStatus(links[0], w.nodes))
  {
    var link := links[0];
    assert link in links;
    NoIdsNoEntries(w.ns, links);
    FirstIsNeverInConflict(links, w.nodes);
    assert link.spec.a != link.spec.b;
    assert Scan(map[], Key(w.ns, link.name), 1) == 1;
  }

  lemma LateRunSnoc(l: Late, events: seq<LateEvent>, k: nat)
    requires k < |events|
    ensures LateRun(l, events[..k + 1]) == LateStep(LateRun(l, events[..k]), events[k])
  {
    assert events[..k + 1][..k] == events[..k];
  }

  lemma TwoPlain(l: Late, events: seq<LateEvent>, k: nat, d: Event, e: Event)
    requires k + 2 <= |events| && events[k] == Plain(d) && events[k + 1] == Plain(e)
    ensures var m := LateRun(l, events[..k]);
            LateRun(l, events[..k + 2]) == m.(state := Step(Step(m.state, d), e))
  {
    LateRunSnoc(l, events, k);
    LateRunSnoc(l, events, k + 1);
  }

  lemma SortOne(l: Link)
    ensures Sort([l], (l: Link) => l.name) == [l]
  {
    assert [l][1..] == [];
  }

  lemma SortTwo(k: Link, l: Link)
    requires Less(k.name, l.name)
    ensures Sort([k, l], (l: Link) => l.name) == [k, l]
  {
    assert [k, l][1..] == [l];
    SortOne(l);
  }

  lemma WorksOnOne(w: World, l: Link)
    requires w.links == map[l.name := l]
    ensures Step(Step(State(w, Idle), ListLinks([l.name])), ListNodes) ==
              State(w, Working(NewPass(w.ns, [l], w.nodes)))
  {
    assert Walks([l.name], w.links.Keys);
    assert Listing(w.links, [l.name]) == [l];
    SortOne(l);
  }

  lemma WorksOnTwo(w: World, k: Link, l: Link)
    requires w.links == map[k.name := k, l.name := l] && Less(k.name, l.name)
    ensures Step(Step(State(w, Idle), ListLinks([k.name, l.name])), ListNodes) ==
              State(w, Working(NewPass(w.ns, [k, l], w.nodes)))
  {
    LessIrreflexive(k.name);
    var order := [k.name, l.name];
    assert order[0] != order[1] && Walks(order, w.links.Keys);
    assert Listing(w.links, order) == [k, l];
    SortTwo(k, l);
  }

  /** The first pass lists the only Link, and the write for it is delayed. */
  lemma FirstPass(w: World, b: Link, events: seq<LateEvent>)
    requires w.links == map[b.name := b] && Fresh(b, w.nodes) && |events| >= 3
    requires events[0] == Plain(ListLinks([b.name])) && events[1] == Plain(ListNodes) && events[2] == Delay
    ensures LateRun(Late(State(w, Idle), []), events[..3]) ==
              Late(State(w, Idle), [Pending(b, FirstStatus(b, w.nodes))])
  {
    var l := Late(State(w, Idle), []);
    TwoPlain(l, events, 0, ListLinks([b.name]), ListNodes);
    WorksOnOne(w, b);
    FirstGetsOne(w, [b]);
    LateRunSnoc(l, events, 2);
  }

  /** The Link `a` as it is stored once created. */
  ghost predicate Created(w: World, a: Link) {
    a == Link(a.name, a.uid, w.clock + 1, 1, false, false, false, a.spec, NoStatus) && NewUid(w, a.uid)
  }

  function With(w: World, a: Link): World {
    w.(links := w.links[a.name := a], used := w.used + {a.uid}, clock := w.clock + 1)
  }

  lemma CreationBetween(l: Late, a: Link, events: seq<LateEvent>, k: nat)
    requires k < |events| && events[k] == Plain(Change(CreateLink(a.name, a.uid, a.spec, false, false)))
    requires LateRun(l, events[..k]).state.phase == Idle
    requires var w := LateRun(l, events[..k]).state.world; a.name != "" && a.name !in w.links && Created(w, a)
    ensures var m := LateRun(l, events[..k]);
            LateRun(l, events[..k + 1]) == m.(state := State(With(m.state.world, a), Idle))
  {
    LateRunSnoc(l, events, k);
  }

  lemma WritesFirst(w: World, links: seq<Link>, status: Status)
    requires |links| > 0 && Unchanged(w, links[0])
    requires var s := State(w, Working(NewPass(w.ns, links, w.nodes)));
             Writes(s) && NextWrite(s) == Pending(links[0], status)
    ensures Step(State(w, Working(NewPass(w.ns, links, w.nodes))), Process(Done)).world ==
              Stored(w, links[0].(status := status))
  {
  }

  lemma FirstIsWritten(w: World, k: Link, l: Link)
    requires w.links == map[k.name := k, l.name := l] && Less(k.name, l.name) && Fresh(k, w.nodes)
    requires l.name != "" && l.status.wireID == 0
    ensures Step(State(w, Working(NewPass(w.ns, [k, l], w.nodes))), Process(Done)).world ==
              Stored(w, k.(status := FirstStatus(k, w.nodes)))
  {
    LessIrreflexive(k.name);
    FirstGetsOne(w, [k, l]);
    assert Unchanged(w, k);
    WritesFirst(w, [k, l], FirstStatus(k, w.nodes));
  }

  /** The next pass lists both Links and gives the first one id 1. */
  lemma SecondPass(l: Late, w: World, a: Link, b: Link, events: seq<LateEvent>, k: nat)
    requires w.links == map[a.name := a, b.name := b] && Less(a.name, b.name) && Fresh(a, w.nodes)
    requires b.name != "" && b.status.wireID == 0 && k + 3 <= |events|
    requires events[k] == Plain(ListLinks([a.name, b.name])) && events[k + 1] == Plain(ListNodes)
    requires events[k + 2] == Plain(Process(Done))
    requires LateRun(l, events[..k]).state == State(w, Idle)
    ensures var m := LateRun(l, events[..k + 3]);
            && m.pending == LateRun(l, events[..k]).pending
            && m.state.world == Stored(w, a.(status := FirstStatus(a, w.nodes)))
  {
    TwoPlain(l, events, k, ListLinks([a.name, b.name]), ListNodes);
    WorksOnTwo(w, a, b);
    FirstIsWritten(w, a, b);
    LateRunSnoc(l, events, k + 2);
  }

  /** The write for `b` is under way when a smaller Link `a` is created; the next pass lists both and
      gives `a` the same id; then the write for `b` lands. */
  function TooLate(a: Link, b: Link): seq<LateEvent> {
    [Plain(ListLinks([b.name])), Plain(ListNodes), Delay,
     Plain(Change(CreateLink(a.name, a.uid, a.spec, false, false))),
     Plain(ListLinks([a.name, b.name])), Plain(ListNodes), Plain(Process(Done)), Land(0)]
  }

  lemma UntilLanding(w: World, a: Link, b: Link, events: seq<LateEvent>)
    requires w.links == map[b.name := b] && Fresh(b, w.nodes) && Created(w, a) && Fresh(a, w.nodes)
    requires Less(a.name, b.name) && events == TooLate(a, b)
    ensures var m := LateRun(Late(State(w, Idle), []), events[..7]);
            && m.pending == [Pending(b, FirstStatus(b, w.nodes))]
            && m.state.world == Stored(With(w, a), a.(status := FirstStatus(a, w.nodes)))
  {
    LessIrreflexive(a.name);
    FirstPass(w, b, events);
    CreationBetween(Late(State(w, Idle), []), a, events, 3);
    SecondPass(Late(State(w, Idle), []), With(w, a), a, b, events, 4);
  }

  lemma LandsOnTop(l: Late, w: World, a: Link, b: Link, status: Status, events: seq<LateEvent>, k: nat)
    requires k < |events| && events[k] == Land(0) && Less(a.name, b.name)
    requires a.name in w.links && b.name in w.links && w.links[b.name] == b
    requires LateRun(l, events[..k]).pending == [Pending(b, status)]
    requires LateRun(l, events[..k]).state.world == Stored(w, a)
    ensures var after := LateRun(l, events[..k + 1]).state.world.links;
            a.name in after && b.name in after && after[a.name].status == a.status && after[b.name].status == status
  {
    LessIrreflexive(a.name);
    LateRunSnoc(l, events, k);
  }

  /** A write that outlives the next listing can break uniqueness: these runs start without any id, and
      end with two Links that both hold id 1. */
  lemma LateWriteCollides(w: World, a: Link, b: Link)
    requires w.links == map[b.name := b] && Fresh(b, w.nodes) && Created(w, a) && Fresh(a, w.nodes)
    requires WellFormed(w) && Less(a.name, b.name)
    ensures UniqueWires(w)
    ensures var after := LateRun(Late(State(w, Idle), []), TooLate(a, b)).state.world.links;
            a.name in after && b.name in after && after[a.name].status.wireID == 1 == after[b.name].status.wireID
  {
    LessIrreflexive(a.name);
    UntilLanding(w, a, b, TooLate(a, b));
    LandsOnTop(Late(State(w, Idle), []), With(w, a), a.(status := FirstStatus(a, w.nodes)), b,
      FirstStatus(b, w.nodes), TooLate(a, b), 7);
    assert TooLate(a, b)[..8] == TooLate(a, b);
  }
}
