/** The Link API object and the pure decisions the Link controller takes about one Link: spec
    validation, endpoint ownership, and the all-or-nothing binding of endpoints to Node UIDs.
  */
module Links {
  import opened Wrappers
  import opened Ordering
  import opened PodGroups

  const HostNode := "host"

  datatype Node = Node(uid: string, networkMode: string)

  type Nodes = map<string, Node>

  datatype Endpoint = Endpoint(nodeName: string, interfaceName: string)

  datatype Spec = Spec(a: Endpoint, b: Endpoint, mtu: int)

  /** One resolved endpoint; a host endpoint has an empty UID. */
  datatype Bound = Bound(nodeName: string, uid: string)

  datatype Binding = Binding(a: Bound, b: Bound)

  /** The Accepted condition: why the Link is, or is not, realized. */
  datatype Reason =
    | InvalidSpec
    | EndpointsUnresolved(nodeName: string)
    | EndpointConflict(link: string)
    | Accepted(wireID: int)

  datatype Condition = Condition(observedGeneration: int, reason: Reason)

  datatype Status = Status(wireID: int, binding: Option<Binding>, condition: Option<Condition>)

  datatype Link = Link(
    name: string,
    uid: string,
    version: nat,
    generation: int,
    deleting: bool,
    ignored: bool,
    finalizers: bool,
    spec: Spec,
    status: Status)

  function ModesOf(nodes: Nodes): Modes {
    map n | n in nodes :: nodes[n].networkMode
  }

  predicate IsHostLink(spec: Spec) {
    spec.a.nodeName == HostNode || spec.b.nodeName == HostNode
  }

  predicate IsSamePodLink(spec: Spec, nodes: Nodes) {
    Resolve(ModesOf(nodes), spec.a.nodeName) == Resolve(ModesOf(nodes), spec.b.nodeName)
  }

  /** Host links and links inside one Pod never touch the wire. */
  predicate NeedsWire(spec: Spec, nodes: Nodes) {
    !IsHostLink(spec) && !IsSamePodLink(spec, nodes)
  }

  predicate ValidSpec(spec: Spec) {
    && !(spec.a.nodeName == HostNode && spec.b.nodeName == HostNode)
    && spec.a != spec.b
  }

  predicate EndpointExists(e: Endpoint, nodes: Nodes) {
    e.nodeName == HostNode || e.nodeName in nodes
  }

  /** The first endpoint whose Node is missing, A before B. */
  function MissingEndpoint(spec: Spec, nodes: Nodes): Option<string> {
    if !EndpointExists(spec.a, nodes) then Some(spec.a.nodeName)
    else if !EndpointExists(spec.b, nodes) then Some(spec.b.nodeName)
    else None
  }

  // ---------------------------------------------------------------- endpoint ownership

  /** What endpoint ownership depends on: the name and the spec of a Link. */
  datatype Claim = Claim(name: string, spec: Spec)

  function EndpointKey(e: Endpoint): string {
    e.nodeName + ":" + e.interfaceName
  }

  /** The interfaces a Link occupies; the host end is not exclusive. */
  function Keys(spec: Spec): (keys: set<string>) {
    (if spec.a.nodeName == HostNode then {} else {EndpointKey(spec.a)}) +
    (if spec.b.nodeName == HostNode then {} else {EndpointKey(spec.b)})
  }

  function ClaimsOf(links: seq<Link>, nodes: Nodes): (claims: seq<Claim>)
    ensures forall c :: c in claims <==>
              exists l :: l in links && c == Claim(l.name, l.spec) && MissingEndpoint(l.spec, nodes).None?
  {
    if |links| == 0 then []
    else
      var rest := links[..|links| - 1];
      var last := links[|links| - 1];
      assert links == rest + [last];
      ClaimsOf(rest, nodes) +
      if MissingEndpoint(last.spec, nodes).None? then [Claim(last.name, last.spec)] else []
  }

  /** The owner that already claimed an endpoint of `spec`, endpoint A first. */
  function ClaimedBy(spec: Spec, claimed: map<string, string>): string {
    var ka, kb := EndpointKey(spec.a), EndpointKey(spec.b);
    if spec.a.nodeName != HostNode && ka in claimed && claimed[ka] != "" then claimed[ka]
    else if spec.b.nodeName != HostNode && kb in claimed then claimed[kb]
    else ""
  }

  /** Endpoint ownership of a whole namespace in one sorted pass. */
  method EndpointConflicts(claims: seq<Claim>) returns (conflicts: map<string, string>)
    requires forall c :: c in claims ==> c.name != ""
    requires DistinctKeys(claims, (c: Claim) => c.name)
    ensures conflicts == Conflicts(Sort(claims, (c: Claim) => c.name))
    ensures SolvesOwnership(claims, conflicts)
    ensures (forall c :: c in claims ==> PlainEnds(c.spec)) ==> EndpointOwnership(claims, conflicts)
  {
    var candidates := Sort(claims, (c: Claim) => c.name);
    var claimed: map<string, string> := map[];
    conflicts := map[];
    for i := 0 to |candidates|
      invariant Folded(candidates[..i]) == (claimed, conflicts)
    {
      var candidate := candidates[i];
      assert candidates[..i + 1][..i] == candidates[..i];
      if !ValidSpec(candidate.spec) {
        continue;
      }
      var conflict := ClaimedBy(candidate.spec, claimed);
      if conflict != "" {
        conflicts := conflicts[candidate.name := conflict];
        continue;
      }
      claimed := claimed + ClaimKeys(candidate);
    }
    assert candidates[..|candidates|] == candidates;
    ConflictsSolveOwnership(claims);
    if forall c :: c in claims ==> PlainEnds(c.spec) {
      OwnershipOnEndpoints(claims, conflicts);
    }
  }

  function ClaimKeys(c: Claim): map<string, string> {
    map k | k in Keys(c.spec) :: c.name
  }

  /** The same pass as a fold, for use in specifications. */
  function Folded(candidates: seq<Claim>): (map<string, string>, map<string, string>) {
    if |candidates| == 0 then (map[], map[])
    else
      var n := |candidates| - 1;
      var (claimed, conflicts) := Folded(candidates[..n]);
      FoldStep(candidates[n], claimed, conflicts)
  }

  function FoldStep(c: Claim, claimed: map<string, string>, conflicts: map<string, string>)
      : (map<string, string>, map<string, string>)
  {
    if !ValidSpec(c.spec) then (claimed, conflicts)
    else if ClaimedBy(c.spec, claimed) != "" then
      (claimed, conflicts[c.name := ClaimedBy(c.spec, claimed)])
    else (claimed + ClaimKeys(c), conflicts)
  }

  function Conflicts(candidates: seq<Claim>): map<string, string> {
    Folded(candidates).1
  }

  predicate Conflicted(name: string, conflicts: map<string, string>) {
    name in conflicts && conflicts[name] != ""
  }

  /** A valid claim that was not rejected owns its endpoints. */
  ghost predicate Owns(c: Claim, conflicts: map<string, string>) {
    ValidSpec(c.spec) && !Conflicted(c.name, conflicts)
  }

  /** `d` is a lexically smaller owner of an endpoint that `c` claims too. */
  ghost predicate Blocks(claims: seq<Claim>, conflicts: map<string, string>, d: Claim, c: Claim) {
    d in claims && Less(d.name, c.name) && Owns(d, conflicts) && Keys(d.spec) * Keys(c.spec) != {}
  }

  ghost predicate Blocked(claims: seq<Claim>, conflicts: map<string, string>, c: Claim) {
    exists d :: Blocks(claims, conflicts, d, c)
  }

  /** `d` is a lexically smaller owner of this end of `c`. */
  ghost predicate BlocksAt(claims: seq<Claim>, conflicts: map<string, string>, d: Claim, c: Claim, e: Endpoint) {
    && d in claims && Less(d.name, c.name) && Owns(d, conflicts)
    && e.nodeName != HostNode && EndpointKey(e) in Keys(d.spec)
  }

  /** `owner` holds end A of `c`, or end B if nobody smaller holds end A. */
  ghost predicate LostTo(claims: seq<Claim>, conflicts: map<string, string>, c: Claim, owner: string) {
    if exists d :: BlocksAt(claims, conflicts, d, c, c.spec.a) then
      exists d :: BlocksAt(claims, conflicts, d, c, c.spec.a) && d.name == owner
    else
      exists d :: BlocksAt(claims, conflicts, d, c, c.spec.b) && d.name == owner
  }

  /** What endpoint ownership means, without naming the pass that computes it: owners are
      pairwise disjoint, exactly the valid claims that overlap a lexically smaller owner are
      rejected, and each names the owner of its first end that is taken, A before B. */
  ghost predicate SolvesOwnership(claims: seq<Claim>, conflicts: map<string, string>) {
    && (forall c, d | c in claims && d in claims && c.name != d.name
          :: Owns(c, conflicts) && Owns(d, conflicts) ==> Keys(c.spec) !! Keys(d.spec))
    && (forall c | c in claims
          :: Conflicted(c.name, conflicts) <==> ValidSpec(c.spec) && Blocked(claims, conflicts, c))
    && (forall c | c in claims && Conflicted(c.name, conflicts) :: LostTo(claims, conflicts, c, conflicts[c.name]))
  }

  ghost predicate OwnsKey(done: seq<Claim>, conflicts: map<string, string>, d: Claim, k: string) {
    d in done && Owns(d, conflicts) && k in Keys(d.spec)
  }

  /** The claim table holds exactly the endpoints of the owners so far. */
  ghost predicate TableExact(done: seq<Claim>, claimed: map<string, string>, conflicts: map<string, string>) {
    && (forall k :: k in claimed ==> exists d :: OwnsKey(done, conflicts, d, k) && d.name == claimed[k])
    && (forall d, k :: OwnsKey(done, conflicts, d, k) ==> k in claimed && claimed[k] == d.name)
  }

  /** Only claims that were looked at have been rejected. */
  ghost predicate Mentions(done: seq<Claim>, conflicts: map<string, string>) {
    forall n :: n in conflicts ==> exists c :: c in done && c.name == n
  }

  /** Invariant of the pass over a sorted prefix. */
  ghost predicate Ownership(done: seq<Claim>, claimed: map<string, string>, conflicts: map<string, string>) {
    && SolvesOwnership(done, conflicts)
    && Mentions(done, conflicts)
    && TableExact(done, claimed, conflicts)
  }

  /** `c` sorts after every claim in `done`. */
  ghost predicate Newest(done: seq<Claim>, c: Claim) {
    forall d :: d in done ==> Less(d.name, c.name) && d.name != c.name && d.name != ""
  }

  /** The pass over one more claim: rejected exactly if a smaller owner holds an endpoint of it. */
  ghost predicate Ruled(done: seq<Claim>, c: Claim, before: map<string, string>, after: map<string, string>) {
    if before == after then
      ValidSpec(c.spec) ==> forall d :: d in done && Owns(d, before) ==> Keys(d.spec) !! Keys(c.spec)
    else
      && ValidSpec(c.spec) && c.name in after && after == before[c.name := after[c.name]] && after[c.name] != ""
      && Blocked(done, before, c) && LostTo(done, before, c, after[c.name])
  }

  lemma NewcomerRuled(done: seq<Claim>, c: Claim, claimed: map<string, string>, conflicts: map<string, string>)
    requires TableExact(done, claimed, conflicts)
    requires Newest(done, c) && c.name !in conflicts
    ensures Ruled(done, c, conflicts, FoldStep(c, claimed, conflicts).1)
  {
    if ValidSpec(c.spec) {
      var o := ClaimedBy(c.spec, claimed);
      if o != "" {
        NewcomerLoses(done, c, claimed, conflicts);
      } else {
        forall d, k | d in done && Owns(d, conflicts) && k in Keys(d.spec) ensures k !in Keys(c.spec) {
          assert OwnsKey(done, conflicts, d, k);
        }
      }
    }
  }

  lemma NewcomerLoses(done: seq<Claim>, c: Claim, claimed: map<string, string>, conflicts: map<string, string>)
    requires TableExact(done, claimed, conflicts) && Newest(done, c) && ClaimedBy(c.spec, claimed) != ""
    ensures Blocked(done, conflicts, c) && LostTo(done, conflicts, c, ClaimedBy(c.spec, claimed))
  {
    var ka, kb := EndpointKey(c.spec.a), EndpointKey(c.spec.b);
    forall d | BlocksAt(done, conflicts, d, c, c.spec.a) ensures ka in claimed && claimed[ka] == d.name != "" {
      assert OwnsKey(done, conflicts, d, ka);
    }
    var (e, k) := if c.spec.a.nodeName != HostNode && ka in claimed && claimed[ka] != "" then (c.spec.a, ka)
                  else (c.spec.b, kb);
    var d :| OwnsKey(done, conflicts, d, k) && d.name == claimed[k];
    assert BlocksAt(done, conflicts, d, c, e);
    assert k in Keys(d.spec) * Keys(c.spec);
    assert Blocks(done, conflicts, d, c);
  }

  lemma RuledKeepsTable(done: seq<Claim>, c: Claim, claimed: map<string, string>,
                        before: map<string, string>, after: map<string, string>)
    requires TableExact(done, claimed, before)
    requires Newest(done, c) && c.name !in before
    requires Ruled(done, c, before, after)
    ensures TableExact(done + [c], if Owns(c, after) then claimed + ClaimKeys(c) else claimed, after)
  {
    var all := done + [c];
    var table := if Owns(c, after) then claimed + ClaimKeys(c) else claimed;
    forall d, k | d in done ensures OwnsKey(all, after, d, k) == OwnsKey(done, before, d, k) {}
    forall k | k in table ensures exists d :: OwnsKey(all, after, d, k) && d.name == table[k] {
      if Owns(c, after) && k in Keys(c.spec) {
        assert OwnsKey(all, after, c, k);
      } else {
        var d :| OwnsKey(done, before, d, k) && d.name == claimed[k];
        assert OwnsKey(all, after, d, k);
      }
    }
    forall d, k | OwnsKey(all, after, d, k) ensures k in table && table[k] == d.name {
      if d in done {
        assert OwnsKey(done, before, d, k);
        assert Owns(c, after) ==> k !in Keys(c.spec);
      }
    }
  }

  lemma RuledKeepsSolution(done: seq<Claim>, c: Claim, before: map<string, string>, after: map<string, string>)
    requires SolvesOwnership(done, before)
    requires Newest(done, c) && c.name !in before
    requires Ruled(done, c, before, after)
    ensures SolvesOwnership(done + [c], after)
  {
    var all := done + [c];
    forall d | d in done ensures Owns(d, after) == Owns(d, before) && !Less(c.name, d.name) {
      LessAsymmetric(d.name, c.name);
    }
    forall d, x | x in done ensures Blocks(all, after, d, x) == Blocks(done, before, d, x) {}
    forall x | x in done ensures Blocked(all, after, x) == Blocked(done, before, x) {}
    LessIrreflexive(c.name);
    forall d ensures Blocks(all, after, d, c) == Blocks(done, before, d, c) {}
    forall x | x in all && Conflicted(x.name, after) ensures LostTo(all, after, x, after[x.name]) {
      SameLoss(done, before, all, after, x, after[x.name]);
    }
    assert Conflicted(c.name, after) <==> ValidSpec(c.spec) && Blocked(all, after, c);
  }

  lemma SameLoss(a: seq<Claim>, x: map<string, string>, b: seq<Claim>, y: map<string, string>, c: Claim, owner: string)
    requires forall d: Claim :: Less(d.name, c.name) ==> (d in a && Owns(d, x) <==> d in b && Owns(d, y))
    ensures LostTo(a, x, c, owner) == LostTo(b, y, c, owner)
  {
    forall d, e ensures BlocksAt(a, x, d, c, e) == BlocksAt(b, y, d, c, e) {}
  }

  lemma MentionsGrows(done: seq<Claim>, c: Claim, before: map<string, string>, after: map<string, string>)
    requires Mentions(done, before) && after.Keys <= before.Keys + {c.name}
    ensures Mentions(done + [c], after)
  {
    forall n | n in after ensures exists x :: x in done + [c] && x.name == n {
      if n in before {
        var x :| x in done && x.name == n;
        assert x in done + [c];
      } else {
        assert c in done + [c];
      }
    }
  }

  lemma NewestUnmentioned(done: seq<Claim>, c: Claim, conflicts: map<string, string>)
    requires Mentions(done, conflicts) && Newest(done, c)
    ensures c.name !in conflicts
  {
  }

  lemma OwnershipStep(done: seq<Claim>, c: Claim, claimed: map<string, string>, conflicts: map<string, string>)
    requires Newest(done, c)
    requires Ownership(done, claimed, conflicts)
    ensures var (cl, co) := FoldStep(c, claimed, conflicts);
            Ownership(done + [c], cl, co)
  {
    var (cl, co) := FoldStep(c, claimed, conflicts);
    NewestUnmentioned(done, c, conflicts);
    NewcomerRuled(done, c, claimed, conflicts);
    assert cl == if Owns(c, co) then claimed + ClaimKeys(c) else claimed;
    assert co.Keys <= conflicts.Keys + {c.name};
    RuledKeepsTable(done, c, claimed, conflicts, co);
    RuledKeepsSolution(done, c, conflicts, co);
    MentionsGrows(done, c, conflicts, co);
  }

  lemma {:induction false} FoldedOwnership(all: seq<Claim>)
    requires Sorted(all, (c: Claim) => c.name)
    requires forall c :: c in all ==> c.name != ""
    ensures Ownership(all, Folded(all).0, Folded(all).1)
    decreases |all|
  {
    if |all| > 0 {
      var n := |all| - 1;
      var done, c := all[..n], all[n];
      assert all == done + [c];
      FoldedOwnership(done);
      forall d | d in done ensures Less(d.name, c.name) && d.name != c.name && d.name != "" {
        var j :| 0 <= j < n && all[j] == d;
        LessIrreflexive(c.name);
        assert d in all;
      }
      OwnershipStep(done, c, Folded(done).0, Folded(done).1);
    }
  }

  /** The sorted pass solves endpoint ownership. */
  lemma ConflictsSolveOwnership(claims: seq<Claim>)
    requires forall c :: c in claims ==> c.name != ""
    requires DistinctKeys(claims, (c: Claim) => c.name)
    ensures SolvesOwnership(claims, Conflicts(Sort(claims, (c: Claim) => c.name)))
  {
    var byName := (c: Claim) => c.name;
    var all := Sort(claims, byName);
    SortSorted(claims, byName);
    SameElements(all, claims);
    FoldedOwnership(all);
    SolvedForAnyOrder(all, claims, Conflicts(all));
  }

  lemma SolvedForAnyOrder(a: seq<Claim>, b: seq<Claim>, conflicts: map<string, string>)
    requires forall x :: x in a <==> x in b
    requires SolvesOwnership(a, conflicts)
    ensures SolvesOwnership(b, conflicts)
  {
    forall d, c ensures Blocks(a, conflicts, d, c) == Blocks(b, conflicts, d, c) {}
    forall c ensures Blocked(a, conflicts, c) == Blocked(b, conflicts, c) {}
    forall c | c in b && Conflicted(c.name, conflicts) ensures LostTo(b, conflicts, c, conflicts[c.name]) {
      SameLoss(a, conflicts, b, conflicts, c, conflicts[c.name]);
    }
  }

  /** Both maps say the same about the claim. */
  ghost predicate SameVerdict(c: Claim, x: map<string, string>, y: map<string, string>) {
    && (Conflicted(c.name, x) <==> Conflicted(c.name, y))
    && (Conflicted(c.name, x) ==> x[c.name] == y[c.name])
  }

  /** Ownership has one solution: who is rejected, and by whom, follows from the claims. */
  lemma OwnershipHasOneSolution(claims: seq<Claim>, x: map<string, string>, y: map<string, string>, c: Claim)
    requires DistinctKeys(claims, (c: Claim) => c.name) && SolvesOwnership(claims, x) && SolvesOwnership(claims, y)
    requires c in claims
    ensures SameVerdict(c, x, y)
  {
    var byName := (c: Claim) => c.name;
    var all := Sort(claims, byName);
    SortSorted(claims, byName);
    SameElements(all, claims);
    SameOnPrefix(claims, all, x, y, |all|);
    var i :| 0 <= i < |all| && all[i] == c;
  }

  lemma {:induction false} SameOnPrefix(claims: seq<Claim>, all: seq<Claim>, x: map<string, string>,
                                        y: map<string, string>,
                                        k: nat)
    requires Sorted(all, (c: Claim) => c.name) && (forall c :: c in all <==> c in claims) && k <= |all|
    requires SolvesOwnership(claims, x) && SolvesOwnership(claims, y)
    ensures forall i :: 0 <= i < k ==> SameVerdict(all[i], x, y)
    decreases k
  {
    if k > 0 {
      SameOnPrefix(claims, all, x, y, k - 1);
      var c := all[k - 1];
      forall d: Claim | Less(d.name, c.name) ensures d in claims && Owns(d, x) <==> d in claims && Owns(d, y) {
        if d in claims {
          SmallerIsEarlier(all, k - 1, d);
        }
      }
      SameRuling(claims, x, y, c);
    }
  }

  lemma SmallerIsEarlier(all: seq<Claim>, k: nat, d: Claim)
    requires Sorted(all, (c: Claim) => c.name) && k < |all| && d in all && Less(d.name, all[k].name)
    ensures d in all[..k]
  {
    var j :| 0 <= j < |all| && all[j] == d;
    LessIrreflexive(d.name);
    if k < j {
      LessAsymmetric(all[k].name, d.name);
    }
  }

  lemma SameRuling(claims: seq<Claim>, x: map<string, string>, y: map<string, string>, c: Claim)
    requires SolvesOwnership(claims, x) && SolvesOwnership(claims, y) && c in claims
    requires forall d: Claim :: Less(d.name, c.name) ==> (d in claims && Owns(d, x) <==> d in claims && Owns(d, y))
    ensures SameVerdict(c, x, y)
  {
    forall d ensures Blocks(claims, x, d, c) == Blocks(claims, y, d, c) {}
    assert Blocked(claims, x, c) == Blocked(claims, y, c);
    if Conflicted(c.name, x) {
      SameLoss(claims, x, claims, y, c, x[c.name]);
      LossIsUnique(claims, y, c, x[c.name], y[c.name]);
    }
  }

  lemma LossIsUnique(claims: seq<Claim>, conflicts: map<string, string>, c: Claim, o: string, p: string)
    requires SolvesOwnership(claims, conflicts)
    requires LostTo(claims, conflicts, c, o) && LostTo(claims, conflicts, c, p)
    ensures o == p
  {
    var e := if exists d :: BlocksAt(claims, conflicts, d, c, c.spec.a) then c.spec.a else c.spec.b;
    var d :| BlocksAt(claims, conflicts, d, c, e) && d.name == o;
    var f :| BlocksAt(claims, conflicts, f, c, e) && f.name == p;
    assert EndpointKey(e) in Keys(d.spec) * Keys(f.spec);
  }

  // ---------------------------------------------------------------- ownership on endpoints

  /** Names of Nodes hold no colon. */
  predicate PlainEnds(spec: Spec) {
    ':' !in spec.a.nodeName && ':' !in spec.b.nodeName
  }

  /** The spec has this end, and it is not at the host. */
  predicate HasEnd(spec: Spec, e: Endpoint) {
    e.nodeName != "host" && (spec.a == e || spec.b == e)
  }

  /** Both have one and the same end: the same interface of the same Node. */
  ghost predicate Overlap(s: Spec, t: Spec) {
    exists e :: HasEnd(s, e) && HasEnd(t, e)
  }

  /** The spec joins two different interfaces, not both of the host. */
  predicate Joins(spec: Spec) {
    && !(spec.a.nodeName == "host" && spec.b.nodeName == "host")
    && (spec.a.nodeName != spec.b.nodeName || spec.a.interfaceName != spec.b.interfaceName)
  }

  /** Of the valid claims, the owner is one that no conflict is reported for. */
  ghost predicate IsOwner(conflicts: map<string, string>, d: Claim) {
    Joins(d.spec) && (d.name in conflicts ==> conflicts[d.name] == "")
  }

  /** `d` is a lexically smaller owner of this end. */
  ghost predicate SmallerOwner(claims: seq<Claim>, conflicts: map<string, string>, d: Claim, c: Claim, e: Endpoint) {
    d in claims && Less(d.name, c.name) && IsOwner(conflicts, d) && HasEnd(d.spec, e)
  }

  ghost predicate EndTaken(claims: seq<Claim>, conflicts: map<string, string>, c: Claim, e: Endpoint) {
    exists d :: SmallerOwner(claims, conflicts, d, c, e)
  }

  /** Ownership on nodes and interfaces: a valid claim is rejected exactly if a smaller owner has one of its
      ends, it names the owner of end A, or of end B if A is free, and owners have no end in common. */
  ghost predicate EndpointOwnership(claims: seq<Claim>, conflicts: map<string, string>) {
    && (forall c | c in claims :: Conflicted(c.name, conflicts) <==>
          Joins(c.spec) && (EndTaken(claims, conflicts, c, c.spec.a) || EndTaken(claims, conflicts, c, c.spec.b)))
    && (forall c | c in claims && Conflicted(c.name, conflicts) ::
          var e := if EndTaken(claims, conflicts, c, c.spec.a) then c.spec.a else c.spec.b;
          exists d :: SmallerOwner(claims, conflicts, d, c, e) && d.name == conflicts[c.name])
    && (forall c, d | c in claims && d in claims && c.name != d.name && IsOwner(conflicts, c) && IsOwner(conflicts, d)
          :: !Overlap(c.spec, d.spec))
  }

  /** A key stands for one interface of one Node. */
  lemma EndpointKeyIff(e: Endpoint, f: Endpoint)
    requires ':' !in e.nodeName && ':' !in f.nodeName
    ensures EndpointKey(e) == EndpointKey(f) <==> e == f
  {
    if EndpointKey(e) == EndpointKey(f) {
      var k, m, n := EndpointKey(e), |e.nodeName|, |f.nodeName|;
      assert k[m] == ':' && forall i :: 0 <= i < m ==> k[i] == e.nodeName[i] && k[i] != ':';
      assert k[n] == ':' && forall i :: 0 <= i < n ==> k[i] == f.nodeName[i] && k[i] != ':';
      assert e.nodeName == k[..m] == f.nodeName;
      assert e.interfaceName == k[m + 1..] == f.interfaceName;
    }
  }

  lemma KeyInIff(spec: Spec, e: Endpoint)
    requires PlainEnds(spec) && ':' !in e.nodeName && e.nodeName != HostNode
    ensures EndpointKey(e) in Keys(spec) <==> HasEnd(spec, e)
  {
    EndpointKeyIff(spec.a, e);
    EndpointKeyIff(spec.b, e);
  }

  /** Keys meet exactly if the specs overlap. */
  lemma KeysMeetIff(s: Spec, t: Spec)
    requires PlainEnds(s) && PlainEnds(t)
    ensures Keys(s) !! Keys(t) <==> !Overlap(s, t)
  {
    if e :| HasEnd(s, e) && HasEnd(t, e) {
      KeyInIff(s, e);
      KeyInIff(t, e);
      assert EndpointKey(e) in Keys(s) && EndpointKey(e) in Keys(t);
    }
    if !(Keys(s) !! Keys(t)) {
      var k :| k in Keys(s) && k in Keys(t);
      var e := if s.a.nodeName != HostNode && k == EndpointKey(s.a) then s.a else s.b;
      KeyInIff(t, e);
      assert HasEnd(s, e) && HasEnd(t, e);
    }
  }

  lemma BlocksAtIff(claims: seq<Claim>, conflicts: map<string, string>, d: Claim, c: Claim, e: Endpoint)
    requires (forall x :: x in claims ==> PlainEnds(x.spec)) && ':' !in e.nodeName
    ensures BlocksAt(claims, conflicts, d, c, e) <==> SmallerOwner(claims, conflicts, d, c, e)
  {
    if d in claims && e.nodeName != HostNode { KeyInIff(d.spec, e); }
  }

  lemma TakenIff(claims: seq<Claim>, conflicts: map<string, string>, c: Claim, e: Endpoint, o: string)
    requires (forall x :: x in claims ==> PlainEnds(x.spec)) && ':' !in e.nodeName
    ensures (exists d :: BlocksAt(claims, conflicts, d, c, e)) <==> EndTaken(claims, conflicts, c, e)
    ensures (exists d :: BlocksAt(claims, conflicts, d, c, e) && d.name == o) <==>
            (exists d :: SmallerOwner(claims, conflicts, d, c, e) && d.name == o)
  {
    forall d ensures BlocksAt(claims, conflicts, d, c, e) <==> SmallerOwner(claims, conflicts, d, c, e) {
      BlocksAtIff(claims, conflicts, d, c, e);
    }
  }

  lemma BlockedIff(claims: seq<Claim>, conflicts: map<string, string>, c: Claim)
    requires (forall x :: x in claims ==> PlainEnds(x.spec)) && c in claims
    ensures Blocked(claims, conflicts, c) <==>
              EndTaken(claims, conflicts, c, c.spec.a) || EndTaken(claims, conflicts, c, c.spec.b)
  {
    TakenIff(claims, conflicts, c, c.spec.a, "");
    TakenIff(claims, conflicts, c, c.spec.b, "");
    forall d ensures Blocks(claims, conflicts, d, c) <==>
        BlocksAt(claims, conflicts, d, c, c.spec.a) || BlocksAt(claims, conflicts, d, c, c.spec.b) {
      BlocksAtSomeEnd(claims, conflicts, d, c);
    }
  }

  /** What the pass solves, stated on nodes and interfaces. */
  lemma OwnershipOnEndpoints(claims: seq<Claim>, conflicts: map<string, string>)
    requires SolvesOwnership(claims, conflicts) && forall c :: c in claims ==> PlainEnds(c.spec)
    ensures EndpointOwnership(claims, conflicts)
  {
    forall c | c in claims ensures Conflicted(c.name, conflicts) <==>
        Joins(c.spec) && (EndTaken(claims, conflicts, c, c.spec.a) || EndTaken(claims, conflicts, c, c.spec.b)) {
      BlockedIff(claims, conflicts, c);
    }
    forall c | c in claims && Conflicted(c.name, conflicts)
      ensures var e := if EndTaken(claims, conflicts, c, c.spec.a) then c.spec.a else c.spec.b;
              exists d :: SmallerOwner(claims, conflicts, d, c, e) && d.name == conflicts[c.name]
    {
      TakenIff(claims, conflicts, c, c.spec.a, conflicts[c.name]);
      TakenIff(claims, conflicts, c, c.spec.b, conflicts[c.name]);
      assert LostTo(claims, conflicts, c, conflicts[c.name]);
    }
    forall c, d | c in claims && d in claims && c.name != d.name && IsOwner(conflicts, c) && IsOwner(conflicts, d)
      ensures !Overlap(c.spec, d.spec)
    {
      assert Owns(c, conflicts) && Owns(d, conflicts);
      KeysMeetIff(c.spec, d.spec);
    }
  }

  /** The owner named is the lexically first of those that `c` lost to. */
  ghost predicate NamesLeast(claims: seq<Claim>, conflicts: map<string, string>, c: Claim)
    requires Conflicted(c.name, conflicts)
  {
    forall d :: Blocks(claims, conflicts, d, c) ==> conflicts[c.name] == d.name || Less(conflicts[c.name], d.name)
  }

  /** No owner of end A sorts after an owner of end B. */
  ghost predicate OwnersInOrder(claims: seq<Claim>, conflicts: map<string, string>, c: Claim) {
    forall d, e :: BlocksAt(claims, conflicts, d, c, c.spec.a) && BlocksAt(claims, conflicts, e, c, c.spec.b) ==>
      d.name == e.name || Less(d.name, e.name)
  }

  /** The lexically first owner is named exactly if the owners of the two ends come in that order. */
  lemma NamesLeastByOwners(claims: seq<Claim>, conflicts: map<string, string>, c: Claim)
    requires SolvesOwnership(claims, conflicts) && c in claims && Conflicted(c.name, conflicts)
    ensures NamesLeast(claims, conflicts, c) <==> OwnersInOrder(claims, conflicts, c)
  {
    var o := conflicts[c.name];
    forall d | d in claims ensures Blocks(claims, conflicts, d, c) <==>
        BlocksAt(claims, conflicts, d, c, c.spec.a) || BlocksAt(claims, conflicts, d, c, c.spec.b) {
      BlocksAtSomeEnd(claims, conflicts, d, c);
    }
    forall d | BlocksAt(claims, conflicts, d, c, c.spec.a) ensures d.name == o {
      LossIsUnique(claims, conflicts, c, d.name, o);
    }
    if forall d :: !BlocksAt(claims, conflicts, d, c, c.spec.a) {
      forall d | BlocksAt(claims, conflicts, d, c, c.spec.b) ensures d.name == o {
        LossIsUnique(claims, conflicts, c, d.name, o);
      }
    }
  }

  lemma BlocksAtSomeEnd(claims: seq<Claim>, conflicts: map<string, string>, d: Claim, c: Claim)
    ensures Blocks(claims, conflicts, d, c) <==>
              BlocksAt(claims, conflicts, d, c, c.spec.a) || BlocksAt(claims, conflicts, d, c, c.spec.b)
  {
    if BlocksAt(claims, conflicts, d, c, c.spec.a) {
      assert EndpointKey(c.spec.a) in Keys(d.spec) * Keys(c.spec);
    }
    if BlocksAt(claims, conflicts, d, c, c.spec.b) {
      assert EndpointKey(c.spec.b) in Keys(d.spec) * Keys(c.spec);
    }
  }

  /** This end is claimed in the table. */
  predicate Taken(claimed: map<string, string>, e: Endpoint) {
    e.nodeName != HostNode && EndpointKey(e) in claimed
  }

  /** If both ends are claimed, the claimant of end A does not sort after that of end B. */
  predicate EndsInOrder(claimed: map<string, string>, spec: Spec) {
    Taken(claimed, spec.a) && Taken(claimed, spec.b) ==>
      !Less(claimed[EndpointKey(spec.b)], claimed[EndpointKey(spec.a)])
  }

  /** The verdict on a claim stands once it is given. */
  lemma {:induction false} VerdictStands(all: seq<Claim>, k: nat, d: Claim)
    requires Sorted(all, (c: Claim) => c.name) && k <= |all| && d in all[..k]
    ensures Owns(d, Folded(all).1) == Owns(d, Folded(all[..k]).1)
    decreases |all|
  {
    if k == |all| {
      assert all[..k] == all;
    } else {
      var n := |all| - 1;
      assert all[..n][..k] == all[..k];
      VerdictStands(all[..n], k, d);
      var j :| 0 <= j < k && all[j] == d;
      LessIrreflexive(d.name);
      assert d.name != all[n].name;
    }
  }

  /** Smaller owners are those that own when the Link's turn comes. */
  lemma OwnersComeEarlier(all: seq<Claim>, k: nat, d: Claim, e: Endpoint)
    requires Sorted(all, (c: Claim) => c.name) && k < |all|
    ensures BlocksAt(all, Conflicts(all), d, all[k], e) <==>
              OwnsKey(all[..k], Folded(all[..k]).1, d, EndpointKey(e)) && e.nodeName != HostNode
  {
    if d in all[..k] {
      VerdictStands(all, k, d);
      var j :| 0 <= j < k && all[j] == d;
    } else if d in all && Less(d.name, all[k].name) {
      SmallerIsEarlier(all, k, d);
    }
  }

  /** The table before a Link's turn holds for each of its ends the smaller owner, if there is one. */
  lemma TableHoldsOwners(all: seq<Claim>, k: nat, e: Endpoint)
    requires Sorted(all, (c: Claim) => c.name) && (forall c :: c in all ==> c.name != "") && k < |all|
    ensures var claimed := Folded(all[..k]).0;
            && (forall d :: BlocksAt(all, Conflicts(all), d, all[k], e) ==>
                  Taken(claimed, e) && claimed[EndpointKey(e)] == d.name)
            && (Taken(claimed, e) ==>
                  exists d :: BlocksAt(all, Conflicts(all), d, all[k], e) && claimed[EndpointKey(e)] == d.name)
  {
    var claimed, before := Folded(all[..k]).0, Folded(all[..k]).1;
    FoldedOwnership(all[..k]);
    forall d | BlocksAt(all, Conflicts(all), d, all[k], e)
      ensures Taken(claimed, e) && claimed[EndpointKey(e)] == d.name
    {
      OwnersComeEarlier(all, k, d, e);
    }
    if Taken(claimed, e) {
      var d :| OwnsKey(all[..k], before, d, EndpointKey(e)) && d.name == claimed[EndpointKey(e)];
      OwnersComeEarlier(all, k, d, e);
    }
  }

  /** The lexically first owner is missed exactly if, when the Link's turn comes, both of its ends are
      claimed and the claimant of end B sorts before that of end A. */
  lemma NamesLeastIff(all: seq<Claim>, k: nat)
    requires Sorted(all, (c: Claim) => c.name) && (forall c :: c in all ==> c.name != "")
    requires k < |all| && Conflicted(all[k].name, Conflicts(all))
    ensures NamesLeast(all, Conflicts(all), all[k]) <==> EndsInOrder(Folded(all[..k]).0, all[k].spec)
  {
    var claimed, spec := Folded(all[..k]).0, all[k].spec;
    FoldedOwnership(all);
    NamesLeastByOwners(all, Conflicts(all), all[k]);
    TableHoldsOwners(all, k, spec.a);
    TableHoldsOwners(all, k, spec.b);
    if Taken(claimed, spec.a) && Taken(claimed, spec.b) {
      var a, b := claimed[EndpointKey(spec.a)], claimed[EndpointKey(spec.b)];
      LessTotal(a, b);
      LessIrreflexive(a);
      if Less(a, b) { LessAsymmetric(a, b); }
    }
  }

  /** Otherwise the owner of end A is named: here `c` lost to `a` and to `b` and names `b`. */
  lemma LaterOwnerIsNamed(a: Claim, b: Claim, c: Claim)
    requires a == Claim("a", Spec(Endpoint("x", "1"), Endpoint("y", "1"), 0))
    requires b == Claim("b", Spec(Endpoint("z", "1"), Endpoint("w", "1"), 0))
    requires c == Claim("c", Spec(Endpoint("z", "1"), Endpoint("x", "1"), 0))
    ensures Conflicts([a, b, c]) == map["c" := "b"]
    ensures Blocks([a, b, c], map["c" := "b"], a, c) && !NamesLeast([a, b, c], map["c" := "b"], c)
  {
    var x, y, z, w := EndpointKey(a.spec.a), EndpointKey(a.spec.b), EndpointKey(b.spec.a), EndpointKey(b.spec.b);
    assert x == "x:1" && y == "y:1" && z == "z:1" && w == "w:1";
    assert x[0] != y[0] && x[0] != z[0] && x[0] != w[0] && y[0] != z[0] && z[0] != w[0];
    assert |HostNode| == 4;
    FoldOwner([], a);
    FoldOwner([a], b);
    assert [a] + [b] == [a, b] && [a, b, c][..2] == [a, b];
    assert Less("a", "c") && Less("a", "b") && !Less("b", "a");
    assert x in Keys(a.spec) * Keys(c.spec);
  }

  lemma FoldOwner(done: seq<Claim>, c: Claim)
    requires ValidSpec(c.spec) && ClaimedBy(c.spec, Folded(done).0) == ""
    ensures Folded(done + [c]) == (Folded(done).0 + ClaimKeys(c), Folded(done).1)
  {
    assert (done + [c])[..|done|] == done;
  }

  // ---------------------------------------------------------------- endpoint binding

  /** The binding wanted for the current spec, or the report that a bound Node is gone. */
  datatype Resolution = Resolved(binding: Option<Binding>) | Stale

  predicate Complete(b: Bound) {
    b.nodeName == HostNode || b.uid != ""
  }

  /** A complete binding that still names the endpoints of the spec. */
  predicate BindingMatches(spec: Spec, observed: Option<Binding>) {
    && observed.Some?
    && observed.value.a.nodeName == spec.a.nodeName
    && observed.value.b.nodeName == spec.b.nodeName
    && Complete(observed.value.a) && Complete(observed.value.b)
  }

  /** The Node that carried this identity was deleted or replaced. */
  predicate Gone(b: Bound, nodes: Nodes) {
    b.nodeName != HostNode && !(b.nodeName in nodes && nodes[b.nodeName].uid == b.uid)
  }

  /** The end is at the host, or at a listed Node that has a UID. */
  predicate Bindable(e: Endpoint, nodes: Nodes) {
    e.nodeName == "host" || (e.nodeName in nodes && nodes[e.nodeName].uid != "")
  }

  /** The name of the end, with the UID of its Node and none for the host. */
  function Identity(e: Endpoint, nodes: Nodes): Bound {
    Bound(e.nodeName, if e.nodeName != "host" && e.nodeName in nodes then nodes[e.nodeName].uid else "")
  }

  function ResolveEndpoint(nodeName: string, nodes: Nodes): Option<Bound> {
    if nodeName == HostNode then Some(Bound(nodeName, ""))
    else if nodeName !in nodes || nodes[nodeName].uid == "" then None
    else Some(Bound(nodeName, nodes[nodeName].uid))
  }

  function ResolveLinkEndpoints(spec: Spec, observed: Option<Binding>, nodes: Nodes): (r: Resolution)
    // Both ends or none, complete, naming the spec, and of Nodes that are there.
    ensures r.Resolved? && r.binding.Some? ==>
              && BindingMatches(spec, r.binding)
              && !Gone(r.binding.value.a, nodes) && !Gone(r.binding.value.b, nodes)
    // A binding that names the spec is kept as it is or reported stale, never replaced.
    ensures BindingMatches(spec, observed) ==>
              r == if Gone(observed.value.a, nodes) || Gone(observed.value.b, nodes) then Stale else Resolved(observed)
    // A new binding is made exactly if both ends can be bound, with the UID of a Node and none for the host.
    ensures !BindingMatches(spec, observed) ==>
              r == Resolved(if Bindable(spec.a, nodes) && Bindable(spec.b, nodes)
                            then Some(Binding(Identity(spec.a, nodes), Identity(spec.b, nodes))) else None)
  {
    if BindingMatches(spec, observed) then
      if Gone(observed.value.a, nodes) then Stale
      else if Gone(observed.value.b, nodes) then Stale
      else Resolved(observed)
    else
      var a := ResolveEndpoint(spec.a.nodeName, nodes);
      var b := ResolveEndpoint(spec.b.nodeName, nodes);
      if a.None? || b.None? then Resolved(None)
      else Resolved(Some(Binding(a.value, b.value)))
  }

  /** Resolving again from what was resolved changes nothing. */
  lemma ResolutionIsStable(spec: Spec, observed: Option<Binding>, nodes: Nodes)
    requires ResolveLinkEndpoints(spec, observed, nodes).Resolved?
    ensures var b := ResolveLinkEndpoints(spec, observed, nodes).binding;
            ResolveLinkEndpoints(spec, b, nodes) == Resolved(b)
  {
  }
}
