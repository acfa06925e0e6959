/** Pod groups: `network-mode: container:<primary>` references form a graph on node names. The
    compiler's validator walks it before anything is created, the controllers walk it again at
    run time to find the Pod that hosts a node.
  */
module PodGroups {
  import opened Ordering

  const ContainerPrefix := "container:"

  /** Node name to `network-mode`. */
  type Modes = map<string, string>

  function ParseContainer(mode: string): string {
    if ContainerPrefix <= mode then mode[|ContainerPrefix|..] else ""
  }

  /** The node whose network namespace `n` shares, or the empty name. */
  function Next(modes: Modes, n: string): string {
    if n in modes then ParseContainer(modes[n]) else ""
  }

  /** The `k`-th node of the chain of primaries that starts at `n`; empty once it has ended. */
  function Chain(modes: Modes, n: string, k: nat): string {
    if k == 0 then n else Next(modes, Chain(modes, n, k - 1))
  }

  /** The `k`-th node of the chain refers to another node. */
  ghost predicate Continues(modes: Modes, n: string, k: nat) {
    Next(modes, Chain(modes, n, k)) != ""
  }

  /** The chain of `n` ends at its `k`-th node. */
  ghost predicate EndsAt(modes: Modes, n: string, k: nat) {
    !Continues(modes, n, k) && forall i: nat :: i < k ==> Continues(modes, n, i)
  }

  /** The first `k` nodes of the chain. */
  ghost function Visited(modes: Modes, n: string, k: nat): set<string> {
    if k == 0 then {} else Visited(modes, n, k - 1) + {Chain(modes, n, k - 1)}
  }

  /** The `k`-th node of the chain is one it has already passed. */
  ghost predicate ReturnsAt(modes: Modes, n: string, k: nat) {
    Chain(modes, n, k) != "" && Chain(modes, n, k) in Visited(modes, n, k)
  }

  ghost predicate Revisits(modes: Modes, n: string) {
    exists k: nat :: ReturnsAt(modes, n, k)
  }

  /** The first `k` nodes of the chain are different and none has ended it. */
  ghost predicate Fresh(modes: Modes, n: string, k: nat) {
    k == 0 || (
      && Fresh(modes, n, k - 1)
      && Chain(modes, n, k - 1) != "" && Chain(modes, n, k - 1) !in Visited(modes, n, k - 1))
  }

  lemma {:induction false} FreshCounts(modes: Modes, n: string, k: nat)
    requires Fresh(modes, n, k)
    ensures |Visited(modes, n, k)| == k
    decreases k
  {
    if k > 0 {
      FreshCounts(modes, n, k - 1);
    }
  }

  lemma {:induction false} FreshBefore(modes: Modes, n: string, k: nat, i: nat)
    requires Fresh(modes, n, k) && i < k
    ensures !ReturnsAt(modes, n, i)
    decreases k
  {
    if i < k - 1 {
      FreshBefore(modes, n, k - 1, i);
    }
  }

  lemma {:induction false} VisitedAt(modes: Modes, n: string, k: nat, x: string) returns (i: nat)
    requires x in Visited(modes, n, k)
    ensures i < k && Chain(modes, n, i) == x
    decreases k
  {
    if Chain(modes, n, k - 1) == x {
      i := k - 1;
    } else {
      i := VisitedAt(modes, n, k - 1, x);
    }
  }

  lemma {:induction false} ChainShift(modes: Modes, n: string, k: nat, d: nat)
    ensures Chain(modes, n, k + d) == Chain(modes, Chain(modes, n, k), d)
    decreases d
  {
    if d > 0 {
      ChainShift(modes, n, k, d - 1);
    }
  }

  lemma ChainRepeats(modes: Modes, n: string, a: nat, b: nat, d: nat)
    requires Chain(modes, n, a) == Chain(modes, n, b)
    ensures Chain(modes, n, a + d) == Chain(modes, n, b + d)
  {
    ChainShift(modes, n, a, d);
    ChainShift(modes, n, b, d);
  }

  /** A chain that ends has no repetition up to its end. */
  lemma EndedChainDistinct(modes: Modes, n: string, k: nat, i: nat, j: nat)
    requires EndsAt(modes, n, k)
    requires i < j <= k
    ensures Chain(modes, n, i) != Chain(modes, n, j)
  {
    assert Continues(modes, n, i + (k - j));
    if Chain(modes, n, i) == Chain(modes, n, j) {
      ChainRepeats(modes, n, i, j, k - j);
    }
  }

  // ---------------------------------------------------------------- run-time resolution

  function ResolveFrom(modes: Modes, current: string, seen: set<string>): string
    requires current in seen ==> Next(modes, current) == current
    decreases |modes.Keys - seen|
  {
    var primary := Next(modes, current);
    if primary == "" || primary in seen then current
    else
      assert current in modes.Keys - seen;
      assert modes.Keys - (seen + {current}) == (modes.Keys - seen) - {current};
      ResolveFrom(modes, primary, seen + {current})
  }

  /** The node whose Pod hosts `n`. */
  function Resolve(modes: Modes, n: string): string {
    ResolveFrom(modes, n, {})
  }

  method ResolvePrimaryNode(modes: Modes, nodeName: string) returns (r: string)
    ensures r == Resolve(modes, nodeName)
  {
    var seen: set<string> := {};
    var current := nodeName;
    while true
      invariant current in seen ==> Next(modes, current) == current
      invariant ResolveFrom(modes, current, seen) == Resolve(modes, nodeName)
      decreases |modes.Keys - seen|
    {
      if current !in modes {
        return current;
      }
      var primary := ParseContainer(modes[current]);
      if primary == "" {
        return current;
      }
      if primary in seen {
        return current;
      }
      ResolveStep(modes, current, seen);
      seen := seen + {current};
      current := primary;
    }
  }

  lemma ResolveStep(modes: Modes, current: string, seen: set<string>)
    requires current in seen ==> Next(modes, current) == current
    requires Next(modes, current) != "" && Next(modes, current) !in seen
    ensures var primary, after := Next(modes, current), seen + {current};
            && (primary in after ==> Next(modes, primary) == primary)
            && ResolveFrom(modes, current, seen) == ResolveFrom(modes, primary, after)
            && |modes.Keys - after| < |modes.Keys - seen|
  {
    assert modes.Keys - (seen + {current}) == (modes.Keys - seen) - {current};
  }

  /** On a chain that ends, resolution finds the end. */
  lemma {:induction false} ResolveFromEnd(modes: Modes, n: string, k: nat, i: nat)
    requires EndsAt(modes, n, k) && i <= k
    ensures Chain(modes, n, i) !in Visited(modes, n, i)
    ensures ResolveFrom(modes, Chain(modes, n, i), Visited(modes, n, i)) == Chain(modes, n, k)
    decreases k - i
  {
    var current, seen := Chain(modes, n, i), Visited(modes, n, i);
    if current in seen {
      var j := VisitedAt(modes, n, i, current);
      EndedChainDistinct(modes, n, k, j, i);
    }
    assert Continues(modes, n, i) <==> i < k;
    if i < k {
      ResolveFromEnd(modes, n, k, i + 1);
      assert Chain(modes, n, i + 1) == Next(modes, current);
      EndedChainDistinct(modes, n, k, i, i + 1);
      assert Visited(modes, n, i + 1) == seen + {current};
    }
  }

  /** ... wherever on the chain it starts. */
  lemma ResolveFindsEnd(modes: Modes, n: string, k: nat, i: nat)
    requires EndsAt(modes, n, k) && i <= k
    ensures Resolve(modes, Chain(modes, n, i)) == Chain(modes, n, k)
  {
    var m := Chain(modes, n, i);
    forall d: nat ensures Chain(modes, n, i + d) == Chain(modes, m, d) {
      ChainShift(modes, n, i, d);
    }
    forall d: nat | d < k - i ensures Continues(modes, m, d) {
      assert Continues(modes, n, i + d);
    }
    assert Chain(modes, n, i + (k - i)) == Chain(modes, m, k - i);
    ResolveFromEnd(modes, m, k - i, 0);
  }

  /** A walk that has not come back to a seen node never ends at one. */
  lemma {:induction false} ResolveAvoidsSeen(modes: Modes, current: string, seen: set<string>)
    requires current !in seen
    ensures ResolveFrom(modes, current, seen) !in seen
    decreases |modes.Keys - seen|
  {
    var primary := Next(modes, current);
    if primary != "" && primary !in seen {
      ResolveStep(modes, current, seen);
      if primary != current {
        ResolveAvoidsSeen(modes, primary, seen + {current});
      }
    }
  }

  /** A node hosts itself, so that the Node controller plans a Pod for it, exactly if it shares no
      namespace or names itself. A longer cycle has no such node. */
  lemma HostsItselfIff(modes: Modes, n: string)
    ensures Resolve(modes, n) == n <==> Next(modes, n) == "" || Next(modes, n) == n
  {
    var primary := Next(modes, n);
    if primary != "" {
      ResolveStep(modes, n, {});
      assert {} + {n} == {n};
      if primary != n {
        ResolveAvoidsSeen(modes, primary, {n});
      }
    }
  }

  // ---------------------------------------------------------------- compile-time validation

  datatype Verdict = Fine | Unsupported | UnknownPrimary | Cycle

  datatype Diagnostic = Diagnostic(node: string, verdict: Verdict)

  /** What the validator has to say about one node, stated on the graph rather than on a walk. */
  ghost function VerdictFor(modes: Modes, sanitizes: string -> bool, n: string): Verdict
    requires n in modes
  {
    var primary := ParseContainer(modes[n]);
    if modes[n] == "" then Fine
    else if primary == "" || !sanitizes(primary) then Unsupported
    else if primary !in modes then UnknownPrimary
    else if Revisits(modes, n) then Cycle
    else Fine
  }

  ghost function Report(modes: Modes, sanitizes: string -> bool, names: seq<string>): seq<Diagnostic>
    requires forall x :: x in names ==> x in modes
  {
    if |names| == 0 then []
    else
      var n := |names| - 1;
      var verdict := VerdictFor(modes, sanitizes, names[n]);
      Report(modes, sanitizes, names[..n]) +
      if verdict == Fine then [] else [Diagnostic(names[n], verdict)]
  }

  lemma {:induction false} EmptyStaysEmpty(modes: Modes, n: string, k: nat, d: nat)
    requires "" !in modes
    requires Chain(modes, n, k) == ""
    ensures Chain(modes, n, k + d) == ""
    decreases d
  {
    if d > 0 {
      EmptyStaysEmpty(modes, n, k, d - 1);
    }
  }

  lemma EndedChainNeverRevisits(modes: Modes, n: string, k: nat)
    requires "" !in modes
    requires Chain(modes, n, k) == "" && Fresh(modes, n, k)
    ensures !Revisits(modes, n)
  {
    forall j: nat ensures !ReturnsAt(modes, n, j) {
      if j < k {
        FreshBefore(modes, n, k, j);
      } else {
        EmptyStaysEmpty(modes, n, k, j - k);
      }
    }
  }

  /** The inner walk of the validator: does the chain of `nodeName` come back to a seen node? */
  method WalkFindsCycle(modes: Modes, nodeName: string) returns (cycle: bool)
    requires "" !in modes
    requires nodeName in modes && Next(modes, nodeName) != ""
    ensures cycle <==> Revisits(modes, nodeName)
  {
    var seen := {nodeName};
    var current := ParseContainer(modes[nodeName]);
    ghost var k: nat := 1;
    assert Visited(modes, nodeName, 1) == {Chain(modes, nodeName, 0)};
    while current != ""
      invariant k >= 1 && current == Chain(modes, nodeName, k)
      invariant seen == Visited(modes, nodeName, k) <= modes.Keys
      invariant Fresh(modes, nodeName, k)
      decreases |modes.Keys - seen|
    {
      if current in seen {
        assert ReturnsAt(modes, nodeName, k);
        return true;
      }
      assert Fresh(modes, nodeName, k + 1);
      if current !in modes {
        assert Chain(modes, nodeName, k + 1) == "";
        EndedChainNeverRevisits(modes, nodeName, k + 1);
        return false;
      }
      assert modes.Keys - (seen + {current}) == (modes.Keys - seen) - {current};
      seen := seen + {current};
      current := ParseContainer(modes[current]);
      k := k + 1;
    }
    EndedChainNeverRevisits(modes, nodeName, k);
    return false;
  }

  /** `walk` is the order in which the map happened to be listed before sorting. */
  method ValidateNodeNetworkModes(modes: Modes, sanitizes: string -> bool, walk: seq<string>)
      returns (diagnostics: seq<Diagnostic>)
    requires "" !in modes
    requires Walks(walk, modes.Keys)
    ensures forall x :: x in Sort(walk, s => s) ==> x in modes
    ensures diagnostics == Report(modes, sanitizes, Sort(walk, s => s))
    ensures diagnostics == [] <==> Clean(modes, sanitizes)
  {
    var names := Sort(walk, s => s);
    SameElements(names, walk);
    diagnostics := [];
    for idx := 0 to |names|
      invariant diagnostics == Report(modes, sanitizes, names[..idx])
    {
      var nodeName := names[idx];
      assert names[..idx + 1][..idx] == names[..idx];
      assert nodeName in names;
      var networkMode := modes[nodeName];
      if networkMode == "" {
        continue;
      }
      var primary := ParseContainer(networkMode);
      if primary == "" || !sanitizes(primary) {
        diagnostics := diagnostics + [Diagnostic(nodeName, Unsupported)];
        continue;
      }
      if primary !in modes {
        diagnostics := diagnostics + [Diagnostic(nodeName, UnknownPrimary)];
        continue;
      }
      var cycle := WalkFindsCycle(modes, nodeName);
      if cycle {
        diagnostics := diagnostics + [Diagnostic(nodeName, Cycle)];
      }
    }
    assert names[..|names|] == names;
    NoDiagnosticIffClean(modes, sanitizes, names);
  }

  lemma NoDiagnosticIffClean(modes: Modes, sanitizes: string -> bool, names: seq<string>)
    requires forall x :: x in names <==> x in modes
    ensures Report(modes, sanitizes, names) == [] <==> Clean(modes, sanitizes)
  {
    var diagnostics := Report(modes, sanitizes, names);
    ReportIsExact(modes, sanitizes, names);
    forall n | n in modes && VerdictFor(modes, sanitizes, n) != Fine ensures diagnostics != [] {
      assert Diagnostic(n, VerdictFor(modes, sanitizes, n)) in diagnostics;
    }
    if diagnostics != [] {
      var d := diagnostics[0];
      assert d in diagnostics;
      assert d.node in modes && VerdictFor(modes, sanitizes, d.node) != Fine;
    }
  }

  ghost predicate Clean(modes: Modes, sanitizes: string -> bool) {
    forall n {:trigger VerdictFor(modes, sanitizes, n)} :: n in modes ==> VerdictFor(modes, sanitizes, n) == Fine
  }

  /** Each listed node with a verdict other than Fine is reported, and nothing else is. */
  lemma {:induction false} ReportIsExact(modes: Modes, sanitizes: string -> bool, names: seq<string>)
    requires forall x :: x in names ==> x in modes
    ensures forall d :: d in Report(modes, sanitizes, names) <==>
              d.node in names && d.verdict == VerdictFor(modes, sanitizes, d.node) != Fine
    decreases |names|
  {
    if |names| > 0 {
      var n := |names| - 1;
      assert names == names[..n] + [names[n]];
      ReportIsExact(modes, sanitizes, names[..n]);
    }
  }

  /** A mode refers to a node exactly if it is `container:` and the node's name. */
  lemma ContainerModeIff(mode: string, p: string)
    requires p != ""
    ensures ParseContainer(mode) == p <==> mode == "container:" + p
  {
    if ParseContainer(mode) == p {
      assert mode == mode[..|ContainerPrefix|] + p;
    }
    if mode == "container:" + p {
      assert ContainerPrefix <= mode && mode[|ContainerPrefix|..] == p;
    }
  }

  /** The verdicts on the texts of the modes: no mode is fine; a mode that is not `container:` with a name
      that Kubernetes can carry is unsupported; one that names no node is unknown; of the others exactly
      those whose chain comes back to itself are cycles. */
  lemma VerdictIs(modes: Modes, sanitizes: string -> bool, n: string, p: string)
    requires n in modes && p != ""
    ensures modes[n] == "" ==> VerdictFor(modes, sanitizes, n) == Fine
    ensures modes[n] == "container:" + p ==>
              VerdictFor(modes, sanitizes, n) ==
                if !sanitizes(p) then Unsupported else if p !in modes then UnknownPrimary
                else if Revisits(modes, n) then Cycle else Fine
    ensures modes[n] != "" && (forall q :: q != "" ==> modes[n] != "container:" + q) ==>
              VerdictFor(modes, sanitizes, n) == Unsupported
  {
    ContainerModeIff(modes[n], p);
    if ParseContainer(modes[n]) != "" { ContainerModeIff(modes[n], ParseContainer(modes[n])); }
  }

  lemma CleanReference(modes: Modes, sanitizes: string -> bool, n: string)
    requires Clean(modes, sanitizes) && n in modes && Next(modes, n) != ""
    ensures Next(modes, n) in modes
  {
    assert VerdictFor(modes, sanitizes, n) == Fine;
  }

  /** A chain of a clean graph stays among the declared nodes and ends before it runs out of
      them. */
  lemma {:induction false} CleanChainEnds(modes: Modes, sanitizes: string -> bool, n: string, k: nat)
    returns (e: nat)
    requires Clean(modes, sanitizes) && !Revisits(modes, n)
    requires Fresh(modes, n, k) && Visited(modes, n, k) <= modes.Keys
    requires forall i: nat :: i < k ==> Continues(modes, n, i)
    requires Chain(modes, n, k) in modes && Chain(modes, n, k) != ""
    ensures EndsAt(modes, n, e) && e < |modes| && Chain(modes, n, e) in modes
    decreases |modes| - k
  {
    ChainGrows(modes, n, k);
    if !Continues(modes, n, k) {
      e := k;
    } else {
      CleanReference(modes, sanitizes, Chain(modes, n, k));
      e := CleanChainEnds(modes, sanitizes, n, k + 1);
    }
  }

  lemma ChainGrows(modes: Modes, n: string, k: nat)
    requires !Revisits(modes, n) && Fresh(modes, n, k) && Visited(modes, n, k) <= modes.Keys
    requires Chain(modes, n, k) in modes && Chain(modes, n, k) != ""
    ensures Fresh(modes, n, k + 1) && Visited(modes, n, k + 1) <= modes.Keys && k < |modes|
    ensures Chain(modes, n, k + 1) == Next(modes, Chain(modes, n, k))
  {
    assert !ReturnsAt(modes, n, k);
    FreshCounts(modes, n, k + 1);
    SubsetCard(Visited(modes, n, k + 1), modes.Keys);
  }

  /** Without a diagnostic the references form a forest: every chain ends, within the node
      count, at a declared node that has a Pod of its own. */
  lemma CleanIsForest(modes: Modes, sanitizes: string -> bool, n: string)
    returns (k: nat)
    requires "" !in modes
    requires Clean(modes, sanitizes) && n in modes
    ensures EndsAt(modes, n, k) && k < |modes|
    ensures Chain(modes, n, k) in modes && modes[Chain(modes, n, k)] == ""
  {
    assert VerdictFor(modes, sanitizes, n) == Fine;
    if modes[n] == "" {
      assert Chain(modes, n, 0) == n && Chain(modes, n, 1) == "";
      assert Fresh(modes, n, 0) && Fresh(modes, n, 1);
      EndedChainNeverRevisits(modes, n, 1);
    }
    k := CleanChainEnds(modes, sanitizes, n, 0);
    assert VerdictFor(modes, sanitizes, Chain(modes, n, k)) == Fine;
  }

  // ---------------------------------------------------------------- groups

  /** Membership in the group of `primary`, as the controllers list it. */
  predicate InGroup(modes: Modes, primary: string, n: string) {
    n == primary || (n in modes && Resolve(modes, n) == primary)
  }

  method ResolveGroupMembers(modes: Modes, primary: string, walk: seq<string>) returns (members: seq<string>)
    requires Walks(walk, modes.Keys)
    ensures forall n :: n in members <==> InGroup(modes, primary, n)
    ensures |members| > 0 && members[0] == primary && Sorted(members[1..], s => s)
    ensures NoDuplicates(members)
  {
    var others: seq<string> := [];
    for i := 0 to |walk|
      invariant primary !in others && NoDuplicates(others)
      invariant forall n :: n in others <==> n in walk[..i] && n != primary && InGroup(modes, primary, n)
    {
      var nodeName := walk[i];
      assert nodeName in walk && walk[..i + 1] == walk[..i] + [nodeName];
      assert nodeName !in walk[..i];
      if nodeName == primary {
        continue;
      }
      var resolved := ResolvePrimaryNode(modes, nodeName);
      if resolved == primary {
        others := others + [nodeName];
      }
    }
    assert walk[..|walk|] == walk;
    SortSorted(others, s => s);
    var sorted := Sort(others, s => s);
    SameElements(sorted, others);
    forall i, j | 0 <= i < j < |sorted| ensures sorted[i] != sorted[j] {
      LessIrreflexive(sorted[i]);
    }
    members := [primary] + sorted;
    assert members[1..] == sorted;
    forall n ensures n in members <==> InGroup(modes, primary, n) {
      assert n in members <==> n == primary || n in sorted;
    }
  }

  /** With a clean graph the groups partition the nodes: every node is hosted by exactly one
      primary, which hosts itself, and a node shares the group of the node it refers to. */
  lemma GroupsPartition(modes: Modes, sanitizes: string -> bool, n: string)
    requires "" !in modes && Clean(modes, sanitizes) && n in modes
    ensures var p := Resolve(modes, n);
            && p in modes && modes[p] == "" && Resolve(modes, p) == p
            && (forall q :: Resolve(modes, q) == q ==> (InGroup(modes, q, n) <==> q == p))
            && (Next(modes, n) != "" ==> Resolve(modes, Next(modes, n)) == p)
  {
    var k := CleanIsForest(modes, sanitizes, n);
    ResolveFindsEnd(modes, n, k, 0);
    ResolveFindsEnd(modes, n, k, k);
    if Next(modes, n) != "" {
      assert k != 0 by { assert Chain(modes, n, 0) == n; }
      assert Chain(modes, n, 1) == Next(modes, Chain(modes, n, 0));
      ResolveFindsEnd(modes, n, k, 1);
    }
  }
}
