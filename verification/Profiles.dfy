/** NodeProfiles: a node's resource policy is not written on the Node but on a profile it refers to
    by name. Nodes without a policy of their own share the topology's profile.
  */
module Profiles {
  import opened Ordering
  import opened Wrappers
  import NodeRenames

  const DefaultResourceName := "default"

  /** `concat` shortens and joins names, `same` is semantic equality of resources. */
  datatype Input<!R> = Input(name: string, resources: map<string, R>, concat: (string, string) -> string,
                            same: (R, R) -> bool)

  /** A rendered profile. Apart from these two fields all profiles of a topology carry the same spec. */
  datatype Profile<R> = Profile(name: string, resources: Option<R>)

  /** The compiled nodes: their names and the source names of the renamed ones. */
  datatype Compiled = Compiled(nodes: set<string>, sources: map<string, string>)

  function Source(compiled: Compiled, n: string): string {
    NodeRenames.SourceNodeName(compiled.sources, n)
  }

  predicate HasDistinctPolicy<R>(input: Input<R>, source: string) {
    && source in input.resources
    && (DefaultResourceName !in input.resources
        || !input.same(input.resources[source], input.resources[DefaultResourceName]))
  }

  predicate Distinct<R>(input: Input<R>, compiled: Compiled, n: string) {
    HasDistinctPolicy(input, Source(compiled, n))
  }

  /** The profile a rendered Node refers to. */
  function ProfileName<R>(input: Input<R>, compiled: Compiled, n: string): string {
    if Distinct(input, compiled, n) then input.concat(input.name, n) else input.name
  }

  function TopologyProfile<R>(input: Input<R>, name: string): Profile<R> {
    Profile(name, if DefaultResourceName in input.resources then Some(input.resources[DefaultResourceName]) else None)
  }

  function Dedicated<R>(input: Input<R>, compiled: Compiled, n: string): Profile<R> {
    var profile := TopologyProfile(input, input.concat(input.name, n));
    if Source(compiled, n) in input.resources then profile.(resources := Some(input.resources[Source(compiled, n)]))
    else profile
  }

  function PerNode<R>(input: Input<R>, compiled: Compiled, walk: seq<string>): seq<string> {
    if |walk| == 0 then []
    else
      var n := |walk| - 1;
      PerNode(input, compiled, walk[..n]) + if Distinct(input, compiled, walk[n]) then [walk[n]] else []
  }

  predicate SharedNeeded<R>(input: Input<R>, compiled: Compiled) {
    exists n :: n in compiled.nodes && !Distinct(input, compiled, n)
  }

  function AllDedicated<R>(input: Input<R>, compiled: Compiled, names: seq<string>): seq<Profile<R>> {
    seq(|names|, i requires 0 <= i < |names| => Dedicated(input, compiled, names[i]))
  }

  function Rendered<R>(input: Input<R>, compiled: Compiled, walk: seq<string>): seq<Profile<R>> {
    (if SharedNeeded(input, compiled) then [TopologyProfile(input, input.name)] else []) +
    AllDedicated(input, compiled, Sort(PerNode(input, compiled, walk), (s: string) => s))
  }

  method RenderNodeProfiles<R>(input: Input<R>, compiled: Compiled, walk: seq<string>)
    returns (profiles: seq<Profile<R>>)
    requires Walks(walk, compiled.nodes)
    ensures profiles == Rendered(input, compiled, walk)
  {
    var perNodeNames, sharedNeeded := SplitNodes(input, compiled, walk);
    perNodeNames := Sort(perNodeNames, (s: string) => s);
    profiles := [];
    if sharedNeeded {
      profiles := [TopologyProfile(input, input.name)];
    }
    var dedicated := RenderDedicated(input, compiled, perNodeNames);
    profiles := profiles + dedicated;
  }

  /** The nodes with a policy of their own, and whether there are others. */
  method SplitNodes<R>(input: Input<R>, compiled: Compiled, walk: seq<string>)
    returns (perNodeNames: seq<string>, sharedNeeded: bool)
    requires Walks(walk, compiled.nodes)
    ensures perNodeNames == PerNode(input, compiled, walk) && sharedNeeded == SharedNeeded(input, compiled)
  {
    perNodeNames, sharedNeeded := [], false;
    for i := 0 to |walk|
      invariant perNodeNames == PerNode(input, compiled, walk[..i])
      invariant sharedNeeded <==> exists n :: n in walk[..i] && !Distinct(input, compiled, n)
    {
      assert walk[..i + 1][..i] == walk[..i] && walk[..i + 1] == walk[..i] + [walk[i]];
      if !Distinct(input, compiled, walk[i]) {
        sharedNeeded := true;
        continue;
      }
      perNodeNames := perNodeNames + [walk[i]];
    }
    assert walk[..|walk|] == walk;
  }

  method RenderDedicated<R>(input: Input<R>, compiled: Compiled, names: seq<string>) returns (profiles: seq<Profile<R>>)
    ensures profiles == AllDedicated(input, compiled, names)
  {
    profiles := [];
    for i := 0 to |names|
      invariant profiles == AllDedicated(input, compiled, names[..i])
    {
      var profile := TopologyProfile(input, input.concat(input.name, names[i]));
      if Source(compiled, names[i]) in input.resources {
        profile := profile.(resources := Some(input.resources[Source(compiled, names[i])]));
      }
      profiles := profiles + [profile];
    }
    assert names[..|names|] == names;
  }

  lemma {:induction false} PerNodeExact<R>(input: Input<R>, compiled: Compiled, walk: seq<string>)
    ensures forall n :: n in PerNode(input, compiled, walk) <==> n in walk && Distinct(input, compiled, n)
    ensures NoDuplicates(walk) ==> NoDuplicates(PerNode(input, compiled, walk))
    decreases |walk|
  {
    if |walk| > 0 {
      var n := |walk| - 1;
      assert walk == walk[..n] + [walk[n]];
      PerNodeExact(input, compiled, walk[..n]);
    }
  }

  /** The rendered profiles do not depend on the order in which the nodes are visited. */
  lemma RenderForgetsOrder<R>(input: Input<R>, compiled: Compiled, walk: seq<string>, other: seq<string>)
    requires Walks(walk, compiled.nodes) && Walks(other, compiled.nodes)
    ensures Rendered(input, compiled, walk) == Rendered(input, compiled, other)
  {
    PerNodeExact(input, compiled, walk);
    PerNodeExact(input, compiled, other);
    SortForgetsOrder(PerNode(input, compiled, walk), PerNode(input, compiled, other), (s: string) => s);
  }

  /** Joined names do not collide with one another or with the topology's own. */
  ghost predicate NamesApart<R>(input: Input<R>, compiled: Compiled) {
    && (forall n :: n in compiled.nodes ==> input.concat(input.name, n) != input.name)
    && (forall m, n | m in compiled.nodes && n in compiled.nodes ::
          input.concat(input.name, m) == input.concat(input.name, n) ==> m == n)
  }

  /** A rendered profile is the shared one, or dedicated to a node with a policy of its own. */
  lemma RenderedExact<R>(input: Input<R>, compiled: Compiled, walk: seq<string>, p: Profile<R>)
    requires Walks(walk, compiled.nodes)
    ensures p in Rendered(input, compiled, walk) <==>
              || (p == TopologyProfile(input, input.name) && SharedNeeded(input, compiled))
              || exists n :: n in compiled.nodes && Distinct(input, compiled, n) && p == Dedicated(input, compiled, n)
  {
    var per := PerNode(input, compiled, walk);
    var names := Sort(per, (s: string) => s);
    var dedicated := AllDedicated(input, compiled, names);
    PerNodeExact(input, compiled, walk);
    SameElements(names, per);
    if p in dedicated {
      var i :| 0 <= i < |dedicated| && dedicated[i] == p;
      assert names[i] in names;
    }
    if n :| n in compiled.nodes && Distinct(input, compiled, n) && p == Dedicated(input, compiled, n) {
      assert n in names;
      var i :| 0 <= i < |names| && names[i] == n;
      assert dedicated[i] == p;
    }
  }

  /** What a topology author asks for: the node's own entry, then the default, then nothing. */
  function DirectLookup<R>(input: Input<R>, source: string): Option<R> {
    if source in input.resources then Some(input.resources[source])
    else if DefaultResourceName in input.resources then Some(input.resources[DefaultResourceName])
    else None
  }

  ghost predicate Agrees<R>(input: Input<R>, direct: Option<R>, reached: Option<R>) {
    direct == reached || (direct.Some? && reached.Some? && input.same(direct.value, reached.value))
  }

  /** The node's own entry is missing, or is the same as the default. */
  ghost predicate UsesShared<R>(input: Input<R>, source: string) {
    source !in input.resources ||
    ("default" in input.resources && input.same(input.resources[source], input.resources["default"]))
  }

  /** A node refers to the shared profile exactly if it has no entry of its own that differs from the
      default, and otherwise to the profile named after it. */
  lemma ProfileNameIff<R>(input: Input<R>, compiled: Compiled, n: string)
    requires NamesApart(input, compiled) && n in compiled.nodes
    ensures ProfileName(input, compiled, n) == input.name <==> UsesShared(input, Source(compiled, n))
    ensures !UsesShared(input, Source(compiled, n)) ==>
              ProfileName(input, compiled, n) == input.concat(input.name, n)
  {
  }

  lemma SharesIff<R>(input: Input<R>, compiled: Compiled, n: string)
    ensures Distinct(input, compiled, n) <==> !UsesShared(input, Source(compiled, n))
    ensures Distinct(input, compiled, n) ==>
              Source(compiled, n) in input.resources &&
              Dedicated(input, compiled, n) ==
                Profile(input.concat(input.name, n), Some(input.resources[Source(compiled, n)]))
  {
  }

  lemma DedicatedNames<R>(input: Input<R>, compiled: Compiled, walk: seq<string>)
    requires Walks(walk, compiled.nodes)
    ensures var names := Sort(PerNode(input, compiled, walk), (s: string) => s);
            && Sorted(names, (s: string) => s)
            && forall n :: n in names <==> n in compiled.nodes && Distinct(input, compiled, n)
  {
    var per := PerNode(input, compiled, walk);
    PerNodeExact(input, compiled, walk);
    SameElements(Sort(per, (s: string) => s), per);
    SortSorted(per, (s: string) => s);
  }

  ghost predicate SomeShare<R>(input: Input<R>, compiled: Compiled) {
    exists n :: n in compiled.nodes && UsesShared(input, Source(compiled, n))
  }

  /** The listing: the shared profile with the default resources first, if some node uses it, then one
      profile for each of the other nodes, by node name and with the node's own resources. */
  ghost predicate IsListing<R>(input: Input<R>, compiled: Compiled, names: seq<string>, all: seq<Profile<R>>) {
    var first := if SomeShare(input, compiled) then 1 else 0;
    && |all| == first + |names|
    && (first == 1 ==>
          && all[0].name == input.name
          && all[0].resources == if "default" in input.resources then Some(input.resources["default"]) else None)
    && forall i :: 0 <= i < |names| ==>
         Source(compiled, names[i]) in input.resources &&
         all[first + i] == Profile(input.concat(input.name, names[i]),
                                   Some(input.resources[Source(compiled, names[i])]))
  }

  lemma RenderedIs<R>(input: Input<R>, compiled: Compiled, walk: seq<string>) returns (names: seq<string>)
    requires Walks(walk, compiled.nodes)
    ensures Sorted(names, (s: string) => s)
    ensures forall n :: n in names <==> n in compiled.nodes && !UsesShared(input, Source(compiled, n))
    ensures IsListing(input, compiled, names, Rendered(input, compiled, walk))
  {
    names := Sort(PerNode(input, compiled, walk), (s: string) => s);
    DedicatedNames(input, compiled, walk);
    forall n ensures Distinct(input, compiled, n) <==> !UsesShared(input, Source(compiled, n)) {
      SharesIff(input, compiled, n);
    }
    ListingShape(input, compiled, names);
  }

  lemma ListingShape<R>(input: Input<R>, compiled: Compiled, names: seq<string>)
    requires forall n :: n in names ==> Distinct(input, compiled, n)
    ensures IsListing(input, compiled, names,
              (if SharedNeeded(input, compiled) then [TopologyProfile(input, input.name)] else []) +
              AllDedicated(input, compiled, names))
  {
    forall n ensures Distinct(input, compiled, n) <==> !UsesShared(input, Source(compiled, n)) {
      SharesIff(input, compiled, n);
    }
    assert SharedNeeded(input, compiled) <==> SomeShare(input, compiled);
    forall i | 0 <= i < |names| ensures Distinct(input, compiled, names[i]) {
      assert names[i] in names;
    }
    forall i | 0 <= i < |names|
      ensures Source(compiled, names[i]) in input.resources
      ensures AllDedicated(input, compiled, names)[i] ==
                Profile(input.concat(input.name, names[i]), Some(input.resources[Source(compiled, names[i])]))
    {
      SharesIff(input, compiled, names[i]);
    }
  }

  /** Profiles referred to and profiles rendered are the same: a node's profile is rendered, and it is
      the only one of that name; what it says agrees with the direct lookup by source name. */
  lemma NodeReachesItsPolicy<R>(input: Input<R>, compiled: Compiled, walk: seq<string>, n: string)
    returns (p: Profile<R>)
    requires Walks(walk, compiled.nodes) && NamesApart(input, compiled) && n in compiled.nodes
    ensures p in Rendered(input, compiled, walk) && p.name == ProfileName(input, compiled, n)
    ensures forall q :: q in Rendered(input, compiled, walk) && q.name == p.name ==> q == p
    ensures Agrees(input, DirectLookup(input, Source(compiled, n)), p.resources)
  {
    p := if Distinct(input, compiled, n) then Dedicated(input, compiled, n) else TopologyProfile(input, input.name);
    RenderedExact(input, compiled, walk, p);
    forall q | q in Rendered(input, compiled, walk) && q.name == p.name ensures q == p {
      RenderedExact(input, compiled, walk, q);
    }
  }

  lemma RenderedIsReferenced<R>(input: Input<R>, compiled: Compiled, walk: seq<string>, p: Profile<R>)
    returns (n: string)
    requires Walks(walk, compiled.nodes) && p in Rendered(input, compiled, walk)
    ensures n in compiled.nodes && ProfileName(input, compiled, n) == p.name
  {
    RenderedExact(input, compiled, walk, p);
    if p == TopologyProfile(input, input.name) && SharedNeeded(input, compiled) {
      n :| n in compiled.nodes && !Distinct(input, compiled, n);
    } else {
      n :| n in compiled.nodes && Distinct(input, compiled, n) && p == Dedicated(input, compiled, n);
    }
  }

  /** Through the rename pass: a node of the definition reaches, under its compiled name, the policy
      written against its source name. */
  lemma PolicyFollowsRename<R, D, A>(input: Input<R>, before: NodeRenames.Topology<D, A>,
                                     after: NodeRenames.Topology<D, A>,
                                     renames: NodeRenames.Renames, valid: string -> bool, walk: seq<string>, n: string)
    returns (p: Profile<R>)
    requires NodeRenames.CollisionFree(renames, before.nodes.Keys)
    requires NodeRenames.IsRenamed(before, after, renames, valid) && before.sources == map[]
    requires Walks(walk, after.nodes.Keys) && NamesApart(input, Compiled(after.nodes.Keys, after.sources))
    requires n in before.nodes
    ensures p in Rendered(input, Compiled(after.nodes.Keys, after.sources), walk)
    ensures p.name == ProfileName(input, Compiled(after.nodes.Keys, after.sources), NodeRenames.Target(renames, n))
    ensures Agrees(input, DirectLookup(input, n), p.resources)
  {
    NodeRenames.SourceNameInverts(before, after, renames, valid, n);
    p := NodeReachesItsPolicy(input, Compiled(after.nodes.Keys, after.sources), walk, NodeRenames.Target(renames, n));
  }
}
