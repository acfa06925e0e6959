/** The rename pass of the compiler. Node names that Kubernetes cannot carry are replaced, and every
    reference to them follows: link endpoints, container network-modes and app-protocol entries.
    The renames come from containerlab's name sanitizer; what the pass needs of it is CollisionFree.
  */
module NodeRenames {
  import opened Ordering
  import opened PodGroups

  const HostName := "host"
  const OriginalNameLabel := "c9s.run/originalNodeName"

  /** A flattened node definition; `rest` is everything the pass does not touch. */
  datatype Definition<D> = Definition(networkMode: string, labels: map<string, string>, rest: D)

  datatype Endpoint = Endpoint(node: string, iface: string)

  datatype Link = Link(a: Endpoint, b: Endpoint)

  type Renames = map<string, string>

  datatype Topology<D, A> = Topology(nodes: map<string, Definition<D>>, appProtocols: map<string, A>,
                                     links: seq<Link>, sources: map<string, string>)

  function Target(renames: Renames, n: string): string {
    if n in renames then renames[n] else n
  }

  function Image(renames: Renames, names: set<string>): set<string> {
    set n | n in names :: Target(renames, n)
  }

  ghost predicate InjectiveOn(renames: Renames, names: set<string>) {
    forall m, n :: m in names && n in names && Target(renames, m) == Target(renames, n) ==> m == n
  }

  /** The sanitizer's contract: it renames nodes only, two nodes never end up with one name, and
      neither the empty name nor the reserved host name takes part. */
  ghost predicate CollisionFree(renames: Renames, names: set<string>) {
    && renames.Keys <= names && InjectiveOn(renames, names)
    && "" !in renames && HostName !in renames
    && forall n :: n in renames ==> renames[n] != "" && renames[n] != HostName
  }

  // ---------------------------------------------------------------- one definition

  function Labelled<D>(d: Definition<D>, name: string, valid: string -> bool): Definition<D> {
    if OriginalNameLabel in d.labels || !valid(name) then d
    else d.(labels := d.labels[OriginalNameLabel := name])
  }

  function RenamedMode(mode: string, renames: Renames): string {
    var primary := ParseContainer(mode);
    if primary in renames then ContainerPrefix + renames[primary] else mode
  }

  function Repointed<D>(d: Definition<D>, renames: Renames): Definition<D> {
    d.(networkMode := RenamedMode(d.networkMode, renames))
  }

  function Settled<D>(d: Definition<D>, name: string, renames: Renames, valid: string -> bool): Definition<D> {
    Repointed(Labelled(d, name, valid), renames)
  }

  function RenamedEnd(e: Endpoint, renames: Renames): Endpoint {
    e.(node := Target(renames, e.node))
  }

  function RenamedLink(l: Link, renames: Renames): Link {
    Link(RenamedEnd(l.a, renames), RenamedEnd(l.b, renames))
  }

  // ---------------------------------------------------------------- the whole pass

  ghost predicate Rekeyed<V>(entries: map<string, V>, moved: map<string, V>, renames: Renames) {
    && moved.Keys == Image(renames, entries.Keys)
    && forall n :: n in entries ==> Target(renames, n) in moved && moved[Target(renames, n)] == entries[n]
  }

  /** The recorded sources are the renames of the given nodes, turned round. */
  ghost predicate SourcesOf(sources: map<string, string>, renames: Renames, names: set<string>) {
    && (forall n :: n in names && n in renames ==> renames[n] in sources && sources[renames[n]] == n)
    && (forall m :: m in sources ==>
          sources[m] in names && sources[m] in renames && renames[sources[m]] == m)
  }

  ghost predicate NodesLabelled<D>(before: map<string, Definition<D>>, after: map<string, Definition<D>>,
                                   valid: string -> bool)
  {
    after.Keys == before.Keys && forall n :: n in before ==> after[n] == Labelled(before[n], n, valid)
  }

  ghost predicate NodesRepointed<D>(before: map<string, Definition<D>>, after: map<string, Definition<D>>,
                                    renames: Renames)
  {
    after.Keys == before.Keys && forall n :: n in before ==> after[n] == Repointed(before[n], renames)
  }

  ghost predicate NodesFollow<D>(before: map<string, Definition<D>>, after: map<string, Definition<D>>,
                                 renames: Renames)
  {
    && after.Keys == Image(renames, before.Keys)
    && forall n {:trigger Target(renames, n)} :: n in before ==>
         Target(renames, n) in after && after[Target(renames, n)] == Repointed(before[n], renames)
  }

  ghost predicate NodesSettled<D>(before: map<string, Definition<D>>, after: map<string, Definition<D>>,
                                  renames: Renames, valid: string -> bool)
  {
    && after.Keys == Image(renames, before.Keys)
    && forall n {:trigger Target(renames, n)} :: n in before ==>
         Target(renames, n) in after && after[Target(renames, n)] == Settled(before[n], n, renames, valid)
  }

  ghost predicate LinksRenamed(before: seq<Link>, after: seq<Link>, renames: Renames) {
    |after| == |before| && forall i :: 0 <= i < |before| ==> after[i] == RenamedLink(before[i], renames)
  }

  ghost predicate IsRenamed<D, A>(before: Topology<D, A>, after: Topology<D, A>, renames: Renames,
                                  valid: string -> bool)
  {
    && NodesSettled(before.nodes, after.nodes, renames, valid)
    && Rekeyed(before.appProtocols, after.appProtocols, renames)
    && LinksRenamed(before.links, after.links, renames)
    && if renames == map[] then after.sources == before.sources
       else SourcesOf(after.sources, renames, before.nodes.Keys)
  }

  /** The topology after everything but the labels. */
  ghost predicate Follows<D, A>(before: Topology<D, A>, after: Topology<D, A>, renames: Renames) {
    && NodesFollow(before.nodes, after.nodes, renames)
    && Rekeyed(before.appProtocols, after.appProtocols, renames)
    && LinksRenamed(before.links, after.links, renames)
    && SourcesOf(after.sources, renames, before.nodes.Keys)
  }

  class CompiledDefinition<D, A> {
    var nodes: map<string, Definition<D>>
    var appProtocols: map<string, A>
    var links: seq<Link>
    var sources: map<string, string>

    ghost function Value(): Topology<D, A>
      reads this
    {
      Topology(nodes, appProtocols, links, sources)
    }

    /** `renames` is absent when two names collide: that is a diagnostic, and nothing is renamed. The
        walks are the orders in which the maps happen to be visited. */
    method SanitizeNodeNames(renames: map<string, string>, collide: bool, valid: string -> bool, labelWalk: seq<string>,
                             nodeWalk: seq<string>, protocolWalk: seq<string>, modeWalk: seq<string>)
      returns (diagnosed: bool)
      requires !collide ==> CollisionFree(renames, nodes.Keys)
      requires Walks(labelWalk, nodes.Keys) && Walks(nodeWalk, nodes.Keys)
      requires appProtocols.Keys <= nodes.Keys && Walks(protocolWalk, appProtocols.Keys)
      requires Walks(modeWalk, Image(renames, nodes.Keys))
      modifies this
      ensures diagnosed == collide
      ensures collide ==> Value() == old(Value())
      ensures !collide ==> IsRenamed(old(Value()), Value(), renames, valid)
    {
      diagnosed := collide;
      if collide {
        return;
      }
      ghost var before := Value();
      LabelNodes(valid, labelWalk);
      ghost var labelled := Value();
      if renames == map[] {
        EmptyRename(before, Value(), renames, valid);
        return;
      }
      RenameAll(renames, nodeWalk, protocolWalk, modeWalk);
      RenamedInSteps(before, labelled, Value(), renames, valid);
    }

    method RenameAll(renames: Renames, nodeWalk: seq<string>, protocolWalk: seq<string>, modeWalk: seq<string>)
      requires InjectiveOn(renames, nodes.Keys) && appProtocols.Keys <= nodes.Keys
      requires Walks(nodeWalk, nodes.Keys) && Walks(protocolWalk, appProtocols.Keys)
      requires Walks(modeWalk, Image(renames, nodes.Keys))
      modifies this
      ensures Follows(old(Value()), Value(), renames)
    {
      InjectiveOnPart(renames, nodes.Keys, appProtocols.Keys);
      MoveAndRepoint(renames, nodeWalk, modeWalk);
      MoveProtocols(renames, protocolWalk);
      RenameLinks(renames);
    }

    method MoveAndRepoint(renames: Renames, nodeWalk: seq<string>, modeWalk: seq<string>)
      requires InjectiveOn(renames, nodes.Keys)
      requires Walks(nodeWalk, nodes.Keys) && Walks(modeWalk, Image(renames, nodes.Keys))
      modifies this`nodes, this`sources
      ensures NodesFollow(old(nodes), nodes, renames) && SourcesOf(sources, renames, old(nodes).Keys)
    {
      nodes, sources := MoveNodes(nodes, renames, nodeWalk);
      RenameModes(renames, modeWalk);
    }

    method MoveProtocols(renames: Renames, walk: seq<string>)
      requires InjectiveOn(renames, appProtocols.Keys) && Walks(walk, appProtocols.Keys)
      modifies this`appProtocols
      ensures Rekeyed(old(appProtocols), appProtocols, renames)
    {
      if appProtocols != map[] {
        appProtocols := Rekey(appProtocols, renames, walk);
      }
    }

    method LabelNodes(valid: string -> bool, walk: seq<string>)
      requires Walks(walk, nodes.Keys)
      modifies this`nodes
      ensures NodesLabelled(old(nodes), nodes, valid)
    {
      for i := 0 to |walk|
        invariant nodes.Keys == old(nodes.Keys)
        invariant forall j :: 0 <= j < i ==> nodes[walk[j]] == Labelled(old(nodes)[walk[j]], walk[j], valid)
        invariant forall j :: i <= j < |walk| ==> nodes[walk[j]] == old(nodes)[walk[j]]
      {
        var name := walk[i];
        var definition := nodes[name];
        if OriginalNameLabel in definition.labels {
          continue;
        }
        if !valid(name) {
          continue;
        }
        nodes := nodes[name := definition.(labels := definition.labels[OriginalNameLabel := name])];
      }
      forall n | n in nodes ensures nodes[n] == Labelled(old(nodes)[n], n, valid) {
        assert n in walk;
      }
    }

    method RenameModes(renames: Renames, walk: seq<string>)
      requires Walks(walk, nodes.Keys)
      modifies this`nodes
      ensures NodesRepointed(old(nodes), nodes, renames)
    {
      for i := 0 to |walk|
        invariant nodes.Keys == old(nodes.Keys)
        invariant forall j :: 0 <= j < i ==> nodes[walk[j]] == Repointed(old(nodes)[walk[j]], renames)
        invariant forall j :: i <= j < |walk| ==> nodes[walk[j]] == old(nodes)[walk[j]]
      {
        var definition := nodes[walk[i]];
        var primary := ParseContainer(definition.networkMode);
        if primary in renames {
          nodes := nodes[walk[i] := definition.(networkMode := ContainerPrefix + renames[primary])];
        }
      }
      forall n | n in nodes ensures nodes[n] == Repointed(old(nodes)[n], renames) {
        assert n in walk;
      }
    }

    method RenameLinks(renames: Renames)
      modifies this`links
      ensures LinksRenamed(old(links), links, renames)
    {
      for idx := 0 to |links|
        invariant |links| == |old(links)|
        invariant forall i :: 0 <= i < idx ==> links[i] == RenamedLink(old(links)[i], renames)
        invariant forall i :: idx <= i < |links| ==> links[i] == old(links)[i]
      {
        if links[idx].a.node in renames {
          links := links[idx := links[idx].(a := links[idx].a.(node := renames[links[idx].a.node]))];
        }
        if links[idx].b.node in renames {
          links := links[idx := links[idx].(b := links[idx].b.(node := renames[links[idx].b.node]))];
        }
      }
    }
  }

  lemma InjectiveOnPart(renames: Renames, names: set<string>, part: set<string>)
    requires InjectiveOn(renames, names) && part <= names
    ensures InjectiveOn(renames, part)
  {
  }

  lemma RenamedInSteps<D, A>(before: Topology<D, A>, labelled: Topology<D, A>, after: Topology<D, A>,
                             renames: Renames, valid: string -> bool)
    requires labelled == before.(nodes := labelled.nodes) && NodesLabelled(before.nodes, labelled.nodes, valid)
    requires renames != map[] && Follows(labelled, after, renames)
    ensures IsRenamed(before, after, renames, valid)
  {
  }

  lemma EmptyRename<D, A>(before: Topology<D, A>, after: Topology<D, A>, renames: Renames, valid: string -> bool)
    requires renames == map[]
    requires after == before.(nodes := after.nodes) && NodesLabelled(before.nodes, after.nodes, valid)
    ensures IsRenamed(before, after, renames, valid)
  {
    assert Image(renames, before.nodes.Keys) == before.nodes.Keys by {
      forall n | n in before.nodes ensures n in Image(renames, before.nodes.Keys) {
        assert Target(renames, n) == n;
      }
    }
    assert Image(renames, before.appProtocols.Keys) == before.appProtocols.Keys by {
      forall n | n in before.appProtocols ensures n in Image(renames, before.appProtocols.Keys) {
        assert Target(renames, n) == n;
      }
    }
  }

  /** The part of a walk already moved, under its new names. */
  ghost predicate MovedSoFar<V>(entries: map<string, V>, moved: map<string, V>, renames: Renames, done: seq<string>) {
    && (forall n :: n in done ==>
          n in entries && Target(renames, n) in moved && moved[Target(renames, n)] == entries[n])
    && (forall m :: m in moved ==> exists n :: n in done && Target(renames, n) == m)
  }

  lemma MoveOne<V>(entries: map<string, V>, moved: map<string, V>, renames: Renames, done: seq<string>, name: string)
    requires MovedSoFar(entries, moved, renames, done) && InjectiveOn(renames, entries.Keys)
    requires name in entries
    ensures MovedSoFar(entries, moved[Target(renames, name) := entries[name]], renames, done + [name])
  {
    var after := moved[Target(renames, name) := entries[name]];
    forall m | m in after ensures exists n :: n in done + [name] && Target(renames, n) == m {
      if m in moved {
        var n :| n in done && Target(renames, n) == m;
        assert n in done + [name];
      } else {
        assert name in done + [name];
      }
    }
  }

  lemma AllMoved<V>(entries: map<string, V>, moved: map<string, V>, renames: Renames, walk: seq<string>)
    requires MovedSoFar(entries, moved, renames, walk) && Walks(walk, entries.Keys)
    ensures Rekeyed(entries, moved, renames)
  {
    forall n | n in entries ensures Target(renames, n) in moved && moved[Target(renames, n)] == entries[n] {
      assert n in walk;
    }
    assert moved.Keys == Image(renames, entries.Keys);
  }

  method Rekey<V>(entries: map<string, V>, renames: Renames, walk: seq<string>) returns (moved: map<string, V>)
    requires Walks(walk, entries.Keys) && InjectiveOn(renames, entries.Keys)
    ensures Rekeyed(entries, moved, renames)
  {
    moved := map[];
    for i := 0 to |walk|
      invariant MovedSoFar(entries, moved, renames, walk[..i])
    {
      MoveOne(entries, moved, renames, walk[..i], walk[i]);
      assert walk[..i + 1] == walk[..i] + [walk[i]];
      moved := moved[Target(renames, walk[i]) := entries[walk[i]]];
    }
    assert walk[..|walk|] == walk;
    AllMoved(entries, moved, renames, walk);
  }

  /** The sources recorded for the part of a walk already moved. */
  ghost predicate SourcesSoFar(sources: map<string, string>, renames: Renames, names: set<string>, done: seq<string>) {
    && (forall n :: n in done && n in renames ==> renames[n] in sources && sources[renames[n]] == n)
    && (forall m :: m in sources ==> sources[m] in names && sources[m] in renames && renames[sources[m]] == m)
  }

  lemma NoteSource(sources: map<string, string>, renames: Renames, names: set<string>, done: seq<string>, name: string)
    requires InjectiveOn(renames, names) && SourcesSoFar(sources, renames, names, done)
    requires name in names && forall n :: n in done ==> n in names
    ensures SourcesSoFar(if name in renames then sources[renames[name] := name] else sources,
                         renames, names, done + [name])
  {
    forall n | n in done && n in renames && name in renames && renames[n] == renames[name] ensures n == name {
      assert Target(renames, n) == Target(renames, name);
    }
  }

  method MoveNodes<V>(entries: map<string, V>, renames: Renames, walk: seq<string>)
    returns (moved: map<string, V>, sources: map<string, string>)
    requires Walks(walk, entries.Keys) && InjectiveOn(renames, entries.Keys)
    ensures Rekeyed(entries, moved, renames) && SourcesOf(sources, renames, entries.Keys)
  {
    moved, sources := map[], map[];
    for i := 0 to |walk|
      invariant MovedSoFar(entries, moved, renames, walk[..i])
      invariant SourcesSoFar(sources, renames, entries.Keys, walk[..i])
    {
      var name := walk[i];
      MoveOne(entries, moved, renames, walk[..i], name);
      NoteSource(sources, renames, entries.Keys, walk[..i], name);
      assert walk[..i + 1] == walk[..i] + [name];
      var compiledName := name;
      if name in renames {
        compiledName := renames[name];
        sources := sources[compiledName := name];
      }
      moved := moved[compiledName := entries[name]];
    }
    assert walk[..|walk|] == walk;
    AllMoved(entries, moved, renames, walk);
  }

  // ---------------------------------------------------------------- names there and back

  lemma {:induction false} ImageCard(renames: Renames, names: set<string>)
    requires InjectiveOn(renames, names)
    ensures |Image(renames, names)| == |names|
    decreases names
  {
    if names != {} {
      var n :| n in names;
      var rest := names - {n};
      InjectiveOnPart(renames, names, rest);
      ImageCard(renames, rest);
      assert Target(renames, n) !in Image(renames, rest);
      assert Image(renames, names) == Image(renames, rest) + {Target(renames, n)};
    }
  }

  /** The pass neither drops nor merges a node. */
  lemma RenameIsBijection<D, A>(before: Topology<D, A>, after: Topology<D, A>, renames: Renames, valid: string -> bool)
    requires CollisionFree(renames, before.nodes.Keys) && IsRenamed(before, after, renames, valid)
    ensures |after.nodes| == |before.nodes|
    ensures forall n :: n in before.nodes ==> Target(renames, n) in after.nodes
    ensures forall m :: m in after.nodes ==> exists n :: n in before.nodes && Target(renames, n) == m
    ensures InjectiveOn(renames, before.nodes.Keys)
  {
    ImageCard(renames, before.nodes.Keys);
    assert |after.nodes| == |after.nodes.Keys| && |before.nodes| == |before.nodes.Keys|;
    forall m | m in after.nodes ensures exists n :: n in before.nodes && Target(renames, n) == m {
      assert m in Image(renames, before.nodes.Keys);
    }
  }

  function SourceNodeName(sources: map<string, string>, n: string): string {
    if n in sources then sources[n] else n
  }

  method RenameSourceToCompiled(sources: map<string, string>, sourceName: string, walk: seq<string>)
    returns (name: string, renamed: bool)
    requires Walks(walk, sources.Keys)
    ensures renamed ==> name in sources && sources[name] == sourceName
    ensures !renamed ==> name == sourceName && sourceName !in sources.Values
  {
    for i := 0 to |walk|
      invariant forall j :: 0 <= j < i ==> sources[walk[j]] != sourceName
    {
      if sources[walk[i]] == sourceName {
        return walk[i], true;
      }
    }
    forall m | m in sources ensures sources[m] != sourceName {
      assert m in walk;
    }
    return sourceName, false;
  }

  /** The compiled name of a node leads back to its source name, and the other way. */
  lemma SourceNameInverts<D, A>(before: Topology<D, A>, after: Topology<D, A>, renames: Renames, valid: string -> bool,
                                n: string)
    requires CollisionFree(renames, before.nodes.Keys) && IsRenamed(before, after, renames, valid)
    requires before.sources == map[] && n in before.nodes
    ensures SourceNodeName(after.sources, Target(renames, n)) == n
  {
    var m := Target(renames, n);
    if renames != map[] && m in after.sources {
      var s := after.sources[m];
      assert s in before.nodes.Keys && Target(renames, s) == m;
    }
  }

  lemma CompiledNameInverts<D, A>(before: Topology<D, A>, after: Topology<D, A>, renames: Renames,
                                  valid: string -> bool,
                                  m: string)
    requires CollisionFree(renames, before.nodes.Keys) && IsRenamed(before, after, renames, valid)
    requires before.sources == map[] && m in after.nodes
    ensures SourceNodeName(after.sources, m) in before.nodes
    ensures Target(renames, SourceNodeName(after.sources, m)) == m
  {
    RenameIsBijection(before, after, renames, valid);
    var n :| n in before.nodes && Target(renames, n) == m;
    SourceNameInverts(before, after, renames, valid, n);
  }

  /** Whatever order the recorded sources are searched in, the compiled name of a source name is its
      target, and it is reported as renamed exactly if it was. */
  lemma SourceLookupIsTarget<D, A>(before: Topology<D, A>, after: Topology<D, A>, renames: Renames,
                                   valid: string -> bool,
                                   n: string, name: string, renamed: bool)
    requires CollisionFree(renames, before.nodes.Keys) && IsRenamed(before, after, renames, valid)
    requires before.sources == map[]
    requires renamed ==> name in after.sources && after.sources[name] == n
    requires !renamed ==> name == n && n !in after.sources.Values
    ensures name == Target(renames, n) && (renamed <==> n in renames)
  {
    if n in renames {
      assert renames[n] in after.sources && after.sources[renames[n]] == n;
    }
  }

  // ---------------------------------------------------------------- references

  /** A reference to `p`, once renamed, finds what `p` found before: the same definition, or nothing. */
  ghost predicate SameReferent<D, A>(before: Topology<D, A>, after: Topology<D, A>, renames: Renames,
                                     valid: string -> bool, p: string)
  {
    var q := Target(renames, p);
    if p in before.nodes then q in after.nodes && after.nodes[q] == Settled(before.nodes[p], p, renames, valid)
    else q !in after.nodes
  }

  /** Every declared reference survives. An undeclared one does exactly if no node is given its name. */
  lemma ReferenceSurvivesIff<D, A>(before: Topology<D, A>, after: Topology<D, A>, renames: Renames,
                                   valid: string -> bool, p: string)
    requires CollisionFree(renames, before.nodes.Keys) && IsRenamed(before, after, renames, valid)
    ensures SameReferent(before, after, renames, valid, p) <==>
              p in before.nodes || forall n :: n in before.nodes ==> Target(renames, n) != p
  {
    assert p in after.nodes <==> p in Image(renames, before.nodes.Keys);
  }

  /** A reference nobody declared can be captured: with the only node `R1` renamed to `r1`, a
      reference to `r1` finds it. */
  lemma UndeclaredReferenceIsCaptured<D, A>(before: Topology<D, A>, after: Topology<D, A>, renames: Renames,
                                            valid: string -> bool)
    requires before.nodes.Keys == {"R1"} && renames == map["R1" := "r1"]
    requires NodesSettled(before.nodes, after.nodes, renames, valid)
    ensures CollisionFree(renames, before.nodes.Keys)
    ensures !SameReferent(before, after, renames, valid, "r1")
  {
    assert Target(renames, "R1") == "r1";
    assert "R1" != "r1" && "R1"[0] != HostName[0] && "r1"[0] != HostName[0];
  }

  ghost predicate EndDeclared<D, A>(t: Topology<D, A>, e: Endpoint) {
    e.node == HostName || e.node in t.nodes
  }

  /** A link end keeps its interface and what it is attached to: the host, or the same definition. */
  lemma LinkEndSurvives<D, A>(before: Topology<D, A>, after: Topology<D, A>, renames: Renames, valid: string -> bool,
                              e: Endpoint)
    requires CollisionFree(renames, before.nodes.Keys) && IsRenamed(before, after, renames, valid)
    requires EndDeclared(before, e)
    ensures RenamedEnd(e, renames).iface == e.iface
    ensures RenamedEnd(e, renames).node == HostName <==> e.node == HostName
    ensures e.node in before.nodes ==> SameReferent(before, after, renames, valid, e.node)
    ensures EndDeclared(after, RenamedEnd(e, renames))
  {
    if e.node in before.nodes {
      ReferenceSurvivesIff(before, after, renames, valid, e.node);
    }
  }

  /** No two link ends are merged: two ends coincide after the pass exactly if they did before. */
  lemma LinkEndsStayApart<D, A>(t: Topology<D, A>, renames: Renames, e: Endpoint, f: Endpoint)
    requires CollisionFree(renames, t.nodes.Keys) && EndDeclared(t, e) && EndDeclared(t, f)
    ensures RenamedEnd(e, renames) == RenamedEnd(f, renames) <==> e == f
  {
    if Target(renames, e.node) == Target(renames, f.node) && (e.node == HostName || f.node == HostName) {
      assert e.node == f.node;
    }
  }

  // ---------------------------------------------------------------- the pass, stated on the topologies

  /** `d` under the node name `n` has become `e`: everything the pass does not touch is the same, the
      label of the original name is the author's if there is one and else `n` if labels can carry it. */
  ghost predicate SameDefinition<D>(n: string, d: Definition<D>, e: Definition<D>, valid: string -> bool) {
    && e.rest == d.rest
    && (forall k :: k != OriginalNameLabel ==>
          (k in e.labels <==> k in d.labels) && (k in d.labels ==> e.labels[k] == d.labels[k]))
    && (OriginalNameLabel in e.labels <==> OriginalNameLabel in d.labels || valid(n))
    && (OriginalNameLabel in d.labels ==> e.labels[OriginalNameLabel] == d.labels[OriginalNameLabel])
    && (OriginalNameLabel !in d.labels && valid(n) ==> e.labels[OriginalNameLabel] == n)
  }

  /** The network-mode refers to the new name of the node it referred to. */
  ghost predicate SameMode(mode: string, mode': string, renames: Renames) {
    && (forall p :: p in renames && mode == "container:" + p ==> mode' == "container:" + renames[p])
    && ((forall p :: p in renames ==> mode != "container:" + p) ==> mode' == mode)
  }

  lemma ModeIsSame(mode: string, renames: Renames)
    requires "" !in renames
    ensures SameMode(mode, RenamedMode(mode, renames), renames)
  {
    forall p | p in renames && mode == "container:" + p ensures ParseContainer(mode) == p {
      assert ContainerPrefix <= mode && mode[|ContainerPrefix|..] == p;
    }
    var q := ParseContainer(mode);
    if q in renames {
      assert mode == ContainerPrefix + q;
    }
  }

  /** Every node is there under its new name, with its definition and its app protocols, and there is
      no other. */
  lemma DefinitionSurvives<D, A>(before: Topology<D, A>, after: Topology<D, A>, renames: Renames,
                                 valid: string -> bool, n: string)
    requires CollisionFree(renames, before.nodes.Keys) && IsRenamed(before, after, renames, valid)
    requires n in before.nodes && before.appProtocols.Keys <= before.nodes.Keys
    ensures |after.nodes| == |before.nodes|
    ensures var m := if n in renames then renames[n] else n;
            && m in after.nodes && SameDefinition(n, before.nodes[n], after.nodes[m], valid)
            && SameMode(before.nodes[n].networkMode, after.nodes[m].networkMode, renames)
            && (m in after.appProtocols <==> n in before.appProtocols)
            && (n in before.appProtocols ==> after.appProtocols[m] == before.appProtocols[n])
  {
    RenameIsBijection(before, after, renames, valid);
    ModeIsSame(before.nodes[n].networkMode, renames);
    assert Target(renames, n) == if n in renames then renames[n] else n;
    SettledIsSame(before.nodes[n], n, renames, valid);
    ProtocolsSurvive(before.appProtocols, after.appProtocols, renames, before.nodes.Keys, n);
  }

  lemma SettledIsSame<D>(d: Definition<D>, n: string, renames: Renames, valid: string -> bool)
    ensures SameDefinition(n, d, Settled(d, n, renames, valid), valid)
    ensures Settled(d, n, renames, valid).networkMode == RenamedMode(d.networkMode, renames)
  {
  }

  lemma ProtocolsSurvive<V>(entries: map<string, V>, moved: map<string, V>, renames: Renames, names: set<string>,
                            n: string)
    requires Rekeyed(entries, moved, renames) && InjectiveOn(renames, names) && entries.Keys <= names && n in names
    ensures var m := Target(renames, n);
            (m in moved <==> n in entries) && (n in entries ==> moved[m] == entries[n])
  {
    var m := Target(renames, n);
    if m in moved {
      assert m in Image(renames, entries.Keys);
      var k :| k in entries && Target(renames, k) == m;
      assert k in names;
    }
  }

  /** One end of a link before and after the pass. */
  ghost predicate SameEnd<D, A>(before: Topology<D, A>, after: Topology<D, A>, renames: Renames,
                                valid: string -> bool, e: Endpoint, f: Endpoint)
  {
    && f.iface == e.iface
    && (f.node == "host" <==> e.node == "host")
    && (e.node !in before.nodes ==> f.node == e.node)
    && (e.node in before.nodes ==>
          && f.node in after.nodes && f.node == (if e.node in renames then renames[e.node] else e.node)
          && SameDefinition(e.node, before.nodes[e.node], after.nodes[f.node], valid))
  }

  /** The links are the same links: end A and end B of each keep their interface, and stay attached to
      the host or to the node whose definition they named. */
  lemma LinksSurvive<D, A>(before: Topology<D, A>, after: Topology<D, A>, renames: Renames, valid: string -> bool)
    requires CollisionFree(renames, before.nodes.Keys) && IsRenamed(before, after, renames, valid)
    requires before.appProtocols.Keys <= before.nodes.Keys
    ensures |after.links| == |before.links|
    ensures forall i :: 0 <= i < |before.links| ==>
              && SameEnd(before, after, renames, valid, before.links[i].a, after.links[i].a)
              && SameEnd(before, after, renames, valid, before.links[i].b, after.links[i].b)
  {
    forall i | 0 <= i < |before.links|
      ensures SameEnd(before, after, renames, valid, before.links[i].a, after.links[i].a)
      ensures SameEnd(before, after, renames, valid, before.links[i].b, after.links[i].b)
    {
      EndIsSame(before, after, renames, valid, before.links[i].a);
      EndIsSame(before, after, renames, valid, before.links[i].b);
    }
  }

  lemma EndIsSame<D, A>(before: Topology<D, A>, after: Topology<D, A>, renames: Renames, valid: string -> bool,
                        e: Endpoint)
    requires CollisionFree(renames, before.nodes.Keys) && IsRenamed(before, after, renames, valid)
    requires before.appProtocols.Keys <= before.nodes.Keys
    ensures SameEnd(before, after, renames, valid, e, RenamedEnd(e, renames))
  {
    if e.node in before.nodes {
      DefinitionSurvives(before, after, renames, valid, e.node);
    }
  }

  // ---------------------------------------------------------------- pod groups

  function ModesOf<D>(nodes: map<string, Definition<D>>): Modes {
    map n | n in nodes :: nodes[n].networkMode
  }

  /** A container network-mode follows its primary, any other mode is left alone. */
  lemma ModeFollows(mode: string, renames: Renames)
    requires "" !in renames && forall n :: n in renames ==> renames[n] != ""
    ensures ParseContainer(RenamedMode(mode, renames)) == Target(renames, ParseContainer(mode))
    ensures ParseContainer(mode) == "" ==> RenamedMode(mode, renames) == mode
  {
    var p := ParseContainer(mode);
    if p in renames {
      assert (ContainerPrefix + renames[p])[|ContainerPrefix|..] == renames[p];
    }
  }

  /** `modes'` is `modes` under the renames, reference by reference. */
  ghost predicate ModesFollow(modes: Modes, modes': Modes, renames: Renames) {
    forall n {:trigger Next(modes', Target(renames, n))} :: n in modes ==>
      Next(modes', Target(renames, n)) == Target(renames, Next(modes, n))
  }

  lemma RenameKeepsModes<D, A>(before: Topology<D, A>, after: Topology<D, A>, renames: Renames, valid: string -> bool)
    requires CollisionFree(renames, before.nodes.Keys) && IsRenamed(before, after, renames, valid)
    ensures ModesFollow(ModesOf(before.nodes), ModesOf(after.nodes), renames)
  {
    forall n | n in before.nodes
      ensures Next(ModesOf(after.nodes), Target(renames, n)) == Target(renames, Next(ModesOf(before.nodes), n))
    {
      ModeFollows(before.nodes[n].networkMode, renames);
    }
  }

  ghost predicate Declared(modes: Modes) {
    forall n {:trigger Next(modes, n)} :: n in modes && Next(modes, n) != "" ==> Next(modes, n) in modes
  }

  /** Nodes keep apart and nobody gains or loses the empty name. */
  ghost predicate Apart(renames: Renames, names: set<string>) {
    InjectiveOn(renames, names) && "" !in renames && forall n :: n in renames ==> renames[n] != ""
  }

  lemma {:induction false} ResolveFromFollows(modes: Modes, modes': Modes, renames: Renames, c: string,
                                              seen: set<string>,
                                              seen': set<string>)
    requires Apart(renames, modes.Keys) && ModesFollow(modes, modes', renames) && Declared(modes)
    requires c in modes && seen <= modes.Keys && seen' == Image(renames, seen)
    requires c in seen ==> Next(modes, c) == c
    requires Target(renames, c) in seen' ==> Next(modes', Target(renames, c)) == Target(renames, c)
    ensures ResolveFrom(modes', Target(renames, c), seen') == Target(renames, ResolveFrom(modes, c, seen))
    decreases |modes.Keys - seen|
  {
    StepFollows(modes, modes', renames, c, seen);
    var p, c' := Next(modes, c), Target(renames, c);
    if p != "" && p !in seen {
      ResolveStep(modes, c, seen);
      ResolveStep(modes', c', seen');
      ResolveFromFollows(modes, modes', renames, p, seen + {c}, seen' + {c'});
    }
  }

  lemma StepFollows(modes: Modes, modes': Modes, renames: Renames, c: string, seen: set<string>)
    requires Apart(renames, modes.Keys) && ModesFollow(modes, modes', renames) && Declared(modes)
    requires c in modes && seen <= modes.Keys
    ensures var p, p' := Next(modes, c), Next(modes', Target(renames, c));
            && p' == Target(renames, p) && (p == "" <==> p' == "")
            && (p != "" ==> p in modes && (p' in Image(renames, seen) <==> p in seen))
    ensures Image(renames, seen + {c}) == Image(renames, seen) + {Target(renames, c)}
  {
    var p := Next(modes, c);
    if p != "" {
      SeenFollows(renames, modes.Keys, seen, p);
    }
  }

  lemma SeenFollows(renames: Renames, names: set<string>, seen: set<string>, p: string)
    requires InjectiveOn(renames, names) && seen <= names && p in names
    ensures Target(renames, p) in Image(renames, seen) <==> p in seen
  {
  }

  /** The pod groups are the same groups under the new names: the host of a renamed node is the
      renamed host, and a node joins a group exactly if it was in it before. */
  lemma PodGroupsSurvive<D, A>(before: Topology<D, A>, after: Topology<D, A>, renames: Renames, valid: string -> bool,
                               sanitizes: string -> bool, n: string, p: string)
    requires CollisionFree(renames, before.nodes.Keys) && IsRenamed(before, after, renames, valid)
    requires Clean(ModesOf(before.nodes), sanitizes) && n in before.nodes && p in before.nodes
    ensures Resolve(ModesOf(after.nodes), Target(renames, n)) == Target(renames, Resolve(ModesOf(before.nodes), n))
    ensures InGroup(ModesOf(after.nodes), Target(renames, p), Target(renames, n)) <==>
              InGroup(ModesOf(before.nodes), p, n)
  {
    var modes, modes' := ModesOf(before.nodes), ModesOf(after.nodes);
    RenameKeepsModes(before, after, renames, valid);
    forall m | m in modes && Next(modes, m) != "" ensures Next(modes, m) in modes {
      CleanReference(modes, sanitizes, m);
    }
    ResolveFromFollows(modes, modes', renames, n, {}, {});
    ResolvesToDeclared(modes, n, {});
  }

  lemma {:induction false} ResolvesToDeclared(modes: Modes, c: string, seen: set<string>)
    requires Declared(modes) && c in modes
    requires c in seen ==> Next(modes, c) == c
    ensures ResolveFrom(modes, c, seen) in modes
    decreases |modes.Keys - seen|
  {
    var p := Next(modes, c);
    if p != "" && p !in seen {
      assert modes.Keys - (seen + {c}) == (modes.Keys - seen) - {c};
      ResolvesToDeclared(modes, p, seen + {c});
    }
  }
}
