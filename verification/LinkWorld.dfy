/** The persisted state of one namespace as the API server keeps it: Links with their status,
    Nodes, and the optimistic concurrency that guards every write of the Link controller.
  */
module LinkWorld {
  import opened Wrappers
  import opened Links

  /** `used` holds every UID ever handed out; `clock` is the last resource version. */
  datatype World = World(
    ns: string,
    links: map<string, Link>,
    nodes: Nodes,
    used: set<string>,
    clock: nat)

  /** Everything that users and other controllers may do. None of it writes a Link status: the
      status subresource belongs to the Link controller. */
  datatype Edit =
    | CreateLink(name: string, uid: string, spec: Spec, ignored: bool, finalizers: bool)
    | EditLink(name: string, spec: Spec, ignored: bool, finalizers: bool)
    | DeleteLink(name: string)
    | CreateNode(name: string, uid: string, networkMode: string)
    | EditNode(name: string, networkMode: string)
    | DeleteNode(name: string)

  const NoStatus := Status(0, None, None)

  /** A stored object is never changed without a new resource version. */
  function Stored(w: World, link: Link): World {
    w.(links := w.links[link.name := link.(version := w.clock + 1)], clock := w.clock + 1)
  }

  /** Deleting removes the object, or marks it while finalizers hold it. */
  function Deleted(w: World, name: string): World
    requires name in w.links
  {
    var link := w.links[name];
    if link.finalizers then
      w.(links := w.links[name := link.(deleting := true, version := w.clock + 1)], clock := w.clock + 1)
    else w.(links := w.links - {name})
  }

  predicate NewUid(w: World, uid: string) {
    uid != "" && uid !in w.used
  }

  function Apply(w: World, e: Edit): World {
    match e
    case CreateLink(name, uid, spec, ignored, finalizers) =>
      if name == "" || name in w.links || !NewUid(w, uid) then w
      else
        var link := Link(name, uid, w.clock + 1, 1, false, ignored, finalizers, spec, NoStatus);
        w.(links := w.links[name := link], used := w.used + {uid}, clock := w.clock + 1)
    case EditLink(name, spec, ignored, finalizers) =>
      if name !in w.links then w
      else
        var link := w.links[name];
        var generation := if spec == link.spec then link.generation else link.generation + 1;
        if link.deleting && !finalizers then w.(links := w.links - {name})
        else
          var edited := link.(spec := spec, generation := generation, ignored := ignored,
            finalizers := finalizers, version := w.clock + 1);
          w.(links := w.links[name := edited], clock := w.clock + 1)
    case DeleteLink(name) =>
      if name !in w.links then w else Deleted(w, name)
    case CreateNode(name, uid, networkMode) =>
      if name == "" || name in w.nodes || !NewUid(w, uid) then w
      else w.(nodes := w.nodes[name := Node(uid, networkMode)], used := w.used + {uid})
    case EditNode(name, networkMode) =>
      if name !in w.nodes then w
      else w.(nodes := w.nodes[name := w.nodes[name].(networkMode := networkMode)])
    case DeleteNode(name) =>
      w.(nodes := w.nodes - {name})
  }

  /** The precondition of the controller's writes: UID and resource version still match. */
  predicate Unchanged(w: World, snapshot: Link) {
    && snapshot.name in w.links
    && w.links[snapshot.name].uid == snapshot.uid
    && w.links[snapshot.name].version == snapshot.version
  }

  function Ends(binding: Option<Binding>): set<Bound> {
    if binding.None? then {} else {binding.value.a, binding.value.b}
  }

  ghost predicate KnownEnds(binding: Option<Binding>, used: set<string>) {
    forall b :: b in Ends(binding) ==> b.uid == "" || b.uid in used
  }

  ghost predicate WellFormedLink(w: World, name: string, link: Link) {
    && link.name == name && name != "" && link.version <= w.clock && link.uid in w.used
    && KnownEnds(link.status.binding, w.used)
  }

  ghost predicate WellFormed(w: World) {
    && (forall n :: n in w.links ==> WellFormedLink(w, n, w.links[n]))
    && (forall n :: n in w.nodes ==> w.nodes[n].uid in w.used)
  }

  lemma ApplyWellFormed(w: World, e: Edit)
    requires WellFormed(w)
    ensures WellFormed(Apply(w, e))
  {
    var r := Apply(w, e);
    forall n | n in r.links ensures WellFormedLink(r, n, r.links[n]) {
      if n in w.links { assert WellFormedLink(w, n, w.links[n]); }
    }
  }

  /** No two Links hold the same nonzero wire id. */
  ghost predicate UniqueWires(w: World) {
    forall m, n | m in w.links && n in w.links && m != n
      :: w.links[m].status.wireID == w.links[n].status.wireID ==> w.links[n].status.wireID == 0
  }
}
