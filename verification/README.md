# A verified model of clabernetes' allocation, grouping and compilation logic

clabernetes runs containerlab topologies on Kubernetes. Its controllers hand out wire ids to Links and
management addresses to Nodes, keep namespace-wide directories and caches under concurrency, and compile
a topology file into Nodes, Links and profiles. This project models that logic in Dafny and proves what
the system relies on; `dafny verify dfyconfig.toml` checks the whole project.

## How the model is laid out

* **Links.** `LinkWorld` is the namespace as the API server stores it: Links and Nodes that others create,
  edit, delete and recreate at any time, with generations, resource versions and finalizers. `LinkPass`
  is the Link controller as a total step function over events (an edit by somebody else, one of the two
  listings, one Link processed with its write succeeding, refused, or applied although the reply was lost).
  A run is any sequence of events, so the theorems of `LinkSafety` and `LinkTheorems` hold under every
  interleaving. `LinkController` is the controller's imperative code; its methods are proved to follow the
  step function. `Wires` is the reservation table with its cursor, `Links` endpoint ownership and resolution.
  `LinkVerdicts` says what a completed pass leaves on a Link in terms of the listed Links and Nodes alone, and
  `LateWrites` adds status writes that land after the controller has given them up.
* **Planning.** `PlanInput` compiles accepted Links into the interfaces of one Pod. `PlannedPorts` maps the
  containers of a group and their ports, `ExposedPorts` decides which member exposes which port.
* **Management addresses.** `Addresses` works on bits and bytes of prefixes, `Management` allocates and
  `FirstFree` says what that yields without running it. `ManagementPlans` compiles a pod group's addresses and
  the namespace peer directory, `AcceptedAddresses` says which declarations are accepted and which groups are
  planned, and `MixedPolicies` when groups under different policies can get one address.
* **Concurrency.** `PeerDirectoryLock` is the per-namespace writer lock as a state machine with any number
  of threads. `ObservationCache` is the token cache and the queue that invalidates it.
* **Compiler.** `PodGroups` is the network-mode graph, `NodeRenames` the rename pass, `Profiles` the profile
  indirection, `PortText` the port and endpoint parsers.
* `Ordering` holds string order, sorting and map walks; `Wrappers` holds options and results.

Conventions. The order in which Go visits a map is a parameter: any sequence that lists each key once,
and a separate one for every loop.
SHA-256, the name sanitizer, label validation, name shortening, JSON encoding and semantic equality are
function parameters, used only under the assumptions written in the contracts. Text of IP addresses and
prefixes enters already parsed (absent, malformed, or a value). Names are non-empty, and names and UIDs hold
no NUL; Node names hold no colon. Kubernetes guarantees all of this, and where a result needs it the contract
says so.

## Where code and expectation differ

* `NamesLeastIff`: the comment on `FindEndpointConflict` (util/containerlab/links.go:37-39) promises the
  lexically first Link that claimed an endpoint. The code returns the owner of end A first. It misses the
  lexically first owner exactly if, when the Link's turn comes, both ends are claimed and the claimant of end B
  sorts before that of end A; `LaterOwnerIsNamed` is an instance.
* `LateWriteCollides`: a status write whose reply is lost may land after the next pass has listed the Links,
  and then two Links can end with one wire id. As long as no write outlives the next listing ids stay unique
  (`TimelyRunKeepsWiresUnique`). `LandingIsHarmlessIff` gives the exact condition for one landing between two
  passes, `LandingInPassIff` for a landing during a pass.
* `HalfRangeShares`: management addresses are unique per policy, not per namespace. `CollisionIff` says exactly
  when two policies can allocate one address to two Nodes: both accept their gateway, some address is offered by
  both, each offers another one besides, and they do not offer the same addresses of one range. Otherwise groups
  under the two policies never share an address (`PoliciesNeverShareAnAddress`); for policies without IPv6 this
  is also necessary (`SharedAddressIff`).
* `DirectorySharesIff`: the peer directory has no clash check. It publishes two Nodes of one policy with a common
  address exactly if both declare it in a form that fits the subnet, while every plan of such a namespace is
  refused.
* `CyclicPairIsNeverPlanned`: of Nodes that refer to each other none hosts itself (`HostsItselfIff`), so no
  Pod is planned for them, and yet the allocator gives a Link between them a wire id. Planned groups are not
  concerned: `WiresAgreeIff` shows that planner and allocator agree on a group exactly under the guard with
  which it is planned. The topology compiler refuses such references (`CleanIsForest`).
* `StoreTakesEffectIff`: the cache counter is 64 bits wide. A stale Store is accepted exactly if the
  counter has come full circle; `StoreIffUndisturbed` shows that up to 2^64 epochs it is not, and
  `WrapAroundAcceptsStale` gives the trace with one epoch more.
* `ReferenceSurvivesIff`: the rename pass keeps every declared reference. A reference that nobody declared
  is kept exactly if no node is given its name; `UndeclaredReferenceIsCaptured` is an instance. The
  compiler reports undeclared references before it renames.

Two results read like differences and are none. `ParsersAgreeIff`: the planner and the exposure compiler parse
declared ports differently, but never on a text that the Node resource admits (`AdmittedIsParsed`).
`InvalidatedBeforeEnqueued`: the invalidating queue overrides `Add` alone, and the handlers that are wrapped
(controllers/node/controller.go:339-421 and controllers/topology/controller.go:73-89) are mapping and ownership handlers. The two handlers that enqueue
with a delay (controllers/node/peerdirectorycontroller.go:73, controllers/node/startupadmission.go:65) serve
other controllers and are not wrapped.

## Model

| member | source | states |
|---|---|---|
| Wires.WireReservations.constructor | controllers/link/allocate.go:118-125 | a new table holds nothing and its cursor is at 1 |
| Wires.WireReservations.Record | controllers/link/allocate.go:127-146 | the whole new table: the previous id is released, the new one booked, the cursor pulled back to a released id |
| Wires.WireReservations.Desired | controllers/link/allocate.go:148-177 | the chosen id and the whole new table: none without a wire, the own id if no smaller name holds it, else the next free id from the cursor on |
| Wires.RecordedKeepsCursorSound | controllers/link/allocate.go:127-146 | after any record or release every id below the cursor is still owned |
| Wires.ChosenKeepsCursorSound | controllers/link/allocate.go:148-177 | a search, successful or not, never moves the cursor past a free id |
| Wires.RecordedTracks | controllers/link/allocate.go:127-146 | the table stays the exact inverse of the ids that the Links hold |
| Wires.FreshIdIsLeast | controllers/link/allocate.go:148-177 | the cursor refines the naive search: a Link that cannot keep its id gets the least id in 1..16,000,000 held by no other Link, and none exactly if others hold them all |
| Wires.Pigeonhole | controllers/link/allocate.go:11-13 | ids 1 to n all held by others takes at least n other Links |
| Wires.NeverExhausted | controllers/link/allocate.go:148-177 | with at most 16,000,000 Links the search never fails |
| Wires.ChosenIsUncontested | controllers/link/allocate.go:148-177 | a chosen id is in range, no Link with a smaller key holds it, and a new id is held by nobody else |
| Links.EndpointConflicts | util/containerlab/links.go:65-133 | the imperative pass with its claim table finds the ownership solution; on Node names without a colon: a valid Link is rejected exactly if a lexically smaller owner has one of its interfaces of the same Node, it names the owner of its end A, or of its end B if A is free, and owners have no end in common |
| Links.ConflictsSolveOwnership | util/containerlab/links.go:65-133 | one sorted pass solves the mutual definition of owners and losers |
| Links.OwnershipOnEndpoints | util/containerlab/links.go:95-133 | ownership by keys is ownership by Node and interface |
| Links.EndpointKeyIff | util/containerlab/links.go:95-97 | two ends have one key exactly if they are the same interface of the same Node |
| Links.ResolveLinkEndpoints | controllers/link/reconcile.go:289-413 | a complete binding that names the spec is kept or reported stale; otherwise a binding is made exactly if each end is the host or a listed Node with a UID, with that UID and none for the host |
| Links.OwnershipHasOneSolution | util/containerlab/links.go:65-133 | who is rejected, and which owner is named, follows from the claims alone |
| Links.NamesLeastIff | util/containerlab/links.go:37-61 | stated on the claim table as it is before the Link's turn: the lexically first of the owners it lost to is missed exactly if both ends are claimed and the claimant of end B sorts before that of end A |
| Links.LaterOwnerIsNamed | util/containerlab/links.go:99-117 | three Links of which the last lost to the first two and names the second |
| Links.ResolutionIsStable | controllers/link/reconcile.go:289-413 | resolving endpoints again from what was resolved, on the same Nodes, changes nothing |
| LinkPass.ListingIsSnapshot | controllers/link/reconcile.go:29-42 | whatever order the API lists in, the sorted listing holds each stored Link once |
| LinkPass.NewTableTracks | controllers/link/allocate.go:118-125 | the table built from a listing has a sound cursor and tracks the listed ids |
| LinkSafety.DecisionSettles | controllers/link/reconcile.go:60-232 | keeping or writing a Link settles it: resolved binding, right condition, a wire id exactly if it needs one and uncontested |
| LinkSafety.RunKeepsInv | controllers/link/reconcile.go:20-58 | in every state of every run the pass's copy, table and cursor match the stored Links as far as it has come |
| LinkSafety.RunKeepsWiresUnique | controllers/link/reconcile.go:20-58 | from a state without shared ids, every state of every run -- edits, refused and ambiguous writes and aborted passes included -- has no two stored Links with the same nonzero wire id, if a write takes effect at once or never |
| LateWrites.TimelyRunKeepsWiresUnique | controllers/link/reconcile.go:275-287 | the same with writes that take effect at any later time, as long as none can still take effect when the Links are listed next |
| LateWrites.LandingIsHarmlessIff | controllers/link/reconcile.go:275-287 | a write that lands between two passes leaves ids unique, then and in every run after it, exactly if the Link was changed since or no other Link holds the id |
| LateWrites.LandingInPassIff | controllers/link/reconcile.go:275-287 | a write that lands during a pass leaves the pass with a listing that knows every stored id exactly if the Link was changed since, the write carries no id, or the listing shows that id for the Link |
| LateWrites.LateWriteCollides | controllers/link/reconcile.go:20-58 | for a Link whose write is delayed past the creation of a smaller one and the next listing: both end with wire id 1 |
| LinkTheorems.CompletedPassSeparatesWires | controllers/link/reconcile.go:20-58 | from any state, after a completed pass two Links share a nonzero id only if the pass skipped or deleted the lexically larger one |
| LinkVerdicts.CompletedPassVerdict | controllers/link/reconcile.go:60-232 | over every run: a Link of a completed pass that is neither on its way out nor ignored is deleted, or carries the binding of the listed Nodes, the first of the four reasons that applies with the right names in it, the observed generation, and a wire id of its own exactly if it is accepted and leaves its Pod |
| LinkVerdicts.SkippedIsLeftAlone | controllers/link/reconcile.go:67-69 | a Link on its way out, or ignored, is passed over without a write |
| LinkTheorems.AcceptedLinksAreExclusive | controllers/link/reconcile.go:60-210 | no interface of a Node is an end of two Links accepted by one completed pass |
| LinkTheorems.RunNeverRebinds | controllers/link/reconcile.go:289-413 | over any run, Nodes deleted and recreated included, a Link that keeps its identity and endpoint names keeps a complete binding unchanged |
| LinkTheorems.RunKeepsBindingsWhole | controllers/link/reconcile.go:289-413 | over every run bindings, stored or in the copy of a pass, cover both ends or none; ends at Nodes have a UID and ends at the host have none |
| LinkTheorems.DeletesOnlyOrphans | controllers/link/reconcile.go:60-87 | the controller deletes a Link only if at that very moment a Node it is bound to is gone, although it decides on an older listing |
| LinkTheorems.QuietIsRun | controllers/link/reconcile.go:20-58 | an undisturbed pass is one of the runs the other theorems speak of |
| LinkTheorems.SecondPassIsIdle | controllers/link/reconcile.go:43-54 | convergence: after an undisturbed pass that deleted nothing, the next one completes without a write |
| LinkTheorems.PassCompletes | controllers/link/reconcile.go:20-58 | with at most 16,000,000 Links an undisturbed pass completes |
| LinkTheorems.ThirdPassIsIdle | controllers/link/reconcile.go:20-58 | from any state, deletions included, the third undisturbed pass finds nothing to do |
| LinkController.Controller.UpdateLinkStatus | controllers/link/reconcile.go:275-287 | the write and its skipping of equal statuses, under each outcome |
| LinkController.Controller.ReconcileLink | controllers/link/reconcile.go:60-210 | the new stored world, table and return values for each decision and outcome |
| LinkController.Controller.Reconcile | controllers/link/reconcile.go:20-58 | the imperative pass is a run of the step function for any edits and outcomes in between; it keeps stored wire ids unique |
| LinkController.Controller.Prepare | controllers/link/reconcile.go:43-46 | the ownership and reservation tables a pass starts with |
| LinkController.Controller.ReconcileLinks | controllers/link/reconcile.go:47-58 | the loop follows the step function, and ends completed or cut short as it does |
| PodGroups.ResolvePrimaryNode | util/containerlab/grouping.go:22-54 | the loop terminates on every graph and finds the host |
| PodGroups.ResolveFindsEnd | util/containerlab/grouping.go:22-54 | from anywhere on a chain that ends, resolution finds its end |
| PodGroups.HostsItselfIff | util/containerlab/grouping.go:22-54 | a node hosts itself exactly if it shares no namespace or names itself; no node of a longer cycle does |
| PodGroups.WalkFindsCycle | compiler/compilecontainerlab.go:1270-1296 | the walk terminates and reports a cycle exactly if the chain revisits a node |
| PodGroups.ValidateNodeNetworkModes | compiler/compilecontainerlab.go:1225-1299 | the diagnostics, in order, are those of the graph; there are none exactly if every reference is fine |
| PodGroups.ReportIsExact | compiler/compilecontainerlab.go:1225-1299 | a diagnostic is raised for a node exactly if it is unsupported, dangling or on a chain that revisits a node |
| PodGroups.VerdictIs | compiler/compilecontainerlab.go:1229-1296 | the verdict on the text of a mode: fine, unsupported, unknown primary or cycle |
| PodGroups.ContainerModeIff | compiler/names.go:17-30 | a mode refers to a node exactly if it is `container:` and the node's name |
| PodGroups.CleanIsForest | compiler/compilecontainerlab.go:1225-1299 | without a diagnostic every chain reaches a node with empty network-mode within the node count |
| PodGroups.ResolveGroupMembers | util/containerlab/grouping.go:56-77 | the primary first, then sorted and without repetition exactly the nodes it hosts |
| PodGroups.GroupsPartition | util/containerlab/grouping.go:22-77 | on an accepted graph every node has one host, which hosts itself, and shares it with the node it refers to |
| PlanInput.CompileAcceptedInterfaces | controllers/node/planinput.go:133-212 | the interfaces of all Links in the order of their ids, or the first error |
| PlanInput.CompiledExactly | controllers/node/planinput.go:133-212 | the compiled interfaces are those of the Links and no others |
| PlanInput.AllCompiledIff | controllers/node/planinput.go:139-192 | compilation succeeds exactly if every Link with an end in the Pod was accepted, is bound to the names and current UIDs of its ends, none for the host, and has a wire id if it leaves the Pod |
| PlanInput.LinkCompiledExactly | controllers/node/planinput.go:139-212 | one interface for each end at a member, with its Node, Link, peer, MTU and wire id; host, loopback, same-Pod or wire exactly by where the far end is |
| PlanInput.PodMirrors | controllers/node/planinput.go:164-209 | a Link inside one Pod gives two interfaces that name each other, with one MTU and class, and no third |
| PlanInput.HostLinkCompiled | controllers/node/planinput.go:174-209 | a host Link gives one interface, without a peer Node and with the host's interface name |
| PlanInput.BothSidesAgree | controllers/node/planinput.go:133-212 | two Pods compiled from separate listings plan mirror images of a Link between them: peer UID, peer interface, wire id, MTU, both classed wire, one interface each |
| PlanInput.WireClassIffWireID | controllers/node/planinput.go:257-272 | the planner classes an interface as wire exactly if the allocator gave the Link an id |
| PlanInput.SettledLinkIsReady | controllers/node/planinput.go:214-255 | over every run, a Link that a completed pass accepted is never reported as stale, host-bound or waiting |
| PlanInput.PodWiresDistinct | controllers/node/planinput.go:133-212 | after a completed pass the wire ids inside one Pod's input are pairwise distinct among processed Links |
| PlanInput.WiresAgreeIff | controllers/node/direct.go:100-112 | planner and allocator agree on every Link of a listed group exactly if its primary hosts itself, which is the guard under which a group is planned |
| PlanInput.CyclicPairIsNeverPlanned | controllers/node/direct.go:100-112 | of two Nodes that refer to each other neither gets a Pod, while a Link between them gets a wire id |
| ExposedPorts.OwnExact | controllers/node/direct.go:808-845 | the fold over planned ports yields the declared owner if there is one, else the first to plan the port unless auto expose is off; it fails exactly for a stray container or a port two members both declare and plan, with the error of whichever comes first |
| ExposedPorts.OwnPlanned | controllers/node/direct.go:802-845 | the nested loops keep the ports of each node consistent with the owners and follow the fold |
| ExposedPorts.ClaimDefaults | controllers/node/direct.go:850-882 | the free default ports all go to the member whose name sorts first |
| ExposedPorts.ListPorts | controllers/node/direct.go:883-917 | the listing holds each member's ports once, by protocol and number; the last ownership check fires only if two members share a uid |
| ExposedPorts.CompileDirectExposedPorts | controllers/node/direct.go:759-920 | the outcome in every case, error and listing, stated on the declarations and planned ports |
| ExposedPorts.ListingIsPartition | controllers/node/direct.go:759-920 | with distinct uids: failure exactly as above, no port held by two members, a declared and planned port held by its declarer, no planned or default port left out with auto expose on, declared ports only with it off |
| ExposedPorts.ListingIff | controllers/node/direct.go:759-920 | with auto expose on, port by port: the member that declares and plans it holds it, else the first to plan it, and a default port that nobody plans the member whose name sorts first; nobody holds anything else |
| ExposedPorts.ContainersForgetOrder | controllers/node/direct.go:803-845 | reordering the containers never moves a declared port, and moves nothing with auto expose off |
| ExposedPorts.ExplicitsExact | controllers/node/direct.go:776-801 | the declared ports are indexed by exactly the members' uids, each with what its definition declares |
| ExposedPorts.ExplicitsOkIff | controllers/node/direct.go:778-801 | collecting the declarations fails exactly if some member declares a text that is no port |
| PlannedPorts.MapPorts | internal/deviceplan/mapper.go:1414-1437 | the ports of one container, or that a declared text is no port |
| PlannedPorts.MappedExact | internal/deviceplan/mapper.go:1414-1437 | a container plans its image's ports first and unchanged and every port its Node declares, and no others |
| PlannedPorts.ImagePortsExact | internal/deviceplan/mapper.go:1414-1420 | image ports keep their number, with the protocol in upper case and TCP if there is none |
| PlannedPorts.PortTextIff | compiler/ports.go:38-86 | what exposure takes for a port: white space around a number from 1 to 65535, alone or with tcp or udp in either case; everything else is refused |
| PlannedPorts.ParsersAgreeIff | internal/deviceplan/mapper.go:1421-1428 | what the mapper takes, exposure takes as the same port exactly if the text does not end in a bare slash; what exposure takes, the mapper takes exactly if there is no space to trim |
| PlannedPorts.AdmittedIsParsed | charts/clabernetes/crds/c9s.run_nodes.yaml:567 | on every text the Node resource admits both parsers give the port that was written |
| PlannedPorts.AdmittedDeclaresExactly | charts/clabernetes/crds/c9s.run_nodes.yaml:567 | an admitted Node declares exactly the numbers and protocols that are written |
| PlannedPorts.AppendEvaluatedNode | internal/deviceplan/mapper.go:95-178 | one planned container per recorded one; a Node that records none, or fails a check that is not about ports, is refused |
| PlannedPorts.MapPlan | internal/deviceplan/mapper.go:20-59 | the containers of all Nodes in order, or that one could not be mapped |
| PlannedPorts.NodeIsPlanned | internal/deviceplan/mapper.go:509-529 | every evaluated Node has a planned container, made from its own declarations |
| PlannedPorts.DeclaredPortsAreHeld | controllers/node/direct.go:357-362 | for a planned group with distinct uids exposure fails exactly for a text that is no port or a port two members declare, and every port a member declares is held by that member and nobody else; with auto expose off nothing else is held |
| PlannedPorts.AdmittedPortsAreHeld | controllers/node/direct.go:357-362 | for Nodes the API server admits, exposure fails exactly if two members declare one port |
| PlannedPorts.AdmittedPortsNeverStop | internal/deviceplan/mapper.go:715-718 | no port text of an admitted Node stops the mapping of any of its containers |
| PlannedPorts.AdmittedIsMappedIff | internal/deviceplan/mapper.go:20-178 | a group of admitted Nodes is mapped exactly if every Node records a container and passes the checks that are not about ports |
| Addresses.CopyHashBit | controllers/node/directmanagement.go:487-496 | one bit of the destination becomes one bit of the digest, the others stay |
| Addresses.HashedPrefixAddress | controllers/node/directmanagement.go:467-485 | the network bits stay and the host bits are the leading digest bits |
| Addresses.LastPrefixAddress | controllers/node/directmanagement.go:498-514 | the address with all host bits set |
| Addresses.BitOfOverwrite | controllers/node/directmanagement.go:467-514 | a byte-wise overwrite of a bit range changes those bits and no others |
| Addresses.HashedContained | controllers/node/directmanagement.go:467-485 | for every digest a hashed address lies in the range |
| Addresses.HashedBits | controllers/node/directmanagement.go:467-485 | bit by bit: the network bits of the prefix, then the digest from its first bit on |
| Addresses.EndBits | controllers/node/directmanagement.go:498-514 | the ends of a range bit by bit |
| Addresses.NestedContains | controllers/node/directmanagement.go:25-59 | a member of a nested range is a member of the subnet |
| Addresses.NestedEnds | controllers/node/directmanagement.go:25-59 | the subnet's ends lie in a nested range only as that range's own ends |
| Addresses.FirstUsableContained | controllers/node/directmanagement.go:572-579 | the default gateway is in the subnet and not its first address exactly if the subnet has more than one address |
| Management.NewDirectManagementPool | controllers/node/directmanagement.go:25-59 | the pool or the error for each combination of subnet and range |
| Management.NewPoolSound | controllers/node/directmanagement.go:25-59 | three membership tests are enough for the range to be nested in the subnet |
| Management.NewPoolIff | controllers/node/directmanagement.go:25-59 | there is a pool exactly for a subnet of the family and a range all of whose addresses are in it; the pool has the addresses of the subnet and allocates from those of the range |
| Management.UsableAvoidsSubnetEnds | controllers/node/directmanagement.go:451-465 | a usable address of the range is in the subnet, is not its first address (section 2.6.1 of RFC 4291) and not the IPv4 broadcast (section 3.2.1.3 of RFC 1122) |
| Management.ReserveDeclared | controllers/node/directmanagement.go:72-94 | the loop books the declared addresses that are in the range, or stops at the first error |
| Management.ReserveAllForgetsOrder | controllers/node/directmanagement.go:74-94 | booking succeeds exactly if no two Nodes declare one address, and books the same whatever the walk |
| Management.AllocateDirectManagementAddresses | controllers/node/directmanagement.go:61-164 | the whole allocation, errors included, with an order of its own for each of its two loops over the Nodes |
| Management.FindFree | controllers/node/directmanagement.go:141-160 | the first usable and free candidate within the attempt bound |
| Management.AllocationIsSafe | controllers/node/directmanagement.go:61-164 | for every digest: exactly the undeclared Nodes get an address, in the range, usable, not the gateway, not declared, not given twice |
| FirstFree.AllocationIff | controllers/node/directmanagement.go:61-164 | allocation succeeds with these grants if and only if no two Nodes declare one address of the range, the gateway is in the subnet and not declared, and every undeclared Node has the first of the hashes of its UID, or of its name without one, that is usable, not declared and not given to a Node before it in the order of UID, then name |
| FirstFree.IdentityOrder | controllers/node/directmanagement.go:124-130 | the sort key orders by UID, then name |
| FirstFree.ProbeIff | controllers/node/directmanagement.go:141-160 | the search ends at the first free candidate, and fails exactly if there is none within the bound |
| Management.AllocationForgetsOrder | controllers/node/directmanagement.go:61-164 | allocation is a function of the Node set whatever orders its loops visit the map in, independently of one another |
| Management.AllocationIsPrefixStable | controllers/node/directmanagement.go:61-164 | adding an undeclared Node later in (UID, name) order leaves earlier Nodes' addresses unchanged although the attempt bound grows |
| ManagementPlans.ValidateUniqueExplicitManagementAddresses | controllers/node/directmanagement.go:296-346 | passes exactly if no two Nodes declare one address in either family |
| ManagementPlans.CompileDirectManagement | controllers/node/direct.go:1392-1532 | the addresses of a group's members, or the first error |
| AcceptedAddresses.GroupIsPlannedIff | controllers/node/direct.go:1392-1532 | a group is planned if and only if no address is declared twice, the policy has pools and allocations, and every member with an identity of its own declares in each family nothing or an address that is accepted and that a host may have |
| AcceptedAddresses.PlannedAs | controllers/node/direct.go:1452-1528 | the inputs are one for each such member: its UID, and in each family the declared address or the allocated one, with the gateway on its link |
| AcceptedAddresses.NormalizeIff | controllers/node/directmanagement.go:348-379 | a declaration is accepted exactly if it is of the family and, with a pool, in the subnet and of its length if it has one; a bare address gets the length of the subnet |
| AcceptedAddresses.PlannedLength | controllers/node/directmanagement.go:348-379 | with a pool every planned address is in the subnet and carries its length |
| AcceptedAddresses.DisabledGroup | controllers/node/direct.go:1398-1410 | a disabled policy plans nothing, and is an error exactly if a member declares an address |
| AcceptedAddresses.SettingsAre | controllers/node/directmanagement.go:540-579 | a missing IPv4 subnet becomes 172.20.20.0/24 and a missing gateway the second address of its subnet; all else stays as written |
| ManagementPlans.AddressesDiffer | controllers/node/direct.go:1457-1528 | two Nodes never get one address, whether declared or allocated |
| ManagementPlans.DuplicateCheckNeverFires | controllers/node/direct.go:1493-1505 | for a group without repeated members the duplicate check in the loop never fires |
| ManagementPlans.GroupsNeverShareAnAddress | controllers/node/direct.go:1392-1532 | groups compiled independently under one policy, every loop in any order, never give two Nodes a common address |
| MixedPolicies.CollisionIff | controllers/node/directmanagement.go:61-164 | some Nodes and digests make two allocations give one address to two Nodes exactly if both accept their gateway, an address is offered by both, each offers another one, and they do not offer the same addresses of one range |
| MixedPolicies.CollisionNeeds | controllers/node/directmanagement.go:61-164 | for every set of Nodes, digest and order: a collision implies that condition |
| MixedPolicies.SameOfferAllocatesAlike | controllers/node/directmanagement.go:108-164 | two policies with one range and the same offered addresses allocate the same addresses, whatever their subnets and gateways |
| MixedPolicies.PoliciesNeverShareAnAddress | controllers/node/direct.go:1392-1532 | groups compiled under two policies that cannot collide, in particular with disjoint ranges, never give two Nodes a common address, declared or allocated, across families too |
| MixedPolicies.SharedAddressIff | controllers/node/direct.go:1392-1532 | for policies that leave IPv6 alone: some plans share an address exactly if the allocations can collide |
| MixedPolicies.HalfRangeShares | controllers/node/direct.go:1392-1532 | two Nodes planned with one address, under the default policy and one whose range is the upper half of the default subnet |
| ManagementPlans.NamespaceForgetsOrder | controllers/node/directmanagement.go:166-281 | all callers see the same pools and allocations, whatever the orders of the uniqueness check and of the four allocation loops |
| ManagementPlans.CompileNamespaceManagementIdentities | controllers/node/directmanagement.go:166-281 | publishes exactly the Nodes whose address compiles, sorted and once each |
| ManagementPlans.DirectoryForgetsOrder | controllers/node/directmanagement.go:174-281 | what the directory publishes follows from the Nodes and the policy, whatever the orders |
| ManagementPlans.DirectorySharesIff | controllers/node/directmanagement.go:166-281 | the directory publishes two Nodes of one policy with a common address exactly if both declare it in a form that fits the subnet, and then every plan under that policy is refused |
| ManagementPlans.DirectoryAgreesWithPlans | controllers/node/directmanagement.go:166-294 | under one policy a planned Node is published with the bare form of its planned addresses, and not otherwise |
| ManagementPlans.ReconcileNamespacePeerDirectory | controllers/node/peerdirectorycontroller.go:121-180 | with mixed policies, told apart by their JSON text and each compiled with orders of its own, each Node appears at most once, and as its own policy has it |
| PeerDirectoryLock.RunKeepsInv | controllers/node/directpeerdirectory.go:30-69 | every interleaving of any number of refreshes keeps the mutexes, the counts and the snapshots consistent |
| PeerDirectoryLock.MutualExclusion | controllers/node/directpeerdirectory.go:30-56 | threads of one namespace share one writer, and at most one is in the critical section |
| PeerDirectoryLock.EntryIffCounted | controllers/node/directpeerdirectory.go:35-56 | the map holds an entry exactly if some thread counts on it |
| PeerDirectoryLock.QuiescenceIsEmpty | controllers/node/directpeerdirectory.go:47-56 | nothing is left in the map once every thread is out |
| PeerDirectoryLock.DirectoryNeverGoesBack | controllers/node/directpeerdirectory.go:28-69 | no shard write of a refresh under the lock replaces a newer snapshot by an older one |
| PeerDirectoryLock.PublishIsFresh | controllers/node/directpeerdirectory.go:58-69 | after a publish the shard holds exactly the Node and Pod versions the thread read, no older than the cluster was when it took the writer mutex and no newer than it is; no other shard changes |
| PeerDirectoryLock.EveryRunCanEnd | controllers/node/directpeerdirectory.go:35-56 | from every reachable state the threads inside can all come out, and then the map is empty |
| PeerDirectoryLock.NoDeadlock | controllers/node/directpeerdirectory.go:35-56 | while a thread is inside, some thread inside can go on |
| ObservationCache.ObservationCache.Load | controllers/observationcache.go:34-52 | the new cache; the token returned is accepted for this key |
| ObservationCache.ObservationCache.Store | controllers/observationcache.go:53-64 | the new cache, changed exactly if the token matches |
| ObservationCache.ObservationCache.Invalidate | controllers/observationcache.go:66-72 | the new cache, without the key |
| ObservationCache.TokensAreEpochs | controllers/observationcache.go:35-52 | over every trace tokens are epoch numbers modulo 2^64 |
| ObservationCache.StoreTakesEffectIff | controllers/observationcache.go:35-72 | over every trace a Store takes effect exactly if it names the loaded key and that key was not invalidated since, or the counter came full circle |
| ObservationCache.StoreIffUndisturbed | controllers/observationcache.go:35-72 | up to 2^64 epochs only the first case remains |
| ObservationCache.WrapAroundAcceptsStale | controllers/observationcache.go:43-47 | with 2^64 + 1 epochs a stale Store is accepted |
| ObservationCache.ServedIsFresh | controllers/observationcache.go:35-72 | a value served was stored, accepted, and its key not invalidated since |
| ObservationCache.AcceptedIsServed | controllers/observationcache.go:35-64 | an accepted value is what a Load serves until its key is invalidated or stored again |
| ObservationCache.ServedBeganAfterInvalidation | controllers/observationcache.go:35-72 | the work behind a served value began with a Load of that key, and the key has not been invalidated from that Load to now |
| ObservationCache.InvalidatedBeforeEnqueued | controllers/observationcache.go:148-198 | an input change invalidates each key before it enqueues it exactly if the handler enqueues by Add |
| ObservationCache.EventsByKind | controllers/observationcache.go:161-198 | creations, deletions, generic events and updates of the desired state invalidate each key right before they enqueue it, exactly if the handler enqueues by Add; a status update invalidates nothing |
| ObservationCache.EveryCallIsEnqueued | controllers/observationcache.go:161-198 | whatever the event, exactly the keys asked for are enqueued |
| ObservationCache.InFlightResultIsDropped | controllers/observationcache.go:148-198 | after an input change enqueued a key, a reconcile of it that was in flight can never publish its result, whatever other operations come in between |
| NodeRenames.CompiledDefinition.SanitizeNodeNames | compiler/names.go:62-146 | a collision changes nothing; else nodes, labels, network-modes, app protocols, links and recorded sources are the old ones under the new names, whatever the map orders |
| NodeRenames.LinksSurvive | compiler/names.go:137-140 | link by link, each of the two ends keeps its interface and stays attached to the host or to the node whose definition it named, under its new name |
| NodeRenames.DefinitionSurvives | compiler/names.go:80-135 | every node is there under its new name, with its definition, its labels, the label of its original name, its network-mode repointed and its app protocols; there is no other node |
| NodeRenames.RenameIsBijection | compiler/names.go:99-113 | the pass neither drops nor merges a node |
| NodeRenames.SourceNameInverts | compiler/compile.go:249-255 | the compiled name of a node leads back to its source name |
| NodeRenames.CompiledNameInverts | compiler/compile.go:249-255 | the source name of a compiled node leads to the compiled name |
| NodeRenames.RenameSourceToCompiled | compiler/render.go:955-963 | finds a compiled name recorded for the source name, or reports that there is none |
| NodeRenames.SourceLookupIsTarget | compiler/render.go:955-963 | whatever the order of the search its answer is the renamed name |
| NodeRenames.ReferenceSurvivesIff | compiler/names.go:62-146 | a reference finds the same definition as before, or nothing as before, exactly if it was declared or nobody is given its name |
| NodeRenames.UndeclaredReferenceIsCaptured | compiler/names.go:62-146 | an undeclared reference that the pass redirects |
| NodeRenames.LinkEndSurvives | compiler/names.go:137-140 | a link end keeps its interface and stays attached to the host or to the same definition |
| NodeRenames.LinkEndsStayApart | compiler/names.go:162-169 | two link ends coincide after the pass exactly if they did before |
| NodeRenames.ModeFollows | compiler/names.go:36-52 | a container network-mode follows its primary, any other mode is left alone |
| NodeRenames.PodGroupsSurvive | compiler/names.go:133-135 | the pod groups are the same groups under the new names |
| Profiles.RenderNodeProfiles | compiler/render.go:684-745 | the shared profile if some node needs it, then the dedicated ones by node name |
| Profiles.RenderedIs | compiler/render.go:684-745 | the listing entry by entry: the shared profile with the default resources if some node uses it, then by node name a profile with the node's own resources |
| Profiles.ProfileNameIff | compiler/render.go:609-637 | a node refers to the shared profile exactly if it has no entry that differs from the default |
| Profiles.RenderForgetsOrder | compiler/render.go:684-745 | the rendered profiles do not depend on the map order |
| Profiles.NodeReachesItsPolicy | compiler/render.go:609-637 | a node's profile is rendered, is the only one of its name, and says what the direct lookup by source name, then default, then unset says |
| Profiles.RenderedIsReferenced | compiler/render.go:684-745 | every rendered profile is referenced by a node |
| Profiles.PolicyFollowsRename | compiler/render.go:609-637 | through the rename pass a node reaches the policy written against its source name |
| PortText.PortRoundTrip | compiler/ports.go:38-86 | parsing a printed canonical port gives it back, for all ports and protocols |
| PortText.CanonicalInjective | compiler/compilecontainerlab.go:1561-1567 | distinct destinations have distinct canonical texts |
| PortText.NodeDefinition.ConsumeExposePortsLabel | compiler/compilecontainerlab.go:1502-1559 | the label is consumed, the ports keep their list as a prefix and gain the missing canonical destinations, invalid entries are reported |
| PortText.MissingExact | compiler/compilecontainerlab.go:1528-1558 | exactly the missing destinations, each once |
| PortText.ExposesUnion | compiler/compilecontainerlab.go:1502-1559 | what is exposed afterwards is the node's own destinations and the label's |
| PortText.LabelExposesItsPorts | compiler/compilecontainerlab.go:1528-1558 | a label that joins printed ports with commas adds exactly those ports, none twice, and no entry is reported |
| PortText.CanonicalEndpointFixed | compiler/links.go:92-114 | a canonical endpoint is its own canonical form and splits into two non-empty trimmed parts, so the later split check cannot fail |
| PortText.CanonicalEndpointIff | compiler/links.go:92-114 | a text is an endpoint exactly if it is a node and an interface with one colon and white space around either at most, and its canonical form is these two with a colon |

## Left out

- Kubernetes clients, informers, leader election, logging and metrics: only listings, edits by others and the three outcomes of a write are kept.
- Of a Link's status, conditions other than Accepted and all transition times.
- That Link status is written by this controller alone is assumed: other clients edit specs, create and delete.
- LinkSafety.RunKeepsWiresUnique: a status write whose reply is lost takes effect at once or never; writes that land later are the subject of `LateWrites`.
- LateWrites.TimelyRunKeepsWiresUnique: the condition on a whole run is sufficient only, since a write that outlives a listing may still land harmlessly; the exact conditions are stated for one landing.
- PeerDirectoryLock.DirectoryNeverGoesBack: the directory controller writes the same shards without this lock (controllers/node/peerdirectorycontroller.go:177). The two writers never mix because starting that controller switches the locked path off (controllers/node/direct.go:169, controllers/node/peerdirectorycontroller.go:40), and it has one worker; this switch is not modelled.
- PlannedPorts.AdmittedIsMappedIff: takes the mapper's other refusals as one flag per Node. These are containers without configuration or not started (internal/deviceplan/mapper.go:517-525), namespace owners that cannot be resolved (531-564), definitions without a direct-Pod mapping (566-682), auto-remove, PID and cgroup modes, entrypoint, command, security and memory texts (693-735), and missing images, readiness targets or storage.
- PlannedPorts.DeclaredPortsAreHeld: takes a Node's declared ports as the planner decodes them from the Node's JSON, and normalizing a plan as any reordering of its containers and ports.
- The comparison behind `DesiredStateChanged` (controllers/observationcache.go:78-111): an event carries the answer as a flag.
- Parsing and printing of IP text, SHA-256, JSON, label validation and the name sanitizer: parameters, as described above.
- Uniqueness of Link resource names and of shortened names: these rest on hashes; profile names are assumed not to collide.
- Pod addresses and aliases in peer entries, DNS names, mesh and inbound ports: they would only add copied fields.
- MixedPolicies.SharedAddressIff: with IPv6 in a policy only one direction is stated, since a plan may then be refused for reasons of the other family.
- NodeRenames.CompiledDefinition.SanitizeNodeNames: treats definitions as values; two names that share one definition object are not modelled, nor is the difference between absent and empty labels.
- Profiles.RenderNodeProfiles: keeps name and resources of a profile; the rest of its spec is the same for all profiles, and JSON errors are not modelled.
- LinkController.Controller.ReconcileLink: reports success or failure; error texts are not modelled.
- Structured YAML endpoints, link types and the diagnostics of `compileContainerlabLinks` (compiler/links.go:138-254): easy once endpoints are canonical.
- Node flattening, the planner, the Pod renderer, certificates and image metadata.
