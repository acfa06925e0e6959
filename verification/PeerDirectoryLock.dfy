/** The per-namespace writer lock of the peer directory: a mutex-protected map from namespaces to
    reference-counted writers, created on first use and dropped by the last user. Taking a mutex,
    looking a writer up or creating it, counting, reading, publishing and giving back are steps of
    their own, and any number of threads interleave.
  */
module PeerDirectoryLock {
  import opened Wrappers

  type Tid = nat

  /** Identity of a writer object; a writer created later is a different object. */
  type Writer = nat

  /** How recent the Node list and the Pod list behind a directory are. */
  datatype Version = Version(nodes: nat, pods: nat)

  predicate AtMost(a: Version, b: Version) { a.nodes <= b.nodes && a.pods <= b.pods }

  /** Where a thread stands in one refresh. */
  datatype Thread =
    | Outside
    | Locked(ns: string)                 // map mutex taken
    | Found(ns: string, w: Writer)       // writer looked up or created
    | Counted(ns: string, w: Writer)     // counted as a user
    | Waiting(ns: string, w: Writer)     // map mutex given back, writer mutex wanted
    | Critical(ns: string, w: Writer, nodes: Option<nat>, pods: Option<nat>)
    | Released(ns: string, w: Writer)    // writer mutex given back
    | Relocked(ns: string, w: Writer)    // map mutex taken again
    | Uncounted(ns: string, w: Writer)   // no longer counted
    | Cleaned(ns: string)                // entry dropped if nobody counts on it

  datatype State = State(
    threads: map<Tid, Thread>,
    mapHolder: Option<Tid>,
    writers: map<string, Writer>,
    users: map<Writer, int>,
    holder: map<Writer, Tid>,
    unborn: Writer,
    cluster: map<string, Version>,
    published: map<(string, nat), Version>)

  datatype Step =
    | Lock(t: Tid, ns: string)
    | LookUp(t: Tid)
    | Count(t: Tid)
    | Unlock(t: Tid)
    | Acquire(t: Tid)
    | ReadNodes(t: Tid)
    | ReadPods(t: Tid)
    | Publish(t: Tid, shard: nat)
    | Release(t: Tid)
    | Relock(t: Tid)
    | Uncount(t: Tid)
    | Clean(t: Tid)
    | Leave(t: Tid)
    | ClusterMoves(ns: string, to: Version)

  function At(s: State, t: Tid): Thread {
    if t in s.threads then s.threads[t] else Outside
  }

  function Moved(s: State, t: Tid, pc: Thread): State {
    s.(threads := s.threads[t := pc])
  }

  function ClusterOf(s: State, ns: string): Version {
    if ns in s.cluster then s.cluster[ns] else Version(0, 0)
  }

  function PublishedOf(s: State, ns: string, shard: nat): Version {
    if (ns, shard) in s.published then s.published[(ns, shard)] else Version(0, 0)
  }

  /** A thread that holds the map mutex. */
  predicate InMap(pc: Thread) {
    pc.Locked? || pc.Found? || pc.Counted? || pc.Relocked? || pc.Uncounted? || pc.Cleaned?
  }

  /** A thread that has hold of a writer object. */
  predicate HasWriter(pc: Thread) {
    !pc.Outside? && !pc.Locked? && !pc.Cleaned?
  }

  /** A thread that the writer counts among its users. */
  predicate Counts(pc: Thread) {
    pc.Counted? || pc.Waiting? || pc.Critical? || pc.Released? || pc.Relocked?
  }

  /** Whether the step can be taken: mutexes block, and each thread runs its program in order. */
  predicate Enabled(s: State, step: Step) {
    match step
    case Lock(t, ns) => At(s, t).Outside? && s.mapHolder.None?
    case LookUp(t) => At(s, t).Locked?
    case Count(t) => At(s, t).Found? && At(s, t).w in s.users
    case Unlock(t) => At(s, t).Counted?
    case Acquire(t) => At(s, t).Waiting? && At(s, t).w !in s.holder
    case ReadNodes(t) => At(s, t).Critical? && At(s, t).nodes.None?
    case ReadPods(t) => At(s, t).Critical? && At(s, t).nodes.Some? && At(s, t).pods.None?
    case Publish(t, _) => At(s, t).Critical? && At(s, t).nodes.Some? && At(s, t).pods.Some?
    case Release(t) => At(s, t).Critical?
    case Relock(t) => At(s, t).Released? && s.mapHolder.None?
    case Uncount(t) => At(s, t).Relocked? && At(s, t).w in s.users
    case Clean(t) => At(s, t).Uncounted? && At(s, t).w in s.users
    case Leave(t) => At(s, t).Cleaned?
    case ClusterMoves(ns, to) => AtMost(ClusterOf(s, ns), to)
  }

  function Next(s: State, step: Step): State
    requires Enabled(s, step)
  {
    match step
    case Lock(t, ns) => Moved(s, t, Locked(ns)).(mapHolder := Some(t))
    case LookUp(t) =>
      var ns := At(s, t).ns;
      if ns in s.writers then Moved(s, t, Found(ns, s.writers[ns]))
      else
        Moved(s, t, Found(ns, s.unborn)).(
          writers := s.writers[ns := s.unborn], users := s.users[s.unborn := 0], unborn := s.unborn + 1)
    case Count(t) =>
      var w := At(s, t).w;
      Moved(s, t, Counted(At(s, t).ns, w)).(users := s.users[w := s.users[w] + 1])
    case Unlock(t) => Moved(s, t, Waiting(At(s, t).ns, At(s, t).w)).(mapHolder := None)
    case Acquire(t) =>
      Moved(s, t, Critical(At(s, t).ns, At(s, t).w, None, None)).(holder := s.holder[At(s, t).w := t])
    case ReadNodes(t) => Moved(s, t, At(s, t).(nodes := Some(ClusterOf(s, At(s, t).ns).nodes)))
    case ReadPods(t) => Moved(s, t, At(s, t).(pods := Some(ClusterOf(s, At(s, t).ns).pods)))
    case Publish(t, shard) =>
      s.(published := s.published[(At(s, t).ns, shard) := Version(At(s, t).nodes.value, At(s, t).pods.value)])
    case Release(t) => Moved(s, t, Released(At(s, t).ns, At(s, t).w)).(holder := s.holder - {At(s, t).w})
    case Relock(t) => Moved(s, t, Relocked(At(s, t).ns, At(s, t).w)).(mapHolder := Some(t))
    case Uncount(t) =>
      var w := At(s, t).w;
      Moved(s, t, Uncounted(At(s, t).ns, w)).(users := s.users[w := s.users[w] - 1])
    case Clean(t) =>
      var pc := At(s, t);
      Moved(s, t, Cleaned(pc.ns)).(writers := if s.users[pc.w] == 0 then s.writers - {pc.ns} else s.writers)
    case Leave(t) => Moved(s, t, Outside).(mapHolder := None)
    case ClusterMoves(ns, to) => s.(cluster := s.cluster[ns := to])
  }

  /** Any interleaving: steps that are blocked when their turn comes do not happen. */
  function Run(s: State, steps: seq<Step>): State {
    if |steps| == 0 then s
    else
      var before := Run(s, steps[..|steps| - 1]);
      var step := steps[|steps| - 1];
      if Enabled(before, step) then Next(before, step) else before
  }

  const Start := State(map[], None, map[], map[], map[], 0, map[], map[])

  // ---------------------------------------------------------------- invariant

  function Users(threads: map<Tid, Thread>, w: Writer): set<Tid> {
    set t | t in threads && Counts(threads[t]) && threads[t].w == w
  }

  /** The map mutex is held by exactly the thread inside its section. */
  ghost predicate MapMutex(s: State) {
    forall t: Tid :: InMap(At(s, t)) <==> s.mapHolder == Some(t)
  }

  /** All threads of a namespace share the one writer in the map. */
  ghost predicate Shared(s: State) {
    && (forall t :: HasWriter(At(s, t)) ==> At(s, t).ns in s.writers && s.writers[At(s, t).ns] == At(s, t).w)
    && (forall ns :: ns in s.writers ==> s.writers[ns] < s.unborn && s.writers[ns] in s.users)
    && (forall m, n :: m in s.writers && n in s.writers && m != n ==> s.writers[m] != s.writers[n])
  }

  function CountOf(s: State, w: Writer): int {
    if w in s.users then s.users[w] else 0
  }

  /** The reference counts count. */
  ghost predicate CountsExact(s: State) {
    forall ns :: ns in s.writers ==> CountOf(s, s.writers[ns]) == |Users(s.threads, s.writers[ns])|
  }

  /** A writer stays in the map only while someone counts on it or is just now adding or dropping it. */
  ghost predicate Needed(s: State, ns: string)
    requires ns in s.writers
  {
    || Users(s.threads, s.writers[ns]) != {}
    || exists t :: Handling(s, t, ns)
  }

  ghost predicate Handling(s: State, t: Tid, ns: string) {
    (At(s, t).Found? || At(s, t).Uncounted?) && At(s, t).ns == ns
  }

  ghost predicate NoneLeft(s: State) {
    forall ns :: ns in s.writers ==> Needed(s, ns)
  }

  /** A writer mutex is held by exactly the thread in its critical section. */
  ghost predicate WriterMutex(s: State) {
    && (forall t :: At(s, t).Critical? ==> At(s, t).w in s.holder && s.holder[At(s, t).w] == t)
    && (forall w :: w in s.holder ==> At(s, s.holder[w]).Critical? && At(s, s.holder[w]).w == w)
  }

  /** Nothing published is newer than the cluster or than what a thread in the critical section
      has read. */
  ghost predicate Current(s: State) {
    && (forall ns, shard :: AtMost(PublishedOf(s, ns, shard), ClusterOf(s, ns)))
    && (forall t, shard :: At(s, t).Critical? ==> ReadsCover(s, At(s, t), shard))
  }

  ghost predicate ReadsCover(s: State, pc: Thread, shard: nat)
    requires pc.Critical?
  {
    && (pc.nodes.Some? ==> PublishedOf(s, pc.ns, shard).nodes <= pc.nodes.value <= ClusterOf(s, pc.ns).nodes)
    && (pc.pods.Some? ==> PublishedOf(s, pc.ns, shard).pods <= pc.pods.value <= ClusterOf(s, pc.ns).pods)
  }

  ghost predicate Inv(s: State) {
    MapMutex(s) && Shared(s) && CountsExact(s) && NoneLeft(s) && WriterMutex(s) && Current(s)
  }

  lemma OthersStay(s: State, step: Step, x: Tid)
    requires Enabled(s, step)
    requires step.ClusterMoves? || x != step.t
    ensures At(Next(s, step), x) == At(s, x)
  {
  }

  lemma StepKeepsMapMutex(s: State, step: Step)
    requires MapMutex(s) && Enabled(s, step)
    ensures MapMutex(Next(s, step))
  {
    var n := Next(s, step);
    forall x ensures InMap(At(n, x)) <==> n.mapHolder == Some(x) {
      if step.ClusterMoves? || x != step.t { OthersStay(s, step, x); }
      assert InMap(At(s, x)) <==> s.mapHolder == Some(x);
      assert !step.ClusterMoves? ==> (InMap(At(s, step.t)) <==> s.mapHolder == Some(step.t));
    }
  }

  /** Under the map mutex a writer without users is nobody else's. */
  lemma UnusedIsFree(s: State, t: Tid, x: Tid)
    requires MapMutex(s) && Shared(s) && CountsExact(s)
    requires At(s, t).Uncounted? && CountOf(s, At(s, t).w) == 0
    requires x != t && HasWriter(At(s, x))
    ensures At(s, x).ns != At(s, t).ns
  {
    var w := At(s, t).w;
    assert InMap(At(s, t)) && !InMap(At(s, x));
    assert At(s, t).ns in s.writers && s.writers[At(s, t).ns] == w;
    assert Users(s.threads, w) == {};
    assert x in s.threads && Counts(s.threads[x]);
    assert x !in Users(s.threads, w);
  }

  lemma StepKeepsShared(s: State, step: Step)
    requires MapMutex(s) && Shared(s) && CountsExact(s) && Enabled(s, step)
    ensures Shared(Next(s, step))
  {
    var n := Next(s, step);
    assert !step.ClusterMoves? ==> HasWriter(At(s, step.t)) ==> At(s, step.t).ns in s.writers;
    forall x | HasWriter(At(n, x)) ensures At(n, x).ns in n.writers && n.writers[At(n, x).ns] == At(n, x).w {
      if step.ClusterMoves? || x != step.t {
        OthersStay(s, step, x);
        OthersShare(s, step, x);
      }
    }
  }

  lemma OthersShare(s: State, step: Step, x: Tid)
    requires MapMutex(s) && Shared(s) && CountsExact(s) && Enabled(s, step)
    requires (step.ClusterMoves? || x != step.t) && HasWriter(At(s, x))
    ensures var n := Next(s, step);
            At(n, x) == At(s, x) && At(n, x).ns in n.writers && n.writers[At(n, x).ns] == At(n, x).w
  {
    OthersStay(s, step, x);
    if step.Clean? && s.users[At(s, step.t).w] == 0 {
      UnusedIsFree(s, step.t, x);
    }
  }

  /** At most one thread per namespace is in the critical section. */
  lemma OneInCriticalSection(s: State, t: Tid, x: Tid)
    requires Shared(s) && WriterMutex(s)
    requires At(s, t).Critical? && At(s, x).Critical? && At(s, t).ns == At(s, x).ns
    ensures t == x
  {
  }

  lemma StepKeepsWriterMutex(s: State, step: Step)
    requires WriterMutex(s) && Enabled(s, step)
    ensures WriterMutex(Next(s, step))
  {
    var n := Next(s, step);
    forall x | At(n, x).Critical? ensures At(n, x).w in n.holder && n.holder[At(n, x).w] == x {
      if step.ClusterMoves? || x != step.t {
        OthersStay(s, step, x);
      }
      assert At(s, x).Critical? ==> At(s, x).w in s.holder && s.holder[At(s, x).w] == x;
    }
    forall w | w in n.holder ensures At(n, n.holder[w]).Critical? && At(n, n.holder[w]).w == w {
      if w in s.holder {
        var x := s.holder[w];
        if step.ClusterMoves? || x != step.t {
          OthersStay(s, step, x);
        }
      }
    }
  }

  /** A step that changes neither the cluster nor the directory. */
  lemma ReadingKeepsCurrent(s: State, step: Step)
    requires Current(s) && Enabled(s, step) && !step.ClusterMoves? && !step.Publish?
    ensures Current(Next(s, step))
  {
    var n := Next(s, step);
    assert n.published == s.published && n.cluster == s.cluster;
    forall ns, shard ensures AtMost(PublishedOf(n, ns, shard), ClusterOf(n, ns)) {
      assert AtMost(PublishedOf(s, ns, shard), ClusterOf(s, ns));
    }
    forall x, shard | At(n, x).Critical? ensures ReadsCover(n, At(n, x), shard) {
      if x == step.t {
        ReaderCovered(s, step, shard);
      } else {
        OthersStay(s, step, x);
        assert ReadsCover(s, At(s, x), shard);
      }
    }
  }

  lemma ReaderCovered(s: State, step: Step, shard: nat)
    requires Current(s) && Enabled(s, step) && !step.ClusterMoves? && !step.Publish?
    requires At(Next(s, step), step.t).Critical?
    ensures ReadsCover(Next(s, step), At(Next(s, step), step.t), shard)
  {
    var pc := At(Next(s, step), step.t);
    assert AtMost(PublishedOf(s, pc.ns, shard), ClusterOf(s, pc.ns));
    assert At(s, step.t).Critical? ==> ReadsCover(s, At(s, step.t), shard);
  }

  lemma PublishKeepsCurrent(s: State, t: Tid, shard: nat)
    requires Shared(s) && WriterMutex(s) && Current(s) && Enabled(s, Publish(t, shard))
    ensures Current(Next(s, Publish(t, shard)))
  {
    var n, ns := Next(s, Publish(t, shard)), At(s, t).ns;
    assert ReadsCover(s, At(s, t), shard);
    forall m, sh ensures AtMost(PublishedOf(n, m, sh), ClusterOf(n, m)) {
      assert AtMost(PublishedOf(s, m, sh), ClusterOf(s, m));
    }
    forall x, sh | At(n, x).Critical? ensures ReadsCover(n, At(n, x), sh) {
      assert ReadsCover(s, At(s, x), sh);
      if At(s, x).ns == ns {
        OneInCriticalSection(s, t, x);
      }
    }
  }

  lemma ClusterKeepsCurrent(s: State, ns: string, to: Version)
    requires Current(s) && Enabled(s, ClusterMoves(ns, to))
    ensures Current(Next(s, ClusterMoves(ns, to)))
  {
    var n := Next(s, ClusterMoves(ns, to));
    forall m, sh ensures AtMost(PublishedOf(n, m, sh), ClusterOf(n, m)) {
      assert AtMost(PublishedOf(s, m, sh), ClusterOf(s, m));
    }
    forall x, sh | At(n, x).Critical? ensures ReadsCover(n, At(n, x), sh) {
      assert ReadsCover(s, At(s, x), sh);
    }
  }

  // ---------------------------------------------------------------- reference counts

  lemma UsersAfterMove(threads: map<Tid, Thread>, t: Tid, pc: Thread, w: Writer)
    ensures Users(threads[t := pc], w) ==
              (if Counts(pc) && pc.w == w then Users(threads, w) + {t} else Users(threads, w) - {t})
  {
  }

  /** Thread `t` counts on the same writer before and after. */
  ghost predicate SameUse(s: State, n: State, t: Tid) {
    Counts(At(n, t)) == Counts(At(s, t)) && (Counts(At(s, t)) ==> At(n, t).w == At(s, t).w)
  }

  lemma SteadyKeepsCounts(s: State, n: State, t: Tid)
    requires Shared(s) && CountsExact(s)
    requires n.threads == s.threads[t := At(n, t)] && SameUse(s, n, t)
    requires n.users == s.users
    requires forall ns :: ns in n.writers ==> ns in s.writers && s.writers[ns] == n.writers[ns]
    ensures CountsExact(n)
  {
    forall ns | ns in n.writers ensures CountOf(n, n.writers[ns]) == |Users(n.threads, n.writers[ns])| {
      var w := n.writers[ns];
      UsersAfterMove(s.threads, t, At(n, t), w);
      assert t in Users(s.threads, w) <==> Counts(At(s, t)) && At(s, t).w == w;
      assert Users(n.threads, w) == Users(s.threads, w);
    }
  }

  lemma LookUpKeepsCounts(s: State, t: Tid)
    requires Shared(s) && CountsExact(s) && Enabled(s, LookUp(t))
    ensures CountsExact(Next(s, LookUp(t)))
  {
    var n := Next(s, LookUp(t));
    if At(s, t).ns in s.writers {
      SteadyKeepsCounts(s, n, t);
    } else {
      forall ns | ns in n.writers ensures CountOf(n, n.writers[ns]) == |Users(n.threads, n.writers[ns])| {
        NewcomerKeepsCount(s, t, ns);
      }
    }
  }

  lemma NewcomerKeepsCount(s: State, t: Tid, ns: string)
    requires Shared(s) && CountsExact(s) && Enabled(s, LookUp(t)) && At(s, t).ns !in s.writers
    requires ns in Next(s, LookUp(t)).writers
    ensures var n := Next(s, LookUp(t)); CountOf(n, n.writers[ns]) == |Users(n.threads, n.writers[ns])|
  {
    var n := Next(s, LookUp(t));
    var w := n.writers[ns];
    UsersAfterMove(s.threads, t, At(n, t), w);
    assert t !in Users(s.threads, w);
    if ns == At(s, t).ns {
      NewWriterUnused(s, w);
    } else {
      assert s.writers[ns] == w != s.unborn;
    }
  }

  lemma CountKeepsCounts(s: State, t: Tid)
    requires Shared(s) && CountsExact(s) && Enabled(s, Count(t))
    ensures CountsExact(Next(s, Count(t)))
  {
    var n := Next(s, Count(t));
    forall ns | ns in n.writers ensures CountOf(n, n.writers[ns]) == |Users(n.threads, n.writers[ns])| {
      var w := n.writers[ns];
      UsersAfterMove(s.threads, t, At(n, t), w);
      assert t !in Users(s.threads, w);
      assert CountOf(s, w) == |Users(s.threads, w)|;
    }
  }

  lemma UncountKeepsCounts(s: State, t: Tid)
    requires Shared(s) && CountsExact(s) && Enabled(s, Uncount(t))
    ensures CountsExact(Next(s, Uncount(t)))
  {
    var n := Next(s, Uncount(t));
    forall ns | ns in n.writers ensures CountOf(n, n.writers[ns]) == |Users(n.threads, n.writers[ns])| {
      var w := n.writers[ns];
      UsersAfterMove(s.threads, t, At(n, t), w);
      assert t in Users(s.threads, w) <==> Counts(At(s, t)) && At(s, t).w == w;
      assert CountOf(s, w) == |Users(s.threads, w)|;
    }
  }

  lemma StepKeepsCounts(s: State, step: Step)
    requires Shared(s) && CountsExact(s) && Enabled(s, step)
    ensures CountsExact(Next(s, step))
  {
    if step.LookUp? {
      LookUpKeepsCounts(s, step.t);
    } else if step.Count? {
      CountKeepsCounts(s, step.t);
    } else if step.Uncount? {
      UncountKeepsCounts(s, step.t);
    } else if !step.ClusterMoves? && !step.Publish? {
      SteadyKeepsCounts(s, Next(s, step), step.t);
    }
  }

  lemma NewWriterUnused(s: State, w: Writer)
    requires Shared(s) && w == s.unborn
    ensures Users(s.threads, w) == {}
  {
    forall t | t in Users(s.threads, w) ensures false {
      assert HasWriter(At(s, t));
    }
  }

  /** Thread `t` counts on the writer of `ns`, or is adding or dropping it. */
  ghost predicate Involved(s: State, t: Tid, ns: string, w: Writer) {
    Handling(s, t, ns) || (Counts(At(s, t)) && At(s, t).w == w)
  }

  /** Thread `t` keeps its hold on the writer of `ns`, never had one, or leaves the writer to
      other users. */
  ghost predicate HoldPassedOn(s: State, n: State, t: Tid, ns: string)
    requires ns in n.writers
  {
    var w := n.writers[ns];
    || Involved(n, t, ns, w)
    || (&& ns in s.writers && s.writers[ns] == w
        && (!Involved(s, t, ns, w) || (At(s, t).Uncounted? && CountOf(s, w) != 0)))
  }

  lemma MovePassesOn(s: State, step: Step, ns: string)
    requires Shared(s) && Enabled(s, step) && !step.ClusterMoves? && !step.Publish?
    requires ns in Next(s, step).writers
    ensures HoldPassedOn(s, Next(s, step), step.t, ns)
    ensures Next(s, step).threads == s.threads[step.t := At(Next(s, step), step.t)]
  {
    if step.LookUp? {
      LookUpPassesOn(s, step.t, ns);
    } else if step.Clean? {
      CleanPassesOn(s, step.t, ns);
    } else {
      OwnWriter(s, step.t, ns);
    }
  }

  /** A thread's writer is that of its namespace and of no other. */
  lemma OwnWriter(s: State, t: Tid, ns: string)
    requires Shared(s)
    ensures HasWriter(At(s, t)) ==> At(s, t).ns in s.writers && s.writers[At(s, t).ns] == At(s, t).w
    ensures HasWriter(At(s, t)) && ns in s.writers && s.writers[ns] == At(s, t).w ==> At(s, t).ns == ns
  {
  }

  lemma LookUpPassesOn(s: State, t: Tid, ns: string)
    requires Enabled(s, LookUp(t)) && ns in Next(s, LookUp(t)).writers
    ensures HoldPassedOn(s, Next(s, LookUp(t)), t, ns)
    ensures Next(s, LookUp(t)).threads == s.threads[t := At(Next(s, LookUp(t)), t)]
  {
    var n := Next(s, LookUp(t));
    if At(s, t).ns == ns {
      assert Handling(n, t, ns);
    } else {
      assert ns in s.writers && s.writers[ns] == n.writers[ns];
      assert !Involved(s, t, ns, n.writers[ns]);
    }
  }

  lemma CleanPassesOn(s: State, t: Tid, ns: string)
    requires Shared(s) && Enabled(s, Clean(t)) && ns in Next(s, Clean(t)).writers
    ensures HoldPassedOn(s, Next(s, Clean(t)), t, ns)
    ensures Next(s, Clean(t)).threads == s.threads[t := At(Next(s, Clean(t)), t)]
  {
    OwnWriter(s, t, ns);
  }

  lemma NeededGoesOn(s: State, n: State, t: Tid, ns: string)
    requires CountsExact(s) && n.threads == s.threads[t := At(n, t)]
    requires ns in n.writers && (ns in s.writers ==> Needed(s, ns))
    requires HoldPassedOn(s, n, t, ns)
    ensures Needed(n, ns)
  {
    var w := n.writers[ns];
    UsersAfterMove(s.threads, t, At(n, t), w);
    if !Involved(n, t, ns, w) && Users(n.threads, w) == {} {
      assert t !in Users(s.threads, w);
      var x :| Handling(s, x, ns);
      assert At(n, x) == At(s, x);
      assert Handling(n, x, ns);
    }
  }

  lemma StepKeepsNoneLeft(s: State, step: Step)
    requires MapMutex(s) && Shared(s) && CountsExact(s) && NoneLeft(s) && Enabled(s, step)
    ensures NoneLeft(Next(s, step))
  {
    var n := Next(s, step);
    forall ns | ns in n.writers ensures Needed(n, ns) {
      if step.ClusterMoves? || step.Publish? {
        assert Needed(s, ns);
        if x :| Handling(s, x, ns) { assert Handling(n, x, ns); }
      } else {
        MovePassesOn(s, step, ns);
        NeededGoesOn(s, n, step.t, ns);
      }
    }
  }

  lemma StepKeepsInv(s: State, step: Step)
    requires Inv(s) && Enabled(s, step)
    ensures Inv(Next(s, step))
  {
    StepKeepsMapMutex(s, step);
    StepKeepsShared(s, step);
    StepKeepsCounts(s, step);
    StepKeepsNoneLeft(s, step);
    StepKeepsWriterMutex(s, step);
    match step
    case Publish(t, shard) => PublishKeepsCurrent(s, t, shard);
    case ClusterMoves(ns, to) => ClusterKeepsCurrent(s, ns, to);
    case _ => ReadingKeepsCurrent(s, step);
  }

  /** Every interleaving of any number of refreshes keeps the invariant. */
  lemma {:induction false} RunKeepsInv(steps: seq<Step>)
    ensures Inv(Run(Start, steps))
    decreases |steps|
  {
    if |steps| > 0 {
      var before := Run(Start, steps[..|steps| - 1]);
      RunKeepsInv(steps[..|steps| - 1]);
      if Enabled(before, steps[|steps| - 1]) {
        StepKeepsInv(before, steps[|steps| - 1]);
      }
    }
  }

  // ---------------------------------------------------------------- what callers get

  /** Mutual exclusion per namespace, through one shared writer object. */
  lemma MutualExclusion(steps: seq<Step>, t: Tid, x: Tid)
    requires var s := Run(Start, steps);
             HasWriter(At(s, t)) && HasWriter(At(s, x)) && At(s, t).ns == At(s, x).ns
    ensures var s := Run(Start, steps);
            && At(s, t).w == At(s, x).w
            && (At(s, t).Critical? && At(s, x).Critical? ==> t == x)
  {
    RunKeepsInv(steps);
    var s := Run(Start, steps);
    if At(s, t).Critical? && At(s, x).Critical? {
      OneInCriticalSection(s, t, x);
    }
  }

  /** Whenever the map mutex is free, the map holds an entry for a namespace exactly if some
      thread counts on it; so nothing is left once every thread is out. */
  lemma EntryIffCounted(steps: seq<Step>, ns: string)
    requires Run(Start, steps).mapHolder.None?
    ensures var s := Run(Start, steps);
            ns in s.writers <==> exists t :: Counts(At(s, t)) && At(s, t).ns == ns
  {
    RunKeepsInv(steps);
    var s := Run(Start, steps);
    if ns in s.writers {
      assert Needed(s, ns);
      forall t: Tid ensures !Handling(s, t, ns) {
        assert InMap(At(s, t)) <==> s.mapHolder == Some(t);
      }
      var t :| t in Users(s.threads, s.writers[ns]);
      assert At(s, t).ns in s.writers && s.writers[At(s, t).ns] == At(s, t).w;
      assert Counts(At(s, t)) && At(s, t).ns == ns;
    }
    if t :| Counts(At(s, t)) && At(s, t).ns == ns {
      assert HasWriter(At(s, t));
    }
  }

  lemma NeededIsInside(s: State, ns: string)
    requires ns in s.writers && Needed(s, ns)
    ensures exists t :: !At(s, t).Outside?
  {
    if t :| t in Users(s.threads, s.writers[ns]) {
      assert !At(s, t).Outside?;
    } else {
      var t :| Handling(s, t, ns);
      assert !At(s, t).Outside?;
    }
  }

  lemma QuiescenceIsEmpty(steps: seq<Step>)
    requires forall t :: At(Run(Start, steps), t).Outside?
    ensures Run(Start, steps).writers == map[]
  {
    RunKeepsInv(steps);
    var s := Run(Start, steps);
    forall ns ensures ns !in s.writers {
      if ns in s.writers {
        NeededIsInside(s, ns);
      }
    }
  }

  /** No write to a directory shard replaces a newer snapshot by an older one. */
  lemma DirectoryNeverGoesBack(steps: seq<Step>, step: Step, ns: string, shard: nat)
    requires Enabled(Run(Start, steps), step)
    ensures var s := Run(Start, steps);
            AtMost(PublishedOf(s, ns, shard), PublishedOf(Next(s, step), ns, shard))
  {
    RunKeepsInv(steps);
    var s := Run(Start, steps);
    if step.Publish? {
      assert ReadsCover(s, At(s, step.t), shard);
    }
  }

  /** What a thread in the critical section has read is no older than the cluster was in `from`. */
  ghost predicate ReadsSince(from: State, s: State, t: Tid, ns: string) {
    && At(s, t).Critical? && At(s, t).ns == ns && AtMost(ClusterOf(from, ns), ClusterOf(s, ns))
    && (At(s, t).nodes.Some? ==> ClusterOf(from, ns).nodes <= At(s, t).nodes.value)
    && (At(s, t).pods.Some? ==> ClusterOf(from, ns).pods <= At(s, t).pods.value)
  }

  lemma StepReadsSince(from: State, s: State, t: Tid, ns: string, step: Step)
    requires ReadsSince(from, s, t, ns) && Enabled(s, step) && step != Release(t)
    ensures ReadsSince(from, Next(s, step), t, ns)
  {
    ClusterGrows(s, step, ns);
    if step.ClusterMoves? || step.t != t {
      OthersStay(s, step, t);
    } else {
      CriticalStays(s, step);
    }
  }

  lemma ClusterGrows(s: State, step: Step, ns: string)
    requires Enabled(s, step)
    ensures AtMost(ClusterOf(s, ns), ClusterOf(Next(s, step), ns))
  {
  }

  /** In the critical section a thread reads the cluster as it is, publishes, or releases. */
  lemma CriticalStays(s: State, step: Step)
    requires Enabled(s, step) && !step.ClusterMoves? && At(s, step.t).Critical? && !step.Release?
    ensures var pc, v := At(s, step.t), ClusterOf(s, At(s, step.t).ns);
            At(Next(s, step), step.t) ==
              if step.ReadNodes? then pc.(nodes := Some(v.nodes))
              else if step.ReadPods? then pc.(pods := Some(v.pods))
              else pc
  {
  }

  lemma {:induction false} SectionReadsSince(steps: seq<Step>, i: nat, t: Tid)
    requires i < |steps| && steps[i] == Acquire(t) && Enabled(Run(Start, steps[..i]), Acquire(t))
    requires forall j :: i < j < |steps| ==> steps[j] != Release(t)
    ensures var from := Run(Start, steps[..i]); ReadsSince(from, Run(Start, steps), t, At(from, t).ns)
    decreases |steps|
  {
    var n := |steps| - 1;
    var from := Run(Start, steps[..i]);
    if i < n {
      var before := steps[..n];
      assert before[..i] == steps[..i];
      SectionReadsSince(before, i, t);
      if Enabled(Run(Start, before), steps[n]) {
        StepReadsSince(from, Run(Start, before), t, At(from, t).ns, steps[n]);
      }
    }
  }

  /** A publish takes effect and is fresh: the shard then holds exactly the Node and Pod versions the
      thread has read, these are no older than the cluster was when the thread took the writer mutex
      and no newer than it is now, and no other shard is touched. */
  lemma PublishIsFresh(steps: seq<Step>, i: nat, t: Tid, shard: nat)
    requires i < |steps| && steps[i] == Acquire(t) && Enabled(Run(Start, steps[..i]), Acquire(t))
    requires forall j :: i < j < |steps| ==> steps[j] != Release(t)
    requires Enabled(Run(Start, steps), Publish(t, shard))
    ensures var from, s := Run(Start, steps[..i]), Run(Start, steps);
            var ns, after := At(from, t).ns, Next(s, Publish(t, shard));
            && PublishedOf(after, ns, shard) == Version(At(s, t).nodes.value, At(s, t).pods.value)
            && AtMost(ClusterOf(from, ns), PublishedOf(after, ns, shard))
            && AtMost(PublishedOf(after, ns, shard), ClusterOf(s, ns))
            && (forall m: string, k: nat :: (m, k) != (ns, shard) ==> PublishedOf(after, m, k) == PublishedOf(s, m, k))
  {
    SectionReadsSince(steps, i, t);
    RunKeepsInv(steps);
    assert ReadsCover(Run(Start, steps), At(Run(Start, steps), t), shard);
  }

  /** How many steps a thread is from being out. */
  function Rank(pc: Thread): nat {
    match pc
    case Outside => 0
    case Cleaned(_) => 1
    case Uncounted(_, _) => 2
    case Relocked(_, _) => 3
    case Released(_, _) => 4
    case Critical(_, _, _, _) => 5
    case Waiting(_, _) => 6
    case Counted(_, _) => 7
    case Found(_, _) => 8
    case Locked(_) => 9
  }

  /** A step that takes its thread on in its program. */
  predicate Advances(step: Step) {
    !step.ClusterMoves? && !step.Lock? && !step.ReadNodes? && !step.ReadPods? && !step.Publish?
  }

  lemma AdvanceLowersRank(s: State, step: Step)
    requires Enabled(s, step) && Advances(step)
    ensures Rank(At(Next(s, step), step.t)) < Rank(At(s, step.t))
    ensures forall x :: x != step.t ==> At(Next(s, step), x) == At(s, x)
  {
  }

  /** As long as a thread is inside, some thread that is inside can go on: no deadlock. */
  lemma NoDeadlock(steps: seq<Step>, t: Tid) returns (step: Step)
    requires !At(Run(Start, steps), t).Outside?
    ensures Advances(step) && Enabled(Run(Start, steps), step)
    ensures Rank(At(Next(Run(Start, steps), step), step.t)) < Rank(At(Run(Start, steps), step.t))
  {
    RunKeepsInv(steps);
    step := ProgressIn(Run(Start, steps), t);
    AdvanceLowersRank(Run(Start, steps), step);
  }

  lemma ProgressIn(s: State, t: Tid) returns (step: Step)
    requires Inv(s) && !At(s, t).Outside?
    ensures Advances(step) && Enabled(s, step)
  {
    if s.mapHolder.Some? {
      step := MapHolderMoves(s, s.mapHolder.value);
    } else {
      assert InMap(At(s, t)) <==> s.mapHolder == Some(t);
      match At(s, t)
      case Waiting(_, w) => step := if w in s.holder then Release(s.holder[w]) else Acquire(t);
      case Critical(_, _, _, _) => step := Release(t);
      case _ => step := Relock(t);
    }
  }

  lemma MapHolderMoves(s: State, h: Tid) returns (step: Step)
    requires MapMutex(s) && Shared(s) && s.mapHolder == Some(h)
    ensures Advances(step) && Enabled(s, step) && step.t == h && InMap(At(s, h))
  {
    assert InMap(At(s, h));
    assert HasWriter(At(s, h)) ==> At(s, h).w in s.users;
    match At(s, h)
    case Locked(_) => step := LookUp(h);
    case Found(_, _) => step := Count(h);
    case Counted(_, _) => step := Unlock(h);
    case Relocked(_, _) => step := Uncount(h);
    case Uncounted(_, _) => step := Clean(h);
    case _ => step := Leave(h);
  }

  /** How many steps the threads below `k` are from being out. */
  function Distance(s: State, k: nat): nat {
    if k == 0 then 0 else Distance(s, k - 1) + Rank(At(s, k - 1))
  }

  lemma {:induction false} OneStepCloser(s: State, n: State, t: Tid, k: nat)
    requires Rank(At(n, t)) < Rank(At(s, t)) && forall x :: x != t ==> At(n, x) == At(s, x)
    ensures Distance(n, k) == Distance(s, k) - if t < k then Rank(At(s, t)) - Rank(At(n, t)) else 0
    decreases k
  {
    if k > 0 { OneStepCloser(s, n, t, k - 1); }
  }

  lemma {:induction false} AllOut(s: State, k: nat, t: Tid)
    requires Distance(s, k) == 0 && t < k
    ensures At(s, t).Outside?
    decreases k
  {
    if t < k - 1 { AllOut(s, k - 1, t); }
  }

  lemma {:induction false} SomebodyIn(s: State, k: nat) returns (t: Tid)
    requires Distance(s, k) > 0
    ensures t < k && !At(s, t).Outside?
    decreases k
  {
    if Distance(s, k - 1) > 0 { t := SomebodyIn(s, k - 1); } else { t := k - 1; }
  }

  lemma RunSnoc(steps: seq<Step>, step: Step)
    requires Enabled(Run(Start, steps), step)
    ensures Run(Start, steps + [step]) == Next(Run(Start, steps), step)
  {
    assert (steps + [step])[..|steps|] == steps;
  }

  lemma {:induction false} Bound(keys: set<nat>) returns (k: nat)
    ensures forall x :: x in keys ==> x < k
    decreases keys
  {
    k := 0;
    if keys != {} {
      var x :| x in keys;
      var rest := Bound(keys - {x});
      assert forall y :: y in keys ==> y == x || y in keys - {x};
      k := if rest <= x then x + 1 else rest;
    }
  }

  /** Every refresh can be brought to its end: from every reachable state there are steps of the threads
      inside alone after which every thread is out, and the map of writers is empty. */
  lemma EveryRunCanEnd(steps: seq<Step>) returns (more: seq<Step>)
    ensures forall i :: 0 <= i < |more| ==> Advances(more[i])
    ensures forall t :: At(Run(Start, steps + more), t).Outside?
    ensures Run(Start, steps + more).writers == map[]
  {
    var k := Bound(Run(Start, steps).threads.Keys);
    more := EndsFrom(steps, k);
  }

  lemma {:induction false} EndsFrom(steps: seq<Step>, k: nat) returns (more: seq<Step>)
    requires forall t: nat :: t >= k ==> At(Run(Start, steps), t).Outside?
    ensures forall i :: 0 <= i < |more| ==> Advances(more[i])
    ensures forall t :: At(Run(Start, steps + more), t).Outside?
    ensures Run(Start, steps + more).writers == map[]
    decreases Distance(Run(Start, steps), k)
  {
    var s := Run(Start, steps);
    if Distance(s, k) == 0 {
      more := [];
      assert steps + more == steps;
      forall t: nat ensures At(s, t).Outside? {
        if t < k { AllOut(s, k, t); }
      }
      QuiescenceIsEmpty(steps);
    } else {
      var t := SomebodyIn(s, k);
      var step := NoDeadlock(steps, t);
      AdvanceLowersRank(s, step);
      RunSnoc(steps, step);
      OneStepCloser(s, Next(s, step), step.t, k);
      var rest := EndsFrom(steps + [step], k);
      more := [step] + rest;
      assert steps + more == steps + [step] + rest;
    }
  }
}
