/** The token-guarded cache of desired-state work. A reconcile loads a key and gets a token,
    works, and stores its result under that token; events invalidate keys concurrently. Tokens
    are `uint64`, so the model wraps them at 2^64.
  */
module ObservationCache {
  import opened Wrappers

  const TokenSpace: nat := 0x1_0000_0000_0000_0000

  type Key = string

  /** `value` is set once a result has been stored. */
  datatype Entry<V> = Entry(token: nat, value: Option<V>)

  datatype Cache<V> = Cache(next: nat, entries: map<Key, Entry<V>>)

  datatype Op<V> = Load(key: Key) | Store(key: Key, token: nat, value: V) | Invalidate(key: Key)

  function Apply<V>(c: Cache<V>, op: Op<V>): Cache<V> {
    match op
    case Load(key) =>
      if key in c.entries then c
      else
        var token := (c.next + 1) % TokenSpace;
        Cache(token, c.entries[key := Entry(token, None)])
    case Store(key, token, value) =>
      if Accepts(c, key, token) then c.(entries := c.entries[key := Entry(token, Some(value))]) else c
    case Invalidate(key) => c.(entries := c.entries - {key})
  }

  predicate Accepts<V>(c: Cache<V>, key: Key, token: nat) {
    key in c.entries && c.entries[key].token == token
  }

  /** The cache after a trace of operations, in the order in which its mutex admitted them. */
  function After<V>(trace: seq<Op<V>>): Cache<V> {
    if |trace| == 0 then Cache(0, map[])
    else Apply(After(trace[..|trace| - 1]), trace[|trace| - 1])
  }

  // ---------------------------------------------------------------- the mutable cache

  class ObservationCache<V> {
    var next: nat
    var entries: map<Key, Entry<V>>

    function Value(): Cache<V>
      reads this
    {
      Cache(next, entries)
    }

    constructor ()
      ensures Value() == Cache(0, map[])
    {
      next := 0;
      entries := map[];
    }

    method Load(key: Key) returns (value: Option<V>, token: nat)
      modifies this
      ensures Value() == Apply(old(Value()), Op.Load(key))
      ensures Accepts(Value(), key, token) && value == entries[key].value
    {
      if key !in entries {
        next := (next + 1) % TokenSpace;
        entries := entries[key := Entry(next, None)];
      }
      return entries[key].value, entries[key].token;
    }

    method Store(key: Key, token: nat, value: V)
      modifies this
      ensures Value() == Apply(old(Value()), Op.Store(key, token, value))
    {
      if key in entries && entries[key].token == token {
        entries := entries[key := Entry(token, Some(value))];
      }
    }

    method Invalidate(key: Key)
      modifies this
      ensures Value() == Apply(old(Value()), Op.Invalidate(key))
    {
      entries := entries - {key};
    }
  }

  // ---------------------------------------------------------------- epochs

  /** Loads that started a new epoch, counted without wrapping. */
  ghost function Epochs<V>(trace: seq<Op<V>>): nat {
    if |trace| == 0 then 0
    else
      var before, op := trace[..|trace| - 1], trace[|trace| - 1];
      if op.Load? && EpochOf(before, op.key).None? then Epochs(before) + 1 else Epochs(before)
  }

  /** The epoch a key is in: the number of the Load that opened it, unless invalidated since. */
  ghost function EpochOf<V>(trace: seq<Op<V>>, key: Key): Option<nat> {
    if |trace| == 0 then None
    else
      var before, op := trace[..|trace| - 1], trace[|trace| - 1];
      if op == Invalidate(key) then None
      else if op == Load(key) && EpochOf(before, key).None? then Some(Epochs(before) + 1)
      else EpochOf(before, key)
  }

  /** Tokens are epochs, wrapped. */
  lemma {:induction false} TokensAreEpochs<V>(trace: seq<Op<V>>, key: Key)
    ensures After(trace).next == Epochs(trace) % TokenSpace
    ensures match EpochOf(trace, key)
            case None => key !in After(trace).entries
            case Some(e) =>
              && 1 <= e <= Epochs(trace)
              && key in After(trace).entries && After(trace).entries[key].token == e % TokenSpace
    decreases |trace|
  {
    if |trace| > 0 {
      var before, op := trace[..|trace| - 1], trace[|trace| - 1];
      TokensAreEpochs(before, key);
      TokensAreEpochs(before, op.key);
      WrapSuccessor(Epochs(before));
    }
  }

  lemma WrapSuccessor(n: nat)
    ensures (n % TokenSpace + 1) % TokenSpace == (n + 1) % TokenSpace
  {
  }

  /** Two keys are never in the same epoch. */
  lemma {:induction false} EpochsDiffer<V>(trace: seq<Op<V>>, k: Key, m: Key)
    requires k != m && EpochOf(trace, k).Some?
    ensures EpochOf(trace, k) != EpochOf(trace, m)
    decreases |trace|
  {
    var before := trace[..|trace| - 1];
    TokensAreEpochs(before, k);
    TokensAreEpochs(before, m);
    if EpochOf(before, k).Some? && EpochOf(trace, k) == EpochOf(before, k) {
      EpochsDiffer(before, k, m);
    }
  }

  /** No operation after position `j` invalidates the key. */
  ghost predicate Undisturbed<V>(trace: seq<Op<V>>, j: nat, key: Key) {
    forall m :: j < m < |trace| ==> trace[m] != Invalidate(key)
  }

  /** The epoch opened or joined by the Load at `j` is, ever after, that of its key and only
      until the key is invalidated. */
  lemma {:induction false} EpochEndsWithInvalidation<V>(trace: seq<Op<V>>, j: nat, m: Key)
    requires j < |trace| && trace[j].Load?
    ensures EpochOf(trace[..j + 1], trace[j].key).Some?
    ensures EpochOf(trace, m) == EpochOf(trace[..j + 1], trace[j].key) <==>
              m == trace[j].key && Undisturbed(trace, j, m)
    decreases |trace|
  {
    var k := trace[j].key;
    var n := |trace| - 1;
    assert trace[..j + 1][..j] == trace[..j];
    if j == n {
      assert trace[..j + 1] == trace;
      if m != k { EpochsDiffer(trace, k, m); }
    } else {
      var before := trace[..n];
      assert before[..j + 1] == trace[..j + 1];
      EpochEndsWithInvalidation(before, j, m);
      EpochsGrow(trace, j + 1, n);
      TokensAreEpochs(trace[..j + 1], k);
      assert Undisturbed(trace, j, m) <==> Undisturbed(before, j, m) && trace[n] != Invalidate(m);
    }
  }

  lemma {:induction false} EpochsGrow<V>(trace: seq<Op<V>>, a: nat, b: nat)
    requires a <= b <= |trace|
    ensures Epochs(trace[..a]) <= Epochs(trace[..b])
    decreases b
  {
    if a < b {
      assert trace[..b][..b - 1] == trace[..b - 1];
      EpochsGrow(trace, a, b - 1);
    }
  }

  /** The token that the Load at `j` returned. */
  function TokenAt<V>(trace: seq<Op<V>>, j: nat): nat
    requires j < |trace|
  {
    var c := After(trace[..j + 1]);
    if trace[j].key in c.entries then c.entries[trace[j].key].token else 0
  }

  /** A whole number of times round the token space apart. */
  ghost predicate Congruent(a: nat, b: nat) {
    (a - b) % TokenSpace == 0
  }

  /** The key is in a later epoch whose wrapped token repeats that of the Load at `j`. */
  ghost predicate Aliased<V>(trace: seq<Op<V>>, j: nat, m: Key)
    requires j < |trace|
  {
    var loaded, now := EpochOf(trace[..j + 1], trace[j].key), EpochOf(trace, m);
    && loaded.Some? && now.Some? && now != loaded
    && Congruent(now.value, loaded.value)
  }

  /** Cache safety over all traces: a Store under the token of a Load takes effect if and only if it
      names the key that was loaded and no Invalidate of that key came in between -- deleted and
      recreated keys and tokens of other keys included -- or the token counter has come full circle.
    */
  lemma StoreTakesEffectIff<V>(trace: seq<Op<V>>, j: nat, m: Key)
    requires j < |trace| && trace[j].Load?
    ensures Accepts(After(trace), m, TokenAt(trace, j)) <==>
              (m == trace[j].key && Undisturbed(trace, j, m)) || Aliased(trace, j, m)
  {
    EpochEndsWithInvalidation(trace, j, m);
    AcceptsIffCongruent(trace, j, m);
    assert Congruent(EpochOf(trace[..j + 1], trace[j].key).value, EpochOf(trace[..j + 1], trace[j].key).value);
  }

  /** A token is accepted exactly if the epochs are congruent. */
  lemma AcceptsIffCongruent<V>(trace: seq<Op<V>>, j: nat, m: Key)
    requires j < |trace| && trace[j].Load? && EpochOf(trace[..j + 1], trace[j].key).Some?
    ensures Accepts(After(trace), m, TokenAt(trace, j)) <==>
              EpochOf(trace, m).Some? &&
              Congruent(EpochOf(trace, m).value, EpochOf(trace[..j + 1], trace[j].key).value)
  {
    TokensAreEpochs(trace[..j + 1], trace[j].key);
    TokensAreEpochs(trace, m);
    if EpochOf(trace, m).Some? {
      WrapsTogether(EpochOf(trace, m).value, EpochOf(trace[..j + 1], trace[j].key).value);
    }
  }

  lemma WrapsTogether(a: nat, b: nat)
    ensures a % TokenSpace == b % TokenSpace <==> Congruent(a, b)
  {
  }

  /** Which takes more than 2^64 epochs. */
  lemma StoreIffUndisturbed<V>(trace: seq<Op<V>>, j: nat, m: Key)
    requires j < |trace| && trace[j].Load?
    requires Epochs(trace) <= TokenSpace
    ensures Accepts(After(trace), m, TokenAt(trace, j)) <==>
              m == trace[j].key && Undisturbed(trace, j, m)
  {
    var k := trace[j].key;
    StoreTakesEffectIff(trace, j, m);
    TokensAreEpochs(trace[..j + 1], k);
    TokensAreEpochs(trace, m);
    EpochsGrow(trace, j + 1, |trace|);
    assert trace[..|trace|] == trace;
    if EpochOf(trace, m).Some? && EpochOf(trace[..j + 1], k).Some? {
      WrapsTogether(EpochOf(trace, m).value, EpochOf(trace[..j + 1], k).value);
      ResiduesDiffer(EpochOf(trace[..j + 1], k).value, EpochOf(trace, m).value);
    }
  }

  lemma ResiduesDiffer(a: nat, b: nat)
    requires 1 <= a <= TokenSpace && 1 <= b <= TokenSpace
    ensures a % TokenSpace == b % TokenSpace <==> a == b
  {
  }

  // ---------------------------------------------------------------- the bound is exact

  /** The key is loaded and invalidated `n` times. */
  function Churn<V>(key: Key, n: nat): seq<Op<V>> {
    if n == 0 then [] else Churn(key, n - 1) + [Load(key)] + [Invalidate(key)]
  }

  lemma {:induction false} AfterSnoc<V>(trace: seq<Op<V>>, op: Op<V>)
    ensures After(trace + [op]) == Apply(After(trace), op)
    ensures Epochs(trace + [op]) == Epochs(trace) + (if op.Load? && EpochOf(trace, op.key).None? then 1 else 0)
    ensures forall k :: EpochOf(trace + [op], k) ==
              if op == Invalidate(k) then None
              else if op == Load(k) && EpochOf(trace, k).None? then Some(Epochs(trace) + 1)
              else EpochOf(trace, k)
  {
    assert (trace + [op])[..|trace|] == trace;
  }

  lemma OneChurn<V>(c: Cache<V>, n: nat, key: Key)
    requires c == Cache(n % TokenSpace, map[])
    ensures Apply(Apply(c, Load(key)), Invalidate(key)) == Cache((n + 1) % TokenSpace, map[])
  {
    WrapSuccessor(n);
    assert Apply(c, Load(key)).entries - {key} == map[];
  }

  lemma {:induction false} ChurnCache<V>(key: Key, n: nat)
    ensures After(Churn<V>(key, n)) == Cache(n % TokenSpace, map[])
    decreases n
  {
    if n > 0 {
      ChurnCache<V>(key, n - 1);
      AfterTwo(Churn<V>(key, n - 1), Load(key), Invalidate(key));
      OneChurn(After(Churn<V>(key, n - 1)), n - 1, key);
    }
  }

  lemma AfterTwo<V>(trace: seq<Op<V>>, first: Op<V>, second: Op<V>)
    ensures After(trace + [first] + [second]) == Apply(Apply(After(trace), first), second)
  {
    AfterSnoc(trace, first);
    AfterSnoc(trace + [first], second);
  }

  lemma {:induction false} ChurnEpochs<V>(key: Key, n: nat)
    ensures Epochs(Churn<V>(key, n)) == n && EpochOf(Churn<V>(key, n), key).None?
    decreases n
  {
    if n > 0 {
      ChurnEpochs<V>(key, n - 1);
      var before := Churn<V>(key, n - 1);
      AfterSnoc(before, Load(key));
      AfterSnoc(before + [Load(key)], Invalidate(key));
    }
  }

  /** One epoch more and the guarantee is gone: after 2^64 + 1 epochs of one key, a Store under the
      very first token is accepted although its key was invalidated again and again. */
  lemma WrapAroundAcceptsStale<V>(key: Key) returns (trace: seq<Op<V>>, j: nat)
    ensures j < |trace| && trace[j] == Load(key)
    ensures Epochs(trace) == TokenSpace + 1
    ensures !Undisturbed(trace, j, key) && Accepts(After(trace), key, TokenAt(trace, j))
  {
    var churn := Churn<V>(key, TokenSpace);
    ChurnCache<V>(key, TokenSpace);
    ChurnEpochs<V>(key, TokenSpace);
    trace := churn + [Load(key)];
    AfterSnoc(churn, Load(key));
    ChurnStarts<V>(key, TokenSpace);
    j := 0;
    assert trace[..1] == [Load(key)] == [] + [Load(key)];
    AfterSnoc<V>([], Load(key));
    assert trace[1] == Invalidate(key);
  }

  lemma {:induction false} ChurnStarts<V>(key: Key, n: nat)
    requires n > 0
    ensures |Churn<V>(key, n)| == 2 * n && Churn<V>(key, n)[0] == Load(key) && Churn<V>(key, n)[1] == Invalidate(key)
    decreases n
  {
    if n > 1 {
      ChurnStarts<V>(key, n - 1);
    }
  }

  // ---------------------------------------------------------------- what a Load serves

  /** A value served for a key was stored, accepted, and not invalidated since. */
  lemma {:induction false} ServedIsFresh<V>(trace: seq<Op<V>>, key: Key) returns (m: nat)
    requires key in After(trace).entries && After(trace).entries[key].value.Some?
    ensures m < |trace| && Undisturbed(trace, m, key)
    ensures trace[m].Store? && trace[m].key == key && Some(trace[m].value) == After(trace).entries[key].value
    ensures Accepts(After(trace[..m]), key, trace[m].token)
    decreases |trace|
  {
    var n := |trace| - 1;
    var before, op := trace[..n], trace[n];
    if op.Store? && op.key == key && Accepts(After(before), key, op.token) {
      m := n;
    } else {
      m := ServedIsFresh(before, key);
      assert before[..m] == trace[..m];
    }
  }

  /** And the other way: an accepted value is what a Load serves, until the key is invalidated or
      another value is stored for it. */
  lemma {:induction false} AcceptedIsServed<V>(trace: seq<Op<V>>, m: nat)
    requires m < |trace| && trace[m].Store? && Accepts(After(trace[..m]), trace[m].key, trace[m].token)
    requires Undisturbed(trace, m, trace[m].key)
    requires forall i :: m < i < |trace| && trace[i].Store? ==> trace[i].key != trace[m].key
    ensures trace[m].key in After(trace).entries
    ensures After(trace).entries[trace[m].key] == Entry(trace[m].token, Some(trace[m].value))
    decreases |trace|
  {
    var n := |trace| - 1;
    if m < n {
      var before := trace[..n];
      assert before[..m] == trace[..m] && before[m] == trace[m];
      forall i | m < i < |before| ensures before[i] != Invalidate(trace[m].key) { assert before[i] == trace[i]; }
      AcceptedIsServed(before, m);
    }
  }

  /** Callers store under tokens that some earlier Load returned. */
  ghost predicate TokensAreLoaded<V(!new)>(trace: seq<Op<V>>) {
    forall m :: 0 <= m < |trace| && trace[m].Store? ==> exists j :: LoadedAt(trace, j, m)
  }

  ghost predicate LoadedAt<V>(trace: seq<Op<V>>, j: int, m: int)
    requires 0 <= m < |trace| && trace[m].Store?
  {
    0 <= j < m && trace[j].Load? && trace[m].token == TokenAt(trace, j)
  }

  /** End to end: the work behind a served value began with a Load of that key, and the key has not been
      invalidated from that Load to now -- whatever other operations came in between. */
  lemma ServedBeganAfterInvalidation<V(!new)>(trace: seq<Op<V>>, key: Key) returns (j: nat, m: nat)
    requires TokensAreLoaded(trace) && Epochs(trace) <= TokenSpace
    requires key in After(trace).entries && After(trace).entries[key].value.Some?
    ensures j < m < |trace| && trace[j] == Load(key) && trace[m].Store?
    ensures trace[m] == Store(key, TokenAt(trace, j), trace[m].value)
    ensures Some(trace[m].value) == After(trace).entries[key].value
    ensures Undisturbed(trace, j, key)
  {
    m := ServedIsFresh(trace, key);
    j :| LoadedAt(trace, j, m);
    var before := trace[..m];
    assert before[..j + 1] == trace[..j + 1];
    EpochsGrow(trace, m, |trace|);
    assert trace[..|trace|] == trace;
    StoreIffUndisturbed(before, j, key);
    forall i | j < i < |trace| ensures trace[i] != Invalidate(key) {
      if i < m {
        assert trace[i] == before[i];
      }
    }
  }

  // ---------------------------------------------------------------- the event side

  /** How an event handler may enqueue a request. */
  datatype Enqueue = Add(key: Key) | AddAfter(key: Key) | AddRateLimited(key: Key)

  datatype EventKind = Create | Update(desiredStateChanged: bool) | Delete | Generic

  datatype Effect = Invalidated(key: Key) | Enqueued(key: Key)

  /** Everything but a status-only update goes through the invalidating queue. */
  predicate ChangesInput(e: EventKind) {
    e.Update? ==> e.desiredStateChanged
  }

  /** The invalidating queue overrides `Add` and inherits the other ways to enqueue. */
  function Effects(e: EventKind, calls: seq<Enqueue>): seq<Effect> {
    if |calls| == 0 then []
    else
      var call := calls[|calls| - 1];
      Effects(e, calls[..|calls| - 1]) +
      (if ChangesInput(e) && call.Add? then [Invalidated(call.key), Enqueued(call.key)] else [Enqueued(call.key)])
  }

  /** Every enqueue comes right after the invalidation of its key. */
  ghost predicate EachInvalidatedFirst(effects: seq<Effect>) {
    forall i :: 0 <= i < |effects| && effects[i].Enqueued? ==>
      i > 0 && effects[i - 1] == Invalidated(effects[i].key)
  }

  /** Kind by kind: a creation, a deletion, a generic event and an update that changes the desired state
      invalidate each key right before they enqueue it, exactly if the handler enqueues by `Add`. An
      update of the status alone invalidates nothing. */
  lemma EventsByKind(e: EventKind, calls: seq<Enqueue>)
    ensures e == Create || e == Delete || e == Generic || e == Update(true) ==>
              (EachInvalidatedFirst(Effects(e, calls)) <==> forall i :: 0 <= i < |calls| ==> calls[i].Add?)
    ensures e == Update(false) ==> forall k :: Invalidated(k) !in Effects(e, calls)
  {
    if e == Update(false) {
      StatusInvalidatesNothing(calls);
    } else {
      InvalidatedBeforeEnqueued(e, calls);
    }
  }

  lemma {:induction false} StatusInvalidatesNothing(calls: seq<Enqueue>)
    ensures forall k :: Invalidated(k) !in Effects(Update(false), calls)
    decreases |calls|
  {
    if |calls| > 0 {
      StatusInvalidatesNothing(calls[..|calls| - 1]);
    }
  }

  /** Whatever the event, exactly the keys asked for are enqueued. */
  lemma {:induction false} EveryCallIsEnqueued(e: EventKind, calls: seq<Enqueue>, k: Key)
    ensures Enqueued(k) in Effects(e, calls) <==> Add(k) in calls || AddAfter(k) in calls || AddRateLimited(k) in calls
    decreases |calls|
  {
    if |calls| > 0 {
      var n := |calls| - 1;
      assert calls == calls[..n] + [calls[n]];
      EveryCallIsEnqueued(e, calls[..n], k);
    }
  }

  /** For an event that changes inputs this holds if and only if the handler enqueues by `Add`. */
  lemma {:induction false} InvalidatedBeforeEnqueued(e: EventKind, calls: seq<Enqueue>)
    requires e != Update(false)
    ensures EachInvalidatedFirst(Effects(e, calls)) <==> forall i :: 0 <= i < |calls| ==> calls[i].Add?
    ensures |calls| > 0 ==> |Effects(e, calls)| > 0 && Effects(e, calls)[|Effects(e, calls)| - 1].Enqueued?
    decreases |calls|
  {
    if |calls| > 0 {
      var n := |calls| - 1;
      InvalidatedBeforeEnqueued(e, calls[..n]);
      var before, all := Effects(e, calls[..n]), Effects(e, calls);
      assert EachInvalidatedFirst(all) ==> EachInvalidatedFirst(before) by {
        if EachInvalidatedFirst(all) {
          forall i | 0 <= i < |before| && before[i].Enqueued?
            ensures i > 0 && before[i - 1] == Invalidated(before[i].key)
          {
            assert all[i] == before[i];
            assert i > 0 && all[i - 1] == before[i - 1];
          }
        }
      }
      assert all[|all| - 1] == Enqueued(calls[n].key);
      if calls[n].Add? {
        assert all[|all| - 2] == Invalidated(calls[n].key);
      } else if |before| > 0 {
        assert all[|all| - 2] == before[|before| - 1];
      }
    }
  }

  function InvalidationsOf<V>(effects: seq<Effect>): seq<Op<V>> {
    if |effects| == 0 then []
    else
      var last := effects[|effects| - 1];
      InvalidationsOf<V>(effects[..|effects| - 1]) + (if last.Invalidated? then [Invalidate(last.key)] else [])
  }

  /** When a changed input enqueues a key, a reconcile of that key that was in flight can no longer
      publish its result: not when the event is done nor ever after, with any operations of other
      threads before, between and after those of the event. */
  lemma InFlightResultIsDropped<V>(trace: seq<Op<V>>, j: nat, e: EventKind, calls: seq<Enqueue>, i: nat,
                                   later: seq<Op<V>>)
    requires j < |trace| && trace[j].Load?
    requires e != Update(false) && i < |calls| && calls[i] == Add(trace[j].key)
    requires forall op :: op in InvalidationsOf<V>(Effects(e, calls)) ==> op in later
    requires Epochs(trace + later) <= TokenSpace
    ensures !Accepts(After(trace + later), trace[j].key, TokenAt(trace, j))
  {
    var ops := InvalidationsOf<V>(Effects(e, calls));
    var after := trace + later;
    var p := InvalidationIssued<V>(e, calls, i);
    assert ops[p] in later;
    var q :| 0 <= q < |later| && later[q] == Invalidate(trace[j].key);
    assert after[|trace| + q] == Invalidate(trace[j].key);
    assert after[..j + 1] == trace[..j + 1];
    StoreIffUndisturbed(after, j, trace[j].key);
  }

  lemma {:induction false} InvalidationIssued<V>(e: EventKind, calls: seq<Enqueue>, i: nat) returns (p: nat)
    requires e != Update(false) && i < |calls| && calls[i].Add?
    ensures var ops := InvalidationsOf<V>(Effects(e, calls)); p < |ops| && ops[p] == Invalidate(calls[i].key)
    decreases |calls|
  {
    var n := |calls| - 1;
    var before, all := Effects(e, calls[..n]), Effects(e, calls);
    if calls[n].Add? {
      var mid := before + [Invalidated(calls[n].key)];
      assert all == mid + [Enqueued(calls[n].key)];
      assert all[..|all| - 1] == mid && mid[..|mid| - 1] == before;
    } else {
      assert all[..|all| - 1] == before;
    }
    if i == n {
      p := |InvalidationsOf<V>(before)|;
    } else {
      p := InvalidationIssued<V>(e, calls[..n], i);
    }
  }
}
