/** The wire-id allocator of one namespace pass: a reservation table from wire ids to the keys
    of the Links that hold them, and a "lowest free" cursor that rewinds when an id is released.
  */
module Wires {
  import opened Wrappers
  import opened Ordering

  const MaxWireID := 16_000_000

  type Owners = map<int, set<string>>

  datatype Table = Table(owners: Owners, next: int)

  function Holders(owners: Owners, id: int): set<string> {
    if id in owners then owners[id] else {}
  }

  predicate Holds(owners: Owners, key: string, id: int) {
    key in Holders(owners, id)
  }

  const EmptyTable := Table(map[], 1)

  function Min(a: int, b: int): int { if a < b then a else b }

  /** `key` gives up `previous`; an id without holders rewinds the cursor. */
  function Released(t: Table, key: string, previous: int): Table {
    var rest := Holders(t.owners, previous) - {key};
    if previous <= 0 then t
    else if rest != {} then t.(owners := t.owners[previous := rest])
    else Table(t.owners - {previous}, Min(t.next, previous))
  }

  function Held(t: Table, key: string, id: int): Table {
    if id > 0 then t.(owners := t.owners[id := Holders(t.owners, id) + {key}]) else t
  }

  /** `key` moves from wire id `previous` to `id`. */
  function Recorded(t: Table, key: string, id: int, previous: int): Table {
    if previous == id then t else Held(Released(t, key, previous), key, id)
  }

  /** A Link with a smaller key holds the same id. */
  predicate Contested(owners: Owners, key: string, id: int) {
    exists o :: o in Holders(owners, id) && Less(o, key)
  }

  predicate FreeFor(owners: Owners, key: string, id: int) {
    Holders(owners, id) <= {key}
  }

  /** The first id from `from` on that is free for `key`, or one past the ceiling. */
  function Scan(owners: Owners, key: string, from: int): (id: int)
    ensures from <= MaxWireID ==> from <= id <= MaxWireID + 1
    ensures from > MaxWireID ==> id == from
    ensures id <= MaxWireID ==> FreeFor(owners, key, id)
    ensures forall i :: from <= i < id ==> !FreeFor(owners, key, i)
    decreases MaxWireID - from
  {
    if from > MaxWireID || FreeFor(owners, key, from) then from
    else Scan(owners, key, from + 1)
  }

  predicate Retains(owners: Owners, key: string, id: int) {
    1 <= id <= MaxWireID && !Contested(owners, key, id)
  }

  /** The wire id that a Link holding `id` should hold, and the table with its cursor moved. */
  function Chosen(t: Table, key: string, id: int, needsWire: bool): (Option<int>, Table) {
    if !needsWire then (Some(0), t)
    else if Retains(t.owners, key, id) then (Some(id), t)
    else
      var found := Scan(t.owners, key, t.next);
      (if found <= MaxWireID then Some(found) else None, t.(next := found))
  }

  // ---------------------------------------------------------------- the mutable table

  class WireReservations {
    var owners: Owners
    var next: int

    function Value(): Table
      reads this
    {
      Table(owners, next)
    }

    constructor ()
      ensures Value() == EmptyTable
    {
      owners := map[];
      next := 1;
    }

    method Record(key: string, id: int, previous: int)
      modifies this
      ensures Value() == Recorded(old(Value()), key, id, previous)
    {
      if previous == id {
        return;
      }
      if previous > 0 {
        var rest := Holders(owners, previous) - {key};
        if |rest| == 0 {
          owners := owners - {previous};
          next := Min(next, previous);
        } else {
          owners := owners[previous := rest];
        }
      }
      if id > 0 {
        owners := owners[id := Holders(owners, id) + {key}];
      }
    }

    method Desired(key: string, id: int, needsWire: bool) returns (r: Option<int>)
      modifies this`next
      ensures (r, Value()) == Chosen(old(Value()), key, id, needsWire)
    {
      if !needsWire {
        return Some(0);
      }
      var contested := Contested(owners, key, id);
      if id >= 1 && id <= MaxWireID && !contested {
        return Some(id);
      }
      while next <= MaxWireID
        invariant Scan(owners, key, next) == Scan(owners, key, old(next))
      {
        var holders := if next in owners then owners[next] else {};
        if |holders| == 0 || (|holders| == 1 && key in holders) {
          OnlyKey(holders, key);
          return Some(next);
        }
        if holders <= {key} {
          SubsetCard(holders, {key});
        }
        next := next + 1;
      }
      return None;
    }
  }

  lemma OnlyKey(holders: set<string>, key: string)
    requires |holders| == 0 || (|holders| == 1 && key in holders)
    ensures holders <= {key}
  {
    if |holders| == 1 {
      assert |holders - {key}| == 0;
    }
  }

  // ---------------------------------------------------------------- the cursor is sound

  /** Every id below the cursor has a holder, and no id is listed without one. */
  ghost predicate CursorSound(t: Table) {
    && t.next >= 1
    && (forall id :: id in t.owners ==> id > 0 && t.owners[id] != {})
    && (forall id :: 1 <= id < t.next ==> id in t.owners)
  }

  lemma RecordedKeepsCursorSound(t: Table, key: string, id: int, previous: int)
    requires CursorSound(t)
    ensures CursorSound(Recorded(t, key, id, previous))
  {
    var r := Released(t, key, previous);
    assert CursorSound(r);
  }

  lemma ChosenKeepsCursorSound(t: Table, key: string, id: int, needsWire: bool)
    requires CursorSound(t)
    ensures CursorSound(Chosen(t, key, id, needsWire).1)
  {
    if needsWire && !Retains(t.owners, key, id) {
      var found := Scan(t.owners, key, t.next);
      forall i | 1 <= i < found ensures i in t.owners {
        if t.next <= i { assert !FreeFor(t.owners, key, i); }
      }
    }
  }

  /** The wire id each Link of the namespace holds, by key. */
  type Holdings = map<string, int>

  /** The table says exactly who holds what. */
  ghost predicate Tracks(t: Table, ids: Holdings) {
    forall id, key :: Holds(t.owners, key, id) <==> id > 0 && key in ids && ids[key] == id
  }

  lemma RecordedTracks(t: Table, ids: Holdings, key: string, id: int, previous: int)
    requires Tracks(t, ids)
    requires previous == if key in ids then ids[key] else 0
    ensures Tracks(Recorded(t, key, id, previous), ids[key := id])
  {
    var r := Recorded(t, key, id, previous);
    forall i, k ensures Holds(r.owners, k, i) <==> i > 0 && k in ids[key := id] && ids[key := id][k] == i {
      assert Holds(t.owners, k, i) <==> i > 0 && k in ids && ids[k] == i;
    }
  }

  /** Some other Link holds `id`. */
  ghost predicate HeldByOther(ids: Holdings, key: string, id: int) {
    exists k :: k in ids && k != key && ids[k] == id
  }

  /** The naive search: the least id in range that no other Link holds. */
  ghost predicate LeastUnheld(ids: Holdings, key: string, id: int) {
    && 1 <= id <= MaxWireID
    && !HeldByOther(ids, key, id)
    && forall i :: 1 <= i < id ==> HeldByOther(ids, key, i)
  }

  lemma FreeIffUnheld(t: Table, ids: Holdings, key: string, id: int)
    requires Tracks(t, ids) && id > 0
    ensures FreeFor(t.owners, key, id) <==> !HeldByOther(ids, key, id)
  {
    forall k | k in ids && ids[k] == id ensures Holds(t.owners, k, id) {}
    if !FreeFor(t.owners, key, id) {
      var k :| k in Holders(t.owners, id) && k != key;
      assert Holds(t.owners, k, id);
    }
  }

  /** The cursor refines the naive search: a Link that cannot keep its id gets the least id held
      by no other Link, and gets none exactly if all of them are held by others. */
  lemma FreshIdIsLeast(t: Table, ids: Holdings, key: string)
    requires CursorSound(t) && Tracks(t, ids) && key in ids
    requires !Retains(t.owners, key, ids[key])
    ensures match Chosen(t, key, ids[key], true).0
            case Some(id) => LeastUnheld(ids, key, id)
            case None => forall i :: 1 <= i <= MaxWireID ==> HeldByOther(ids, key, i)
  {
    var found := Scan(t.owners, key, t.next);
    forall i | 1 <= i < found && i <= MaxWireID ensures HeldByOther(ids, key, i) {
      if i < t.next {
        // Held, and not by `key` alone: `key` would have kept an uncontested id.
        var k :| k in Holders(t.owners, i);
        assert Holds(t.owners, k, i);
        if k == key {
          var o :| o in Holders(t.owners, i) && Less(o, key);
          assert Holds(t.owners, o, i);
          LessIrreflexive(key);
        }
      } else {
        FreeIffUnheld(t, ids, key, i);
      }
    }
    if found <= MaxWireID {
      FreeIffUnheld(t, ids, key, found);
    }
  }

  /** Ids 1 to `n` all held means that there are at least `n` holders. */
  lemma {:induction false} Pigeonhole(ids: Holdings, key: string, n: nat)
    requires forall i :: 1 <= i <= n ==> HeldByOther(ids, key, i)
    ensures |ids.Keys - {key}| >= n
    decreases n
  {
    if n > 0 {
      assert HeldByOther(ids, key, n);
      var k :| k in ids && k != key && ids[k] == n;
      var rest := map x | x in ids && x != k :: ids[x];
      forall i | 1 <= i <= n - 1 ensures HeldByOther(rest, key, i) {
        assert HeldByOther(ids, key, i);
        var x :| x in ids && x != key && ids[x] == i;
        assert x in rest && rest[x] == i;
      }
      Pigeonhole(rest, key, n - 1);
      assert ids.Keys - {key} == (rest.Keys - {key}) + {k};
    }
  }

  /** With at most 16,000,000 Links in the namespace the allocator never runs out. */
  lemma NeverExhausted(t: Table, ids: Holdings, key: string, needsWire: bool)
    requires CursorSound(t) && Tracks(t, ids) && key in ids
    requires |ids| <= MaxWireID
    ensures Chosen(t, key, ids[key], needsWire).0.Some?
  {
    assert ids.Keys == (ids.Keys - {key}) + {key};
    if needsWire && !Retains(t.owners, key, ids[key]) && Chosen(t, key, ids[key], true).0.None? {
      FreshIdIsLeast(t, ids, key);
      Pigeonhole(ids, key, MaxWireID);
    }
  }

  /** The id chosen is held by no Link with a smaller key, and a new id by no other Link at all. */
  lemma ChosenIsUncontested(t: Table, ids: Holdings, key: string, needsWire: bool)
    requires CursorSound(t) && Tracks(t, ids) && key in ids
    ensures match Chosen(t, key, ids[key], needsWire).0
            case None => true
            case Some(id) =>
              && (needsWire <==> id != 0) && 0 <= id <= MaxWireID
              && (id != 0 ==> forall k :: k in ids && Less(k, key) ==> ids[k] != id)
              && (id != 0 && id != ids[key] ==> !HeldByOther(ids, key, id))
  {
    if needsWire {
      if Retains(t.owners, key, ids[key]) {
        forall k | k in ids && Less(k, key) ensures ids[k] != ids[key] {
          assert Holds(t.owners, k, ids[key]) <==> ids[k] == ids[key];
        }
      } else {
        FreshIdIsLeast(t, ids, key);
        LessIrreflexive(key);
      }
    }
  }
}
