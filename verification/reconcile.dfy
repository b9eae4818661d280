/** Reconciliation of the records of one anchor against a desired
    collection: the shared shape of assertGrantedAuthoryMembers (anchor =
    authority) and assertUserGrantedAuthorities (anchor = user). Read the
    anchor's records, scan them against the collection, build the new rows,
    decide whether anything changed, put the new rows, delete the dropped
    records; on the way out reload permissions if something changed. */
module Reconciliation {
  import opened Wrappers
  import opened RelationStore
  import opened MembershipScan
  import opened Membership

  /** The world after the call, what is left in the caller's collection,
      and how the call ended. */
  datatype Reconciled = Reconciled(world: World, collection: seq<string>, status: Outcome<Error>)

  /** The records the anchor's query returns. */
  function Existing(s: Store, fixed: Field, anchor: string): (e: seq<Record>)
    ensures forall r :: r in e <==> r in s.records && r.row.Get(fixed) == anchor
  {
    Matching(s.records, fixed, anchor)
  }

  /** The desired values not yet stored for the anchor (with multiplicity). */
  function Pending(s: Store, fixed: Field, anchor: string, desired: seq<string>): multiset<string> {
    multiset(desired) - multiset(Values(Existing(s, fixed, anchor), Other(fixed)))
  }

  /** The stored values of the anchor already differ from the desired ones. */
  predicate Differs(s: Store, fixed: Field, anchor: string, desired: seq<string>) {
    multiset(desired) != multiset(Values(Existing(s, fixed, anchor), Other(fixed)))
  }

  /** The call gets past the read: the relation is there or can be created,
      and the query does not throw. */
  predicate ReadsThrough(w: World, faults: Faults) {
    (w.relation.Some? || !faults.relation) && !faults.query
  }

  /** The call gets to the point where `hasNotChanged` is assigned: past the
      read and past the construction of every new row. */
  predicate ReachesDecision(w: World, faults: Faults, fixed: Field, anchor: string, desired: seq<string>) {
    ReadsThrough(w, faults) && !Overlong(anchor, Pending(w.store, fixed, anchor, desired), w.store.bound)
  }

  function Reconcile(w: World, faults: Faults, fixed: Field, anchor: string, desired: seq<string>): (o: Reconciled)
    ensures Valid(w.store) ==> Valid(o.world.store)
    ensures o.world.reloads <= w.reloads + 1
  {
    var rel := AssertRelation(w, faults.relation);
    if rel.result.Failure? then Reconciled(rel.world, desired, Fail(rel.result.error))
    else if faults.query then Reconciled(rel.world, desired, Fail(DatastoreFailure))
    else
      var store := w.store;
      var scan := Scan(Existing(store, fixed, anchor), Other(fixed), desired);
      match BuildInserts(fixed, anchor, scan.remaining, store.bound)
      case Failure(e) => Reconciled(rel.world, scan.remaining, Fail(e))
      case Success(rows) =>
        var hasNotChanged := |rows| == 0 && |scan.drop| == 0;
        var after := World(store, rel.world.relation, if hasNotChanged then w.reloads else w.reloads + 1);
        if faults.put then Reconciled(after, scan.remaining, Fail(DatastoreFailure))
        else
          var inserted := Insert(store, rows);
          if faults.delete then Reconciled(after.(store := inserted), scan.remaining, Fail(DatastoreFailure))
          else Reconciled(after.(store := Delete(inserted, IdSet(scan.drop))), scan.remaining, Pass)
  }

  // ---------------------------------------------------------------------
  // Store-level facts about applying a scan

  lemma MatchingAll(rs: seq<Record>, f: Field, a: string)
    requires forall i :: 0 <= i < |rs| ==> rs[i].row.Get(f) == a
    ensures Matching(rs, f, a) == rs
    ensures NotMatching(rs, f, a) == []
  {
    MatchingKeepsAll(rs, f, a);
    NotMatchingKeepsNone(rs, f, a);
  }

  lemma {:induction false} MatchingKeepsAll(rs: seq<Record>, f: Field, a: string)
    requires forall i :: 0 <= i < |rs| ==> rs[i].row.Get(f) == a
    ensures Matching(rs, f, a) == rs
  {
    if |rs| > 0 {
      var tail := rs[1..];
      forall i | 0 <= i < |tail| ensures tail[i].row.Get(f) == a {
        assert tail[i] == rs[i + 1];
      }
      MatchingKeepsAll(tail, f, a);
      calc {
        Matching(rs, f, a);
        [rs[0]] + Matching(tail, f, a);
        [rs[0]] + tail;
        rs;
      }
    }
  }

  lemma {:induction false} NotMatchingKeepsNone(rs: seq<Record>, f: Field, a: string)
    requires forall i :: 0 <= i < |rs| ==> rs[i].row.Get(f) == a
    ensures NotMatching(rs, f, a) == []
  {
    if |rs| > 0 {
      var tail := rs[1..];
      forall i | 0 <= i < |tail| ensures tail[i].row.Get(f) == a {
        assert tail[i] == rs[i + 1];
      }
      NotMatchingKeepsNone(tail, f, a);
    }
  }

  /** A scan's result and the rows built from its remainder. */
  predicate Built(store: Store, fixed: Field, anchor: string, desired: seq<string>, rows: seq<Row>) {
    var s := Scan(Existing(store, fixed, anchor), Other(fixed), desired);
    |rows| == |s.remaining|
    && forall i :: 0 <= i < |rows| ==>
         rows[i].Get(fixed) == anchor && rows[i].Get(Other(fixed)) == s.remaining[i]
  }

  /** Putting the new rows and deleting the dropped records: the dropped ids
      are old ids of the anchor's records, so the datastore ends up listing
      the surviving old records followed by the new ones. */
  lemma ApplyShape(store: Store, fixed: Field, anchor: string, desired: seq<string>, rows: seq<Row>)
    requires Valid(store)
    ensures var s := Scan(Existing(store, fixed, anchor), Other(fixed), desired);
      var after := Delete(Insert(store, rows), IdSet(s.drop));
      && IdSet(s.drop) <= IdSet(Existing(store, fixed, anchor))
      && after.records == Without(store.records, IdSet(s.drop)) + Fresh(rows, store.nextId)
  {
    var R := store.records;
    var E := Existing(store, fixed, anchor);
    var s := Scan(E, Other(fixed), desired);
    var F := Fresh(rows, store.nextId);
    var D := IdSet(s.drop);
    ScanDropsFromExisting(E, Other(fixed), desired);
    IdSetMonotone(s.drop, E);
    IdSetMonotone(E, R);
    FreshDistinct(rows, store.nextId);
    assert IdSet(F) !! D;
    WithoutAppend(R, F, D);
    WithoutNothing(F, D);
  }

  /** Applying the scan's result: the anchor's records become the kept ones
      followed by the new ones, which carry the remainder's values. */
  lemma ApplyScanAnchor(store: Store, fixed: Field, anchor: string, desired: seq<string>, rows: seq<Row>)
    requires Valid(store) && Built(store, fixed, anchor, desired, rows)
    ensures var s := Scan(Existing(store, fixed, anchor), Other(fixed), desired);
      var after := Delete(Insert(store, rows), IdSet(s.drop));
      && Existing(after, fixed, anchor) == s.keep + Fresh(rows, store.nextId)
      && Values(Fresh(rows, store.nextId), Other(fixed)) == s.remaining
  {
    var R := store.records;
    var E := Existing(store, fixed, anchor);
    var s := Scan(E, Other(fixed), desired);
    var F := Fresh(rows, store.nextId);
    var D := IdSet(s.drop);
    ApplyShape(store, fixed, anchor, desired, rows);
    MatchingAppend(Without(R, D), F, fixed, anchor);
    MatchingAll(F, fixed, anchor);
    assert Matching(Without(R, D), fixed, anchor) == s.keep by {
      MatchingWithout(R, D, fixed, anchor);
      MatchingDistinct(R, fixed, anchor);
      ScanKeepsRest(E, Other(fixed), desired);
    }
    FreshValues(store, fixed, anchor, desired, rows);
  }

  /** The new records carry the scan's remainder, in order. */
  lemma FreshValues(store: Store, fixed: Field, anchor: string, desired: seq<string>, rows: seq<Row>)
    requires Built(store, fixed, anchor, desired, rows)
    ensures var s := Scan(Existing(store, fixed, anchor), Other(fixed), desired);
      Values(Fresh(rows, store.nextId), Other(fixed)) == s.remaining
  {
  }

  /** Applying the scan's result leaves the records of every other anchor
      as they were. */
  lemma ApplyScanFrame(store: Store, fixed: Field, anchor: string, desired: seq<string>, rows: seq<Row>)
    requires Valid(store) && Built(store, fixed, anchor, desired, rows)
    ensures var s := Scan(Existing(store, fixed, anchor), Other(fixed), desired);
      var after := Delete(Insert(store, rows), IdSet(s.drop));
      NotMatching(after.records, fixed, anchor) == NotMatching(store.records, fixed, anchor)
  {
    var R := store.records;
    var s := Scan(Existing(store, fixed, anchor), Other(fixed), desired);
    var F := Fresh(rows, store.nextId);
    var D := IdSet(s.drop);
    ApplyShape(store, fixed, anchor, desired, rows);
    NotMatchingAppend(Without(R, D), F, fixed, anchor);
    NotMatchingWithout(R, D, fixed, anchor);
    SplitIdsDisjoint(R, fixed, anchor);
    WithoutNothing(NotMatching(R, fixed, anchor), D);
    MatchingAll(F, fixed, anchor);
  }

  // ---------------------------------------------------------------------
  // Properties of one reconciliation

  /** Convergence and frame: after a successful call the anchor's records
      carry exactly the desired values (each as often as the collection
      holds it), and the records of every other anchor are untouched. */
  lemma ReconcileConverges(w: World, faults: Faults, fixed: Field, anchor: string, desired: seq<string>)
    ensures var o := Reconcile(w, faults, fixed, anchor, desired);
      Valid(w.store) && o.status.Pass? ==>
        && multiset(Values(Existing(o.world.store, fixed, anchor), Other(fixed))) == multiset(desired)
        && NotMatching(o.world.store.records, fixed, anchor) == NotMatching(w.store.records, fixed, anchor)
  {
    var o := Reconcile(w, faults, fixed, anchor, desired);
    if Valid(w.store) && o.status.Pass? {
      var E := Existing(w.store, fixed, anchor);
      var s := Scan(E, Other(fixed), desired);
      var rows := BuildInserts(fixed, anchor, s.remaining, w.store.bound).value;
      ApplyScanAnchor(w.store, fixed, anchor, desired, rows);
      ApplyScanFrame(w.store, fixed, anchor, desired, rows);
      ValuesAppend(s.keep, Fresh(rows, w.store.nextId), Other(fixed));
      ScanConserves(E, Other(fixed), desired);
    }
  }

  /** Gated notification: permissions are reloaded exactly once when the
      call gets past building the new rows and the stored values differ from
      the desired ones, and never otherwise (whatever the put or delete
      then does). */
  lemma ReconcileNotifies(w: World, faults: Faults, fixed: Field, anchor: string, desired: seq<string>)
    ensures var o := Reconcile(w, faults, fixed, anchor, desired);
      o.world.reloads
        == if ReachesDecision(w, faults, fixed, anchor, desired) && Differs(w.store, fixed, anchor, desired)
           then w.reloads + 1 else w.reloads
  {
    var E := Existing(w.store, fixed, anchor);
    ScanRemainder(E, Other(fixed), desired);
    ScanChanges(E, Other(fixed), desired);
  }

  /** Errors before the decision point: a throwing setter (or a failed read)
      leaves the datastore as it was and reloads nothing; a setter throws
      exactly when some new row would overflow. */
  lemma ReconcileFailsEarly(w: World, faults: Faults, fixed: Field, anchor: string, desired: seq<string>)
    ensures var o := Reconcile(w, faults, fixed, anchor, desired);
      && ((o.status.Fail? && o.status.error.Overflow?)
            <==> ReadsThrough(w, faults) && Overlong(anchor, Pending(w.store, fixed, anchor, desired), w.store.bound))
      && (!ReachesDecision(w, faults, fixed, anchor, desired) ==>
            o.status.Fail? && o.world.store == w.store && o.world.reloads == w.reloads)
  {
    ScanRemainder(Existing(w.store, fixed, anchor), Other(fixed), desired);
  }

  /** The caller's collection: once the read went through it holds exactly
      the pending values (those inserted, or to be inserted); before that it
      is untouched. */
  lemma ReconcileCollection(w: World, faults: Faults, fixed: Field, anchor: string, desired: seq<string>)
    ensures var o := Reconcile(w, faults, fixed, anchor, desired);
      if ReadsThrough(w, faults) then multiset(o.collection) == Pending(w.store, fixed, anchor, desired)
      else o.collection == desired
  {
    ScanRemainder(Existing(w.store, fixed, anchor), Other(fixed), desired);
  }

  /** The delete list, seen in the datastore: after a successful call, the
      anchor's record listed at position `i` is gone exactly when the records
      listed before it already carry its value as often as the collection
      does. */
  lemma ReconcileDeletes(w: World, faults: Faults, fixed: Field, anchor: string, desired: seq<string>, i: nat)
    requires Valid(w.store) && i < |Existing(w.store, fixed, anchor)|
    ensures var o := Reconcile(w, faults, fixed, anchor, desired);
      var E := Existing(w.store, fixed, anchor);
      var v := E[i].row.Get(Other(fixed));
      o.status.Pass? ==>
        ((E[i] !in o.world.store.records) <==> multiset(Values(E[..i], Other(fixed)))[v] >= multiset(desired)[v])
  {
    var o := Reconcile(w, faults, fixed, anchor, desired);
    var E := Existing(w.store, fixed, anchor);
    var s := Scan(E, Other(fixed), desired);
    MatchingDistinct(w.store.records, fixed, anchor);
    ScanDropsAt(E, Other(fixed), desired, i);
    if o.status.Pass? {
      var rows := BuildInserts(fixed, anchor, s.remaining, w.store.bound).value;
      var F := Fresh(rows, w.store.nextId);
      FreshDistinct(rows, w.store.nextId);
      assert E[i] in w.store.records;
      assert E[i] !in F;
      assert o.world.store.records == Without(w.store.records + F, IdSet(s.drop));
      ScanDropsFromExisting(E, Other(fixed), desired);
      HeadNotInTail(E);
      DroppedById(E, s.drop, i);
    }
  }

  /** Under distinct ids, a record's id is among the ids of a sub-collection
      exactly when the record itself is. */
  lemma DroppedById(rs: seq<Record>, sub: seq<Record>, i: nat)
    requires DistinctIds(rs) && i < |rs| && forall x :: x in sub ==> x in rs
    ensures (rs[i].id in IdSet(sub)) <==> rs[i] in sub
  {
    if rs[i].id in IdSet(sub) {
      var x :| x in sub && x.id == rs[i].id;
      var j :| 0 <= j < |rs| && rs[j] == x;
      DistinctIdsAt(rs);
      assert j == i;
    }
  }

  /** Distinct ids, position by position. */
  lemma {:induction false} DistinctIdsAt(rs: seq<Record>)
    requires DistinctIds(rs)
    ensures forall i, j :: 0 <= i < |rs| && 0 <= j < |rs| && rs[i].id == rs[j].id ==> i == j
  {
    if |rs| > 0 {
      DistinctIdsAt(rs[1..]);
      forall i, j | 0 <= i < |rs| && 0 <= j < |rs| && rs[i].id == rs[j].id ensures i == j {
        if i > 0 {
          assert rs[i] in rs[1..];
        }
        if j > 0 {
          assert rs[j] in rs[1..];
        }
        if i > 0 && j > 0 {
          assert rs[1..][i - 1].id == rs[1..][j - 1].id;
        }
      }
    }
  }

  /** Idempotence: repeating a successful call with a fresh collection
      holding the first call's original values, and no change in between,
      inserts nothing, deletes nothing, reloads nothing, and leaves that
      collection empty. */
  lemma ReconcileIdempotent(w: World, faults: Faults, fixed: Field, anchor: string, desired: seq<string>)
    requires Valid(w.store)
    ensures var first := Reconcile(w, faults, fixed, anchor, desired);
      first.status.Pass? ==>
        Reconcile(first.world, NoFaults, fixed, anchor, desired) == Reconciled(first.world, [], Pass)
  {
    var first := Reconcile(w, faults, fixed, anchor, desired);
    if first.status.Pass? {
      var w1 := first.world;
      assert w1.relation.Some?;
      ReconcileConverges(w, faults, fixed, anchor, desired);
      var E := Existing(w1.store, fixed, anchor);
      var s := Scan(E, Other(fixed), desired);
      ScanChanges(E, Other(fixed), desired);
      assert s.remaining == [] && s.drop == [];
      assert BuildInserts(fixed, anchor, [], w1.store.bound) == Success([]);
      ApplyNothing(w1.store);
    }
  }

  /** Passing the collection the first call mutated to a second call is not
      a repeat: the collection then holds only what the first call inserted
      (the desired values minus those already stored), and a successful
      second call makes the anchor's records carry exactly those values. */
  lemma ReconcileReusedCollection(w: World, faults: Faults, fixed: Field, anchor: string, desired: seq<string>)
    requires Valid(w.store)
    ensures var first := Reconcile(w, faults, fixed, anchor, desired);
      var second := Reconcile(first.world, NoFaults, fixed, anchor, first.collection);
      first.status.Pass? && second.status.Pass? ==>
        multiset(Values(Existing(second.world.store, fixed, anchor), Other(fixed)))
          == Pending(w.store, fixed, anchor, desired)
  {
    var first := Reconcile(w, faults, fixed, anchor, desired);
    if first.status.Pass? {
      ReconcileCollection(w, faults, fixed, anchor, desired);
      ReconcileConverges(first.world, NoFaults, fixed, anchor, first.collection);
    }
  }

  /** Putting no rows and deleting no records changes nothing. */
  lemma ApplyNothing(s: Store)
    ensures Delete(Insert(s, []), IdSet([])) == s
  {
    var empty: seq<Record> := [];
    assert IdSet(empty) == {};
    assert s.records + Fresh([], s.nextId) == s.records;
    assert Insert(s, []) == s;
    WithoutNothing(s.records, {});
  }
}
