/** The `UserGrantedAuthority` entity and the process state around it: the
    bounded setters, the lazily created relation handle, the reload counter
    of the user service, and the construction of new records. */
module Membership {
  import opened Wrappers
  import opened RelationStore

  const TableName := "_user_granted_authority"

  /** `GrantedAuthorityNames.ROLE_ACCESS_ADMIN.name()`. */
  const RoleAccessAdmin := "ROLE_ACCESS_ADMIN"

  /** What the operations can throw: an `IllegalStateException` from a
      setter whose value overflows its column, or an `ODKDatastoreException`
      from the datastore. */
  datatype Error = Overflow(field: Field) | DatastoreFailure

  /** The relation prototype returned by assertRelation. */
  datatype Handle = Handle(schema: string, table: string)

  /** Which datastore calls throw when they are made: creating the relation,
      running a query, putting entities, deleting entities. A batch call is
      all or nothing. */
  datatype Faults = Faults(relation: bool, query: bool, put: bool, delete: bool)

  const NoFaults := Faults(false, false, false, false)

  /** The datastore, the cached relation handle (the static `reference`),
      and how many times the user service's permissions were reloaded. */
  datatype World = World(store: Store, relation: Option<Handle>, reloads: nat)

  /** A call that returns a value (or throws) and may have created the
      relation handle on the way. */
  datatype Read<+T> = Read(world: World, result: Result<T, Error>)

  /** The fields of a freshly created entity before its setters run. */
  const EmptyRow := Row("", "")

  /** setUser: stores `value`, or throws when it does not fit the column. */
  function SetUser(row: Row, value: string, bound: nat): (r: Result<Row, Error>)
    ensures r.Success? <==> |value| <= bound
    ensures r.Success? ==> r.value == Row(value, row.authority)
    ensures r.Failure? ==> r.error == Overflow(User)
  {
    if |value| <= bound then Success(row.(user := value)) else Failure(Overflow(User))
  }

  /** setGrantedAuthority: stores `value`, or throws when it does not fit. */
  function SetGrantedAuthority(row: Row, value: string, bound: nat): (r: Result<Row, Error>)
    ensures r.Success? <==> |value| <= bound
    ensures r.Success? ==> r.value == Row(row.user, value)
    ensures r.Failure? ==> r.error == Overflow(Authority)
  {
    if |value| <= bound then Success(row.(authority := value)) else Failure(Overflow(Authority))
  }

  /** assertRelation: the first successful call creates the relation and
      caches its handle; every later call returns the cached handle without
      touching the datastore. A failed creation caches nothing. */
  function AssertRelation(w: World, fails: bool): (o: Read<Handle>)
    ensures o.world.store == w.store && o.world.reloads == w.reloads
    ensures w.relation.Some? ==> o.world == w && o.result == Success(w.relation.value)
    ensures w.relation.None? && fails ==> o.world == w && o.result == Failure(DatastoreFailure)
    ensures w.relation.None? && !fails ==>
      o.result == Success(Handle(w.store.schema, TableName)) && o.world.relation == Some(o.result.value)
  {
    if w.relation.Some? then Read(w, Success(w.relation.value))
    else if fails then Read(w, Failure(DatastoreFailure))
    else
      var h := Handle(w.store.schema, TableName);
      Read(w.(relation := Some(h)), Success(h))
  }

  /** Once created, the handle is the one every later call returns, whatever
      the datastore does. */
  lemma AssertRelationOnce(w: World, fails: bool, laterFails: bool)
    requires AssertRelation(w, fails).result.Success?
    ensures var first := AssertRelation(w, fails);
      AssertRelation(first.world, laterFails) == first
  {
  }

  /** A record in the making: `setUser` then `setGrantedAuthority`, with the
      anchor in field `fixed` and `v` in the other field. */
  function NewRow(fixed: Field, anchor: string, v: string, bound: nat): (r: Result<Row, Error>)
    ensures r.Success? <==> |anchor| <= bound && |v| <= bound
    ensures r.Success? ==> r.value.Get(fixed) == anchor && r.value.Get(Other(fixed)) == v
    ensures r.Failure? ==> r.error == Overflow(if |UserOf(fixed, anchor, v)| > bound then User else Authority)
  {
    var named :- SetUser(EmptyRow, UserOf(fixed, anchor, v), bound);
    SetGrantedAuthority(named, if fixed == User then v else anchor, bound)
  }

  /** The user column of a new record with the anchor in field `fixed`. */
  function UserOf(fixed: Field, anchor: string, v: string): string {
    if fixed == User then anchor else v
  }

  /** Some record to be built would overflow a column: a value to insert is
      too long, or the anchor is too long and there is something to insert. */
  predicate Overlong(anchor: string, values: multiset<string>, bound: nat) {
    (|values| > 0 && |anchor| > bound) || exists v :: v in values && |v| > bound
  }

  lemma OverlongCons(anchor: string, values: seq<string>, bound: nat)
    requires |values| > 0
    ensures Overlong(anchor, multiset(values), bound)
       <==> |anchor| > bound || |values[0]| > bound || Overlong(anchor, multiset(values[1..]), bound)
  {
    assert values == [values[0]] + values[1..];
    assert multiset(values) == multiset{values[0]} + multiset(values[1..]);
    if Overlong(anchor, multiset(values), bound) && |anchor| <= bound && |values[0]| <= bound {
      var v :| v in multiset(values) && |v| > bound;
      assert v in multiset(values[1..]);
    }
  }

  /** The insert loop: one new row per value, in iteration order, stopping at
      the first setter that throws. */
  function BuildInserts(fixed: Field, anchor: string, values: seq<string>, bound: nat): (r: Result<seq<Row>, Error>)
    ensures r.Success? <==> !Overlong(anchor, multiset(values), bound)
    ensures r.Failure? ==> r.error.Overflow?
    ensures r.Success? ==> (|r.value| == |values|
      && forall i :: 0 <= i < |values| ==>
           r.value[i].Get(fixed) == anchor && r.value[i].Get(Other(fixed)) == values[i])
  {
    if |values| == 0 then Success([])
    else
      OverlongCons(anchor, values, bound);
      var row :- NewRow(fixed, anchor, values[0], bound);
      var rows :- BuildInserts(fixed, anchor, values[1..], bound);
      Success([row] + rows)
  }
}
