/** The static API of `UserGrantedAuthority`: the two reconciliation entry
    points, the superuser bootstrap, removal of a user's grants, and the two
    read helpers. Every operation takes the world (datastore, cached relation
    handle, reload counter) and the datastore faults it may meet, and returns
    the world it leaves behind. */
module UserGrantedAuthority {
  import opened Wrappers
  import opened RelationStore
  import opened MembershipScan
  import opened Membership
  import opened Reconciliation

  /** A void operation: the world it leaves and how it ended. */
  datatype Applied = Applied(world: World, status: Outcome<Error>)

  /** Some record of the store carries exactly `row`. */
  predicate Holds(s: Store, row: Row) {
    exists r :: r in s.records && r.row == row
  }

  // ---------------------------------------------------------------------
  // Reconciliation entry points

  /** assertGrantedAuthoryMembers: make the members of `group` exactly
      `desiredMembers`. */
  function AssertGrantedAuthoryMembers(w: World, faults: Faults, group: string, desiredMembers: seq<string>): (o: Reconciled)
    ensures Valid(w.store) ==> Valid(o.world.store)
    ensures Valid(w.store) && o.status.Pass? ==>
      && multiset(Values(Matching(o.world.store.records, Authority, group), User)) == multiset(desiredMembers)
      && NotMatching(o.world.store.records, Authority, group) == NotMatching(w.store.records, Authority, group)
    ensures o.world.reloads
      == if ReachesDecision(w, faults, Authority, group, desiredMembers) && Differs(w.store, Authority, group, desiredMembers)
         then w.reloads + 1 else w.reloads
    ensures !ReachesDecision(w, faults, Authority, group, desiredMembers) ==> o.world.store == w.store
  {
    ReconcileConverges(w, faults, Authority, group, desiredMembers);
    ReconcileNotifies(w, faults, Authority, group, desiredMembers);
    ReconcileFailsEarly(w, faults, Authority, group, desiredMembers);
    Reconcile(w, faults, Authority, group, desiredMembers)
  }

  /** assertUserGrantedAuthorities: make the groups of `uriUser` exactly
      `desiredGroups`. */
  function AssertUserGrantedAuthorities(w: World, faults: Faults, uriUser: string, desiredGroups: seq<string>): (o: Reconciled)
    ensures Valid(w.store) ==> Valid(o.world.store)
    ensures Valid(w.store) && o.status.Pass? ==>
      && multiset(Values(Matching(o.world.store.records, User, uriUser), Authority)) == multiset(desiredGroups)
      && NotMatching(o.world.store.records, User, uriUser) == NotMatching(w.store.records, User, uriUser)
    ensures o.world.reloads
      == if ReachesDecision(w, faults, User, uriUser, desiredGroups) && Differs(w.store, User, uriUser, desiredGroups)
         then w.reloads + 1 else w.reloads
    ensures !ReachesDecision(w, faults, User, uriUser, desiredGroups) ==> o.world.store == w.store
  {
    ReconcileConverges(w, faults, User, uriUser, desiredGroups);
    ReconcileNotifies(w, faults, User, uriUser, desiredGroups);
    ReconcileFailsEarly(w, faults, User, uriUser, desiredGroups);
    Reconcile(w, faults, User, uriUser, desiredGroups)
  }

  // ---------------------------------------------------------------------
  // Bootstrap

  /** bootstrap: delete every ROLE_ACCESS_ADMIN record of another user, then
      grant ROLE_ACCESS_ADMIN to the superuser if no record gave it already.
      Permissions are not reloaded. */
  function Bootstrap(w: World, faults: Faults, uriSuperUser: string): (o: Applied)
    ensures o.world.reloads == w.reloads
    ensures Valid(w.store) ==> Valid(o.world.store)
    ensures o.status.Fail? ==> forall r :: r in o.world.store.records ==> r in w.store.records
  {
    var rel := AssertRelation(w, faults.relation);
    if rel.result.Failure? then Applied(rel.world, Fail(rel.result.error))
    else if faults.query then Applied(rel.world, Fail(DatastoreFailure))
    else
      var admins := Matching(w.store.records, Authority, RoleAccessAdmin);
      var hasAccessRole := uriSuperUser in Values(admins, User);
      var staleEntries := StaleAdmins(w.store, uriSuperUser);
      if |staleEntries| > 0 && faults.delete then Applied(rel.world, Fail(DatastoreFailure))
      else
        var world := rel.world.(store := Prune(w.store, uriSuperUser));
        if hasAccessRole then Applied(world, Pass)
        else
          match NewRow(Authority, RoleAccessAdmin, uriSuperUser, w.store.bound)
          case Failure(e) => Applied(world, Fail(e))
          case Success(row) =>
            if faults.put then Applied(world, Fail(DatastoreFailure))
            else Applied(world.(store := Insert(world.store, [row])), Pass)
  }

  /** The ROLE_ACCESS_ADMIN records of users other than the superuser. */
  function StaleAdmins(s: Store, uriSuperUser: string): (stale: seq<Record>)
    ensures forall r :: r in stale <==>
      r in s.records && r.row.authority == RoleAccessAdmin && r.row.user != uriSuperUser
  {
    NotMatching(Matching(s.records, Authority, RoleAccessAdmin), User, uriSuperUser)
  }

  /** The store after the stale admin records are deleted (no call is made
      when there are none). */
  function Prune(s: Store, uriSuperUser: string): (p: Store)
    ensures p.nextId == s.nextId && (Valid(s) ==> Valid(p))
    ensures forall r :: r in p.records ==>
      r in s.records && (r.row.authority != RoleAccessAdmin || r.row.user == uriSuperUser)
  {
    var stale := StaleAdmins(s, uriSuperUser);
    if |stale| > 0 then Delete(s, IdSet(stale)) else s
  }

  /** Pruning leaves exactly the superuser's old admin records, in order, and
      every record of another authority. */
  lemma PruneAdmins(s: Store, uriSuperUser: string)
    requires Valid(s)
    ensures var admins := Matching(s.records, Authority, RoleAccessAdmin);
      var pruned := Prune(s, uriSuperUser);
      && Matching(pruned.records, Authority, RoleAccessAdmin) == Matching(admins, User, uriSuperUser)
      && NotMatching(pruned.records, Authority, RoleAccessAdmin) == NotMatching(s.records, Authority, RoleAccessAdmin)
      && pruned.nextId == s.nextId
  {
    var stale := StaleAdmins(s, uriSuperUser);
    PruneAdminsByDelete(s, uriSuperUser);
    if |stale| == 0 {
      var empty: seq<Record> := [];
      assert stale == empty;
      assert IdSet(empty) == {};
      WithoutNothing(s.records, {});
      assert Delete(s, IdSet(stale)) == s;
    }
  }

  lemma PruneAdminsByDelete(s: Store, uriSuperUser: string)
    requires Valid(s)
    ensures var admins := Matching(s.records, Authority, RoleAccessAdmin);
      var pruned := Delete(s, IdSet(StaleAdmins(s, uriSuperUser)));
      && Matching(pruned.records, Authority, RoleAccessAdmin) == Matching(admins, User, uriSuperUser)
      && NotMatching(pruned.records, Authority, RoleAccessAdmin) == NotMatching(s.records, Authority, RoleAccessAdmin)
  {
    var R := s.records;
    var admins := Matching(R, Authority, RoleAccessAdmin);
    var D := IdSet(NotMatching(admins, User, uriSuperUser));
    MatchingDistinct(R, Authority, RoleAccessAdmin);
    MatchingWithout(R, D, Authority, RoleAccessAdmin);
    WithoutRejected(admins, User, uriSuperUser);
    NotMatchingWithout(R, D, Authority, RoleAccessAdmin);
    SplitIdsDisjoint(R, Authority, RoleAccessAdmin);
    IdSetMonotone(NotMatching(admins, User, uriSuperUser), admins);
    WithoutNothing(NotMatching(R, Authority, RoleAccessAdmin), D);
  }

  /** The superuser holds ROLE_ACCESS_ADMIN through some record. */
  predicate SuperUserIsAdmin(s: Store, uriSuperUser: string) {
    Holds(s, Row(uriSuperUser, RoleAccessAdmin))
  }

  lemma HeldThroughAdmins(s: Store, uriSuperUser: string)
    ensures var admins := Matching(s.records, Authority, RoleAccessAdmin);
      && ((uriSuperUser in Values(admins, User)) <==> SuperUserIsAdmin(s, uriSuperUser))
      && (SuperUserIsAdmin(s, uriSuperUser) <==> |Matching(admins, User, uriSuperUser)| > 0)
  {
    var admins := Matching(s.records, Authority, RoleAccessAdmin);
    var mine := Matching(admins, User, uriSuperUser);
    ProjectionValues(admins, User);
    if SuperUserIsAdmin(s, uriSuperUser) {
      var r :| r in s.records && r.row == Row(uriSuperUser, RoleAccessAdmin);
      assert r in mine;
    }
    if |mine| > 0 {
      assert mine[0] in mine;
    }
  }

  /** A successful bootstrap leaves the pruned store, plus one new admin
      record for the superuser when none was held. */
  lemma BootstrapStore(w: World, faults: Faults, uriSuperUser: string)
    ensures var o := Bootstrap(w, faults, uriSuperUser);
      var pruned := Prune(w.store, uriSuperUser);
      o.status.Pass? ==>
        o.world.store == if SuperUserIsAdmin(w.store, uriSuperUser) then pruned
                         else Insert(pruned, [Row(uriSuperUser, RoleAccessAdmin)])
  {
    HeldThroughAdmins(w.store, uriSuperUser);
    var nr := NewRow(Authority, RoleAccessAdmin, uriSuperUser, w.store.bound);
    if nr.Success? {
      assert nr.value.Get(Authority) == RoleAccessAdmin && nr.value.Get(User) == uriSuperUser;
      assert nr.value == Row(uriSuperUser, RoleAccessAdmin);
    }
  }

  /** Bootstrap outcome: after a successful call the superuser's old admin
      records are the only admin records if there were any, and otherwise a
      single new record grants the superuser ROLE_ACCESS_ADMIN; records of
      every other authority are untouched; a record is created exactly when
      the superuser held no admin record. */
  lemma BootstrapEstablishes(w: World, faults: Faults, uriSuperUser: string)
    requires Valid(w.store)
    ensures var o := Bootstrap(w, faults, uriSuperUser);
      var admins := Matching(w.store.records, Authority, RoleAccessAdmin);
      var held := SuperUserIsAdmin(w.store, uriSuperUser);
      o.status.Pass? ==>
        && Matching(o.world.store.records, Authority, RoleAccessAdmin)
             == (if held then Matching(admins, User, uriSuperUser)
                 else [Record(w.store.nextId, Row(uriSuperUser, RoleAccessAdmin))])
        && NotMatching(o.world.store.records, Authority, RoleAccessAdmin)
             == NotMatching(w.store.records, Authority, RoleAccessAdmin)
        && o.world.store.nextId == w.store.nextId + (if held then 0 else 1)
  {
    var o := Bootstrap(w, faults, uriSuperUser);
    BootstrapStore(w, faults, uriSuperUser);
    PruneAdmins(w.store, uriSuperUser);
    if o.status.Pass? && !SuperUserIsAdmin(w.store, uriSuperUser) {
      InsertAdmin(w.store, uriSuperUser);
    }
  }

  /** The record inserted when the superuser held no admin record. */
  lemma InsertAdmin(s: Store, uriSuperUser: string)
    requires Valid(s) && !SuperUserIsAdmin(s, uriSuperUser)
    ensures var after := Insert(Prune(s, uriSuperUser), [Row(uriSuperUser, RoleAccessAdmin)]);
      && Matching(after.records, Authority, RoleAccessAdmin) == [Record(s.nextId, Row(uriSuperUser, RoleAccessAdmin))]
      && NotMatching(after.records, Authority, RoleAccessAdmin) == NotMatching(s.records, Authority, RoleAccessAdmin)
      && after.nextId == s.nextId + 1
  {
    var pruned := Prune(s, uriSuperUser);
    PruneAdmins(s, uriSuperUser);
    HeldThroughAdmins(s, uriSuperUser);
    GrantAdmin(pruned, uriSuperUser);
  }

  /** Inserting an admin record into a store with no admin record makes it
      the only one and leaves every other record in place. */
  lemma GrantAdmin(s: Store, uriSuperUser: string)
    requires Matching(s.records, Authority, RoleAccessAdmin) == []
    ensures var after := Insert(s, [Row(uriSuperUser, RoleAccessAdmin)]);
      && Matching(after.records, Authority, RoleAccessAdmin) == [Record(s.nextId, Row(uriSuperUser, RoleAccessAdmin))]
      && NotMatching(after.records, Authority, RoleAccessAdmin) == NotMatching(s.records, Authority, RoleAccessAdmin)
      && after.nextId == s.nextId + 1
  {
    var row := Row(uriSuperUser, RoleAccessAdmin);
    var added := [Record(s.nextId, row)];
    assert Fresh([row], s.nextId) == added;
    assert Insert(s, [row]).records == s.records + added;
    MatchingAppend(s.records, added, Authority, RoleAccessAdmin);
    NotMatchingAppend(s.records, added, Authority, RoleAccessAdmin);
    assert Matching(added, Authority, RoleAccessAdmin) == added;
    assert NotMatching(added, Authority, RoleAccessAdmin) == [];
  }

  /** The bootstrap guarantee: after a successful call ROLE_ACCESS_ADMIN is
      held by the superuser and by nobody else. */
  lemma BootstrapOnlySuperUser(w: World, faults: Faults, uriSuperUser: string)
    requires Valid(w.store)
    ensures var o := Bootstrap(w, faults, uriSuperUser);
      o.status.Pass? ==>
        && SuperUserIsAdmin(o.world.store, uriSuperUser)
        && forall r :: r in o.world.store.records && r.row.authority == RoleAccessAdmin ==> r.row.user == uriSuperUser
  {
    var o := Bootstrap(w, faults, uriSuperUser);
    BootstrapEstablishes(w, faults, uriSuperUser);
    HeldThroughAdmins(w.store, uriSuperUser);
    if o.status.Pass? {
      var after := Matching(o.world.store.records, Authority, RoleAccessAdmin);
      forall r | r in o.world.store.records && r.row.authority == RoleAccessAdmin
        ensures r.row.user == uriSuperUser
      {
        assert r in after;
      }
      assert after[0] in after;
    }
  }

  /** A second bootstrap with nothing changed in between is a no-op. */
  lemma BootstrapIdempotent(w: World, faults: Faults, uriSuperUser: string)
    requires Valid(w.store)
    ensures var first := Bootstrap(w, faults, uriSuperUser);
      first.status.Pass? ==>
        Bootstrap(first.world, NoFaults, uriSuperUser) == Applied(first.world, Pass)
  {
    var first := Bootstrap(w, faults, uriSuperUser);
    if first.status.Pass? {
      BootstrapOnlySuperUser(w, faults, uriSuperUser);
      BootstrapSettled(first.world, uriSuperUser);
    }
  }

  /** Bootstrap on a store where the superuser is the only admin makes no
      datastore call and changes nothing. */
  lemma BootstrapSettled(w: World, uriSuperUser: string)
    requires w.relation.Some?
    requires SuperUserIsAdmin(w.store, uriSuperUser)
    requires forall r :: r in w.store.records && r.row.authority == RoleAccessAdmin ==> r.row.user == uriSuperUser
    ensures Bootstrap(w, NoFaults, uriSuperUser) == Applied(w, Pass)
  {
    HeldThroughAdmins(w.store, uriSuperUser);
    var admins := Matching(w.store.records, Authority, RoleAccessAdmin);
    EmptyWhenNoneMatch(NotMatching(admins, User, uriSuperUser));
  }

  // ---------------------------------------------------------------------
  // Removing a user

  /** deleteGrantedAuthoritiesForUser: delete every record of `uriUser`;
      permissions are reloaded on the way out whatever happened. */
  function DeleteGrantedAuthoritiesForUser(w: World, faults: Faults, uriUser: string): (o: Applied)
    ensures o.world.reloads == w.reloads + 1
    ensures o.status.Fail? ==> o.world.store == w.store
    ensures Valid(w.store) ==> Valid(o.world.store)
    ensures Valid(w.store) && o.status.Pass? ==>
      o.world.store.records == NotMatching(w.store.records, User, uriUser)
  {
    var rel := AssertRelation(w, faults.relation);
    var reloaded := rel.world.(reloads := w.reloads + 1);
    if rel.result.Failure? then Applied(reloaded, Fail(rel.result.error))
    else if faults.query then Applied(reloaded, Fail(DatastoreFailure))
    else
      var memberships := IdSet(Matching(w.store.records, User, uriUser));
      if faults.delete then Applied(reloaded, Fail(DatastoreFailure))
      else
        DeleteLeavesOthers(w.store, uriUser);
        Applied(reloaded.(store := Delete(w.store, memberships)), Pass)
  }

  /** Deleting the ids of a user's records leaves exactly the other users'
      records, in order. */
  lemma DeleteLeavesOthers(s: Store, uriUser: string)
    ensures Valid(s) ==> Delete(s, IdSet(Matching(s.records, User, uriUser))).records == NotMatching(s.records, User, uriUser)
  {
    if Valid(s) {
      WithoutSelected(s.records, User, uriUser);
    }
  }

  // ---------------------------------------------------------------------
  // Read helpers

  /** getGrantedAuthorities: the distinct authorities granted to `uriUser`;
      none for a null user. */
  function GetGrantedAuthorities(w: World, faults: Faults, uriUser: Option<string>): (o: Read<set<string>>)
    ensures o.world.store == w.store && o.world.reloads == w.reloads
    ensures uriUser.None? ==> o == Read(w, Success({}))
    ensures o.result.Success? <==> uriUser.None? || ReadsThrough(w, faults)
    ensures uriUser.Some? && o.result.Success? ==>
      forall a :: a in o.result.value <==> Holds(w.store, Row(uriUser.value, a))
  {
    if uriUser.None? then Read(w, Success({}))
    else
      var rel := AssertRelation(w, faults.relation);
      if rel.result.Failure? then Read(rel.world, Failure(rel.result.error))
      else if faults.query then Read(rel.world, Failure(DatastoreFailure))
      else
        var authorized := DistinctValues(w.store.records, User, uriUser.value, Authority);
        DistinctHolds(w.store, User, uriUser.value);
        Read(rel.world, Success(authorized))
  }

  /** getUriUsers: the distinct users holding authority `auth`; none for a
      null authority. */
  function GetUriUsers(w: World, faults: Faults, auth: Option<string>): (o: Read<set<string>>)
    ensures o.world.store == w.store && o.world.reloads == w.reloads
    ensures auth.None? ==> o == Read(w, Success({}))
    ensures o.result.Success? <==> auth.None? || ReadsThrough(w, faults)
    ensures auth.Some? && o.result.Success? ==>
      forall u :: u in o.result.value <==> Holds(w.store, Row(u, auth.value))
  {
    if auth.None? then Read(w, Success({}))
    else
      var rel := AssertRelation(w, faults.relation);
      if rel.result.Failure? then Read(rel.world, Failure(rel.result.error))
      else if faults.query then Read(rel.world, Failure(DatastoreFailure))
      else
        var users := DistinctValues(w.store.records, Authority, auth.value, User);
        DistinctHolds(w.store, Authority, auth.value);
        Read(rel.world, Success(users))
  }

  /** Distinct projection over the other field is the set of pairs held. */
  lemma DistinctHolds(s: Store, f: Field, a: string)
    ensures forall v :: (v in DistinctValues(s.records, f, a, Other(f))
                         <==> Holds(s, if f == User then Row(a, v) else Row(v, a)))
  {
    var m := Matching(s.records, f, a);
    ProjectionValues(m, Other(f));
    forall v | Holds(s, if f == User then Row(a, v) else Row(v, a))
      ensures v in DistinctValues(s.records, f, a, Other(f))
    {
      var r :| r in s.records && r.row == (if f == User then Row(a, v) else Row(v, a));
      assert r in m;
    }
  }

  // ---------------------------------------------------------------------
  // Operations seen through the read helpers

  /** With a fault-free datastore getUriUsers reads the distinct users of
      the records holding `auth`. */
  lemma ReadUriUsers(w: World, auth: string)
    ensures GetUriUsers(w, NoFaults, Some(auth)).result == Success(DistinctValues(w.store.records, Authority, auth, User))
  {
  }

  /** With a fault-free datastore getGrantedAuthorities reads the distinct
      authorities of the records of `uriUser`. */
  lemma ReadGrantedAuthorities(w: World, uriUser: string)
    ensures GetGrantedAuthorities(w, NoFaults, Some(uriUser)).result == Success(DistinctValues(w.store.records, User, uriUser, Authority))
  {
  }

  /** When the values under an anchor are the desired collection, the
      distinct read returns the desired collection's elements. */
  lemma DistinctOfDesired(s: Store, f: Field, a: string, desired: seq<string>)
    requires multiset(Values(Matching(s.records, f, a), Other(f))) == multiset(desired)
    ensures DistinctValues(s.records, f, a, Other(f)) == set v | v in desired
  {
    var vs := Values(Matching(s.records, f, a), Other(f));
    forall v ensures v in DistinctValues(s.records, f, a, Other(f)) <==> v in desired {
      assert v in vs <==> v in multiset(vs);
      assert v in desired <==> v in multiset(desired);
    }
  }

  /** After a successful assertGrantedAuthoryMembers, getUriUsers of the
      group returns exactly the desired members. */
  lemma MembersThenUriUsers(w: World, faults: Faults, group: string, desiredMembers: seq<string>)
    requires Valid(w.store)
    ensures var o := AssertGrantedAuthoryMembers(w, faults, group, desiredMembers);
      o.status.Pass? ==>
        GetUriUsers(o.world, NoFaults, Some(group)).result == Success(set v | v in desiredMembers)
  {
    var o := AssertGrantedAuthoryMembers(w, faults, group, desiredMembers);
    if o.status.Pass? {
      ReadUriUsers(o.world, group);
      DistinctOfDesired(o.world.store, Authority, group, desiredMembers);
    }
  }

  /** After a successful assertUserGrantedAuthorities, getGrantedAuthorities
      of the user returns exactly the desired groups. */
  lemma GroupsThenGrantedAuthorities(w: World, faults: Faults, uriUser: string, desiredGroups: seq<string>)
    requires Valid(w.store)
    ensures var o := AssertUserGrantedAuthorities(w, faults, uriUser, desiredGroups);
      o.status.Pass? ==>
        GetGrantedAuthorities(o.world, NoFaults, Some(uriUser)).result == Success(set v | v in desiredGroups)
  {
    var o := AssertUserGrantedAuthorities(w, faults, uriUser, desiredGroups);
    if o.status.Pass? {
      ReadGrantedAuthorities(o.world, uriUser);
      DistinctOfDesired(o.world.store, User, uriUser, desiredGroups);
    }
  }

  /** After a successful deleteGrantedAuthoritiesForUser the user holds no
      authority. */
  lemma DeletedUserHoldsNothing(w: World, faults: Faults, uriUser: string)
    requires Valid(w.store)
    ensures var o := DeleteGrantedAuthoritiesForUser(w, faults, uriUser);
      o.status.Pass? ==>
        GetGrantedAuthorities(o.world, NoFaults, Some(uriUser)).result == Success({})
  {
    var o := DeleteGrantedAuthoritiesForUser(w, faults, uriUser);
    if o.status.Pass? {
      var rs := o.world.store.records;
      ReadGrantedAuthorities(o.world, uriUser);
      assert rs == NotMatching(w.store.records, User, uriUser);
      assert forall r :: r !in Matching(rs, User, uriUser);
      EmptyWhenNoneMatch(Matching(rs, User, uriUser));
      assert Values(Matching(rs, User, uriUser), Authority) == [];
      assert forall a :: a !in DistinctValues(rs, User, uriUser, Authority);
      assert DistinctValues(rs, User, uriUser, Authority) == {};
    }
  }

  /** After a successful bootstrap, getUriUsers of ROLE_ACCESS_ADMIN returns
      the superuser alone. */
  lemma BootstrapThenUriUsers(w: World, faults: Faults, uriSuperUser: string)
    requires Valid(w.store)
    ensures var o := Bootstrap(w, faults, uriSuperUser);
      o.status.Pass? ==>
        GetUriUsers(o.world, NoFaults, Some(RoleAccessAdmin)).result == Success({uriSuperUser})
  {
    var o := Bootstrap(w, faults, uriSuperUser);
    if o.status.Pass? {
      BootstrapOnlySuperUser(w, faults, uriSuperUser);
      ReadUriUsers(o.world, RoleAccessAdmin);
      SoleAdmin(o.world.store, uriSuperUser);
    }
  }

  /** A store in which the superuser holds ROLE_ACCESS_ADMIN and nobody else
      does lists the superuser alone as its admin. */
  lemma SoleAdmin(s: Store, uriSuperUser: string)
    requires SuperUserIsAdmin(s, uriSuperUser)
    requires forall r :: r in s.records && r.row.authority == RoleAccessAdmin ==> r.row.user == uriSuperUser
    ensures DistinctValues(s.records, Authority, RoleAccessAdmin, User) == {uriSuperUser}
  {
    var admins := Matching(s.records, Authority, RoleAccessAdmin);
    ProjectionValues(admins, User);
    var r :| r in s.records && r.row == Row(uriSuperUser, RoleAccessAdmin);
    assert r in admins;
  }
}
