# UserGrantedAuthority membership reconciliation, modelled in Dafny

This project models the persistence class `UserGrantedAuthority` of ODK
Aggregate. The class stores which users are directly granted which authorities
(groups) in the `_user_granted_authority` relation. It offers these static
operations:

- two reconciliation entry points:
  - `assertGrantedAuthoryMembers` makes a group's members exactly a desired
    collection;
  - `assertUserGrantedAuthorities` makes a user's groups exactly a desired
    collection.
- the superuser `bootstrap`;
- `deleteGrantedAuthoritiesForUser`;
- two read helpers, `getGrantedAuthorities` and `getUriUsers`;
- the lazily created relation handle, `assertRelation`.

Both reconciliations follow the same algorithm:

1. Read the anchor's records (the group's, or the user's).
2. Walk them in listing order. A record whose value is still in the desired
   collection is kept, and that value is removed from the collection. Any other
   record is marked for deletion.
3. Build one new record per value left in the collection.
4. Decide whether anything changed.
5. Put the new records, then delete the marked ones.
6. On the way out, reload the permission tree if something changed.

## Files

| file | module | contents |
|---|---|---|
| `wrappers.dfy` | `Wrappers` | `Option`, `Result` and `Outcome` |
| `relation_store.dfy` | `RelationStore` | the relation: records with unique ids listed in datastore order, equality filters, distinct-value projection, batched insert and delete, and the lemmas about them |
| `membership_scan.dfy` | `MembershipScan` | the shared diff loop (`Scan`) and its insert list and delete list |
| `membership.dfy` | `Membership` | the entity's bounded setters, the cached relation handle, the reload counter, the datastore faults, and row construction |
| `reconcile.dfy` | `Reconciliation` | one reconciliation, parameterised by which field is held fixed, and its properties |
| `user_granted_authority.dfy` | `UserGrantedAuthority` | the public static operations and the properties that connect them |

## How the model is built

- **World.** Every operation takes and returns a `World`, which holds:
  - the datastore, as a `Store`;
  - the cached relation handle (the static `reference`);
  - a counter of `reloadPermissions` calls.
- **Faults.** A `Faults` value says which kinds of datastore call throw
  `ODKDatastoreException`: creating the relation, running a query, putting
  entities, deleting entities. Each such datastore failure is then an ordinary
  input. The setters' overflow (lines 93 and 103) is modelled as well, as
  `Overflow`. Other error paths are not modelled; the section on what is
  left out lists them.
- **Errors.** An operation's outcome is `Pass` or `Fail(error)`. The error is
  either:
  - `Overflow(field)`, the `IllegalStateException` of a setter; or
  - `DatastoreFailure`.
- **Desired collections.** A desired `Collection<String>` is a sequence in its
  iteration order: `contains` is `in`, and `remove` drops the first
  occurrence. Properties are stated with multisets, so they hold for callers
  that pass a list with repeats. Duplicate-free corollaries (a Java `Set`)
  are stated separately.
- **Listing order.** The order of `Store.records` stands for the datastore's
  listing order. Queries keep that order. Newly put records are listed after
  the existing ones, which is a choice of the model.

## Model

| member | source | states |
|---|---|---|
| Membership.SetUser | src/org/opendatakit/common/security/spring/UserGrantedAuthority.java:91-95 | the user column is set exactly when the value fits the column bound; otherwise the call fails with an overflow of the user field |
| Membership.SetGrantedAuthority | src/org/opendatakit/common/security/spring/UserGrantedAuthority.java:101-105 | the authority column is set exactly when the value fits; otherwise the call fails with an overflow of the authority field |
| Membership.AssertRelation | src/org/opendatakit/common/security/spring/UserGrantedAuthority.java:107-120 | a cached handle is returned untouched; a failed creation caches nothing and reports a datastore failure; a successful creation caches the handle for the default schema and `_user_granted_authority`; the store and the reload count never change |
| Membership.AssertRelationOnce | src/org/opendatakit/common/security/spring/UserGrantedAuthority.java:109-120 | once a handle has been created, every later call returns it without touching the datastore, whatever the datastore would do |
| Membership.NewRow | src/org/opendatakit/common/security/spring/UserGrantedAuthority.java:233-235 | a new record is built exactly when both values fit; it then carries the anchor in the fixed field and the value in the other; otherwise the error names the first setter that overflowed |
| Membership.BuildInserts | src/org/opendatakit/common/security/spring/UserGrantedAuthority.java:231-237 | the insert loop succeeds exactly when no value to insert overflows, and neither does the anchor when there is something to insert; it then yields one row per value, in iteration order, with anchor and value in place; its only failure is an overflow |
| MembershipScan.RemoveOne | src/org/opendatakit/common/security/spring/UserGrantedAuthority.java:224 | `Collection.remove` leaves a collection without the value unchanged, and shortens one holding it by exactly one element |
| MembershipScan.Scan | src/org/opendatakit/common/security/spring/UserGrantedAuthority.java:219-228 | the loop over the anchor's records (also lines 271-280): the kept and the marked records together are as many as the existing records, and each kept record uses up one desired value, so what is left to insert is the collection shortened by the number kept; which records and values these are is stated by ScanPartitions, ScanConserves and ScanDropsAt |
| MembershipScan.RemoveOneMultiset | src/org/opendatakit/common/security/spring/UserGrantedAuthority.java:223-224 | `Collection.remove` of a contained value takes exactly one occurrence of it away |
| MembershipScan.ScanPartitions | src/org/opendatakit/common/security/spring/UserGrantedAuthority.java:219-228 | every existing record is either kept or marked for deletion, exactly once |
| MembershipScan.ScanConserves | src/org/opendatakit/common/security/spring/UserGrantedAuthority.java:219-228 | the values of the kept records plus what is left in the collection make up the desired collection |
| MembershipScan.ScanRemainder | src/org/opendatakit/common/security/spring/UserGrantedAuthority.java:219-232 | insert list: what is left to insert is the desired collection minus the values already stored, with multiplicity |
| MembershipScan.ScanSplitsValues | src/org/opendatakit/common/security/spring/UserGrantedAuthority.java:219-228 | the kept and the deleted records together carry exactly the stored values |
| MembershipScan.ScanChanges | src/org/opendatakit/common/security/spring/UserGrantedAuthority.java:239-240 | something is added or deleted exactly when the desired collection differs from the stored values as a multiset |
| MembershipScan.ScanKeepsRest | src/org/opendatakit/common/security/spring/UserGrantedAuthority.java:219-228 | deleting the marked ids from the existing records leaves exactly the kept records, in order |
| MembershipScan.ScanDropsAt | src/org/opendatakit/common/security/spring/UserGrantedAuthority.java:219-228 | delete list, record by record: the record at position i is deleted exactly when the records before it already carry its value as often as the desired collection holds it |
| MembershipScan.ScanDropsAtNoDuplicates | src/org/opendatakit/common/security/spring/UserGrantedAuthority.java:219-228 | with a duplicate-free desired collection, a record is deleted exactly when its value is not desired or an earlier record already carries that value |
| MembershipScan.ScanInsertsNoDuplicates | src/org/opendatakit/common/security/spring/UserGrantedAuthority.java:229-237 | with a duplicate-free desired collection, the values inserted are duplicate-free and are exactly the desired values that no existing record carries |
| RelationStore.Matching | src/org/opendatakit/common/security/spring/UserGrantedAuthority.java:212-215 | an equality query returns exactly the stored records whose field has the given value |
| RelationStore.DistinctValues | src/org/opendatakit/common/security/spring/UserGrantedAuthority.java:159-161 | a distinct-value query returns exactly the values of the projected field among the matching records |
| RelationStore.Insert | src/org/opendatakit/common/security/spring/UserGrantedAuthority.java:243 | putEntities keeps every old record in place, lists after them one new record per row, carrying that row under an id never issued before, advances the id counter past them, and preserves unique, issued ids |
| RelationStore.Delete | src/org/opendatakit/common/security/spring/UserGrantedAuthority.java:244 | deleteEntities keeps exactly the records whose id is not among the keys, in their listing order (`Without`, which splits over concatenation by `WithoutAppend`), leaves the id counter, schema and column bound as they were, and preserves unique ids |
| Reconciliation.Existing | src/org/opendatakit/common/security/spring/UserGrantedAuthority.java:211-215 | the anchor's query (also lines 265-267) returns exactly the stored records whose fixed field is the anchor |
| Reconciliation.Reconcile | src/org/opendatakit/common/security/spring/UserGrantedAuthority.java:200-251 | one reconciliation keeps ids unique and reloads permissions at most once |
| Reconciliation.ReconcileConverges | src/org/opendatakit/common/security/spring/UserGrantedAuthority.java:191-251 | convergence and frame: after a successful call the anchor's records carry exactly the desired values, with multiplicity, and the records of every other anchor are unchanged, in order |
| Reconciliation.ReconcileNotifies | src/org/opendatakit/common/security/spring/UserGrantedAuthority.java:239-250 | gated notification: permissions are reloaded exactly once when the call got past building the new rows and the stored values differed from the desired ones, whether or not the put or the delete then throws; otherwise they are never reloaded |
| Reconciliation.ReconcileFailsEarly | src/org/opendatakit/common/security/spring/UserGrantedAuthority.java:207-240 | error conditions: an overflow is reported exactly when the read goes through and some new row overflows; every failure before the decision point leaves the store and the reload count as they were |
| Reconciliation.ReconcileCollection | src/org/opendatakit/common/security/spring/UserGrantedAuthority.java:219-232 | the caller's collection is mutated: once the read goes through, it holds exactly the values that were pending insertion; before that it is untouched |
| Reconciliation.ReconcileDeletes | src/org/opendatakit/common/security/spring/UserGrantedAuthority.java:219-244 | after a successful call, the anchor's record at position i is gone from the datastore exactly when earlier records already carried its value as often as desired |
| Reconciliation.ReconcileIdempotent | src/org/opendatakit/common/security/spring/UserGrantedAuthority.java:200-251 | after a first call that succeeds under any datastore faults, a second fault-free call given a fresh collection with the first call's original values inserts nothing, deletes nothing, reloads nothing, and leaves that collection empty. Passing the mutated collection again is a different call, stated by the next row |
| Reconciliation.ReconcileReusedCollection | src/org/opendatakit/common/security/spring/UserGrantedAuthority.java:219-237 | the first call mutates the caller's collection in place (lines 224 and 276); passing that same collection to a successful second call makes the anchor's records carry exactly the values the first call inserted (the desired values minus those stored before), so a record the first call kept is deleted unless its value is also among those inserted |
| UserGrantedAuthority.AssertGrantedAuthoryMembers | src/org/opendatakit/common/security/spring/UserGrantedAuthority.java:200-251 | the group's members become exactly the desired ones and no other group changes; the reload count rises by one exactly when the decision point is reached and the members differed; a failure before that leaves the datastore unchanged (the relation handle may have been cached on the way) |
| UserGrantedAuthority.AssertUserGrantedAuthorities | src/org/opendatakit/common/security/spring/UserGrantedAuthority.java:253-303 | the same for a user's groups: they become exactly the desired ones, no other user's records change, and the reload is gated on a real difference |
| UserGrantedAuthority.Bootstrap | src/org/opendatakit/common/security/spring/UserGrantedAuthority.java:122-153 | bootstrap never reloads permissions and keeps ids unique; when it fails, it has only removed records |
| UserGrantedAuthority.StaleAdmins | src/org/opendatakit/common/security/spring/UserGrantedAuthority.java:128-139 | the stale entries are exactly the stored ROLE_ACCESS_ADMIN records of users other than the superuser |
| UserGrantedAuthority.Prune | src/org/opendatakit/common/security/spring/UserGrantedAuthority.java:141-144 | pruning only removes records, leaves no ROLE_ACCESS_ADMIN record of another user, keeps ids unique and issues no id; that it removes nothing else is PruneAdmins |
| UserGrantedAuthority.PruneAdmins | src/org/opendatakit/common/security/spring/UserGrantedAuthority.java:128-144 | deleting the stale entries leaves exactly the superuser's ROLE_ACCESS_ADMIN records and every record of other authorities |
| UserGrantedAuthority.HeldThroughAdmins | src/org/opendatakit/common/security/spring/UserGrantedAuthority.java:132-139 | `hasAccessRole` is set exactly when some record pairs the superuser with ROLE_ACCESS_ADMIN |
| UserGrantedAuthority.BootstrapEstablishes | src/org/opendatakit/common/security/spring/UserGrantedAuthority.java:122-153 | bootstrap outcome: after a successful call the admin records are the superuser's old ones, or else a single new one; other authorities are untouched; a record is created exactly when none was held |
| UserGrantedAuthority.BootstrapOnlySuperUser | src/org/opendatakit/common/security/spring/UserGrantedAuthority.java:122-153 | after a successful call the superuser holds ROLE_ACCESS_ADMIN and nobody else does |
| UserGrantedAuthority.BootstrapIdempotent | src/org/opendatakit/common/security/spring/UserGrantedAuthority.java:122-153 | after a bootstrap that succeeds under any datastore faults, a second fault-free one with nothing changed in between deletes nothing and creates nothing |
| UserGrantedAuthority.BootstrapSettled | src/org/opendatakit/common/security/spring/UserGrantedAuthority.java:122-153 | once the handle is cached and the superuser is the only holder of ROLE_ACCESS_ADMIN, bootstrap succeeds without deleting or creating anything |
| UserGrantedAuthority.DeleteGrantedAuthoritiesForUser | src/org/opendatakit/common/security/spring/UserGrantedAuthority.java:305-324 | permissions are reloaded exactly once whatever happens; a failure leaves the datastore unchanged (the relation handle may have been cached on the way); success removes exactly the user's records and keeps all others in order |
| UserGrantedAuthority.GetGrantedAuthorities | src/org/opendatakit/common/security/spring/UserGrantedAuthority.java:155-167 | a null user yields the empty set without touching the datastore; otherwise the call succeeds exactly when the read goes through, and returns exactly the authorities some record grants the user |
| UserGrantedAuthority.GetUriUsers | src/org/opendatakit/common/security/spring/UserGrantedAuthority.java:178-189 | a null authority yields the empty set; otherwise the call succeeds exactly when the read goes through, and returns exactly the users some record pairs with the authority |
| UserGrantedAuthority.MembersThenUriUsers | src/org/opendatakit/common/security/spring/UserGrantedAuthority.java:178-251 | after a successful assertGrantedAuthoryMembers, getUriUsers of the group returns exactly the desired members |
| UserGrantedAuthority.GroupsThenGrantedAuthorities | src/org/opendatakit/common/security/spring/UserGrantedAuthority.java:155-303 | after a successful assertUserGrantedAuthorities, getGrantedAuthorities of the user returns exactly the desired groups |
| UserGrantedAuthority.DeletedUserHoldsNothing | src/org/opendatakit/common/security/spring/UserGrantedAuthority.java:155-324 | after a successful deleteGrantedAuthoritiesForUser the user holds no authority |
| UserGrantedAuthority.BootstrapThenUriUsers | src/org/opendatakit/common/security/spring/UserGrantedAuthority.java:122-189 | after a successful bootstrap, getUriUsers of ROLE_ACCESS_ADMIN returns the superuser alone |

## Behaviour worth knowing

- **Duplicate records are deleted.** Each matching record takes one occurrence
  of its value out of the desired collection (lines 223-224 and 275-276). A
  later record with the same value then finds the value gone and is deleted
  (lines 226 and 278). At most as many records per value survive as the
  collection held; when fewer were stored, the missing ones are inserted.
  `MembershipScan.ScanDropsAt` states the deletions exactly.
- **Bootstrap keeps the superuser's admin records.** Bootstrap deletes only
  other users' ROLE_ACCESS_ADMIN records (lines 134-138). Every admin record
  the superuser already had stays, duplicates included.
  `UserGrantedAuthority.BootstrapEstablishes` states what remains, and
  `UserGrantedAuthority.BootstrapOnlySuperUser` states that the superuser
  holds the authority and nobody else does.

## Left out

- **Datastore calls.** Each is an all-or-nothing step driven by `Faults`.
  Partial failure inside a batch `putEntities` or `deleteEntities` is not
  modelled.
- **Entity creation.** `createEntityUsingRelation` never fails in the model,
  because its failure modes live in a persistence layer that is not part of
  this model. Only the setters after it can throw.
- **Null desired collections.** A null `desiredMembers` or `desiredGroups`
  throws a `NullPointerException` at the first `contains` (lines 223 and 275)
  or, with no existing record, at the insert loop (lines 232 and 284). The
  model's collections are sequences and are never null.
- **Unmodifiable desired collections.** `remove` on an unmodifiable collection
  (for example one from `Arrays.asList`) throws
  `UnsupportedOperationException` at lines 224 and 276. The model's `remove`
  always succeeds.
- **Failing reloads.** An exception from `reloadPermissions` in a `finally`
  block would replace the pending one. The model treats the reload as a
  counter increment that cannot fail.
- **Column width.** The width of the URI columns is `Store.bound`, a parameter.
  `setStringField` and the `DataField` length rules are not part of this model.
  The same bound applies to both columns. A value's length is measured in
  characters (Unicode scalar values, as Dafny's `string` counts them), not in
  the UTF-16 code units that Java's `String.length` counts. A value holding
  characters outside the Basic Multilingual Plane can therefore fit the bound
  in the model while `setUser` or `setGrantedAuthority` throws (lines 93 and
  103). `Membership.BuildInserts`, `Reconciliation.ReconcileFailsEarly` and
  `UserGrantedAuthority.Bootstrap` differ from the program on such values.
- **Null elements of a desired collection.** A null element would reach
  `setUser(null)` (line 234) or `new GrantedAuthorityImpl(null)` (line 287).
  The model's collections hold strings only, so that case cannot be expressed.
- **Row URIs.** They are natural-number ids issued from `Store.nextId`. The
  URI format is not modelled.
- **Concurrency.** `synchronized` on `assertRelation` and `bootstrap`, and
  concurrent callers in general, are not modelled. Every call runs alone.
- **Object wrappers.** `GrantedAuthorityImpl` wrappers are modelled as the
  authority string itself. The `HashSet<GrantedAuthority>` and
  `TreeSet<String>` results are modelled as `set<string>`.
- **Null arguments.** A null `uriUser` or `auth` in the read helpers is
  `Option.None`. The reconciliation entry points and
  `deleteGrantedAuthoritiesForUser` take plain strings. A null group or user
  there would throw a `NullPointerException` or filter on null. That path is
  not modelled. `bootstrap` also takes its superuser as a plain string. With a
  null superuser, the comparison at line 134 fails for every record, so every
  ROLE_ACCESS_ADMIN record is deleted (line 143) before `setUser(null)` at
  line 149. That path is not modelled either.
- **Unused accessors.** `getEmptyRow`, the constructors and the private getters
  are not modelled, beyond the fields they read and write.
- **Datastore listing order.** The order of `Store.records` stands for it, and
  the order of the records already stored is an input. Where the datastore
  lists newly put records is not known. `RelationStore.Insert` lists them
  last, which is a choice of the model. That choice decides which duplicates
  a later reconciliation deletes.
- MembershipScan.Scan: its own contract only counts records and values. The
  contents of the partition and of the remainder are stated by the lemmas in
  its row, which keeps the function's contract cheap for every proof that
  unfolds it.
- UserGrantedAuthority.Prune: its own contract gives one direction, that
  stale admin records are gone. `UserGrantedAuthority.PruneAdmins` states the
  exact result for a valid store.
