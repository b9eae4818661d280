/** The persisted `_user_granted_authority` relation, reduced to what the
    membership logic relies on: records carrying a store-assigned unique id
    and a (user, authority) pair, listed in the datastore's order; equality
    filters on either field; distinct-value projection; batched insertion
    under fresh ids; batched deletion by id. */
module RelationStore {

  /** The store-assigned record identifier (the row URI). */
  type Id = nat

  /** The two data fields of a membership record. */
  datatype Field = User | Authority

  /** The field that varies when `f` is held fixed. */
  function Other(f: Field): (g: Field)
    ensures g != f
  {
    if f == User then Authority else User
  }

  datatype Row = Row(user: string, authority: string) {
    function Get(f: Field): string {
      if f == User then user else authority
    }
  }

  datatype Record = Record(id: Id, row: Row)

  /** `records` are listed in the datastore's order; `nextId` is the next
      fresh id; `schema` is the datastore's default schema name; `bound` is
      the length bound of both string columns. */
  datatype Store = Store(records: seq<Record>, nextId: nat, schema: string, bound: nat)

  function IdSet(rs: seq<Record>): set<Id> {
    set r | r in rs :: r.id
  }

  /** No id is carried by two records. */
  predicate DistinctIds(rs: seq<Record>) {
    |rs| == 0 || (rs[0].id !in IdSet(rs[1..]) && DistinctIds(rs[1..]))
  }

  /** What the datastore guarantees of its ids: unique, and all issued. */
  predicate Valid(s: Store) {
    DistinctIds(s.records) && forall r :: r in s.records ==> r.id < s.nextId
  }

  /** The values of field `f`, record by record. */
  function Values(rs: seq<Record>, f: Field): seq<string> {
    seq(|rs|, i requires 0 <= i < |rs| => rs[i].row.Get(f))
  }

  /** Query with one EQUAL filter: the records whose field `f` is `a`, in
      listing order. */
  function Matching(rs: seq<Record>, f: Field, a: string): (m: seq<Record>)
    ensures forall r :: r in m <==> r in rs && r.row.Get(f) == a
  {
    if |rs| == 0 then []
    else (if rs[0].row.Get(f) == a then [rs[0]] else []) + Matching(rs[1..], f, a)
  }

  /** The records whose field `f` is not `a`, in listing order: everything
      a query on `a` does not see. */
  function NotMatching(rs: seq<Record>, f: Field, a: string): (m: seq<Record>)
    ensures forall r :: r in m <==> r in rs && r.row.Get(f) != a
  {
    if |rs| == 0 then []
    else (if rs[0].row.Get(f) != a then [rs[0]] else []) + NotMatching(rs[1..], f, a)
  }

  /** The records that survive deleting the ids in `ids`. */
  function Without(rs: seq<Record>, ids: set<Id>): (w: seq<Record>)
    ensures forall r :: r in w <==> r in rs && r.id !in ids
  {
    if |rs| == 0 then []
    else (if rs[0].id !in ids then [rs[0]] else []) + Without(rs[1..], ids)
  }

  /** Distinct-value projection: the values of `proj` over the records whose
      `filter` field is `a`. */
  function DistinctValues(rs: seq<Record>, filter: Field, a: string, proj: Field): (vs: set<string>)
    ensures forall v :: v in vs <==> v in Values(Matching(rs, filter, a), proj)
  {
    var m := Matching(rs, filter, a);
    ProjectionValues(m, proj);
    set r | r in m :: r.row.Get(proj)
  }

  lemma ProjectionValues(m: seq<Record>, proj: Field)
    ensures forall v :: v in Values(m, proj) <==> exists r :: r in m && r.row.Get(proj) == v
  {
    forall v | v in Values(m, proj) ensures exists r :: r in m && r.row.Get(proj) == v {
      var i :| 0 <= i < |m| && Values(m, proj)[i] == v;
      assert m[i] in m;
    }
    forall v | exists r :: r in m && r.row.Get(proj) == v ensures v in Values(m, proj) {
      var r :| r in m && r.row.Get(proj) == v;
      var i :| 0 <= i < |m| && m[i] == r;
      assert Values(m, proj)[i] == v;
    }
  }

  /** The records created for `rows` under the fresh ids from..from+|rows|-1. */
  function Fresh(rows: seq<Row>, from: nat): seq<Record> {
    seq(|rows|, i requires 0 <= i < |rows| => Record(from + i, rows[i]))
  }

  /** putEntities of new rows: each gets a fresh id and is listed last. */
  function Insert(s: Store, rows: seq<Row>): (s': Store)
    ensures Valid(s) ==> Valid(s')
    ensures forall r :: r in s.records ==> r in s'.records
    ensures |s'.records| == |s.records| + |rows|
    ensures s'.records[..|s.records|] == s.records
    ensures forall i :: 0 <= i < |rows| ==>
      s'.records[|s.records| + i].row == rows[i] && s.nextId <= s'.records[|s.records| + i].id < s'.nextId
    ensures s'.nextId == s.nextId + |rows| && s'.schema == s.schema && s'.bound == s.bound
  {
    InsertValid(s, rows);
    Store(s.records + Fresh(rows, s.nextId), s.nextId + |rows|, s.schema, s.bound)
  }

  /** deleteEntities by id. */
  function Delete(s: Store, ids: set<Id>): (s': Store)
    ensures Valid(s) ==> Valid(s')
    ensures forall r :: r in s'.records <==> r in s.records && r.id !in ids
    ensures s'.records == Without(s.records, ids)
    ensures s'.nextId == s.nextId && s'.schema == s.schema && s'.bound == s.bound
  {
    DeleteValid(s, ids);
    Store(Without(s.records, ids), s.nextId, s.schema, s.bound)
  }

  // ---------------------------------------------------------------------
  // Lemmas about the filters

  lemma ValuesAppend(a: seq<Record>, b: seq<Record>, f: Field)
    ensures Values(a + b, f) == Values(a, f) + Values(b, f)
  {
  }

  lemma {:induction false} MatchingAppend(a: seq<Record>, b: seq<Record>, f: Field, x: string)
    ensures Matching(a + b, f, x) == Matching(a, f, x) + Matching(b, f, x)
  {
    if |a| == 0 {
      assert a + b == b;
    } else {
      var ab := a + b;
      assert ab[0] == a[0];
      assert ab[1..] == a[1..] + b;
      MatchingAppend(a[1..], b, f, x);
      var head := if a[0].row.Get(f) == x then [a[0]] else [];
      calc {
        Matching(ab, f, x);
        head + Matching(a[1..] + b, f, x);
        head + (Matching(a[1..], f, x) + Matching(b, f, x));
        (head + Matching(a[1..], f, x)) + Matching(b, f, x);
      }
    }
  }

  lemma {:induction false} NotMatchingAppend(a: seq<Record>, b: seq<Record>, f: Field, x: string)
    ensures NotMatching(a + b, f, x) == NotMatching(a, f, x) + NotMatching(b, f, x)
  {
    if |a| == 0 {
      assert a + b == b;
    } else {
      var ab := a + b;
      assert ab[0] == a[0];
      assert ab[1..] == a[1..] + b;
      NotMatchingAppend(a[1..], b, f, x);
      var head := if a[0].row.Get(f) != x then [a[0]] else [];
      calc {
        NotMatching(ab, f, x);
        head + NotMatching(a[1..] + b, f, x);
        head + (NotMatching(a[1..], f, x) + NotMatching(b, f, x));
        (head + NotMatching(a[1..], f, x)) + NotMatching(b, f, x);
      }
    }
  }

  lemma {:induction false} WithoutAppend(a: seq<Record>, b: seq<Record>, ids: set<Id>)
    ensures Without(a + b, ids) == Without(a, ids) + Without(b, ids)
  {
    if |a| == 0 {
      assert a + b == b;
    } else {
      var ab := a + b;
      assert ab[0] == a[0];
      assert ab[1..] == a[1..] + b;
      WithoutAppend(a[1..], b, ids);
      var head := if a[0].id !in ids then [a[0]] else [];
      calc {
        Without(ab, ids);
        head + Without(a[1..] + b, ids);
        head + (Without(a[1..], ids) + Without(b, ids));
        (head + Without(a[1..], ids)) + Without(b, ids);
      }
    }
  }

  /** Filtering by field and deleting by id commute. */
  lemma {:induction false} MatchingWithout(rs: seq<Record>, ids: set<Id>, f: Field, x: string)
    ensures Matching(Without(rs, ids), f, x) == Without(Matching(rs, f, x), ids)
  {
    if |rs| > 0 {
      MatchingWithout(rs[1..], ids, f, x);
      var head := if rs[0].id !in ids then [rs[0]] else [];
      MatchingAppend(head, Without(rs[1..], ids), f, x);
      var mhead := if rs[0].row.Get(f) == x then [rs[0]] else [];
      WithoutAppend(mhead, Matching(rs[1..], f, x), ids);
    }
  }

  lemma {:induction false} NotMatchingWithout(rs: seq<Record>, ids: set<Id>, f: Field, x: string)
    ensures NotMatching(Without(rs, ids), f, x) == Without(NotMatching(rs, f, x), ids)
  {
    if |rs| > 0 {
      NotMatchingWithout(rs[1..], ids, f, x);
      var head := if rs[0].id !in ids then [rs[0]] else [];
      NotMatchingAppend(head, Without(rs[1..], ids), f, x);
      var nhead := if rs[0].row.Get(f) != x then [rs[0]] else [];
      WithoutAppend(nhead, NotMatching(rs[1..], f, x), ids);
    }
  }

  /** Deleting ids no record carries changes nothing. */
  lemma {:induction false} WithoutNothing(rs: seq<Record>, ids: set<Id>)
    requires IdSet(rs) !! ids
    ensures Without(rs, ids) == rs
  {
    if |rs| > 0 {
      assert rs[0].id in IdSet(rs);
      assert IdSet(rs[1..]) <= IdSet(rs) by {
        forall r | r in rs[1..] ensures r in rs { }
      }
      WithoutNothing(rs[1..], ids);
      assert rs == [rs[0]] + rs[1..];
    }
  }

  /** An extra id that no record carries does not change a deletion. */
  lemma {:induction false} WithoutExtra(rs: seq<Record>, ids: set<Id>, x: Id)
    requires x !in IdSet(rs)
    ensures Without(rs, ids + {x}) == Without(rs, ids)
  {
    if |rs| > 0 {
      assert rs[0].id in IdSet(rs);
      assert IdSet(rs[1..]) <= IdSet(rs) by {
        forall r | r in rs[1..] ensures r in rs { }
      }
      WithoutExtra(rs[1..], ids, x);
    }
  }

  /** A filter that finds nothing is empty. */
  lemma EmptyWhenNoneMatch(m: seq<Record>)
    ensures (forall r :: r !in m) ==> m == []
  {
    if |m| > 0 {
      assert m[0] in m;
    }
  }

  // ---------------------------------------------------------------------
  // Lemmas about distinct ids

  lemma IdSetMonotone(sub: seq<Record>, rs: seq<Record>)
    requires forall r :: r in sub ==> r in rs
    ensures IdSet(sub) <= IdSet(rs)
  {
  }

  /** Putting a record in front of distinct records whose ids it does not
      share keeps the ids distinct. */
  lemma ConsDistinct(r: Record, rs: seq<Record>)
    requires DistinctIds(rs) && r.id !in IdSet(rs)
    ensures DistinctIds([r] + rs)
  {
    assert ([r] + rs)[1..] == rs;
  }

  lemma {:induction false} MatchingDistinct(rs: seq<Record>, f: Field, x: string)
    requires DistinctIds(rs)
    ensures DistinctIds(Matching(rs, f, x))
  {
    if |rs| > 0 {
      var m := Matching(rs[1..], f, x);
      MatchingDistinct(rs[1..], f, x);
      if rs[0].row.Get(f) == x {
        IdSetMonotone(m, rs[1..]);
        assert Matching(rs, f, x) == [rs[0]] + m;
        ConsDistinct(rs[0], m);
      } else {
        assert Matching(rs, f, x) == m;
      }
    }
  }

  lemma {:induction false} WithoutDistinct(rs: seq<Record>, ids: set<Id>)
    requires DistinctIds(rs)
    ensures DistinctIds(Without(rs, ids))
  {
    if |rs| > 0 {
      var w := Without(rs[1..], ids);
      WithoutDistinct(rs[1..], ids);
      if rs[0].id !in ids {
        IdSetMonotone(w, rs[1..]);
        assert Without(rs, ids) == [rs[0]] + w;
        ConsDistinct(rs[0], w);
      } else {
        assert Without(rs, ids) == w;
      }
    }
  }

  lemma {:induction false} AppendDistinct(a: seq<Record>, b: seq<Record>)
    requires DistinctIds(a) && DistinctIds(b) && IdSet(a) !! IdSet(b)
    ensures DistinctIds(a + b)
  {
    if |a| == 0 {
      assert a + b == b;
    } else {
      assert (a + b)[1..] == a[1..] + b;
      IdSetMonotone(a[1..], a);
      AppendDistinct(a[1..], b);
      assert a[0] in a;
      assert IdSet(a[1..] + b) == IdSet(a[1..]) + IdSet(b);
    }
  }

  lemma {:induction false} FreshDistinct(rows: seq<Row>, from: nat)
    ensures DistinctIds(Fresh(rows, from))
    ensures forall r :: r in Fresh(rows, from) ==> from <= r.id < from + |rows|
  {
    var fs := Fresh(rows, from);
    if |rows| > 0 {
      FreshDistinct(rows[1..], from + 1);
      assert fs[1..] == Fresh(rows[1..], from + 1);
    }
  }

  /** Appending fresh records keeps a valid store valid. */
  lemma InsertValid(s: Store, rows: seq<Row>)
    ensures Valid(s) ==> Valid(Store(s.records + Fresh(rows, s.nextId), s.nextId + |rows|, s.schema, s.bound))
  {
    if Valid(s) {
      FreshDistinct(rows, s.nextId);
      AppendDistinct(s.records, Fresh(rows, s.nextId));
    }
  }

  lemma DeleteValid(s: Store, ids: set<Id>)
    ensures Valid(s) ==> Valid(Store(Without(s.records, ids), s.nextId, s.schema, s.bound))
  {
    if Valid(s) {
      WithoutDistinct(s.records, ids);
    }
  }

  /** Under distinct ids, the records a filter selects and the records it
      rejects carry disjoint ids. */
  lemma {:induction false} SplitIdsDisjoint(rs: seq<Record>, f: Field, x: string)
    requires DistinctIds(rs)
    ensures IdSet(Matching(rs, f, x)) !! IdSet(NotMatching(rs, f, x))
  {
    if |rs| > 0 {
      SplitIdsDisjoint(rs[1..], f, x);
      IdSetMonotone(Matching(rs[1..], f, x), rs[1..]);
      IdSetMonotone(NotMatching(rs[1..], f, x), rs[1..]);
      var head := if rs[0].row.Get(f) == x then [rs[0]] else [];
      var nhead := if rs[0].row.Get(f) != x then [rs[0]] else [];
      assert IdSet(head + Matching(rs[1..], f, x)) == IdSet(head) + IdSet(Matching(rs[1..], f, x));
      assert IdSet(nhead + NotMatching(rs[1..], f, x)) == IdSet(nhead) + IdSet(NotMatching(rs[1..], f, x));
    }
  }

  /** Under distinct ids, deleting the ids of the records a filter rejects
      leaves exactly the records it selects. */
  lemma {:induction false} WithoutRejected(rs: seq<Record>, f: Field, x: string)
    requires DistinctIds(rs)
    ensures Without(rs, IdSet(NotMatching(rs, f, x))) == Matching(rs, f, x)
  {
    if |rs| > 0 {
      var rest := rs[1..];
      var n := NotMatching(rest, f, x);
      IdSetMonotone(n, rest);
      WithoutRejected(rest, f, x);
      assert rs[0].id !in IdSet(n);
      if rs[0].row.Get(f) != x {
        assert NotMatching(rs, f, x) == [rs[0]] + n;
        assert IdSet([rs[0]] + n) == IdSet(n) + {rs[0].id};
        WithoutExtra(rest, IdSet(n), rs[0].id);
        assert Without(rs, IdSet(n) + {rs[0].id}) == Without(rest, IdSet(n) + {rs[0].id});
        assert Matching(rs, f, x) == Matching(rest, f, x);
      } else {
        assert NotMatching(rs, f, x) == n;
        assert Without(rs, IdSet(n)) == [rs[0]] + Without(rest, IdSet(n));
        assert Matching(rs, f, x) == [rs[0]] + Matching(rest, f, x);
      }
    }
  }

  /** Under distinct ids, deleting the ids of the records a filter selects
      leaves exactly the records it rejects. */
  lemma {:induction false} WithoutSelected(rs: seq<Record>, f: Field, x: string)
    requires DistinctIds(rs)
    ensures Without(rs, IdSet(Matching(rs, f, x))) == NotMatching(rs, f, x)
  {
    if |rs| > 0 {
      var rest := rs[1..];
      var m := Matching(rest, f, x);
      IdSetMonotone(m, rest);
      WithoutSelected(rest, f, x);
      assert rs[0].id !in IdSet(m);
      if rs[0].row.Get(f) == x {
        assert Matching(rs, f, x) == [rs[0]] + m;
        assert IdSet([rs[0]] + m) == IdSet(m) + {rs[0].id};
        WithoutExtra(rest, IdSet(m), rs[0].id);
        assert Without(rs, IdSet(m) + {rs[0].id}) == Without(rest, IdSet(m) + {rs[0].id});
        assert NotMatching(rs, f, x) == NotMatching(rest, f, x);
      } else {
        assert Matching(rs, f, x) == m;
        assert Without(rs, IdSet(m)) == [rs[0]] + Without(rest, IdSet(m));
        assert NotMatching(rs, f, x) == [rs[0]] + NotMatching(rest, f, x);
      }
    }
  }
}
