/** The diff at the heart of both reconciliation entry points: walk the
    records already stored for the anchor in listing order; a record whose
    varying value is still in the caller's desired collection is kept and
    that value is taken out of the collection, any other record is marked
    for deletion; what is left in the collection is to be inserted.

    The desired collection is a Java `Collection<String>`, modelled as a
    sequence in its iteration order; `contains` is `in` and `remove` drops
    one occurrence. Properties are stated with multisets so that they hold
    for callers passing a list with repeats as well as for sets. */
module MembershipScan {
  import opened RelationStore

  /** `Collection.remove(v)`: drops one occurrence of `v` (the first in
      iteration order), leaving the collection unchanged when there is none. */
  function RemoveOne(d: seq<string>, v: string): (r: seq<string>)
    ensures v !in d ==> r == d
    ensures v in d ==> |r| == |d| - 1
  {
    if |d| == 0 then d
    else if d[0] == v then d[1..]
    else [d[0]] + RemoveOne(d[1..], v)
  }

  /** Removing a present value takes exactly one occurrence of it away. */
  lemma {:induction false} RemoveOneMultiset(d: seq<string>, v: string)
    ensures v in d ==> multiset(RemoveOne(d, v)) == multiset(d) - multiset{v}
  {
    if |d| > 0 {
      assert d == [d[0]] + d[1..];
      if d[0] != v {
        RemoveOneMultiset(d[1..], v);
      }
    }
  }

  /** The scan's outcome: the records left alone, the records marked for
      deletion (both in visiting order), and what is left of the desired
      collection, which is what gets inserted. */
  datatype ScanResult = ScanResult(keep: seq<Record>, drop: seq<Record>, remaining: seq<string>)

  /** The loop of assertGrantedAuthoryMembers / assertUserGrantedAuthorities
      over the existing records of one anchor; `varying` is the field that is
      not held fixed. Every existing record is either kept or dropped. */
  function Scan(existing: seq<Record>, varying: Field, desired: seq<string>): (s: ScanResult)
    ensures |s.keep| + |s.drop| == |existing|
    ensures |s.keep| + |s.remaining| == |desired|
  {
    if |existing| == 0 then ScanResult([], [], desired)
    else
      var r := existing[0];
      var v := r.row.Get(varying);
      if v in desired then
        var s := Scan(existing[1..], varying, RemoveOne(desired, v));
        ScanResult([r] + s.keep, s.drop, s.remaining)
      else
        var s := Scan(existing[1..], varying, desired);
        ScanResult(s.keep, [r] + s.drop, s.remaining)
  }

  /** Every existing record is either kept or dropped, exactly once. */
  lemma {:induction false} ScanPartitions(existing: seq<Record>, varying: Field, desired: seq<string>)
    ensures var s := Scan(existing, varying, desired);
      multiset(s.keep) + multiset(s.drop) == multiset(existing)
  {
    if |existing| > 0 {
      var v := existing[0].row.Get(varying);
      var d' := if v in desired then RemoveOne(desired, v) else desired;
      ScanPartitions(existing[1..], varying, d');
      ScanPartitionsStep(existing, varying, desired);
    }
  }

  /** The head record goes to exactly one side of the partition. */
  lemma ScanPartitionsStep(existing: seq<Record>, varying: Field, desired: seq<string>)
    requires |existing| > 0
    requires var v := existing[0].row.Get(varying);
      var t := Scan(existing[1..], varying, if v in desired then RemoveOne(desired, v) else desired);
      multiset(t.keep) + multiset(t.drop) == multiset(existing[1..])
    ensures var s := Scan(existing, varying, desired);
      multiset(s.keep) + multiset(s.drop) == multiset(existing)
  {
    var r := existing[0];
    var v := r.row.Get(varying);
    var t := Scan(existing[1..], varying, if v in desired then RemoveOne(desired, v) else desired);
    var s := Scan(existing, varying, desired);
    assert multiset(s.keep) + multiset(s.drop) == multiset{r} + (multiset(t.keep) + multiset(t.drop)) by {
      if v in desired {
        assert s.keep == [r] + t.keep && s.drop == t.drop;
      } else {
        assert s.keep == t.keep && s.drop == [r] + t.drop;
      }
    }
    assert multiset(existing) == multiset{r} + multiset(existing[1..]) by {
      assert existing == [r] + existing[1..];
    }
  }

  /** A collection holds no value twice (true of every Java `Set`). */
  predicate NoDuplicates(d: seq<string>) {
    forall v :: v in d ==> multiset(d)[v] <= 1
  }

  lemma ValuesCons(r: Record, rs: seq<Record>, f: Field)
    ensures Values([r] + rs, f) == [r.row.Get(f)] + Values(rs, f)
  {
  }

  /** Every desired value ends up either on a kept record or in the
      remainder, and nothing else does. */
  lemma {:induction false} ScanConserves(existing: seq<Record>, varying: Field, desired: seq<string>)
    ensures var s := Scan(existing, varying, desired);
      multiset(Values(s.keep, varying)) + multiset(s.remaining) == multiset(desired)
  {
    if |existing| > 0 {
      var r := existing[0];
      var v := r.row.Get(varying);
      if v in desired {
        var d' := RemoveOne(desired, v);
        var s' := Scan(existing[1..], varying, d');
        assert Scan(existing, varying, desired) == ScanResult([r] + s'.keep, s'.drop, s'.remaining);
        ScanConserves(existing[1..], varying, d');
        RemoveOneMultiset(desired, v);
        ValuesCons(r, s'.keep, varying);
        assert multiset(Values([r] + s'.keep, varying))
            == multiset{v} + multiset(Values(s'.keep, varying));
        MultisetPutBack(multiset(desired), v);
      } else {
        var s' := Scan(existing[1..], varying, desired);
        assert Scan(existing, varying, desired) == ScanResult(s'.keep, [r] + s'.drop, s'.remaining);
        ScanConserves(existing[1..], varying, desired);
      }
    }
  }

  lemma MultisetPutBack(a: multiset<string>, v: string)
    requires v in a
    ensures multiset{v} + (a - multiset{v}) == a
  {
  }

  lemma MultisetSubtractTwice(a: multiset<string>, b: multiset<string>, c: multiset<string>)
    ensures a - b - c == a - (b + c)
  {
  }

  lemma MultisetSubtractAbsent(a: multiset<string>, b: multiset<string>, v: string)
    requires a[v] == 0
    ensures a - (multiset{v} + b) == a - b
  {
  }

  /** The insert list: exactly the desired values that no existing record
      already carries, counted with multiplicity. This is also what the
      caller's collection holds once the scan is over. */
  lemma {:induction false} ScanRemainder(existing: seq<Record>, varying: Field, desired: seq<string>)
    ensures multiset(Scan(existing, varying, desired).remaining)
         == multiset(desired) - multiset(Values(existing, varying))
  {
    if |existing| > 0 {
      var r := existing[0];
      var v := r.row.Get(varying);
      ValuesCons(r, existing[1..], varying);
      assert existing == [r] + existing[1..];
      var rest := multiset(Values(existing[1..], varying));
      if v in desired {
        var d' := RemoveOne(desired, v);
        ScanRemainder(existing[1..], varying, d');
        RemoveOneMultiset(desired, v);
        MultisetSubtractTwice(multiset(desired), multiset{v}, rest);
      } else {
        ScanRemainder(existing[1..], varying, desired);
        MultisetSubtractAbsent(multiset(desired), rest, v);
      }
    }
  }

  /** Kept and dropped records together carry exactly the existing values. */
  lemma {:induction false} ScanSplitsValues(existing: seq<Record>, varying: Field, desired: seq<string>)
    ensures var s := Scan(existing, varying, desired);
      multiset(Values(s.keep, varying)) + multiset(Values(s.drop, varying))
        == multiset(Values(existing, varying))
  {
    if |existing| > 0 {
      var r := existing[0];
      var v := r.row.Get(varying);
      var d' := if v in desired then RemoveOne(desired, v) else desired;
      var s' := Scan(existing[1..], varying, d');
      ScanSplitsValues(existing[1..], varying, d');
      ValuesCons(r, existing[1..], varying);
      assert existing == [r] + existing[1..];
      if v in desired {
        assert Scan(existing, varying, desired) == ScanResult([r] + s'.keep, s'.drop, s'.remaining);
        ValuesCons(r, s'.keep, varying);
      } else {
        assert Scan(existing, varying, desired) == ScanResult(s'.keep, [r] + s'.drop, s'.remaining);
        ValuesCons(r, s'.drop, varying);
      }
    }
  }

  /** The scan changes something (inserts or deletes) exactly when the
      desired values differ, as a multiset, from the values already stored. */
  lemma ScanChanges(existing: seq<Record>, varying: Field, desired: seq<string>)
    ensures var s := Scan(existing, varying, desired);
      (|s.remaining| > 0 || |s.drop| > 0)
        <==> multiset(desired) != multiset(Values(existing, varying))
  {
    var s := Scan(existing, varying, desired);
    ScanConserves(existing, varying, desired);
    ScanRemainder(existing, varying, desired);
    ScanSplitsValues(existing, varying, desired);
    if multiset(desired) == multiset(Values(existing, varying)) {
      assert multiset(s.remaining) == multiset{};
      assert multiset(Values(s.drop, varying)) == multiset{};
      assert |Values(s.drop, varying)| == 0;
    }
  }

  /** Under distinct ids, deleting the ids of the dropped records leaves
      exactly the kept ones, in order. */
  lemma {:induction false} ScanKeepsRest(existing: seq<Record>, varying: Field, desired: seq<string>)
    requires DistinctIds(existing)
    ensures var s := Scan(existing, varying, desired);
      Without(existing, IdSet(s.drop)) == s.keep
  {
    if |existing| > 0 {
      var r := existing[0];
      var rest := existing[1..];
      var v := r.row.Get(varying);
      var d' := if v in desired then RemoveOne(desired, v) else desired;
      var s' := Scan(rest, varying, d');
      ScanKeepsRest(rest, varying, d');
      ScanDropsFromExisting(rest, varying, d');
      IdSetMonotone(s'.drop, rest);
      assert r.id !in IdSet(s'.drop);
      if v in desired {
        assert Scan(existing, varying, desired) == ScanResult([r] + s'.keep, s'.drop, s'.remaining);
        assert Without(existing, IdSet(s'.drop)) == [r] + Without(rest, IdSet(s'.drop));
      } else {
        assert Scan(existing, varying, desired) == ScanResult(s'.keep, [r] + s'.drop, s'.remaining);
        assert IdSet([r] + s'.drop) == IdSet(s'.drop) + {r.id};
        WithoutExtra(rest, IdSet(s'.drop), r.id);
        assert Without(existing, IdSet(s'.drop) + {r.id}) == Without(rest, IdSet(s'.drop) + {r.id});
      }
    }
  }

  /** Kept and dropped records are existing records. */
  lemma ScanDropsFromExisting(existing: seq<Record>, varying: Field, desired: seq<string>)
    ensures var s := Scan(existing, varying, desired);
      (forall x :: x in s.drop ==> x in existing) && (forall x :: x in s.keep ==> x in existing)
  {
    var s := Scan(existing, varying, desired);
    ScanPartitions(existing, varying, desired);
    forall x | x in s.drop ensures x in existing {
      assert multiset(s.drop)[x] > 0;
      assert multiset(existing)[x] == multiset(s.keep)[x] + multiset(s.drop)[x];
      assert x in multiset(existing);
    }
    forall x | x in s.keep ensures x in existing {
      assert multiset(s.keep)[x] > 0;
      assert multiset(existing)[x] == multiset(s.keep)[x] + multiset(s.drop)[x];
      assert x in multiset(existing);
    }
  }

  /** The delete list, record by record: the record visited at position `i`
      is deleted exactly when the records before it already carry its value
      at least as often as the desired collection does. In particular every
      record whose value is not desired is deleted, and of several records
      carrying a value desired once only the first visited survives. */
  lemma {:induction false} ScanDropsAt(existing: seq<Record>, varying: Field, desired: seq<string>, i: nat)
    requires DistinctIds(existing) && i < |existing|
    ensures var v := existing[i].row.Get(varying);
      (existing[i] in Scan(existing, varying, desired).drop)
        <==> multiset(Values(existing[..i], varying))[v] >= multiset(desired)[v]
  {
    DroppedAtEvery(existing, varying, desired, i);
  }

  lemma {:induction false} DroppedAtEvery(existing: seq<Record>, varying: Field, desired: seq<string>, i: nat)
    requires DistinctIds(existing) && i < |existing|
    ensures DroppedAt(existing, varying, desired, i)
    decreases i, 1
  {
    if i == 0 {
      DroppedAtHead(existing, varying, desired);
    } else {
      ScanDropsAtStep(existing, varying, desired, i);
    }
  }

  lemma DroppedAtHead(existing: seq<Record>, varying: Field, desired: seq<string>)
    requires DistinctIds(existing) && |existing| > 0
    ensures DroppedAt(existing, varying, desired, 0)
  {
    var v := existing[0].row.Get(varying);
    ScanDropsHead(existing, varying, desired);
    assert Values(existing[..0], varying) == [];
    assert v !in desired <==> multiset(desired)[v] == 0;
  }

  /** The delete decision at position `i`, counted as in ScanDropsAt. */
  predicate DroppedAt(existing: seq<Record>, varying: Field, desired: seq<string>, i: nat)
    requires i < |existing|
  {
    var v := existing[i].row.Get(varying);
    (existing[i] in Scan(existing, varying, desired).drop)
      <==> multiset(Values(existing[..i], varying))[v] >= multiset(desired)[v]
  }

  /** The inductive step: the decision at `i` is the tail scan's decision
      at `i - 1`, against the collection the head left. */
  lemma {:induction false} ScanDropsAtStep(existing: seq<Record>, varying: Field, desired: seq<string>, i: nat)
    requires DistinctIds(existing) && 0 < i < |existing|
    ensures DroppedAt(existing, varying, desired, i)
    decreases i, 0
  {
    var v0 := existing[0].row.Get(varying);
    var d' := if v0 in desired then RemoveOne(desired, v0) else desired;
    var w := existing[i].row.Get(varying);
    var tail := existing[1..];
    assert tail[i - 1] == existing[i];
    var dropped := existing[i] in Scan(existing, varying, desired).drop;
    var droppedInTail := existing[i] in Scan(tail, varying, d').drop;
    var seen := multiset(Values(existing[..i], varying))[w];
    var seenInTail := multiset(Values(tail[..i - 1], varying))[w];
    var wanted := multiset(desired)[w];
    var wantedInTail := multiset(d')[w];
    DroppedAtEvery(tail, varying, d', i - 1);
    assert droppedInTail <==> seenInTail >= wantedInTail;
    DropDecidedInTail(existing, varying, desired, i);
    assert dropped <==> droppedInTail;
    PrefixCount(existing, varying, i, w);
    assert seen == seenInTail + (if v0 == w then 1 else 0);
    RemoveOneCount(desired, v0, w);
    assert wantedInTail == wanted - (if v0 == w && v0 in desired then 1 else 0);
    assert dropped <==> seen >= wanted;
  }

  /** A record after the head is deleted by the whole scan exactly when the
      tail's scan deletes it. */
  lemma DropDecidedInTail(existing: seq<Record>, varying: Field, desired: seq<string>, i: nat)
    requires DistinctIds(existing) && 0 < i < |existing|
    ensures var v0 := existing[0].row.Get(varying);
      var d' := if v0 in desired then RemoveOne(desired, v0) else desired;
      (existing[i] in Scan(existing, varying, desired).drop) <==> existing[i] in Scan(existing[1..], varying, d').drop
  {
    ScanStep(existing, varying, desired);
    HeadNotInTail(existing);
    assert existing[i] == existing[1..][i - 1];
  }

  /** How often `w` occurs once the head's value is taken out. */
  lemma RemoveOneCount(desired: seq<string>, v: string, w: string)
    ensures multiset(if v in desired then RemoveOne(desired, v) else desired)[w]
         == multiset(desired)[w] - (if v == w && v in desired then 1 else 0)
    ensures v !in desired ==> multiset(desired)[v] == 0
  {
    RemoveOneMultiset(desired, v);
  }

  /** The first record visited is deleted exactly when its value is not
      desired at all. */
  lemma ScanDropsHead(existing: seq<Record>, varying: Field, desired: seq<string>)
    requires DistinctIds(existing) && |existing| > 0
    ensures (existing[0] in Scan(existing, varying, desired).drop)
        <==> existing[0].row.Get(varying) !in desired
  {
    var v0 := existing[0].row.Get(varying);
    var d' := if v0 in desired then RemoveOne(desired, v0) else desired;
    ScanStep(existing, varying, desired);
    HeadNotInTail(existing);
    ScanDropsFromExisting(existing[1..], varying, d');
  }

  /** One step of the scan, as seen from the delete list. */
  lemma ScanStep(existing: seq<Record>, varying: Field, desired: seq<string>)
    requires |existing| > 0
    ensures var v := existing[0].row.Get(varying);
      var d' := if v in desired then RemoveOne(desired, v) else desired;
      var s' := Scan(existing[1..], varying, d');
      Scan(existing, varying, desired).drop
        == if v in desired then s'.drop else [existing[0]] + s'.drop
  {
  }

  lemma HeadNotInTail(rs: seq<Record>)
    requires DistinctIds(rs) && |rs| > 0
    ensures rs[0] !in rs[1..]
  {
    assert forall x :: x in rs[1..] ==> x.id in IdSet(rs[1..]);
  }

  /** Counting a value in a prefix: the head's contribution plus the tail's. */
  lemma PrefixCount(rs: seq<Record>, f: Field, i: nat, w: string)
    requires 0 < i <= |rs|
    ensures multiset(Values(rs[..i], f))[w]
         == multiset(Values(rs[1..][..i - 1], f))[w] + (if rs[0].row.Get(f) == w then 1 else 0)
  {
    assert rs[..i] == [rs[0]] + rs[1..][..i - 1];
    ValuesCons(rs[0], rs[1..][..i - 1], f);
  }

  /** The delete list for a duplicate-free desired collection (a Java `Set`):
      a record is deleted exactly when its value is not desired or an earlier
      record already carries it. */
  lemma ScanDropsAtNoDuplicates(existing: seq<Record>, varying: Field, desired: seq<string>, i: nat)
    requires DistinctIds(existing) && i < |existing| && NoDuplicates(desired)
    ensures var v := existing[i].row.Get(varying);
      (existing[i] in Scan(existing, varying, desired).drop)
        <==> v !in desired || exists j :: 0 <= j < i && existing[j].row.Get(varying) == v
  {
    var v := existing[i].row.Get(varying);
    ScanDropsAt(existing, varying, desired, i);
    var before := Values(existing[..i], varying);
    assert multiset(desired)[v] <= 1;
    if exists j :: 0 <= j < i && existing[j].row.Get(varying) == v {
      var j :| 0 <= j < i && existing[j].row.Get(varying) == v;
      assert before[j] == v;
    }
    if v in before {
      var j :| 0 <= j < |before| && before[j] == v;
      assert existing[j].row.Get(varying) == v;
    }
  }

  /** The insert list for a duplicate-free desired collection: exactly the
      desired values no existing record carries, each once. */
  lemma ScanInsertsNoDuplicates(existing: seq<Record>, varying: Field, desired: seq<string>)
    requires NoDuplicates(desired)
    ensures var s := Scan(existing, varying, desired);
      NoDuplicates(s.remaining)
      && forall v :: v in s.remaining <==> v in desired && v !in Values(existing, varying)
  {
    var s := Scan(existing, varying, desired);
    var md := multiset(desired);
    var me := multiset(Values(existing, varying));
    ScanRemainder(existing, varying, desired);
    forall v ensures (v in s.remaining <==> v in desired && v !in Values(existing, varying))
                  && (v in s.remaining ==> multiset(s.remaining)[v] <= 1) {
      assert multiset(s.remaining)[v] == if md[v] >= me[v] then md[v] - me[v] else 0;
      assert v in desired ==> md[v] == 1;
      assert (v in Values(existing, varying)) <==> me[v] > 0;
      assert (v in s.remaining) <==> multiset(s.remaining)[v] > 0;
    }
  }
}
