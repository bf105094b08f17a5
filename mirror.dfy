/**
 The local mirror the ElasticSearch client keeps of what it has written:
 index name -> type name -> the document ids written there, in the order
 they were first written.

 This module holds the pure view of that table. Insert is the bookkeeping one
 `put` call does, NextBase is the first id `put_records` hands out, and
 PutRecordsSpec is the table after a whole `put_records` call. The class in
 module Elastic updates its table exactly as these functions say.
 */
module Mirror {

  type Db = map<string, map<string, seq<int>>>

  /** The (index, type) pair has a container in the mirror. */
  predicate HasType(db: Db, eIndex: string, eType: string)
  {
    eIndex in db && eType in db[eIndex]
  }

  /** The (index, type, id) triple is known to the mirror. */
  predicate Contains(db: Db, eIndex: string, eType: string, eId: int)
  {
    HasType(db, eIndex, eType) && eId in db[eIndex][eType]
  }

  /** The ids recorded for a pair; a missing pair reads as no ids. */
  function Ids(db: Db, eIndex: string, eType: string): seq<int>
  {
    if HasType(db, eIndex, eType) then db[eIndex][eType] else []
  }

  /** The types of an index; a missing index reads as an empty container. */
  function Types(db: Db, eIndex: string): map<string, seq<int>>
  {
    if eIndex in db then db[eIndex] else map[]
  }

  /** Append an id to a list unless it is already there. */
  function AddId(ids: seq<int>, eId: int): seq<int>
  {
    if eId in ids then ids else ids + [eId]
  }

  predicate NoDuplicates(s: seq<int>)
  {
    forall a, b :: 0 <= a < b < |s| ==> s[a] != s[b]
  }

  /**
   The invariant the client's operations keep: every id list is non-empty
   (a list is created and appended to in the same call) and holds no id twice.
   */
  predicate Valid(db: Db)
  {
    forall i, t :: i in db && t in db[i] ==> db[i][t] != [] && NoDuplicates(db[i][t])
  }

  /**
   The bookkeeping of `put(eIndex, eType, eId, _)`: create the index and type
   containers when missing, then append the id unless it is already there.
   */
  function Insert(db: Db, eIndex: string, eType: string, eId: int): (r: Db)
  {
    db[eIndex := Types(db, eIndex)[eType := AddId(Ids(db, eIndex, eType), eId)]]
  }

  /**
   `put` never introduces a duplicate: a known id leaves the list as it was,
   a new one goes at the end, after the ids already there.
   */
  lemma InsertAppends(db: Db, eIndex: string, eType: string, eId: int)
    ensures Ids(Insert(db, eIndex, eType, eId), eIndex, eType)
         == if eId in Ids(db, eIndex, eType) then Ids(db, eIndex, eType) else Ids(db, eIndex, eType) + [eId]
  {
  }

  /** `put` adds the index container when missing and no other index. */
  lemma InsertKeys(db: Db, eIndex: string, eType: string, eId: int)
    ensures Insert(db, eIndex, eType, eId).Keys == db.Keys + {eIndex}
  {
  }

  /** `put` changes only the entry of its own (index, type) pair. */
  lemma InsertFrame(db: Db, eIndex: string, eType: string, eId: int, i: string, t: string)
    requires i != eIndex || t != eType
    ensures HasType(Insert(db, eIndex, eType, eId), i, t) <==> HasType(db, i, t)
    ensures Ids(Insert(db, eIndex, eType, eId), i, t) == Ids(db, i, t)
  {
  }

  /** A triple is known after `put` exactly when it was known before or is the one just put. */
  lemma ContainsAfterInsert(db: Db, eIndex: string, eType: string, eId: int, i: string, t: string, x: int)
    ensures Contains(Insert(db, eIndex, eType, eId), i, t, x)
        <==> Contains(db, i, t, x) || (i == eIndex && t == eType && x == eId)
  {
    var r := Insert(db, eIndex, eType, eId);
    InsertAppends(db, eIndex, eType, eId);
    if i != eIndex || t != eType {
      InsertFrame(db, eIndex, eType, eId, i, t);
    }
    assert Contains(r, i, t, x) <==> x in Ids(r, i, t);
    assert Contains(db, i, t, x) <==> x in Ids(db, i, t);
  }

  lemma InsertPreservesValid(db: Db, eIndex: string, eType: string, eId: int)
    requires Valid(db)
    ensures Valid(Insert(db, eIndex, eType, eId))
  {
    var r := Insert(db, eIndex, eType, eId);
    InsertAppends(db, eIndex, eType, eId);
    forall i, t | i in r && t in r[i]
      ensures r[i][t] != [] && NoDuplicates(r[i][t])
    {
      assert HasType(r, i, t) && r[i][t] == Ids(r, i, t);
      if i != eIndex || t != eType {
        InsertFrame(db, eIndex, eType, eId, i, t);
        assert HasType(db, i, t);
      }
    }
  }

  /** Putting the same triple twice leaves the mirror as putting it once. */
  lemma InsertIdempotent(db: Db, eIndex: string, eType: string, eId: int)
    ensures Insert(Insert(db, eIndex, eType, eId), eIndex, eType, eId) == Insert(db, eIndex, eType, eId)
  {
    var r := Insert(db, eIndex, eType, eId);
    InsertAppends(db, eIndex, eType, eId);
    assert r[eIndex][eType] == Ids(r, eIndex, eType);
    assert eId in r[eIndex][eType];
    assert r[eIndex][eType := r[eIndex][eType]] == r[eIndex];
  }

  /** Python's `max` of a non-empty list. */
  function Max(s: seq<int>): (m: int)
    requires s != []
    ensures m in s
    ensures forall k :: 0 <= k < |s| ==> s[k] <= m
  {
    if |s| == 1 then s[0]
    else
      var rest := Max(s[1..]);
      if s[0] >= rest then s[0] else rest
  }

  /**
   What `put_records` needs of the mirror: `max` raises on an empty list,
   so a pair that is present must have at least one id.
   */
  predicate BaseDefined(db: Db, eIndex: string, eType: string)
  {
    HasType(db, eIndex, eType) ==> db[eIndex][eType] != []
  }

  lemma ValidBaseDefined(db: Db, eIndex: string, eType: string)
    requires Valid(db)
    ensures BaseDefined(db, eIndex, eType)
  {
  }

  /** The first id `put_records` assigns: 1 for an unknown pair, else one past the largest id. */
  function NextBase(db: Db, eIndex: string, eType: string): (b: int)
    requires BaseDefined(db, eIndex, eType)
    ensures !HasType(db, eIndex, eType) ==> b == 1
    ensures HasType(db, eIndex, eType) ==> b - 1 in db[eIndex][eType]
    ensures forall x :: x in Ids(db, eIndex, eType) ==> x < b
  {
    if !HasType(db, eIndex, eType) then 1 else Max(db[eIndex][eType]) + 1
  }

  /** The ids lo, lo + 1, ..., lo + n - 1. */
  function Range(lo: int, n: nat): seq<int>
  {
    seq(n, k => lo + k)
  }

  /** A run ends with its last id, which does not occur earlier in the run. */
  lemma RangeSnoc(lo: int, n: nat)
    requires n > 0
    ensures Range(lo, n) == Range(lo, n - 1) + [lo + n - 1]
    ensures lo + n - 1 !in Range(lo, n - 1)
  {
    assert Range(lo, n) == Range(lo, n - 1) + [lo + n - 1];
  }

  /** `put` of the ids lo, lo + 1, ..., lo + n - 1 in turn, the loop of `put_records`. */
  function InsertRun(db: Db, eIndex: string, eType: string, lo: int, n: nat): Db
  {
    if n == 0 then db else Insert(InsertRun(db, eIndex, eType, lo, n - 1), eIndex, eType, lo + n - 1)
  }

  /** The mirror after `put_records(eIndex, eType, records)` with `n` records. */
  function PutRecordsSpec(db: Db, eIndex: string, eType: string, n: nat): Db
    requires BaseDefined(db, eIndex, eType)
  {
    InsertRun(db, eIndex, eType, NextBase(db, eIndex, eType), n)
  }

  /** A fresh id is appended at the end of its pair's list. */
  lemma InsertFresh(db: Db, eIndex: string, eType: string, eId: int)
    requires eId !in Ids(db, eIndex, eType)
    ensures Ids(Insert(db, eIndex, eType, eId), eIndex, eType) == Ids(db, eIndex, eType) + [eId]
    ensures HasType(Insert(db, eIndex, eType, eId), eIndex, eType)
  {
    InsertAppends(db, eIndex, eType, eId);
  }

  /**
   A run of ids that all lie above the pair's existing ids is appended whole,
   in order: no id of the run is dropped as a duplicate.
   */
  lemma {:induction false} InsertRunFresh(db: Db, eIndex: string, eType: string, lo: int, n: nat)
    requires forall x :: x in Ids(db, eIndex, eType) ==> x < lo
    ensures Ids(InsertRun(db, eIndex, eType, lo, n), eIndex, eType) == Ids(db, eIndex, eType) + Range(lo, n)
    ensures n > 0 ==> HasType(InsertRun(db, eIndex, eType, lo, n), eIndex, eType)
  {
    if n == 0 {
      assert Range(lo, 0) == [];
    } else {
      InsertRunFresh(db, eIndex, eType, lo, n - 1);
      RangeSnoc(lo, n);
      InsertFresh(InsertRun(db, eIndex, eType, lo, n - 1), eIndex, eType, lo + n - 1);
    }
  }

  lemma {:induction false} InsertRunKeys(db: Db, eIndex: string, eType: string, lo: int, n: nat)
    requires n > 0
    ensures InsertRun(db, eIndex, eType, lo, n).Keys == db.Keys + {eIndex}
  {
    if n > 1 {
      InsertRunKeys(db, eIndex, eType, lo, n - 1);
    }
    InsertKeys(InsertRun(db, eIndex, eType, lo, n - 1), eIndex, eType, lo + n - 1);
  }

  /** The loop of `put_records` never touches another (index, type) pair. */
  lemma {:induction false} InsertRunFrame(db: Db, eIndex: string, eType: string, lo: int, n: nat, i: string, t: string)
    requires i != eIndex || t != eType
    ensures HasType(InsertRun(db, eIndex, eType, lo, n), i, t) <==> HasType(db, i, t)
    ensures Ids(InsertRun(db, eIndex, eType, lo, n), i, t) == Ids(db, i, t)
  {
    if n > 0 {
      InsertRunFrame(db, eIndex, eType, lo, n - 1, i, t);
      InsertFrame(InsertRun(db, eIndex, eType, lo, n - 1), eIndex, eType, lo + n - 1, i, t);
    }
  }

  /** A triple is known after the loop exactly when it was known before or its id is in the run. */
  lemma {:induction false} ContainsAfterInsertRun(db: Db, eIndex: string, eType: string, lo: int, n: nat,
                                                  i: string, t: string, x: int)
    ensures Contains(InsertRun(db, eIndex, eType, lo, n), i, t, x)
        <==> Contains(db, i, t, x) || (i == eIndex && t == eType && lo <= x < lo + n)
  {
    if n > 0 {
      ContainsAfterInsertRun(db, eIndex, eType, lo, n - 1, i, t, x);
      ContainsAfterInsert(InsertRun(db, eIndex, eType, lo, n - 1), eIndex, eType, lo + n - 1, i, t, x);
    }
  }

  lemma {:induction false} InsertRunPreservesValid(db: Db, eIndex: string, eType: string, lo: int, n: nat)
    requires Valid(db)
    ensures Valid(InsertRun(db, eIndex, eType, lo, n))
  {
    if n > 0 {
      var prev := InsertRun(db, eIndex, eType, lo, n - 1);
      assert InsertRun(db, eIndex, eType, lo, n) == Insert(prev, eIndex, eType, lo + n - 1);
      InsertRunPreservesValid(db, eIndex, eType, lo, n - 1);
      InsertPreservesValid(prev, eIndex, eType, lo + n - 1);
    }
  }

  /**
   Id assignment of `put_records`: the n records get ids base, base + 1, ...,
   base + n - 1, where base is NextBase, and all of them are appended to the
   pair's list in that order; none is dropped as a duplicate, because each lies
   above every id the pair already had.
   */
  lemma PutRecordsAllocation(db: Db, eIndex: string, eType: string, n: nat)
    requires BaseDefined(db, eIndex, eType)
    ensures Ids(PutRecordsSpec(db, eIndex, eType, n), eIndex, eType)
         == Ids(db, eIndex, eType) + Range(NextBase(db, eIndex, eType), n)
    ensures n > 0 ==> HasType(PutRecordsSpec(db, eIndex, eType, n), eIndex, eType)
  {
    InsertRunFresh(db, eIndex, eType, NextBase(db, eIndex, eType), n);
  }

  /** On an unknown pair the records get ids 1, 2, ..., n in record order. */
  lemma PutRecordsOnUnknownPair(db: Db, eIndex: string, eType: string, n: nat)
    requires !HasType(db, eIndex, eType) && n > 0
    ensures var r := PutRecordsSpec(db, eIndex, eType, n);
            HasType(r, eIndex, eType) && |r[eIndex][eType]| == n
            && forall k :: 0 <= k < n ==> r[eIndex][eType][k] == k + 1
  {
    PutRecordsAllocation(db, eIndex, eType, n);
  }

  /**
   On a known pair the records get ids max + 1, ..., max + n after the
   existing ones, whatever gaps the existing ids leave.
   */
  lemma PutRecordsOnKnownPair(db: Db, eIndex: string, eType: string, n: nat)
    requires HasType(db, eIndex, eType) && db[eIndex][eType] != []
    ensures var old_ids := db[eIndex][eType];
            var r := PutRecordsSpec(db, eIndex, eType, n);
            HasType(r, eIndex, eType) && |r[eIndex][eType]| == |old_ids| + n
            && r[eIndex][eType][..|old_ids|] == old_ids
            && forall k :: |old_ids| <= k < |old_ids| + n ==> r[eIndex][eType][k] == Max(old_ids) + 1 + (k - |old_ids|)
  {
    PutRecordsAllocation(db, eIndex, eType, n);
  }

  /** The list grows by exactly n and, when n > 0, its new maximum is base + n - 1. */
  lemma PutRecordsGrowth(db: Db, eIndex: string, eType: string, n: nat)
    requires BaseDefined(db, eIndex, eType) && n > 0
    ensures var r := PutRecordsSpec(db, eIndex, eType, n);
            HasType(r, eIndex, eType)
            && |r[eIndex][eType]| == |Ids(db, eIndex, eType)| + n
            && Max(r[eIndex][eType]) == NextBase(db, eIndex, eType) + n - 1
  {
    var base := NextBase(db, eIndex, eType);
    InsertRunFresh(db, eIndex, eType, base, n);
    var s := PutRecordsSpec(db, eIndex, eType, n)[eIndex][eType];
    var run := Range(base, n);
    assert s == Ids(db, eIndex, eType) + run;
    assert s[|s| - 1] == base + n - 1;
    var m := Max(s);
    assert m <= base + n - 1 by {
      if m !in Ids(db, eIndex, eType) {
        assert m in run;
        var k :| 0 <= k < |run| && run[k] == m;
      }
    }
  }

  /** Every id `put_records` assigns was unknown before the call. */
  lemma PutRecordsFresh(db: Db, eIndex: string, eType: string, n: nat, k: nat)
    requires BaseDefined(db, eIndex, eType) && k < n
    ensures !Contains(db, eIndex, eType, NextBase(db, eIndex, eType) + k)
  {
  }

  /** An empty record list leaves the mirror as it was; no container is created. */
  lemma PutRecordsEmpty(db: Db, eIndex: string, eType: string)
    requires BaseDefined(db, eIndex, eType)
    ensures PutRecordsSpec(db, eIndex, eType, 0) == db
  {
  }

  /** `put_records` leaves every other (index, type) pair as it was. */
  lemma PutRecordsFrame(db: Db, eIndex: string, eType: string, n: nat, i: string, t: string)
    requires BaseDefined(db, eIndex, eType) && (i != eIndex || t != eType)
    ensures HasType(PutRecordsSpec(db, eIndex, eType, n), i, t) <==> HasType(db, i, t)
    ensures Ids(PutRecordsSpec(db, eIndex, eType, n), i, t) == Ids(db, i, t)
  {
    InsertRunFrame(db, eIndex, eType, NextBase(db, eIndex, eType), n, i, t);
  }

  /** After `put_records` exactly the old triples and those with an assigned id are known. */
  lemma ContainsAfterPutRecords(db: Db, eIndex: string, eType: string, n: nat, i: string, t: string, x: int)
    requires BaseDefined(db, eIndex, eType)
    ensures var base := NextBase(db, eIndex, eType);
            (Contains(PutRecordsSpec(db, eIndex, eType, n), i, t, x)
             <==> Contains(db, i, t, x) || (i == eIndex && t == eType && base <= x < base + n))
  {
    ContainsAfterInsertRun(db, eIndex, eType, NextBase(db, eIndex, eType), n, i, t, x);
  }

  lemma PutRecordsPreservesValid(db: Db, eIndex: string, eType: string, n: nat)
    requires Valid(db)
    ensures BaseDefined(db, eIndex, eType) && Valid(PutRecordsSpec(db, eIndex, eType, n))
  {
    InsertRunPreservesValid(db, eIndex, eType, NextBase(db, eIndex, eType), n);
  }

  /** Three records on a fresh pair get ids 1, 2, 3. */
  lemma PutRecordsThreeOnUnknownPair(db: Db, eIndex: string, eType: string)
    requires !HasType(db, eIndex, eType)
    ensures var once := PutRecordsSpec(db, eIndex, eType, 3);
            HasType(once, eIndex, eType) && once[eIndex][eType] == [1, 2, 3]
  {
    PutRecordsAllocation(db, eIndex, eType, 3);
    assert Range(1, 3) == [1, 2, 3];
  }

  /**
   Three records on a fresh pair get ids 1, 2, 3; one more record afterwards
   gets id 4.
   */
  lemma PutRecordsTwice(db: Db, eIndex: string, eType: string)
    requires !HasType(db, eIndex, eType)
    ensures var once := PutRecordsSpec(db, eIndex, eType, 3);
            BaseDefined(once, eIndex, eType)
            && Ids(once, eIndex, eType) == [1, 2, 3]
            && NextBase(once, eIndex, eType) == 4
            && Ids(PutRecordsSpec(once, eIndex, eType, 1), eIndex, eType) == [1, 2, 3, 4]
  {
    PutRecordsThreeOnUnknownPair(db, eIndex, eType);
    var once := PutRecordsSpec(db, eIndex, eType, 3);
    var m := Max([1, 2, 3]);
    assert m == 3 by {
      assert [1, 2, 3][2] <= m;
    }
    PutRecordsAllocation(once, eIndex, eType, 1);
    assert Range(4, 1) == [4];
  }

  /** Two records on an empty mirror leave idx -> typ -> [1, 2] and nothing else. */
  lemma PutRecordsTwoOnEmpty()
    ensures PutRecordsSpec(map[], "idx", "typ", 2) == map["idx" := map["typ" := [1, 2]]]
  {
    var empty: Db := map[];
    var r := PutRecordsSpec(empty, "idx", "typ", 2);
    PutRecordsAllocation(empty, "idx", "typ", 2);
    assert Range(1, 2) == [1, 2];
    assert r["idx"]["typ"] == [1, 2];
    forall t | t != "typ" ensures t !in r["idx"] {
      PutRecordsFrame(empty, "idx", "typ", 2, "idx", t);
    }
    assert r["idx"] == map["typ" := [1, 2]];
    InsertRunKeys(empty, "idx", "typ", 1, 2);
    assert r.Keys == {"idx"};
  }
}
