/**
 The ElasticSearch client: a local mirror of the (index, type, id) triples
 it has written, kept in a table it updates in place, plus the requests it
 sends to the search service.

 Each HTTP call is modelled by the request it would send: `put` returns the
 URL and the record it sends, `get` and `simple_search` return the URL they
 would read, or the ElasticError the client raises instead. Responses come
 from the network and are not modelled.
 */
module Elastic {
  import Urls
  import Mirror

  /** The one exception kind of the client, with its message. */
  datatype ElasticError = ElasticError(message: string)

  /** Raised by `get` and `simple_search` when the mirror does not know the target. */
  const INVALID_STRUCTURE: ElasticError := ElasticError("DB structure is not valid")

  /** Raised by `load` when the data file does not exist. */
  function InvalidFile(filePath: string): ElasticError
  {
    ElasticError(filePath + " is not valid file")
  }

  datatype Result<T> = Success(value: T) | Failure(error: ElasticError)

  /** One HTTP PUT: the URL and the record sent as its body. */
  datatype PutRequest<R> = PutRequest(url: string, body: R)

  /** The mirror and the PUT requests that one or more calls leave behind. */
  datatype Effect<R> = Effect(db: Mirror.Db, sent: seq<PutRequest<R>>)

  /** The PUTs of `put_records`: record k goes to id first + k. */
  function RecordRequests<R>(base: string, eIndex: string, eType: string, first: int, records: seq<R>)
    : seq<PutRequest<R>>
  {
    seq(|records|, k requires 0 <= k < |records| =>
      PutRequest(Urls.PutUrl(base, eIndex, eType, first + k), records[k]))
  }

  /** Everything one `put_records(eIndex, eType, records)` call does. */
  function PutRecordsEffect<R>(db: Mirror.Db, base: string, eIndex: string, eType: string, records: seq<R>)
    : (e: Effect<R>)
    requires Mirror.BaseDefined(db, eIndex, eType)
  {
    Effect(Mirror.PutRecordsSpec(db, eIndex, eType, |records|),
           RecordRequests(base, eIndex, eType, Mirror.NextBase(db, eIndex, eType), records))
  }

  /**
   The PUTs of `put_records` carry the records in record order and go to
   pairwise different URLs.
   */
  lemma RecordRequestsDistinct<R>(db: Mirror.Db, base: string, eIndex: string, eType: string, records: seq<R>)
    requires Mirror.BaseDefined(db, eIndex, eType)
    ensures |RecordRequests(base, eIndex, eType, Mirror.NextBase(db, eIndex, eType), records)| == |records|
    ensures forall k :: 0 <= k < |records| ==>
              RecordRequests(base, eIndex, eType, Mirror.NextBase(db, eIndex, eType), records)[k].body == records[k]
    ensures forall a, b :: 0 <= a < b < |records| ==>
              RecordRequests(base, eIndex, eType, Mirror.NextBase(db, eIndex, eType), records)[a].url
              != RecordRequests(base, eIndex, eType, Mirror.NextBase(db, eIndex, eType), records)[b].url
  {
    var first := Mirror.NextBase(db, eIndex, eType);
    var rs := RecordRequests(base, eIndex, eType, first, records);
    forall a, b | 0 <= a < b < |records| ensures rs[a].url != rs[b].url {
      assert rs[a].url == Urls.PutUrl(base, eIndex, eType, first + a);
      assert rs[b].url == Urls.PutUrl(base, eIndex, eType, first + b);
      Urls.PutUrlInjective(base, eIndex, eType, first + a, first + b);
    }
  }

  /** A parsed data file: index name -> type name -> records, in file order. */
  type Parsed<R> = seq<(string, seq<(string, seq<R>)>)>

  /** The inner loop of `load`: `put_records` for each type of one index, in order. */
  function LoadTypesEffect<R>(db: Mirror.Db, base: string, eIndex: string, types: seq<(string, seq<R>)>)
    : (e: Effect<R>)
    requires Mirror.Valid(db)
    ensures Mirror.Valid(e.db)
  {
    if types == [] then Effect(db, [])
    else
      var prev := LoadTypesEffect(db, base, eIndex, types[..|types| - 1]);
      var (eType, records) := types[|types| - 1];
      Mirror.PutRecordsPreservesValid(prev.db, eIndex, eType, |records|);
      var step := PutRecordsEffect(prev.db, base, eIndex, eType, records);
      Effect(step.db, prev.sent + step.sent)
  }

  /** The whole loop of `load`: every index of the file, in order. */
  function LoadEffect<R>(db: Mirror.Db, base: string, parsed: Parsed<R>): (e: Effect<R>)
    requires Mirror.Valid(db)
    ensures Mirror.Valid(e.db)
  {
    if parsed == [] then Effect(db, [])
    else
      var prev := LoadEffect(db, base, parsed[..|parsed| - 1]);
      var (eIndex, types) := parsed[|parsed| - 1];
      var step := LoadTypesEffect(prev.db, base, eIndex, types);
      Effect(step.db, prev.sent + step.sent)
  }

  /**
   Loading `{"idx": {"typ": [a, b]}}` into an empty mirror leaves
   idx -> typ -> [1, 2] and sends two PUTs, for ids 1 and 2, in record order.
   */
  lemma LoadExample<R>(base: string, a: R, b: R)
    ensures var e := LoadEffect(map[], base, [("idx", [("typ", [a, b])])]);
            e.db == map["idx" := map["typ" := [1, 2]]]
            && e.sent == [PutRequest(Urls.PutUrl(base, "idx", "typ", 1), a),
                          PutRequest(Urls.PutUrl(base, "idx", "typ", 2), b)]
  {
    var empty: Mirror.Db := map[];
    var parsed: Parsed<R> := [("idx", [("typ", [a, b])])];
    var types := [("typ", [a, b])];
    assert parsed[..0] == [] && types[..0] == [];
    var step := PutRecordsEffect(empty, base, "idx", "typ", [a, b]);
    Mirror.PutRecordsTwoOnEmpty();
    assert step.db == map["idx" := map["typ" := [1, 2]]];
    assert step.sent == [PutRequest(Urls.PutUrl(base, "idx", "typ", 1), a),
                         PutRequest(Urls.PutUrl(base, "idx", "typ", 2), b)];
    assert LoadTypesEffect(empty, base, "idx", types) == Effect(step.db, [] + step.sent);
  }

  /**
   The three in-place steps of `put` (create the index container, create the
   type list, append the id) leave the table Mirror.Insert describes.
   */
  lemma InsertMatchesSteps(db: Mirror.Db, after: Mirror.Db, eIndex: string, eType: string, eId: int)
    requires var d1 := if eIndex !in db then db[eIndex := map[]] else db;
             var d2 := if eType !in d1[eIndex] then d1[eIndex := d1[eIndex][eType := []]] else d1;
             after == if eId !in d2[eIndex][eType]
                      then d2[eIndex := d2[eIndex][eType := d2[eIndex][eType] + [eId]]] else d2
    ensures after == Mirror.Insert(db, eIndex, eType, eId)
  {
    var types := if eIndex in db then db[eIndex] else map[];
    var ids := if eType in types then types[eType] else [];
    var d1 := if eIndex !in db then db[eIndex := map[]] else db;
    assert d1 == db[eIndex := types] by {
      if eIndex in db {
        assert db[eIndex := db[eIndex]] == db;
      }
    }
    var d2 := if eType !in d1[eIndex] then d1[eIndex := d1[eIndex][eType := []]] else d1;
    assert d2 == db[eIndex := types[eType := ids]] by {
      if eType in types {
        assert types[eType := types[eType]] == types;
      }
    }
    assert d2[eIndex][eType] == ids;
    assert Mirror.Insert(db, eIndex, eType, eId)
        == db[eIndex := types[eType := if eId in ids then ids else ids + [eId]]];
    if eId !in ids {
      assert d2[eIndex] == types[eType := ids];
      assert types[eType := ids][eType := ids + [eId]] == types[eType := ids + [eId]];
      assert d2[eIndex := types[eType := ids + [eId]]] == db[eIndex := types[eType := ids + [eId]]];
    }
  }

  lemma RecordRequestsSnoc<R>(base: string, eIndex: string, eType: string, first: int, records: seq<R>, k: nat)
    requires k < |records|
    ensures RecordRequests(base, eIndex, eType, first, records[..k + 1])
         == RecordRequests(base, eIndex, eType, first, records[..k])
            + [PutRequest(Urls.PutUrl(base, eIndex, eType, first + k), records[k])]
  {
  }

  class ElasticSearch {
    /** The base address every request goes to. */
    const url: string
    /** The mirror; Python hands it out through the `db` property. */
    var db: Mirror.Db

    /** The mirror invariant: every id list non-empty and free of duplicates. */
    ghost predicate Valid()
      reads this
    {
      Mirror.Valid(db)
    }

    constructor ()
      ensures url == Urls.LOCAL_URL && db == map[]
      ensures Valid()
    {
      url := Urls.LOCAL_URL;
      db := map[];
    }

    /** `put`: record the id in the mirror and send the record to its put URL. */
    method Put<R>(eIndex: string, eType: string, eId: int, data: R) returns (req: PutRequest<R>)
      modifies this
      ensures db == Mirror.Insert(old(db), eIndex, eType, eId)
      ensures old(Valid()) ==> Valid()
      ensures req == PutRequest(Urls.PutUrl(url, eIndex, eType, eId), data)
    {
      if eIndex !in db {
        db := db[eIndex := map[]];
      }
      if eType !in db[eIndex] {
        db := db[eIndex := db[eIndex][eType := []]];
      }
      if eId !in db[eIndex][eType] {
        db := db[eIndex := db[eIndex][eType := db[eIndex][eType] + [eId]]];
      }
      InsertMatchesSteps(old(db), db, eIndex, eType, eId);
      if old(Valid()) {
        Mirror.InsertPreservesValid(old(db), eIndex, eType, eId);
      }
      req := PutRequest(Urls.PutUrl(url, eIndex, eType, eId), data);
    }

    /** `get`: fails unless the mirror knows the triple; otherwise reads the get URL. */
    method Get(eIndex: string, eType: string, eId: int) returns (r: Result<string>)
      ensures r.Failure? <==> !(eIndex in db && eType in db[eIndex] && eId in db[eIndex][eType])
      ensures r.Failure? ==> r.error == INVALID_STRUCTURE
      ensures r.Success? ==> r.value == Urls.GetUrl(url, eIndex, eType, eId)
    {
      if eIndex !in db || eType !in db[eIndex] || eId !in db[eIndex][eType] {
        return Failure(INVALID_STRUCTURE);
      }
      return Success(Urls.GetUrl(url, eIndex, eType, eId));
    }

    /** `simple_search`: fails unless the mirror knows the pair; the ids are not looked at. */
    method SimpleSearch(eIndex: string, eType: string, query: string) returns (r: Result<string>)
      ensures r.Failure? <==> !(eIndex in db && eType in db[eIndex])
      ensures r.Failure? ==> r.error == INVALID_STRUCTURE
      ensures r.Success? ==> r.value == Urls.SearchUrl(url, eIndex, eType, query)
    {
      if eIndex !in db || eType !in db[eIndex] {
        return Failure(INVALID_STRUCTURE);
      }
      return Success(Urls.SearchUrl(url, eIndex, eType, query));
    }

    /**
     `put_records`: pick the base id, then `put` record k under id base + k.
     The requirement is the one Python's `max` imposes on a present pair.
     */
    method PutRecords<R>(eIndex: string, eType: string, records: seq<R>) returns (sent: seq<PutRequest<R>>)
      requires Mirror.BaseDefined(db, eIndex, eType)
      modifies this
      ensures db == PutRecordsEffect(old(db), url, eIndex, eType, records).db
      ensures sent == PutRecordsEffect(old(db), url, eIndex, eType, records).sent
      ensures old(Valid()) ==> Valid()
    {
      var base: int;
      if eIndex !in db || eType !in db[eIndex] {
        base := 1;
      } else {
        base := Mirror.Max(db[eIndex][eType]) + 1;
      }
      assert base == Mirror.NextBase(db, eIndex, eType);
      sent := [];
      for k := 0 to |records|
        invariant db == Mirror.InsertRun(old(db), eIndex, eType, base, k)
        invariant sent == RecordRequests(url, eIndex, eType, base, records[..k])
      {
        RecordRequestsSnoc(url, eIndex, eType, base, records, k);
        var req := Put(eIndex, eType, base + k, records[k]);
        sent := sent + [req];
      }
      assert records[..|records|] == records;
      if old(Valid()) {
        Mirror.PutRecordsPreservesValid(old(db), eIndex, eType, |records|);
      }
    }
  }

  /**
   The inner loop of `load`: `put_records` for each type of one index, in
   file order.
   */
  method LoadIndex<R>(es: ElasticSearch, eIndex: string, types: seq<(string, seq<R>)>)
    returns (sent: seq<PutRequest<R>>)
    requires es.Valid()
    modifies es
    ensures es.Valid()
    ensures es.db == LoadTypesEffect(old(es.db), es.url, eIndex, types).db
    ensures sent == LoadTypesEffect(old(es.db), es.url, eIndex, types).sent
  {
    sent := [];
    for j := 0 to |types|
      invariant es.Valid()
      invariant es.db == LoadTypesEffect(old(es.db), es.url, eIndex, types[..j]).db
      invariant sent == LoadTypesEffect(old(es.db), es.url, eIndex, types[..j]).sent
    {
      assert types[..j + 1][..j] == types[..j];
      var more := es.PutRecords(eIndex, types[j].0, types[j].1);
      sent := sent + more;
    }
    assert types[..|types|] == types;
  }

  /**
   `load` over an already parsed data file: fail with the invalid-file error
   when the file does not exist, otherwise `put_records` every record list of
   the file in order. `isFile` stands for the file-system check on the
   resolved `filePath`.
   */
  method Load<R>(es: ElasticSearch, filePath: string, isFile: bool, parsed: Parsed<R>)
    returns (r: Result<seq<PutRequest<R>>>)
    requires es.Valid()
    modifies es
    ensures es.Valid()
    ensures !isFile ==> r == Failure(InvalidFile(filePath)) && es.db == old(es.db)
    ensures isFile ==> r.Success? && es.db == LoadEffect(old(es.db), es.url, parsed).db
                       && r.value == LoadEffect(old(es.db), es.url, parsed).sent
  {
    if !isFile {
      return Failure(InvalidFile(filePath));
    }
    var sent: seq<PutRequest<R>> := [];
    for k := 0 to |parsed|
      invariant es.Valid()
      invariant es.db == LoadEffect(old(es.db), es.url, parsed[..k]).db
      invariant sent == LoadEffect(old(es.db), es.url, parsed[..k]).sent
    {
      assert parsed[..k + 1][..k] == parsed[..k];
      var more := LoadIndex(es, parsed[k].0, parsed[k].1);
      sent := sent + more;
    }
    assert parsed[..|parsed|] == parsed;
    return Success(sent);
  }
}
