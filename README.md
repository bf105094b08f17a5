# ElasticSearch client mirror

A Dafny model of the core of the `ElasticSearch` client class in
`elastic_search.py`.

The client keeps a local mirror, `_db`, of what it has written:
index name → type name → the integer document ids written there, kept in
first-written order. The model covers:

- `put` records an id in the mirror and sends the record to the search
  service.
- `get` and `simple_search` check the mirror before reading. An unknown
  target raises `ElasticError("DB structure is not valid")`.
- `put_records` assigns consecutive ids to a batch of records. It starts at 1
  on an unknown (index, type) pair and at one past the largest id on a known
  pair.
- `load` feeds a parsed data file to `put_records`, index by index and type
  by type.

Files:

- `urls.dfy` (module `Urls`): the request URLs the client builds. It includes
  Python's `'/'.join` and `str` of an int, with its inverse `int`.
- `mirror.dfy` (module `Mirror`): the mirror as a value, with the pure
  functions and lemmas about it:
  - `Insert`: what one `put` does to the mirror;
  - `NextBase`: the first id `put_records` assigns;
  - `InsertRun` / `PutRecordsSpec`: the whole `put_records` loop;
  - `Valid`: every id list is non-empty and free of duplicates.
- `elastic_search.dfy` (module `Elastic`):
  - the class `ElasticSearch`, whose `db` field the methods update in place,
    as `_db` is updated in Python;
  - the `load` loop, as the methods `LoadIndex` and `Load`;
  - the pure functions that specify `put_records` and `load` together with
    the requests they send (`PutRecordsEffect`, `LoadTypesEffect`,
    `LoadEffect`).

An HTTP call is modelled by the request it would make:

- `Put` returns the URL and the record sent as the body.
- `Get` and `SimpleSearch` return the URL they would read, or the
  `ElasticError` they raise. A raised exception is a `Failure` result.
- `PutRecords` and `Load` return the sequence of PUT requests, in order.

Records are an opaque type parameter `R`.

Two points of the code the model keeps as written:

- `simple_search` checks only that the index and the type are present; it
  does not check that the type holds an id. While `Valid` holds, every
  present list is non-empty, so on every state the class can reach a present
  pair also holds an id.
- The `put` URL ends in a trailing slash; the `get` URL has none.

## Model

All cited lines are in `elastic_search.py`.

| member | source | states |
|---|---|---|
| Urls.Join | elastic_search.py:89-90 | Python's `'/'.join`; no contract of its own; stated by `Urls.JoinThree` and the URL shape lemmas |
| Urls.JoinThree | elastic_search.py:89-90 | joining three components puts the separator between each neighbouring pair |
| Urls.NatToString | elastic_search.py:89-90 | the decimal digits of a natural number carry no leading zero, and the string is "0" exactly for 0 |
| Urls.PutUrl | elastic_search.py:89-90 | no contract of its own; stated by `Urls.PutUrlShape`, `Urls.PutUrlIsGetUrlWithSlash` and `Urls.PutUrlInjective` |
| Urls.GetUrl | elastic_search.py:112-113 | no contract of its own; stated by `Urls.GetUrlShape` and `Urls.PutUrlIsGetUrlWithSlash` |
| Urls.SearchUrl | elastic_search.py:134-135 | no contract of its own; stated by `Urls.SearchUrlShape` and `Urls.SearchQueryUnescaped` |
| Mirror.Insert | elastic_search.py:82-87 | no contract of its own; stated by `Mirror.InsertAppends`, `Mirror.InsertKeys`, `Mirror.InsertFrame`, `Mirror.ContainsAfterInsert`, `Mirror.InsertPreservesValid` and `Mirror.InsertIdempotent` |
| Mirror.InsertRun | elastic_search.py:152-153 | no contract of its own; stated by the `Mirror.InsertRun…` lemmas and `Mirror.ContainsAfterInsertRun` |
| Mirror.PutRecordsSpec | elastic_search.py:146-153 | no contract of its own; stated by the `Mirror.PutRecords…` lemmas and `Mirror.ContainsAfterPutRecords` |
| Elastic.RecordRequests | elastic_search.py:152-153 | no contract of its own; stated by `Elastic.RecordRequestsDistinct` |
| Elastic.PutRecordsEffect | elastic_search.py:146-153 | no contract of its own; it pairs `Mirror.PutRecordsSpec` with `Elastic.RecordRequests`, and `Elastic.ElasticSearch.PutRecords` is proved against it |
| Urls.IntToString | elastic_search.py:89-90 | Python's `str` of an int; no contract of its own; stated by `Urls.IntToStringIsLiteral` and `Urls.IntToStringRoundTrip` |
| Urls.IntToStringIsLiteral | elastic_search.py:89-90 | `str` of an int is an optional minus sign followed by at least one decimal digit, with no leading zero unless the digits are "0", and never "-0" |
| Urls.IntToStringRoundTrip | elastic_search.py:89-90 | `int(str(n)) == n`: the id can be read back from its URL component |
| Urls.IntToStringInjective | elastic_search.py:89-90 | different ids give different `str` forms |
| Urls.PutUrlShape | elastic_search.py:89-90 | the put URL is base/index/type/id/, with a trailing slash |
| Urls.GetUrlShape | elastic_search.py:112-113 | the get URL is base/index/type/id, without a trailing slash |
| Urls.PutUrlIsGetUrlWithSlash | elastic_search.py:89-90 | the put URL is exactly the get URL plus "/" |
| Urls.SearchUrlShape | elastic_search.py:134-135 | the search URL is base/index/type/_search?q=query&pretty=true |
| Urls.SearchQueryUnescaped | elastic_search.py:134-135 | the query appears verbatim in the search URL, between the fixed prefix and suffix, whatever characters it holds |
| Urls.PutUrlInjective | elastic_search.py:89-90 | two different ids under one index and type never share a put URL |
| Mirror.InsertAppends | elastic_search.py:86-87 | `put` leaves a known id's list unchanged and appends a new id at the end, keeping earlier order |
| Mirror.InsertKeys | elastic_search.py:82-83 | `put` adds its index when missing and no other index |
| Mirror.InsertFrame | elastic_search.py:82-87 | `put` leaves every other (index, type) pair, its presence and its ids, unchanged |
| Mirror.ContainsAfterInsert | elastic_search.py:82-87 | after `put` a triple is known iff it was known before or is the one just put; in particular the put triple is known |
| Mirror.InsertPreservesValid | elastic_search.py:82-87 | `put` keeps every list non-empty and duplicate-free |
| Mirror.InsertIdempotent | elastic_search.py:82-87 | putting the same triple twice equals putting it once |
| Mirror.InsertFresh | elastic_search.py:86-87 | an id not yet in its list is appended, and the pair is present afterwards |
| Mirror.Max | elastic_search.py:150 | Python's `max` of a non-empty list is an element of the list and no element exceeds it |
| Mirror.ValidBaseDefined | elastic_search.py:150 | under the mirror invariant, the `max` in `put_records` is always defined |
| Mirror.NextBase | elastic_search.py:146-150 | the base is 1 on an unknown pair; on a known pair base − 1 is in the list and every existing id is below the base |
| Mirror.InsertRunFresh | elastic_search.py:152-153 | the `put` loop over ids lo, …, lo+n−1, all above the existing ids, appends exactly that run in order |
| Mirror.InsertRunKeys | elastic_search.py:152-153 | a non-empty `put` loop adds its index and no other |
| Mirror.InsertRunFrame | elastic_search.py:152-153 | the `put` loop leaves every other (index, type) pair unchanged |
| Mirror.ContainsAfterInsertRun | elastic_search.py:152-153 | after the loop a triple is known iff it was known before or is in its pair with an id in [lo, lo+n) |
| Mirror.InsertRunPreservesValid | elastic_search.py:152-153 | the loop keeps the mirror invariant |
| Mirror.PutRecordsAllocation | elastic_search.py:146-153 | `put_records` with n records appends exactly base, base+1, …, base+n−1; the pair exists afterwards when n > 0 |
| Mirror.PutRecordsOnUnknownPair | elastic_search.py:146-153 | on an unknown pair the records get ids 1, 2, …, n in record order |
| Mirror.PutRecordsOnKnownPair | elastic_search.py:146-153 | on a known pair the old ids are kept as a prefix and the new ones are max+1, …, max+n, whatever gaps the old ids leave |
| Mirror.PutRecordsGrowth | elastic_search.py:146-153 | with n > 0 records the list grows by exactly n and its new maximum is base + n − 1 |
| Mirror.PutRecordsFresh | elastic_search.py:146-153 | every id `put_records` assigns was unknown before the call |
| Mirror.PutRecordsEmpty | elastic_search.py:146-153 | an empty record list leaves the mirror unchanged and creates no container |
| Mirror.PutRecordsFrame | elastic_search.py:146-153 | `put_records` leaves every other (index, type) pair unchanged |
| Mirror.ContainsAfterPutRecords | elastic_search.py:146-153 | afterwards exactly the old triples and those with an assigned id are known |
| Mirror.PutRecordsPreservesValid | elastic_search.py:146-153 | under the invariant `put_records` is defined, and it keeps the invariant |
| Mirror.PutRecordsThreeOnUnknownPair | elastic_search.py:146-153 | three records on a fresh pair get the list [1, 2, 3] |
| Mirror.PutRecordsTwice | elastic_search.py:146-153 | three records on a fresh pair and then one more give [1, 2, 3], then [1, 2, 3, 4] |
| Mirror.PutRecordsTwoOnEmpty | elastic_search.py:146-153 | two records on an empty mirror leave idx → typ → [1, 2] and nothing else |
| Elastic.RecordRequestsDistinct | elastic_search.py:152-153 | the PUTs of `put_records` are one per record, carry the records in order, and go to pairwise different URLs |
| Elastic.InsertMatchesSteps | elastic_search.py:82-87 | the three in-place steps of `put` produce exactly the mirror `Insert` describes |
| Elastic.LoadTypesEffect | elastic_search.py:173-174 | `put_records` over the types of one index keeps the mirror invariant |
| Elastic.LoadEffect | elastic_search.py:172-174 | `put_records` over every index and type of a file keeps the mirror invariant |
| Elastic.LoadExample | elastic_search.py:172-174 | loading {"idx": {"typ": [a, b]}} into an empty mirror gives idx → typ → [1, 2] and PUTs a to id 1, then b to id 2 |
| Elastic.ElasticSearch.constructor | elastic_search.py:55-60 | the client starts at http://localhost:9200 with an empty mirror, which satisfies the invariant |
| Elastic.ElasticSearch.Put | elastic_search.py:70-91 | the mirror becomes `Insert` of the old mirror, the invariant is kept, and the PUT goes to the put URL with the record as body |
| Elastic.ElasticSearch.Get | elastic_search.py:93-114 | fails with "DB structure is not valid" exactly when the index, type or id is missing, otherwise reads the get URL; the mirror is not modified |
| Elastic.ElasticSearch.SimpleSearch | elastic_search.py:116-136 | fails with "DB structure is not valid" exactly when the index or type is missing, without looking at ids, otherwise reads the search URL; the mirror is not modified |
| Elastic.ElasticSearch.PutRecords | elastic_search.py:138-153 | the loop leaves the mirror `PutRecordsSpec` gives, sends one PUT per record to ids base, base+1, … in order, and keeps the invariant |
| Elastic.LoadIndex | elastic_search.py:173-174 | the inner loop of `load` leaves the mirror and the requests `LoadTypesEffect` gives, and keeps the invariant |
| Elastic.Load | elastic_search.py:159-174 | a missing file raises "<path> is not valid file" and changes nothing; otherwise the mirror and the requests are those of `LoadEffect`, and the invariant is kept |

## Left out

- HTTP traffic: `requests.put` and `requests.get`, and the responses they
  return, are network I/O. Each call is modelled by the request it would
  make. A failing HTTP call's exception is not modelled.
- Serialising records: `json.dumps(data)` is not modelled. Records are an
  opaque type parameter and are sent unchanged as the request body.
- The server process: the class `_ElasticServer` and the server start/stop
  commented out in `__init__` and `__del__` are process plumbing (directory
  checks, subprocesses, sleeping, killing by PID file). They are not
  modelled.
- Reading the data file in `load`: resolving the path against the module's
  directory, the file-system existence check, and opening and parsing the
  JSON are I/O.
  - `Load` takes the result of the existence check as `isFile`, and the
    already resolved path.
  - `Load` takes the parsed content as a sequence of (index, sequence of
    (type, records)) in the file's key order.
  - JSON that does not have this shape is not modelled.
- The module-level singleton `elastic` is not modelled; `Load` takes the
  client as a parameter.
- `__del__` does nothing and is not modelled.
- The `db` property returns the live dictionary, so callers can mutate it.
  - The model's `db` is a public field. A caller that may modify the client
    can assign it, which stands for that outside mutation.
  - The model does not capture aliasing: in Python a dictionary fetched
    through `db` earlier sees later updates in place. Dafny's `db` is a map
    value, so a copy read earlier does not change.
  - `ElasticSearch.PutRecords` requires only what Python's `max` needs: a
    present pair has a non-empty list. A mutated mirror that breaks this is
    the case where Python raises `ValueError` from `max([])`; the model does
    not cover it.
  - `Load` and `LoadIndex` require the mirror invariant `Valid`. The
    constructor establishes it and every method keeps it. These `requires`
    guard against a mirror that has been mutated from outside.
- Repeated keys in the data file: the keys of a dictionary from `json.load`
  are distinct, but `Parsed` does not enforce this.
  - `Load` and `LoadIndex` do not require the index names, or the type names
    within each index, to be distinct.
  - Given a repeated name, they process each occurrence in turn. A Python
    dictionary never presents such input.
- Concurrency is not modelled: the model is sequential. Two callers racing
  in `put_records` can compute the same base; the model does not capture
  this.
- Component types: ids are modelled as unbounded integers and index and type
  names as strings. Python's `str` of other key types is not modelled.
