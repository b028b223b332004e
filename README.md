# birdseye trace store queries, in Dafny

birdseye records traces of Python function calls. For each traced function
definition it stores a `Function` row: file, name, a hash of the body's
source text, and a data blob. The blob's `node_ranges` list groups of
`{start, end}` source spans that the instrumentation can evaluate. For each
invocation it stores a `Call` row: id, owning function id, start time and
captured values. The web server in `birdseye/server.py` answers its pages
and API requests with a handful of read-only queries over these rows. This
project models those queries and proves what they return.

The store is a value, `Records.Store`: a sequence of functions and a
sequence of calls in store order. `Records.Join` is the inner join of calls
with their owning functions, in call order. `Records.Valid` states what the
tables' keys promise: function ids and call ids are unique, and every call's
function id names a stored function. Python's ordering of strings, which
`sorted` uses, is `LexOrder.Less`. The queries are:

- `file_view`: the sorted, distinct function names of a file
  (`Queries.FunctionNamesInFile`, with Python's string order in `LexOrder`).
- `func_view`: the 200 most recent calls of a (file, name) function. When
  the function has no calls, the function row alone is returned, and the
  lookup fails when no such function exists (`Queries.FuncView`).
- `call_view` / `api_call_view`: `.one()` on the call id, with the call's
  owning function (`Queries.CallWithOwner`).
- `body_hashes_present`: the stored body hashes named in a request
  (`Queries.BodyHashesPresent`).
- `calls_by_body_hash`: the first 200 join rows whose function has the
  hash, their calls, and the union of the `(start, end)` pairs of every
  node of every group of every distinct data blob among those rows. This is
  an imperative method, `RangeAggregation.CallsByBodyHash`. Its nested loops
  build a set and then list it, as the source does.

The model follows the code where a reader might expect something else:

- `calls_by_body_hash` has no `order_by`. It takes the first 200 rows in
  join order and promises no ordering.
- `calls_by_body_hash` decodes each distinct blob without a guard. One
  malformed blob among the fetched rows fails the whole request. There is
  no per-row skipping.
- `func_view` orders only by start time. The model keeps ties in join order
  and promises only a non-increasing start time.
- A never-called function comes back with `calls = None`, not an empty list.

## Model

| member | source | states |
|---|---|---|
| `Records.Join` | birdseye/server.py:51-52 | a row is in the join exactly when its call is stored, its function is stored, and the function's id is the call's function id |
| `Records.Filter` | birdseye/server.py:53 | a `filter_by` keeps exactly the rows that satisfy its condition, never more copies of a row than the query had, and nothing at all exactly when no row satisfies it (also used at server.py:70, 99 and 121) |
| `Records.FilterCases` | birdseye/server.py:70 | the filter keeps more than one row exactly when two positions satisfy the condition, and exactly one row exactly when one position alone does, in which case it keeps that row |
| `Records.FilterAppend` | birdseye/server.py:53 | filtering a concatenation is the concatenation of the filtered parts, so a filter keeps the query's row order |
| `Records.FilterCounts` | birdseye/server.py:53 | a filter keeps every occurrence of a satisfying row and no occurrence of any other row |
| `Records.JoinOnePerCall` | birdseye/server.py:97-102 | when function and call ids are keys and every call's function exists, the join has exactly one row per call, in call order |
| `Records.Limit` | birdseye/server.py:54 | `[:200]` keeps a prefix of the query result: all of it up to 200 rows, otherwise exactly 200 rows |
| `LexOrder.InsertSorted` | birdseye/server.py:42 | adding a name to a strictly sorted list keeps it strictly sorted, and the elements become the old ones plus the name |
| `LexOrder.LessAtFirstDifference` | birdseye/server.py:42 | at the first position where two names differ, the smaller code point decides Python's `<` on them |
| `LexOrder.LessOnPrefix` | birdseye/server.py:42 | a prefix of a name precedes it under Python's `<` exactly when it is a proper prefix |
| `LexOrder.LessIrreflexive` | birdseye/server.py:42 | no name precedes itself |
| `LexOrder.LessTransitive` | birdseye/server.py:42 | the order `sorted` uses is transitive |
| `LexOrder.LessTotal` | birdseye/server.py:42 | of two distinct names, one precedes the other |
| `LexOrder.StrictlySortedUnique` | birdseye/server.py:42 | two strictly sorted lists with the same elements are equal |
| `Queries.FunctionNamesInFile` | birdseye/server.py:42 | the file listing is strictly sorted in Python's string order, so it has no duplicates, and it holds exactly the names of the functions recorded for the file |
| `Queries.FunctionNamesInFileCanonical` | birdseye/server.py:42 | the listing is the only sorted, duplicate-free list of those names, so it does not depend on the store's row order |
| `Queries.SortByStartDesc` | birdseye/server.py:54 | ordering by start time descending gives a permutation of the rows in non-increasing start-time order |
| `Queries.CallsOf` | birdseye/server.py:51-53 | the function's calls are exactly the join rows whose function has the file and name |
| `Queries.MostRecentFirst` | birdseye/server.py:51-54 | the page has as many rows as the function has calls, up to 200; it is in non-increasing start-time order; and it is a sub-multiset of the function's calls |
| `Queries.MostRecentFirstKeepsMostRecent` | birdseye/server.py:51-54 | no row left off the page is more recent than any row on it |
| `Queries.FuncView` | birdseye/server.py:48-61 | fails with NoSuchFunction exactly when no stored function has the file and name; otherwise returns a function with that file and name; `calls` is None exactly when the function has no call; otherwise there are 1 to 200 calls, all owned by a function with the file and name, most recent first, and the returned function is the owner of the first call |
| `Queries.FuncViewKeepsMostRecent` | birdseye/server.py:51-58 | the calls shown are as many as the function has, up to 200, taken from its calls, and every call left out is no more recent than every call shown |
| `Queries.FuncViewFullPage` | birdseye/server.py:51-54 | a function with more than 200 calls gets a page of exactly 200 calls |
| `Queries.CallIdCases` | birdseye/server.py:70 | no call has the id exactly when the id filter keeps nothing; two positions hold the id exactly when it keeps more than one; one position alone holds it exactly when it keeps one, and then it keeps that call |
| `Queries.CallWithOwner` | birdseye/server.py:68-71 | on success the row is in the join, its call has the id and is the only stored call with it; NoResultFound exactly when no stored call has the id; MultipleResultsFound exactly when two stored positions hold it; OwnerMissing exactly when one position alone holds it and no stored function has that call's function id; no other failure |
| `Queries.CallWithOwnerOnlyForUniqueId` | birdseye/server.py:70 | `.one()` succeeds only when exactly one position in the store holds a call with the id, and returns that call; when ids are keys and every call's function exists, it succeeds exactly when the id is stored |
| `Queries.CallWithOwnerIsOwner` | birdseye/server.py:86-89 | when function ids are keys, the function returned with the call is the one stored function whose id is the call's function id |
| `Queries.BodyHashesPresent` | birdseye/server.py:117-124 | the answer has no duplicates and holds exactly the requested hashes that some stored function has as its body hash; an empty request gives an empty answer |
| `Queries.BodyHashesPresentByMembership` | birdseye/server.py:120-122 | two requests that name the same stored hashes get the same answer |
| `Queries.BodyHashesPresentIgnoresOrder` | birdseye/server.py:119-122 | order and repetition in the request do not change the answer |
| `Queries.BodyHashesPresentIdempotent` | birdseye/server.py:117-124 | asking again with the answer returns the same answer |
| `RangeAggregation.Fetched` | birdseye/server.py:97-99 | at most 200 rows are fetched |
| `RangeAggregation.FetchedIsFirstMatches` | birdseye/server.py:97-99 | the fetched rows are a prefix of the join rows whose function has the hash, with all of them up to 200; every fetched row is a join row whose function has the hash |
| `RangeAggregation.UnknownHashFetchesNothing` | birdseye/server.py:97-99 | a hash that no stored function has fetches no rows |
| `RangeAggregation.FetchedOwners` | birdseye/server.py:97-102 | every fetched call's owner is a stored function whose body hash is the requested hash |
| `RangeAggregation.DistinctBlobs` | birdseye/server.py:104 | `{row.data for row in query}` holds exactly the data blobs of the rows' functions |
| `RangeAggregation.GroupSpansMembers` | birdseye/server.py:108-110 | a pair is collected from a group list exactly when some node of some group is that pair |
| `RangeAggregation.BlobSpansMembers` | birdseye/server.py:107-110 | a pair is collected from a decoded blob exactly when it is one of the blob's node pairs |
| `RangeAggregation.BlobSetSpansAdd` | birdseye/server.py:106-110 | visiting one more blob adds exactly that blob's pairs, whatever was visited before |
| `RangeAggregation.RowSpansOverDistinctBlobs` | birdseye/server.py:104-110 | unioning over the set of distinct blobs gives the same pairs as unioning row by row over every fetched row |
| `RangeAggregation.RowSpansIgnoreOrderAndRepeats` | birdseye/server.py:104-110 | two row lists with the same distinct blobs give the same ranges, whatever their order and however many rows share a blob |
| `RangeAggregation.RowSpansMembers` | birdseye/server.py:104-112 | a pair is in the ranges exactly when it is the pair of some node of some group of some fetched row's decoded data |
| `RangeAggregation.AddGroupSpans` | birdseye/server.py:108-110 | the two inner loops add to the set exactly the pairs of the blob's groups |
| `RangeAggregation.UnionBlobSpans` | birdseye/server.py:105-110 | the outer loop fails with MalformedData exactly when some distinct blob is malformed; otherwise it returns the union of the blobs' pairs |
| `RangeAggregation.ListSpans` | birdseye/server.py:112 | listing the set gives each of its pairs exactly once and nothing else |
| `RangeAggregation.CallsByBodyHash` | birdseye/server.py:95-114 | fails with MalformedData exactly when a fetched row's blob is malformed; otherwise returns one call per fetched row, in fetch order, each owned by a stored function with the hash; the ranges have no duplicates and hold exactly the pairs of the fetched rows' data; a hash no stored function has gives empty calls and empty ranges |

## Left out

- Flask application setup, the `file` URL converter, route decorators, `render_template` and `Humanize` are presentation only (birdseye/server.py:20-28, 35-45, 63-65, 72-74).
- `index` is not modelled. It calls `all_file_paths` and `short_path` in `birdseye/utils`, which is not part of this model. The `is_ipython`, `full_path` and `short_path` arguments of `file_view` are left out for the same reason.
- `kill` and `main` are left out. They are the Werkzeug shutdown hook, command-line port parsing and server start: process I/O.
- The debug `print` in `func_view` (birdseye/server.py:57) is output only.
- SQLAlchemy sessions and the `basic_columns` / `basic_dict` / `withattrs` projections are left out. The model returns whole `Call` and `Function` records. The columns of those projections are defined in `birdseye/db.py`, which is not part of this model.
- JSON is not modelled. `DecentJSONEncoder` is not modelled. Data blobs are taken as already decoded: `Blob.Malformed` stands for every decoding or key-lookup failure of `json.loads(...)['node_ranges']`, `group['nodes']`, `node['start']` and `node['end']`. `api_call_view` also decodes the call's and the function's `parsed_data` (birdseye/server.py:91-92); that step belongs to the encoding and is not modelled.
- Call data is an opaque string. No query reads it.
- Queries.CallWithOwner: a call whose owning function row is missing gives `Err(OwnerMissing)`. The source passes `None` to the template in `call_view` and fails on `func.parsed_data` in `api_call_view`. The lemmas that speak of a complete store assume what `Records.Valid` states: every call's function row exists, because function rows are written before their calls and never deleted.
- Queries.BodyHashesPresent: SQL `DISTINCT` promises no order. The model lists the hashes in the order of their first stored function. The proved contract says nothing about order.
- Queries.FuncView: SQL promises no order among calls with equal start times. The model keeps them in join order, and the contract promises only a non-increasing start time.
- RangeAggregation.Fetched: SQL promises no order for the join rows without `order_by`. The model fixes call order.
- RangeAggregation.ListSpans: Python's set iteration order is left open. The model picks elements with `:|`, so the listing order is unspecified.
- Concurrent writers and transactions are left out. The handlers only read, and the code has no concurrency of its own.
