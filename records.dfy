/**
 * The trace store as the server's queries see it: `Function` rows (one per
 * recorded version of a traced function definition) and `Call` rows (one per
 * traced invocation), held in store order, and the inner join of calls to
 * their owning functions.
 *
 * The JSON blobs of the database are taken as already decoded: a function's
 * data blob either decodes to an object whose `node_ranges` hold groups of
 * `{start, end}` nodes, or it does not (`Malformed`).
 */
module Records {

  /** One evaluated expression: a (start, end) offset pair over the function's source. */
  datatype Span = Span(start: int, end: int)

  /** A range group: the nodes recorded together by one instrumentation pass. */
  datatype Group = Group(nodes: seq<Span>)

  /** The part of a function's data blob that the range aggregation reads. */
  datatype Metadata = Metadata(nodeRanges: seq<Group>)

  /** A function's data blob after decoding; `Malformed` stands for any blob on
      which decoding or the `node_ranges` / `nodes` / `start` / `end` lookups fail. */
  datatype Blob = Parsed(meta: Metadata) | Malformed(text: string)

  datatype Function = Function(id: int, file: string, name: string, bodyHash: string, data: Blob)

  /** A call; its captured-values blob is opaque to the queries. */
  datatype Call = Call(id: string, functionId: int, startTime: int, data: string)

  datatype Store = Store(functions: seq<Function>, calls: seq<Call>)

  /** One row of the join of a call with its owning function. */
  datatype Row = Row(call: Call, owner: Function)

  datatype Option<T> = None | Some(value: T)

  /** The ways a query fails: SQLAlchemy's `.one()` finding no row or several,
      indexing `[0]` of an empty function query, an undecodable blob, and a
      call whose owning function row is absent. */
  datatype Failure = NoResultFound | MultipleResultsFound | NoSuchFunction | MalformedData | OwnerMissing

  datatype Result<T> = Ok(value: T) | Err(failure: Failure)

  /** The row limit the server puts on its call queries (`[:200]`). */
  const CallLimit: nat := 200

  /** The first `CallLimit` elements of a query result, as a slice `[:200]` gives them. */
  function Limit<T>(s: seq<T>): (r: seq<T>)
    ensures |r| <= CallLimit
    ensures |r| == if |s| <= CallLimit then |s| else CallLimit
    ensures r <= s
  {
    if |s| <= CallLimit then s else s[..CallLimit]
  }

  /** The elements of `s` that satisfy `p`, in their order in `s` (a `filter` clause). */
  function Filter<T(!new)>(s: seq<T>, p: T -> bool): (r: seq<T>)
    ensures forall x :: x in r <==> x in s && p(x)
    ensures multiset(r) <= multiset(s)
    ensures |r| == 0 <==> forall i :: 0 <= i < |s| ==> !p(s[i])
  {
    if s == [] then []
    else
      assert s == [s[0]] + s[1..];
      if p(s[0]) then [s[0]] + Filter(s[1..], p)
      else Filter(s[1..], p)
  }

  /** The condition `Function.id == id`. */
  function FunctionIdIs(id: int): Function -> bool
  {
    (f: Function) => f.id == id
  }

  /** The condition `Call.id == id`. */
  function CallIdIs(id: string): Call -> bool
  {
    (c: Call) => c.id == id
  }

  /** Exactly one position of `s`, namely `i`, satisfies `p`. */
  ghost predicate UniqueAt<T(!new)>(s: seq<T>, p: T -> bool, i: int)
  {
    0 <= i < |s| && p(s[i]) && forall j :: 0 <= j < |s| && p(s[j]) ==> j == i
  }

  /** When exactly one position satisfies the condition, the filter keeps
      exactly the element at that position. */
  lemma {:induction false} FilterUnique<T(!new)>(s: seq<T>, p: T -> bool, i: int)
    requires UniqueAt(s, p, i)
    ensures Filter(s, p) == [s[i]]
  {
    if i == 0 {
      assert forall j :: 0 <= j < |s[1..]| ==> !p(s[1..][j]) by {
        forall j | 0 <= j < |s[1..]| ensures !p(s[1..][j]) {
          assert s[1..][j] == s[j + 1];
        }
      }
    } else {
      assert !p(s[0]);
      assert UniqueAt(s[1..], p, i - 1) by {
        forall j | 0 <= j < |s[1..]| && p(s[1..][j]) ensures j == i - 1 {
          assert s[1..][j] == s[j + 1];
        }
      }
      FilterUnique(s[1..], p, i - 1);
    }
  }

  /** When the filter keeps exactly one element, exactly one position satisfies
      the condition. */
  lemma {:induction false} FilterSingleUnique<T(!new)>(s: seq<T>, p: T -> bool)
    requires |Filter(s, p)| == 1
    ensures exists i :: UniqueAt(s, p, i)
  {
    if p(s[0]) {
      assert |Filter(s[1..], p)| == 0;
      assert forall j :: 0 < j < |s| ==> s[j] == s[1..][j - 1];
      assert UniqueAt(s, p, 0);
    } else {
      FilterSingleUnique(s[1..], p);
      var k :| UniqueAt(s[1..], p, k);
      assert UniqueAt(s, p, k + 1) by {
        forall j | 0 <= j < |s| && p(s[j]) ensures j == k + 1 {
          assert j != 0;
          assert s[1..][j - 1] == s[j];
        }
      }
    }
  }

  /** When the filter keeps more than one element, two positions satisfy the
      condition. */
  lemma {:induction false} FilterMany<T(!new)>(s: seq<T>, p: T -> bool)
    requires |Filter(s, p)| > 1
    ensures exists i, j :: 0 <= i < j < |s| && p(s[i]) && p(s[j])
  {
    if p(s[0]) {
      assert |Filter(s[1..], p)| != 0;
      var j :| 0 <= j < |s[1..]| && p(s[1..][j]);
      assert s[1..][j] == s[j + 1];
    } else {
      FilterMany(s[1..], p);
      var i, j :| 0 <= i < j < |s[1..]| && p(s[1..][i]) && p(s[1..][j]);
      assert s[1..][i] == s[i + 1] && s[1..][j] == s[j + 1];
    }
  }

  /** How many elements the filter keeps decides how many positions satisfy the
      condition: none, exactly one (and then the filter keeps that element), or
      at least two. */
  lemma FilterCases<T(!new)>(s: seq<T>, p: T -> bool)
    ensures |Filter(s, p)| > 1 <==> exists i, j :: 0 <= i < j < |s| && p(s[i]) && p(s[j])
    ensures |Filter(s, p)| == 1 <==> exists i :: UniqueAt(s, p, i)
    ensures forall i :: UniqueAt(s, p, i) ==> Filter(s, p) == [s[i]]
  {
    forall i | UniqueAt(s, p, i) ensures Filter(s, p) == [s[i]] {
      FilterUnique(s, p, i);
    }
    if |Filter(s, p)| > 1 {
      FilterMany(s, p);
    } else if |Filter(s, p)| == 1 {
      FilterSingleUnique(s, p);
    }
  }

  /** Filtering distributes over concatenation: the kept elements of the first
      part come first, in order, so the filter keeps the order of `s`. */
  lemma {:induction false} FilterAppend<T(!new)>(a: seq<T>, b: seq<T>, p: T -> bool)
    ensures Filter(a + b, p) == Filter(a, p) + Filter(b, p)
  {
    if a == [] {
      assert a + b == b;
    } else {
      assert (a + b)[0] == a[0] && (a + b)[1..] == a[1..] + b;
      FilterAppend(a[1..], b, p);
    }
  }

  /** The filter keeps every occurrence of a satisfying element and none of the others. */
  lemma {:induction false} FilterCounts<T(!new)>(s: seq<T>, p: T -> bool)
    ensures forall x :: multiset(Filter(s, p))[x] == if p(x) then multiset(s)[x] else 0
  {
    if s != [] {
      FilterCounts(s[1..], p);
      assert s == [s[0]] + s[1..];
    }
  }

  /** The rows the join contributes for one call: the call with each stored
      function whose id is the call's function id, in store order. */
  function RowsOfCall(functions: seq<Function>, c: Call): (rows: seq<Row>)
    ensures forall row :: row in rows <==> row.call == c && row.owner in functions && row.owner.id == c.functionId
    ensures |rows| == |Filter(functions, FunctionIdIs(c.functionId))|
  {
    var owners := Filter(functions, FunctionIdIs(c.functionId));
    var rows := seq(|owners|, i requires 0 <= i < |owners| => Row(c, owners[i]));
    assert forall row :: row in rows ==> row.owner in owners;
    assert forall f :: f in owners ==> Row(c, f) == rows[IndexOf(owners, f)];
    rows
  }

  /** A position at which `x` occurs in `s`. */
  function IndexOf<T(==)>(s: seq<T>, x: T): (i: nat)
    requires x in s
    ensures i < |s| && s[i] == x
  {
    if s[0] == x then 0 else 1 + IndexOf(s[1..], x)
  }

  function JoinCalls(functions: seq<Function>, calls: seq<Call>): (rows: seq<Row>)
    ensures forall row :: row in rows <==> row.call in calls && row.owner in functions && row.owner.id == row.call.functionId
  {
    if calls == [] then [] else RowsOfCall(functions, calls[0]) + JoinCalls(functions, calls[1..])
  }

  /** `query(Call ..., Function ...).join(Function)`: the inner join of calls with
      their owning functions, calls in store order. */
  function Join(store: Store): (rows: seq<Row>)
    ensures forall row :: row in rows <==> row.call in store.calls && row.owner in store.functions && row.owner.id == row.call.functionId
  {
    JoinCalls(store.functions, store.calls)
  }

  /** The database's own constraints: `Function.id` and `Call.id` are primary keys,
      and `Call.function_id` is a foreign key into the function table. */
  ghost predicate Valid(store: Store)
  {
    && (forall i, j :: 0 <= i < j < |store.functions| ==> store.functions[i].id != store.functions[j].id)
    && (forall i, j :: 0 <= i < j < |store.calls| ==> store.calls[i].id != store.calls[j].id)
    && (forall c :: c in store.calls ==> exists f :: f in store.functions && f.id == c.functionId)
  }

  lemma {:induction false} JoinCallsOnePerCall(functions: seq<Function>, calls: seq<Call>)
    requires forall i, j :: 0 <= i < j < |functions| ==> functions[i].id != functions[j].id
    requires forall c :: c in calls ==> exists f :: f in functions && f.id == c.functionId
    ensures |JoinCalls(functions, calls)| == |calls|
    ensures forall i :: 0 <= i < |calls| ==> JoinCalls(functions, calls)[i].call == calls[i]
  {
    if calls != [] {
      var c := calls[0];
      var p := FunctionIdIs(c.functionId);
      var f :| f in functions && f.id == c.functionId;
      var k := IndexOf(functions, f);
      assert UniqueAt(functions, p, k) by {
        forall j | 0 <= j < |functions| && p(functions[j]) ensures j == k {
        }
      }
      FilterUnique(functions, p, k);
      var head := RowsOfCall(functions, c);
      assert |head| == 1;
      assert head[0] in head;
      JoinCallsOnePerCall(functions, calls[1..]);
      var rest := JoinCalls(functions, calls[1..]);
      assert JoinCalls(functions, calls) == head + rest;
      forall i | 0 <= i < |calls| ensures JoinCalls(functions, calls)[i].call == calls[i] {
        if i > 0 {
          assert JoinCalls(functions, calls)[i] == rest[i - 1];
        }
      }
    }
  }

  /** In a store that keeps its keys, the join has exactly one row per call, in
      the order of the calls. */
  lemma JoinOnePerCall(store: Store)
    requires Valid(store)
    ensures |Join(store)| == |store.calls|
    ensures forall i :: 0 <= i < |store.calls| ==> Join(store)[i].call == store.calls[i]
  {
    JoinCallsOnePerCall(store.functions, store.calls);
  }
}
