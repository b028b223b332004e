/**
 * The read-only queries behind the server's handlers: the function names of a
 * file (`file_view`), the most recent calls of a function (`func_view`), one
 * call with its owning function (`call_view`, `api_call_view`) and the body
 * hashes already stored (`body_hashes_present`).
 */
module Queries {
  import opened Records
  import opened LexOrder

  // ---------------------------------------------------------------------------
  // file_view: sorted(query(Function.name).filter_by(file=path).distinct())

  /** The names of the functions recorded for file `path`, each once, in Python's
      string order. */
  function FunctionNamesInFile(functions: seq<Function>, path: string): (r: seq<string>)
    ensures StrictlySorted(r)
    ensures forall n :: n in r <==> exists f :: f in functions && f.file == path && f.name == n
  {
    if functions == [] then []
    else
      var prefix := functions[..|functions| - 1];
      var last := functions[|functions| - 1];
      var rest := FunctionNamesInFile(prefix, path);
      assert functions == prefix + [last];
      if last.file == path then InsertSorted(last.name, rest) else rest
  }

  /** The listing is the one strictly sorted sequence of those names, so it does
      not depend on the order in which the store holds the functions. */
  lemma FunctionNamesInFileCanonical(functions: seq<Function>, path: string, names: seq<string>)
    requires StrictlySorted(names)
    requires forall n :: n in names <==> exists f :: f in functions && f.file == path && f.name == n
    ensures FunctionNamesInFile(functions, path) == names
  {
    StrictlySortedUnique(FunctionNamesInFile(functions, path), names);
  }

  // ---------------------------------------------------------------------------
  // func_view: the 200 most recent calls of (file, name), or the function alone

  /** Most recent first. */
  ghost predicate NonIncreasing(rows: seq<Row>)
  {
    forall i, j :: 0 <= i < j < |rows| ==> rows[j].call.startTime <= rows[i].call.startTime
  }

  /** A row no older than every row of a most-recent-first sequence can head it. */
  lemma NonIncreasingCons(h: Row, t: seq<Row>)
    requires NonIncreasing(t)
    requires forall y :: y in t ==> y.call.startTime <= h.call.startTime
    ensures NonIncreasing([h] + t)
  {
  }

  lemma NonIncreasingTail(s: seq<Row>)
    requires NonIncreasing(s) && s != []
    ensures NonIncreasing(s[1..])
  {
  }

  /** Every row of a most-recent-first sequence is no more recent than its head. */
  lemma HeadIsNewest(s: seq<Row>, y: Row)
    requires NonIncreasing(s) && y in s
    ensures y.call.startTime <= s[0].call.startTime
  {
  }

  /** Places `x` before the first row that is not more recent than it. */
  function InsertByStartDesc(x: Row, s: seq<Row>): (r: seq<Row>)
    requires NonIncreasing(s)
    ensures NonIncreasing(r)
    ensures multiset(r) == multiset(s) + multiset{x}
  {
    if s == [] then [x]
    else if s[0].call.startTime <= x.call.startTime then
      assert forall y :: y in s ==> y.call.startTime <= x.call.startTime by {
        forall y | y in s ensures y.call.startTime <= x.call.startTime {
          HeadIsNewest(s, y);
        }
      }
      NonIncreasingCons(x, s);
      [x] + s
    else
      NonIncreasingTail(s);
      var rest := InsertByStartDesc(x, s[1..]);
      assert s == [s[0]] + s[1..];
      assert forall y :: y in rest ==> y.call.startTime <= s[0].call.startTime by {
        forall y | y in rest ensures y.call.startTime <= s[0].call.startTime {
          assert y in multiset(rest);
          if y != x {
            assert y in s;
            HeadIsNewest(s, y);
          }
        }
      }
      NonIncreasingCons(s[0], rest);
      [s[0]] + rest
  }

  /** `order_by(Call.start_time.desc())`; rows with equal start times keep their
      relative order. */
  function SortByStartDesc(s: seq<Row>): (r: seq<Row>)
    ensures NonIncreasing(r)
    ensures multiset(r) == multiset(s)
  {
    if s == [] then []
    else
      assert s == [s[0]] + s[1..];
      InsertByStartDesc(s[0], SortByStartDesc(s[1..]))
  }

  /** The condition `filter_by(file=path, name=name)` on the joined function. */
  function OwnerIs(path: string, name: string): Row -> bool
  {
    (row: Row) => row.owner.file == path && row.owner.name == name
  }

  /** The condition `filter_by(file=path, name=name)` on a function row. */
  function FunctionIs(path: string, name: string): Function -> bool
  {
    (f: Function) => f.file == path && f.name == name
  }

  /** Every call of the function identified by (path, name), in join order. */
  function CallsOf(store: Store, path: string, name: string): (rows: seq<Row>)
    ensures forall row :: row in rows <==> row in Join(store) && row.owner.file == path && row.owner.name == name
  {
    Filter(Join(store), OwnerIs(path, name))
  }

  /** What the function page shows: a function and, when it has been called, its
      most recent calls (`calls` is `None` for a never-called function). */
  datatype FunctionView = FunctionView(func: Function, calls: Option<seq<Row>>)

  /** A prefix of a most-recent-first sequence is most recent first and takes
      its elements from the sequence. */
  lemma PrefixOfSorted(sorted: seq<Row>, k: nat)
    requires NonIncreasing(sorted) && k <= |sorted|
    ensures NonIncreasing(sorted[..k])
    ensures multiset(sorted[..k]) <= multiset(sorted)
  {
    assert sorted == sorted[..k] + sorted[k..];
    assert multiset(sorted) == multiset(sorted[..k]) + multiset(sorted[k..]);
  }

  /** `order_by(Call.start_time.desc())[:200]`: a page of as many of the given
      rows as there are, up to `CallLimit`, most recent first. */
  function MostRecentFirst(all: seq<Row>): (rows: seq<Row>)
    ensures |rows| == if |all| <= CallLimit then |all| else CallLimit
    ensures NonIncreasing(rows)
    ensures multiset(rows) <= multiset(all)
    ensures forall row :: row in rows ==> row in all
  {
    var sorted := SortByStartDesc(all);
    assert |sorted| == |all| by {
      assert |multiset(sorted)| == |multiset(all)|;
    }
    var rows := Limit(sorted);
    PrefixOfSorted(sorted, |rows|);
    assert rows == sorted[..|rows|];
    assert forall row :: row in rows ==> row in all by {
      forall row | row in rows ensures row in all {
        assert row in multiset(rows);
        assert row in multiset(all);
      }
    }
    rows
  }

  /** Every element a most-recent-first sequence has beyond its first `k` is no
      more recent than any of the first `k`. */
  lemma PrefixIsMostRecent(sorted: seq<Row>, k: nat)
    requires NonIncreasing(sorted) && k <= |sorted|
    ensures forall x: Row :: x in multiset(sorted) - multiset(sorted[..k]) ==>
      forall i :: 0 <= i < k ==> x.call.startTime <= sorted[i].call.startTime
  {
    assert sorted == sorted[..k] + sorted[k..];
    assert multiset(sorted) == multiset(sorted[..k]) + multiset(sorted[k..]);
    forall x: Row | x in multiset(sorted) - multiset(sorted[..k])
      ensures forall i :: 0 <= i < k ==> x.call.startTime <= sorted[i].call.startTime
    {
      assert x in sorted[k..];
      var j :| 0 <= j < |sorted[k..]| && sorted[k..][j] == x;
      assert sorted[k + j] == x;
    }
  }

  /** The page keeps the most recent rows: every row left out is no more recent
      than any row kept. */
  lemma MostRecentFirstKeepsMostRecent(all: seq<Row>)
    ensures forall x: Row :: x in multiset(all) - multiset(MostRecentFirst(all)) ==>
      forall i :: 0 <= i < |MostRecentFirst(all)| ==> x.call.startTime <= MostRecentFirst(all)[i].call.startTime
  {
    var rows := MostRecentFirst(all);
    var sorted := SortByStartDesc(all);
    assert rows == sorted[..|rows|];
    PrefixIsMostRecent(sorted, |rows|);
  }

  function FuncView(store: Store, path: string, name: string): (r: Result<FunctionView>)
    ensures r.Err? <==> forall f :: f in store.functions ==> !(f.file == path && f.name == name)
    ensures r.Err? ==> r.failure == NoSuchFunction
    ensures r.Ok? ==> r.value.func in store.functions && r.value.func.file == path && r.value.func.name == name
    ensures r.Ok? ==> (r.value.calls.None? <==> forall row :: row in Join(store) ==> !(row.owner.file == path && row.owner.name == name))
    ensures r.Ok? && r.value.calls.Some? ==>
      var calls := r.value.calls.value;
      && 0 < |calls| <= CallLimit
      && NonIncreasing(calls)
      && r.value.func == calls[0].owner
      && forall row :: row in calls ==> row in Join(store) && row.owner.file == path && row.owner.name == name
  {
    var rows := MostRecentFirst(CallsOf(store, path, name));
    if rows != [] then
      assert rows[0] in CallsOf(store, path, name);
      Ok(FunctionView(rows[0].owner, Some(rows)))
    else
      assert forall row :: row in Join(store) ==> !OwnerIs(path, name)(row);
      var funcs := Filter(store.functions, FunctionIs(path, name));
      if funcs == [] then
        assert forall f :: f in store.functions ==> !FunctionIs(path, name)(f);
        Err(NoSuchFunction)
      else
        assert funcs[0] in funcs;
        Ok(FunctionView(funcs[0], None))
  }

  /** The calls shown are the function's most recent calls: as many as it has,
      up to the limit, and every call left out is no more recent than any call
      shown. */
  lemma FuncViewKeepsMostRecent(store: Store, path: string, name: string)
    requires FuncView(store, path, name).Ok? && FuncView(store, path, name).value.calls.Some?
    ensures
      var calls := FuncView(store, path, name).value.calls.value;
      var all := CallsOf(store, path, name);
      && |calls| == (if |all| <= CallLimit then |all| else CallLimit)
      && multiset(calls) <= multiset(all)
      && forall x: Row :: x in multiset(all) - multiset(calls) ==>
           forall i :: 0 <= i < |calls| ==> x.call.startTime <= calls[i].call.startTime
  {
    MostRecentFirstKeepsMostRecent(CallsOf(store, path, name));
  }

  /** More than `CallLimit` calls: exactly `CallLimit` are shown, most recent first. */
  lemma FuncViewFullPage(store: Store, path: string, name: string)
    requires |CallsOf(store, path, name)| > CallLimit
    ensures FuncView(store, path, name).Ok?
    ensures FuncView(store, path, name).value.calls.Some?
    ensures |FuncView(store, path, name).value.calls.value| == CallLimit
  {
  }

  // ---------------------------------------------------------------------------
  // call_view / api_call_view: query(Call).filter_by(id=call_id).one(), call.function

  /** `FilterCases` for the condition `Call.id == callId`. */
  lemma CallIdCases(calls: seq<Call>, callId: string)
    ensures |Filter(calls, CallIdIs(callId))| == 0 <==> forall c :: c in calls ==> c.id != callId
    ensures |Filter(calls, CallIdIs(callId))| > 1 <==>
      exists i, j :: 0 <= i < j < |calls| && calls[i].id == callId && calls[j].id == callId
    ensures |Filter(calls, CallIdIs(callId))| == 1 <==> exists i :: UniqueAt(calls, CallIdIs(callId), i)
    ensures forall i :: UniqueAt(calls, CallIdIs(callId), i) ==> Filter(calls, CallIdIs(callId)) == [calls[i]]
  {
    FilterCases(calls, CallIdIs(callId));
  }

  /** The call with id `callId` joined with its owning function. `.one()` fails
      with NoResultFound when no stored call has the id and with
      MultipleResultsFound when several do; `call.function` has no row to give
      when the call's function is not stored (OwnerMissing). */
  function CallWithOwner(store: Store, callId: string): (r: Result<Row>)
    ensures r.Ok? ==> r.value in Join(store) && r.value.call.id == callId
    ensures r.Ok? ==> forall c :: c in store.calls && c.id == callId ==> c == r.value.call
    ensures r.Err? ==> r.failure == NoResultFound || r.failure == MultipleResultsFound || r.failure == OwnerMissing
    ensures r == Err(NoResultFound) <==> forall c :: c in store.calls ==> c.id != callId
    ensures r == Err(MultipleResultsFound) <==>
      exists i, j :: 0 <= i < j < |store.calls| && store.calls[i].id == callId && store.calls[j].id == callId
    ensures r == Err(OwnerMissing) <==>
      exists i :: UniqueAt(store.calls, CallIdIs(callId), i) && forall f :: f in store.functions ==> f.id != store.calls[i].functionId
  {
    var matches := Filter(store.calls, CallIdIs(callId));
    CallIdCases(store.calls, callId);
    if |matches| == 0 then
      Err(NoResultFound)
    else if |matches| > 1 then
      Err(MultipleResultsFound)
    else
      var c := matches[0];
      assert c in matches;
      var owners := Filter(store.functions, FunctionIdIs(c.functionId));
      if owners == [] then
        assert forall f :: f in store.functions ==> f.id != c.functionId;
        Err(OwnerMissing)
      else
        assert owners[0] in owners;
        Ok(Row(c, owners[0]))
  }

  /** `.one()` succeeds only when exactly one stored call has the id, and returns
      that call; in a store that keeps its keys it succeeds whenever the id is
      stored. */
  lemma CallWithOwnerOnlyForUniqueId(store: Store, callId: string)
    ensures CallWithOwner(store, callId).Ok? ==>
      exists i :: UniqueAt(store.calls, CallIdIs(callId), i) && CallWithOwner(store, callId).value.call == store.calls[i]
    ensures Valid(store) ==>
      (CallWithOwner(store, callId).Ok? <==> exists c :: c in store.calls && c.id == callId)
  {
  }

  /** The function returned with a call is the call's owner: in a store that keeps
      its keys, the one stored function whose id is the call's function id. */
  lemma CallWithOwnerIsOwner(store: Store, callId: string)
    requires Valid(store) && CallWithOwner(store, callId).Ok?
    ensures
      var row := CallWithOwner(store, callId).value;
      forall f :: f in store.functions && f.id == row.call.functionId ==> f == row.owner
  {
  }

  // ---------------------------------------------------------------------------
  // body_hashes_present: query(Function.body_hash).filter(body_hash.in_(hashes)).distinct()

  /** The stored body hashes that occur in `hashes`, each once, in the order of
      their first stored function. */
  function BodyHashesPresent(functions: seq<Function>, hashes: seq<string>): (r: seq<string>)
    ensures forall i, j :: 0 <= i < j < |r| ==> r[i] != r[j]
    ensures forall h :: h in r <==> h in hashes && exists f :: f in functions && f.bodyHash == h
    ensures hashes == [] ==> r == []
  {
    if functions == [] then []
    else
      var prefix := functions[..|functions| - 1];
      var h := functions[|functions| - 1].bodyHash;
      var rest := BodyHashesPresent(prefix, hashes);
      assert functions == prefix + [functions[|functions| - 1]];
      if h in hashes && h !in rest then rest + [h] else rest
  }

  /** The answer depends on the input only through which stored hashes it names. */
  lemma {:induction false} BodyHashesPresentByMembership(functions: seq<Function>, h1: seq<string>, h2: seq<string>)
    requires forall f :: f in functions ==> (f.bodyHash in h1 <==> f.bodyHash in h2)
    ensures BodyHashesPresent(functions, h1) == BodyHashesPresent(functions, h2)
  {
    if functions != [] {
      var prefix := functions[..|functions| - 1];
      assert forall f :: f in prefix ==> f in functions;
      BodyHashesPresentByMembership(prefix, h1, h2);
      assert functions[|functions| - 1] in functions;
    }
  }

  /** Order and repetition in the request do not matter. */
  lemma BodyHashesPresentIgnoresOrder(functions: seq<Function>, h1: seq<string>, h2: seq<string>)
    requires forall h :: h in h1 <==> h in h2
    ensures BodyHashesPresent(functions, h1) == BodyHashesPresent(functions, h2)
  {
  }

  /** Asking again with the answer gives the same answer. */
  lemma BodyHashesPresentIdempotent(functions: seq<Function>, hashes: seq<string>)
    ensures BodyHashesPresent(functions, BodyHashesPresent(functions, hashes)) == BodyHashesPresent(functions, hashes)
  {
    BodyHashesPresentByMembership(functions, BodyHashesPresent(functions, hashes), hashes);
  }
}
