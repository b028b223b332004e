/**
 * `calls_by_body_hash`: the calls of every recorded version of a function body
 * with a given content hash, and the union of the source ranges evaluated in
 * any of those versions, so that a viewer can highlight everything that was
 * ever executed.
 */
module RangeAggregation {
  import opened Records

  /** The condition `filter_by(body_hash=hash)` on the joined function. */
  function BodyHashIs(hash: string): Row -> bool
  {
    (row: Row) => row.owner.bodyHash == hash
  }

  /** The rows the handler fetches: the first `CallLimit` rows of the join whose
      function has the hash, in join order (the query has no `order_by`). */
  function Fetched(store: Store, hash: string): (rows: seq<Row>)
    ensures |rows| <= CallLimit
  {
    Limit(Filter(Join(store), BodyHashIs(hash)))
  }

  /** The fetch takes as many matching rows as there are, up to the limit, keeps
      them in join order, and takes only rows of functions with the hash. */
  lemma FetchedIsFirstMatches(store: Store, hash: string)
    ensures
      var matching := Filter(Join(store), BodyHashIs(hash));
      && Fetched(store, hash) <= matching
      && |Fetched(store, hash)| == (if |matching| <= CallLimit then |matching| else CallLimit)
    ensures forall row :: row in Fetched(store, hash) ==> row in Join(store) && row.owner.bodyHash == hash
  {
  }

  /** A hash that no stored function has fetches nothing. */
  lemma UnknownHashFetchesNothing(store: Store, hash: string)
    requires forall f :: f in store.functions ==> f.bodyHash != hash
    ensures Fetched(store, hash) == []
  {
  }

  /** Every fetched call belongs to a stored function with the hash. */
  lemma FetchedOwners(store: Store, hash: string)
    ensures forall i :: 0 <= i < |Fetched(store, hash)| ==>
      exists f :: f in store.functions && f.id == Fetched(store, hash)[i].call.functionId && f.bodyHash == hash
  {
    var matching := Filter(Join(store), BodyHashIs(hash));
    var rows := Fetched(store, hash);
    forall i | 0 <= i < |rows|
      ensures exists f :: f in store.functions && f.id == rows[i].call.functionId && f.bodyHash == hash
    {
      assert rows[i] == matching[i];
      assert matching[i] in matching;
    }
  }

  // ---------------------------------------------------------------------------
  // The specification of `ranges`

  /** The (start, end) pairs of a sequence of nodes. */
  function NodeSpans(nodes: seq<Span>): set<Span>
  {
    set n | n in nodes
  }

  /** The pairs of every node of every group. */
  function GroupSpans(groups: seq<Group>): set<Span>
  {
    if groups == [] then {}
    else GroupSpans(groups[..|groups| - 1]) + NodeSpans(groups[|groups| - 1].nodes)
  }

  /** The pairs a decoded data blob contributes; a malformed one contributes none
      (the handler fails on it instead, see `CallsByBodyHash`). */
  function BlobSpans(b: Blob): set<Span>
  {
    if b.Parsed? then GroupSpans(b.meta.nodeRanges) else {}
  }

  /** The union, row by row, of the pairs in each fetched row's function data. */
  function RowSpans(rows: seq<Row>): set<Span>
  {
    if rows == [] then {}
    else RowSpans(rows[..|rows| - 1]) + BlobSpans(rows[|rows| - 1].owner.data)
  }

  /** The union over a set of distinct data blobs. */
  function BlobSetSpans(blobs: set<Blob>): set<Span>
  {
    set b, s | b in blobs && s in BlobSpans(b) :: s
  }

  /** The distinct data blobs of some rows (`{row.data for row in query}`). */
  function DistinctBlobs(rows: seq<Row>): (blobs: set<Blob>)
    ensures forall b :: b in blobs <==> exists row :: row in rows && row.owner.data == b
  {
    set row | row in rows :: row.owner.data
  }

  /** `s` is the (start, end) pair of some node of some group of the decoded blob `b`. */
  ghost predicate NodeOf(b: Blob, s: Span)
  {
    b.Parsed? && exists g, k :: 0 <= g < |b.meta.nodeRanges| && 0 <= k < |b.meta.nodeRanges[g].nodes| && b.meta.nodeRanges[g].nodes[k] == s
  }

  /** A pair belongs to a group sequence exactly when some node of some group is
      that pair. */
  lemma {:induction false} GroupSpansMembers(groups: seq<Group>, s: Span)
    ensures s in GroupSpans(groups) <==> NodeOf(Parsed(Metadata(groups)), s)
  {
    if groups != [] {
      var prefix := groups[..|groups| - 1];
      GroupSpansMembers(prefix, s);
      if s in GroupSpans(groups) {
        if s in GroupSpans(prefix) {
          var g, k :| 0 <= g < |prefix| && 0 <= k < |prefix[g].nodes| && prefix[g].nodes[k] == s;
          assert groups[g] == prefix[g];
        } else {
          var last := groups[|groups| - 1];
          var k :| 0 <= k < |last.nodes| && last.nodes[k] == s;
          assert groups[|groups| - 1].nodes[k] == s;
        }
      }
      if NodeOf(Parsed(Metadata(groups)), s) {
        var g, k :| 0 <= g < |groups| && 0 <= k < |groups[g].nodes| && groups[g].nodes[k] == s;
        if g < |groups| - 1 {
          assert prefix[g] == groups[g];
        } else {
          assert s in NodeSpans(groups[g].nodes);
        }
      }
    }
  }

  /** The pairs of a blob are exactly its nodes' pairs. */
  lemma BlobSpansMembers(b: Blob, s: Span)
    ensures s in BlobSpans(b) <==> NodeOf(b, s)
  {
    if b.Parsed? {
      GroupSpansMembers(b.meta.nodeRanges, s);
    }
  }

  /** Adding one blob adds exactly that blob's pairs, whichever blobs came before. */
  lemma BlobSetSpansAdd(blobs: set<Blob>, b: Blob)
    ensures BlobSetSpans(blobs + {b}) == BlobSetSpans(blobs) + BlobSpans(b)
  {
  }

  /** Unioning row by row equals unioning over the distinct blobs of the rows. */
  lemma {:induction false} RowSpansOverDistinctBlobs(rows: seq<Row>)
    ensures RowSpans(rows) == BlobSetSpans(DistinctBlobs(rows))
  {
    if rows == [] {
      assert DistinctBlobs(rows) == {};
    } else {
      var prefix := rows[..|rows| - 1];
      var last := rows[|rows| - 1];
      RowSpansOverDistinctBlobs(prefix);
      assert rows == prefix + [last];
      assert DistinctBlobs(rows) == DistinctBlobs(prefix) + {last.owner.data};
      BlobSetSpansAdd(DistinctBlobs(prefix), last.owner.data);
    }
  }

  /** The ranges depend neither on the order of the rows nor on how many rows
      share a blob: rows with the same distinct blobs give the same ranges. */
  lemma RowSpansIgnoreOrderAndRepeats(rows1: seq<Row>, rows2: seq<Row>)
    requires forall x :: x in rows1 ==> exists y :: y in rows2 && y.owner.data == x.owner.data
    requires forall y :: y in rows2 ==> exists x :: x in rows1 && x.owner.data == y.owner.data
    ensures RowSpans(rows1) == RowSpans(rows2)
  {
    RowSpansOverDistinctBlobs(rows1);
    RowSpansOverDistinctBlobs(rows2);
    assert DistinctBlobs(rows1) == DistinctBlobs(rows2);
  }

  /** A pair is in the ranges exactly when it is some node of some group of the
      decoded data of some row. */
  lemma RowSpansMembers(rows: seq<Row>, s: Span)
    ensures s in RowSpans(rows) <==> exists i :: 0 <= i < |rows| && NodeOf(rows[i].owner.data, s)
  {
    RowSpansOverDistinctBlobs(rows);
    if s in RowSpans(rows) {
      var b :| b in DistinctBlobs(rows) && s in BlobSpans(b);
      var row :| row in rows && row.owner.data == b;
      var i :| 0 <= i < |rows| && rows[i] == row;
      BlobSpansMembers(b, s);
    }
    if exists i :: 0 <= i < |rows| && NodeOf(rows[i].owner.data, s) {
      var i :| 0 <= i < |rows| && NodeOf(rows[i].owner.data, s);
      var b := rows[i].owner.data;
      BlobSpansMembers(b, s);
      assert rows[i] in rows;
      assert b in DistinctBlobs(rows);
    }
  }

  // ---------------------------------------------------------------------------
  // The handler

  /** The response: one entry per fetched row, and the distinct ranges. */
  datatype HashView = HashView(calls: seq<Call>, ranges: seq<Span>)

  /** The two inner loops of the handler: adds the (start, end) pair of every
      node of every group of one decoded blob to `ranges`. */
  method AddGroupSpans(ranges: set<Span>, groups: seq<Group>) returns (out: set<Span>)
    ensures out == ranges + GroupSpans(groups)
  {
    out := ranges;
    var i := 0;
    while i < |groups|
      invariant 0 <= i <= |groups|
      invariant out == ranges + GroupSpans(groups[..i])
    {
      var nodes := groups[i].nodes;
      var j := 0;
      while j < |nodes|
        invariant 0 <= j <= |nodes|
        invariant out == ranges + GroupSpans(groups[..i]) + NodeSpans(nodes[..j])
      {
        out := out + {nodes[j]};
        assert nodes[..j + 1] == nodes[..j] + [nodes[j]];
        j := j + 1;
      }
      assert nodes[..j] == nodes;
      assert groups[..i + 1][..i] == groups[..i];
      i := i + 1;
    }
    assert groups[..i] == groups;
  }

  /** The outer loop of the handler: unions the pairs of every distinct blob,
      decoding each as it is visited; the first malformed blob met fails. */
  method UnionBlobSpans(blobs: set<Blob>) returns (r: Result<set<Span>>)
    ensures r.Err? <==> exists b :: b in blobs && b.Malformed?
    ensures r.Err? ==> r.failure == MalformedData
    ensures r.Ok? ==> r.value == BlobSetSpans(blobs)
  {
    var ranges: set<Span> := {};
    var remaining := blobs;
    while remaining != {}
      invariant remaining <= blobs
      invariant forall b :: b in blobs - remaining ==> b.Parsed?
      invariant ranges == BlobSetSpans(blobs - remaining)
      decreases remaining
    {
      var b :| b in remaining;
      if b.Malformed? {
        return Err(MalformedData);
      }
      BlobSetSpansAdd(blobs - remaining, b);
      ranges := AddGroupSpans(ranges, b.meta.nodeRanges);
      assert blobs - (remaining - {b}) == (blobs - remaining) + {b};
      remaining := remaining - {b};
    }
    assert blobs - remaining == blobs;
    return Ok(ranges);
  }

  /** `[dict(start=start, end=end) for start, end in ranges]`: the set listed in
      some order, each pair once. */
  method ListSpans(ranges: set<Span>) returns (listed: seq<Span>)
    ensures forall s :: s in listed <==> s in ranges
    ensures forall i, j :: 0 <= i < j < |listed| ==> listed[i] != listed[j]
    // A corollary of the membership clause, stated for the empty result of an unknown hash.
    ensures ranges == {} ==> listed == []
  {
    listed := [];
    var rest := ranges;
    while rest != {}
      invariant rest <= ranges
      invariant forall s :: s in listed <==> s in ranges - rest
      invariant forall i, j :: 0 <= i < j < |listed| ==> listed[i] != listed[j]
      invariant ranges == {} ==> listed == []
      decreases rest
    {
      var s :| s in rest;
      assert forall i :: 0 <= i < |listed| ==> listed[i] != s by {
        forall i | 0 <= i < |listed| ensures listed[i] != s {
          assert listed[i] in listed;
        }
      }
      listed := listed + [s];
      rest := rest - {s};
    }
  }

  /** The handler: fetches the rows, lists their calls, and unions the ranges of
      the distinct data blobs of the rows. */
  method CallsByBodyHash(store: Store, hash: string) returns (r: Result<HashView>)
    ensures r.Err? <==> exists row :: row in Fetched(store, hash) && row.owner.data.Malformed?
    ensures r.Err? ==> r.failure == MalformedData
    ensures r.Ok? ==>
      && |r.value.calls| == |Fetched(store, hash)|
      && forall i :: 0 <= i < |r.value.calls| ==> r.value.calls[i] == Fetched(store, hash)[i].call
    ensures r.Ok? ==>
      && (forall i, j :: 0 <= i < j < |r.value.ranges| ==> r.value.ranges[i] != r.value.ranges[j])
      && forall s :: s in r.value.ranges <==> s in RowSpans(Fetched(store, hash))
    ensures r.Ok? ==> forall i :: 0 <= i < |r.value.calls| ==>
      exists f :: f in store.functions && f.id == r.value.calls[i].functionId && f.bodyHash == hash
    ensures (forall f :: f in store.functions ==> f.bodyHash != hash) ==> r == Ok(HashView([], []))
  {
    var rows := Fetched(store, hash);
    if forall f :: f in store.functions ==> f.bodyHash != hash {
      UnknownHashFetchesNothing(store, hash);
      assert DistinctBlobs(rows) == {};
    }
    var calls := seq(|rows|, i requires 0 <= i < |rows| => rows[i].call);
    var blobs := DistinctBlobs(rows);
    var ranges := UnionBlobSpans(blobs);
    if ranges.Err? {
      return Err(ranges.failure);
    }
    RowSpansOverDistinctBlobs(rows);
    var listed := ListSpans(ranges.value);
    FetchedOwners(store, hash);
    return Ok(HashView(calls, listed));
  }
}
