/** The bucket planner of `Jira.search`: the `while True` loop that submits one
    page request per stride of `bucket_size`, and stops only after it has
    submitted the first request whose offset reaches `total`. */
module Planning {
  import opened Remote

  /** How many buckets the loop emits: ceil(total / size) + 1 for a positive
      total (the last one starts at or past `total`), and one bucket otherwise,
      whatever the size, since the first offset 0 already reaches `total`. */
  function BucketCount(total: int, size: int): nat
    requires size > 0 || total <= 0
  {
    if total <= 0 then 1 else (total + size - 1) / size + 1
  }

  /** The start offsets of the planned buckets, in submission order. */
  function Offsets(total: int, size: int): seq<int>
    requires size > 0 || total <= 0
  {
    seq(BucketCount(total, size), k => k * size)
  }

  /** The page requests the loop submits, in submission order. */
  function Requests(jql: string, fields: string, expand: string, size: int, total: int): seq<Request>
    requires size > 0 || total <= 0
  {
    var offsets := Offsets(total, size);
    seq(|offsets|, k requires 0 <= k < |offsets| => PageQuery(jql, expand, size, offsets[k], fields))
  }

  lemma MulMonotone(a: int, b: int, c: int)
    requires a <= b && c >= 0
    ensures a * c <= b * c
  {
  }

  /** The loop's exit test, read on the offset of the bucket it has just
      recorded: after `emitted` buckets the current offset `emitted * size`
      reaches `total` exactly when `emitted` completes the plan. */
  lemma {:induction false} ReachesTotal(total: int, size: int, emitted: nat)
    requires size > 0
    ensures emitted * size >= total <==> emitted + 1 >= BucketCount(total, size)
  {
    if total > 0 {
      var q := (total + size - 1) / size;
      var r := (total + size - 1) % size;
      assert total + size - 1 == q * size + r;
      assert q * size >= total;
      assert (q - 1) * size == q * size - size;
      assert (q - 1) * size < total;
      if emitted >= q {
        MulMonotone(q, emitted, size);
      } else {
        MulMonotone(emitted, q - 1, size);
      }
    }
  }

  /** The offsets start at 0 and advance by exactly `size`; every offset but
      the last is below `total`, and the last is at or past it. */
  lemma {:induction false} OffsetsStopAtTotal(total: int, size: int)
    requires size > 0
    ensures var o := Offsets(total, size);
      && |o| >= 1
      && o[0] == 0
      && (forall k :: 0 <= k < |o| - 1 ==> o[k + 1] == o[k] + size)
      && (forall k :: 0 <= k < |o| - 1 ==> o[k] < total)
      && o[|o| - 1] >= total
  {
    var o := Offsets(total, size);
    forall k | 0 <= k < |o| - 1
      ensures o[k + 1] == o[k] + size && o[k] < total
    {
      assert (k + 1) * size == k * size + size;
      ReachesTotal(total, size, k);
    }
    ReachesTotal(total, size, |o| - 1);
  }

  /** With nothing to fetch the plan is the single bucket at offset 0;
      otherwise the trailing bucket overshoots by less than one stride. */
  lemma OverreachBounded(total: int, size: int)
    requires size > 0
    ensures total <= 0 ==> Offsets(total, size) == [0]
    ensures total > 0 ==> var o := Offsets(total, size); total <= o[|o| - 1] < total + size
  {
  }

  /** Offset `x` falls inside the window `[o[k], o[k] + size)` of some bucket. */
  predicate Covered(o: seq<int>, size: int, x: int) {
    exists k :: 0 <= k < |o| && o[k] <= x < o[k] + size
  }

  /** Position `x` below `total` lies in the window of bucket `x / size`. */
  lemma CoveredByStride(total: int, size: int, x: int)
    requires size > 0 && 0 <= x < total
    ensures Covered(Offsets(total, size), size, x)
  {
    var o := Offsets(total, size);
    var k := x / size;
    assert x == k * size + x % size;
    ReachesTotal(total, size, k);
    assert k < |o| - 1;
    assert o[k] == k * size <= x < o[k] + size;
  }

  /** The windows `[offset, offset + size)` do not overlap, and together they
      leave no gap in `[0, total)`. */
  lemma {:induction false} WindowsTile(total: int, size: int)
    requires size > 0
    ensures var o := Offsets(total, size);
      && (forall j, k :: 0 <= j < k < |o| ==> o[j] + size <= o[k])
      && (forall x :: 0 <= x < total ==> Covered(o, size, x))
  {
    var o := Offsets(total, size);
    forall j, k | 0 <= j < k < |o|
      ensures o[j] + size <= o[k]
    {
      MulMonotone(j + 1, k, size);
    }
    forall x | 0 <= x < total
      ensures Covered(o, size, x)
    {
      CoveredByStride(total, size, x);
    }
  }

  /** The planning loop of `Jira.search`: record a bucket at offset `i`, stop
      if `i` has reached `total`, otherwise advance `i` by one stride. The
      `jql`, `fields` and `expand` of the search go into every request as they
      are, with `bucketSize` as the page limit. A bucket size that does not
      advance `i` stops only when there is nothing to fetch. */
  method PlanRequests(jql: string, fields: string, expand: string, bucketSize: int, total: int)
    returns (tasks: seq<Request>)
    requires bucketSize > 0 || total <= 0
    ensures |tasks| == BucketCount(total, bucketSize)
    ensures forall k :: 0 <= k < |tasks| ==> tasks[k] == PageQuery(jql, expand, bucketSize, k * bucketSize, fields)
    ensures forall k :: 0 <= k < |tasks| - 1 ==> tasks[k].start < total
    ensures tasks[|tasks| - 1].start >= total
    ensures tasks == Requests(jql, fields, expand, bucketSize, total)
  {
    var i := 0;
    tasks := [];
    while true
      invariant i == |tasks| * bucketSize
      invariant |tasks| < BucketCount(total, bucketSize)
      invariant forall k :: 0 <= k < |tasks| ==> tasks[k] == PageQuery(jql, expand, bucketSize, k * bucketSize, fields)
      invariant forall k :: 0 <= k < |tasks| ==> tasks[k].start < total
      decreases total - i
    {
      if bucketSize > 0 {
        ReachesTotal(total, bucketSize, |tasks|);
      }
      tasks := tasks + [PageQuery(jql, expand, bucketSize, i, fields)];
      if i >= total {
        break;
      }
      i := i + bucketSize;
    }
  }
}
