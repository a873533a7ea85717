/** `Jira.search` and `Jira.__get_count`: probe the total, plan the buckets,
    fetch every bucket, merge the pages in completion order and flag a merged
    length that disagrees with the probed total. */
module Jira {
  import opened Remote
  import opened Planning
  import opened Merging

  /** The response to `jql(jql, limit=0)` reports no matches. */
  predicate NoMatches<Item>(res: Response<Item>) {
    res.total.None? || res.total.value == 0
  }

  /** `__get_count`: the reported total, with 0 when the key is missing. The
      explicit zero test only decides whether the "no issues" warning is
      logged; the value is the same as the reported one. */
  function GetCount<Item>(res: Response<Item>): (count: int)
    ensures count == 0 <==> NoMatches(res)
    ensures res.total.Some? ==> count == res.total.value
    ensures res.total.None? ==> count == 0
  {
    if res.total.None? || res.total.value == 0 then 0 else res.total.value
  }

  /** The `issues` list of each submitted request, in submission order. */
  function Pages<Item>(jira: Request -> Response<Item>, tasks: seq<Request>): seq<seq<Item>> {
    seq(|tasks|, k requires 0 <= k < |tasks| => jira(tasks[k]).issues)
  }

  /** The total the count query reports for `jql`. */
  function ProbedTotal<Item>(jira: Request -> Response<Item>, jql: string): int {
    GetCount(jira(CountQuery(jql)))
  }

  /** `Jira.search`, with its default arguments. The remote client is `jira`;
      `completion` is the order in which the bucket fetches finish. The merged issues are returned in every
      case; `mismatch` is the condition under which the error is logged. */
  method Search<Item>(jira: Request -> Response<Item>, completion: seq<nat>, jql: string,
                      fields: string := "*all", expand: string := "", bucketSize: int := 50)
    returns (issues: seq<Item>, mismatch: bool)
    requires bucketSize > 0 || ProbedTotal(jira, jql) <= 0
    requires IsPermutation(completion, BucketCount(ProbedTotal(jira, jql), bucketSize))
    ensures var total := ProbedTotal(jira, jql);
      var pages := Pages(jira, Requests(jql, fields, expand, bucketSize, total));
      && issues == Flatten(Reordered(pages, completion))
      && multiset(issues) == multiset(Flatten(pages))
      && |issues| == TotalLength(pages)
      && (mismatch <==> |issues| != total)
  {
    var total := GetCount(jira(CountQuery(jql)));
    var futures := PlanRequests(jql, fields, expand, bucketSize, total);
    var pages := Pages(jira, futures);
    issues := Merge(pages, completion);
    mismatch := |issues| != total;
  }

  function Min(a: int, b: int): int {
    if a <= b then a else b
  }

  /** The slice `[start, start + limit)` of `all`, clipped to its length: what
      a well-behaved server returns for one page. */
  function Window<T>(all: seq<T>, start: int, limit: int): seq<T>
    requires 0 <= start && 0 <= limit
  {
    all[Min(start, |all|)..Min(start + limit, |all|)]
  }

  /** The server answers every page query for `jql` with the matching slice
      of one fixed list of issues. */
  ghost predicate ServesWindowsOf<Item>(jira: Request -> Response<Item>, jql: string, fields: string,
                                        expand: string, all: seq<Item>)
  {
    forall limit, start :: 0 <= start && 0 <= limit ==>
      jira(PageQuery(jql, expand, limit, start, fields)).issues == Window(all, start, limit)
  }

  /** The pages a well-behaved server returns for the first `n` strides. */
  function Windows<T>(all: seq<T>, size: int, n: nat): seq<seq<T>>
    requires size > 0
  {
    seq(n, k requires 0 <= k => Window(all, k * size, size))
  }

  lemma SliceSplit<T>(all: seq<T>, a: int, b: int)
    requires 0 <= a <= b
    ensures all[..Min(b, |all|)] == all[..Min(a, |all|)] + all[Min(a, |all|)..Min(b, |all|)]
  {
  }

  /** The pages of the first `n` strides concatenate to the prefix of `all`
      they cover. */
  lemma {:induction false} WindowsConcat<T>(all: seq<T>, size: int, n: nat)
    requires size > 0
    ensures Flatten(Windows(all, size, n)) == all[..Min(n * size, |all|)]
  {
    var ws := Windows(all, size, n);
    if n > 0 {
      assert ws[..n - 1] == Windows(all, size, n - 1);
      WindowsConcat(all, size, n - 1);
      var a, b := (n - 1) * size, n * size;
      assert b == a + size;
      assert ws[n - 1] == Window(all, a, size);
      SliceSplit(all, a, b);
    }
  }

  lemma PagesAreWindows<Item>(jira: Request -> Response<Item>, jql: string, fields: string,
                              expand: string, bucketSize: int, all: seq<Item>)
    requires bucketSize > 0
    requires ServesWindowsOf(jira, jql, fields, expand, all)
    ensures Pages(jira, Requests(jql, fields, expand, bucketSize, |all|))
         == Windows(all, bucketSize, BucketCount(|all|, bucketSize))
  {
    var reqs := Requests(jql, fields, expand, bucketSize, |all|);
    var ws := Windows(all, bucketSize, BucketCount(|all|, bucketSize));
    forall k | 0 <= k < |reqs|
      ensures Pages(jira, reqs)[k] == ws[k]
    {
      assert reqs[k] == PageQuery(jql, expand, bucketSize, k * bucketSize, fields);
    }
  }

  /** The strides of the plan reach past the end of the list. */
  lemma LastWindowReachesEnd(total: nat, size: int)
    requires size > 0
    ensures Min(BucketCount(total, size) * size, total) == total
  {
    var n := BucketCount(total, size);
    ReachesTotal(total, size, n - 1);
    assert n * size == (n - 1) * size + size;
  }

  /** The pages a well-behaved server returns for the planned requests, in
      submission order, are exactly its list. */
  lemma PagesReassemble<Item>(jira: Request -> Response<Item>, jql: string, fields: string,
                              expand: string, bucketSize: int, all: seq<Item>)
    requires bucketSize > 0
    requires ServesWindowsOf(jira, jql, fields, expand, all)
    ensures Flatten(Pages(jira, Requests(jql, fields, expand, bucketSize, |all|))) == all
  {
    var n := BucketCount(|all|, bucketSize);
    PagesAreWindows(jira, jql, fields, expand, bucketSize, all);
    WindowsConcat(all, bucketSize, n);
    LastWindowReachesEnd(|all|, bucketSize);
  }

  /** When the count query reports the size of a fixed list and every page
      query returns its slice of that list, the tiling of the plan makes the
      pages, in submission order, concatenate to exactly that list, with the
      trailing bucket past the total adding nothing. In any completion order
      the merge then holds that list's issues and is as long as the probed
      total, so `Search` reports no mismatch. */
  lemma ConsistentServerYieldsAll<Item>(jira: Request -> Response<Item>, jql: string, fields: string,
                                        expand: string, bucketSize: int, all: seq<Item>,
                                        completion: seq<nat>)
    requires bucketSize > 0
    requires ProbedTotal(jira, jql) == |all|
    requires ServesWindowsOf(jira, jql, fields, expand, all)
    requires IsPermutation(completion, BucketCount(|all|, bucketSize))
    ensures Flatten(Pages(jira, Requests(jql, fields, expand, bucketSize, |all|))) == all
    ensures var pages := Pages(jira, Requests(jql, fields, expand, bucketSize, |all|));
      var merged := Flatten(Reordered(pages, completion));
      && multiset(merged) == multiset(all)
      && |merged| == |all| == ProbedTotal(jira, jql)
  {
    var pages := Pages(jira, Requests(jql, fields, expand, bucketSize, |all|));
    PagesReassemble(jira, jql, fields, expand, bucketSize, all);
    ReorderPreservesItems(pages, completion);
    var merged := Flatten(Reordered(pages, completion));
    assert |merged| == |multiset(merged)| == |multiset(all)|;
  }

  /** The planner's two boundary scenarios: 120 issues in buckets of 50, and
      no issues at all. */
  lemma PlanScenarios()
    ensures Offsets(120, 50) == [0, 50, 100, 150]
    ensures Offsets(0, 50) == [0]
  {
  }
}
