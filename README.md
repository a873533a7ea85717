# Concurrent paginated issue search, modelled in Dafny

This project models the search core of a thin wrapper around a remote issue
tracker's query API (`jirawrapper/jira.py`). A search first asks the tracker
how many issues match the query (a zero-limit query). It then splits the fetch
into fixed-size buckets, submits one page request per bucket to a thread pool,
appends each bucket's issues to one list as the fetches complete, and logs an
error when the merged length differs from the probed total.

The model has four modules:

- `Remote` (remote.dfy): the collaborator's interface. A request is either the
  count query or a page query (`jql`, `expand`, `limit`, `start`, `fields`). A
  response carries an optional `total` and an `issues` list. The client itself
  is an opaque function `Request -> Response<Item>` passed to the search.
- `Planning` (planning.dfy): the bucket-planning loop. `PlanRequests` keeps the
  source's `while True` loop with its exit test placed after the bucket is
  recorded. It is proved against the closed form `Offsets` (offsets `k * size`
  for `k < BucketCount`, where `BucketCount` is ceil(total / size) + 1, or 1
  when the total is not positive). The trailing bucket that starts at or past
  the total is modelled as written.
- `Merging` (merging.dfy): the merge loop over completed fetches. Completion
  order is a parameter: a sequence that names every bucket index exactly once
  (`IsPermutation`). `Merge` is proved against `Flatten(Reordered(...))`, and
  the lemmas show that the merged multiset and length do not depend on that
  order.
- `Jira` (jira.dfy): count extraction (`GetCount`) and the whole search
  (`Search`), which returns the merged issues together with the mismatch
  condition that triggers the error log. The lemma `ConsistentServerYieldsAll`
  covers a server that answers every page with its slice of one fixed list.
  Against such a server, the planned pages in submission order concatenate to
  exactly that list, the trailing bucket adds nothing, and the merge in any
  completion order is as long as the probed total, so `Search` reports no
  mismatch.

The loop emits ceil(total / size) + 1 buckets for a positive total. When the
size divides the total (100 issues in buckets of 50), the offsets are 0, 50
and 100: the last bucket starts exactly at the total. For a total of 0 or less
the loop emits the single bucket at offset 0, whatever the bucket size.

## Model

| member | source | states |
|---|---|---|
| `Jira.GetCount` | jirawrapper/jira.py:18-27 | returns 0 exactly when the count response has no `total` or a zero `total`; whenever a `total` is present, returns it unchanged |
| `Planning.PlanRequests` | jirawrapper/jira.py:49-65 | the planning loop terminates for a positive bucket size, and for any bucket size when the total is 0 or less; it submits `BucketCount(total, size)` requests; request `k` starts at `k * size` with limit `size`, passing `jql`, `fields` and `expand` through unchanged; every request but the last starts below `total`, and the last starts at or past it |
| `Planning.ReachesTotal` | jirawrapper/jira.py:58-65 | after `e` recorded buckets, the loop's exit test `i >= total` holds exactly when `e + 1` buckets complete the plan, so the loop breaks on the first offset that reaches `total` |
| `Planning.OffsetsStopAtTotal` | jirawrapper/jira.py:55-65 | the plan has at least one bucket; offsets start at 0 and rise by exactly the bucket size; all offsets but the last are below `total`, and the last is at or past it |
| `Planning.OverreachBounded` | jirawrapper/jira.py:55-65 | a total of 0 (or less) gives exactly one bucket, at offset 0; a positive total gives a last offset in `[total, total + size)` |
| `Planning.WindowsTile` | jirawrapper/jira.py:59-65 | the windows `[offset, offset + size)` are pairwise disjoint, and every position in `[0, total)` lies in one of them |
| `Jira.PlanScenarios` | jirawrapper/jira.py:55-65 | 120 issues in buckets of 50 plan offsets [0, 50, 100, 150]; a total of 0 plans the single offset [0] |
| `Merging.Merge` | jirawrapper/jira.py:67-68 | appending each bucket's issues in completion order yields the pages concatenated in that order; the result has the same multiset of issues as the pages in submission order, and its length is the sum of the page lengths |
| `Merging.FlattenLength` | jirawrapper/jira.py:67-68 | the concatenation of the pages is as long as the sum of their lengths |
| `Merging.ReorderPreservesItems` | jirawrapper/jira.py:67-68 | concatenating the pages in any completion order that names each bucket once gives the same multiset of issues as submission order |
| `Merging.MergeOrderIndependent` | jirawrapper/jira.py:67-68 | two completion orders give merged lists with the same multiset of issues and the same length, the sum of the page lengths |
| `Jira.Search` | jirawrapper/jira.py:32-75 | probes the total, fetches one page per planned request and merges the pages in completion order; the merged list is always returned, and the mismatch flag is raised exactly when its length differs from the probed total |
| `Jira.WindowsConcat` | jirawrapper/jira.py:55-68 | the slices a well-behaved server returns for the first `n` strides concatenate to the prefix of its issue list that they cover |
| `Jira.PagesReassemble` | jirawrapper/jira.py:55-68 | when every page query is answered with its slice of a fixed list, the planned pages in submission order concatenate to exactly that list; the trailing bucket adds nothing |
| `Jira.ConsistentServerYieldsAll` | jirawrapper/jira.py:47-75 | when the probe reports the size of a fixed list and every page is that list's slice, the pages in submission order concatenate to exactly that list, and the merge in any completion order holds that list's issues and is as long as the probed total, so no mismatch is logged |

## Left out

- The thread pool (`ThreadPoolExecutor`, `submit`, `as_completed`) and the `workers` bound: only the completion order they produce is modelled, as a parameter naming each bucket once. The bound on in-flight fetches is not modelled.
- The `atlassian.Jira` base class and its HTTP transport: the remote `jql` call is an opaque function from requests to responses. That library is not part of this model, and neither are its default arguments for the count query.
- Exceptions: a failed fetch re-raised by `future.result()`, and a page response without an `issues` key (a `KeyError`), both abort the search in the source. They are not modelled.
- Logging and wall-clock timing: the "no issues" warning reduces to `Jira.NoMatches`, and the count-mismatch error reduces to the `mismatch` result of `Search`. Elapsed time is not modelled.
- `Planning.PlanRequests`: requires a bucket size that is positive or a total that is 0 or less. With a bucket size of 0 or less and a positive total, the source loops forever, and that non-termination is not modelled.
- `__init__` and `issue_get_worklog`: they only delegate to the library.
- `setup.py`: packaging metadata.
