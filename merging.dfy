/** The result aggregator of `Jira.search`: the `for future in as_completed(futures)`
    loop that appends each finished bucket's `issues` list to one accumulator.
    Completion order is not submission order, so the model takes it as an
    argument: the sequence of bucket indices in the order the fetches finished. */
module Merging {

  /** The concatenation of the pages, first page first. */
  function Flatten<T>(pages: seq<seq<T>>): seq<T> {
    if pages == [] then [] else Flatten(pages[..|pages| - 1]) + pages[|pages| - 1]
  }

  /** The sum of the page lengths. */
  function TotalLength<T>(pages: seq<seq<T>>): nat {
    if pages == [] then 0 else TotalLength(pages[..|pages| - 1]) + |pages[|pages| - 1]|
  }

  /** The bucket indices 0, 1, ..., n - 1. */
  function Indices(n: nat): seq<nat> {
    seq(n, i => i)
  }

  /** `order` names each of the `n` buckets exactly once, as `as_completed`
      yields each submitted future exactly once. */
  predicate IsPermutation(order: seq<nat>, n: nat) {
    && (forall j :: 0 <= j < |order| ==> order[j] < n)
    && multiset(order) == multiset(Indices(n))
  }

  /** The pages taken in the order given by `order`. */
  function Reordered<T>(pages: seq<seq<T>>, order: seq<nat>): seq<seq<T>>
    requires forall j :: 0 <= j < |order| ==> order[j] < |pages|
  {
    seq(|order|, j requires 0 <= j < |order| => pages[order[j]])
  }

  lemma {:induction false} FlattenAppend<T>(a: seq<seq<T>>, b: seq<seq<T>>)
    ensures Flatten(a + b) == Flatten(a) + Flatten(b)
    decreases |b|
  {
    if b != [] {
      var b' := b[..|b| - 1];
      assert (a + b)[..|a + b| - 1] == a + b';
      FlattenAppend(a, b');
    } else {
      assert a + b == a;
    }
  }

  /** The merged length is the sum of the page lengths. */
  lemma {:induction false} FlattenLength<T>(pages: seq<seq<T>>)
    ensures |Flatten(pages)| == TotalLength(pages)
  {
    if pages != [] {
      FlattenLength(pages[..|pages| - 1]);
    }
  }

  lemma ReorderedAppend<T>(pages: seq<seq<T>>, a: seq<nat>, b: seq<nat>)
    requires forall j :: 0 <= j < |a| ==> a[j] < |pages|
    requires forall j :: 0 <= j < |b| ==> b[j] < |pages|
    ensures Reordered(pages, a + b) == Reordered(pages, a) + Reordered(pages, b)
  {
  }

  lemma ReorderedPrefix<T>(pages: seq<seq<T>>, m: nat, order: seq<nat>)
    requires m <= |pages|
    requires forall j :: 0 <= j < |order| ==> order[j] < m
    ensures Reordered(pages[..m], order) == Reordered(pages, order)
  {
  }

  /** The last bucket has a place in every completion order. */
  lemma FindLast(order: seq<nat>, last: nat) returns (p: nat)
    requires IsPermutation(order, last + 1)
    ensures p < |order| && order[p] == last
  {
    assert Indices(last + 1)[last] == last;
    assert last in multiset(order);
    p :| 0 <= p < |order| && order[p] == last;
  }

  /** Taking the last bucket out of a completion order leaves a completion
      order of the other buckets. */
  lemma DropLast(order: seq<nat>, p: nat, last: nat)
    requires IsPermutation(order, last + 1)
    requires p < |order| && order[p] == last
    ensures IsPermutation(order[..p] + order[p + 1..], last)
  {
    var before, after := order[..p], order[p + 1..];
    var rest := before + after;
    assert order == before + [last] + after;
    assert Indices(last + 1) == Indices(last) + [last];
    var bag, single := multiset(rest), multiset{last};
    assert multiset(order) == bag + single;
    assert multiset(Indices(last + 1)) == multiset(Indices(last)) + single;
    forall x ensures bag[x] == multiset(Indices(last))[x] {
      assert (bag + single)[x] == (multiset(Indices(last)) + single)[x];
    }
    assert bag == multiset(Indices(last));
    forall j | 0 <= j < |rest|
      ensures rest[j] < last
    {
      assert rest[j] in bag;
      assert rest[j] in Indices(last);
    }
  }

  lemma FlattenSingle<T>(page: seq<T>)
    ensures Flatten([page]) == page
  {
  }

  /** Pulling the last page out of a reordering: what remains is a reordering
      of the other pages. */
  lemma SplitAtLast<T>(pages: seq<seq<T>>, before: seq<nat>, after: seq<nat>)
    requires |pages| > 0
    requires forall j :: 0 <= j < |before| ==> before[j] < |pages| - 1
    requires forall j :: 0 <= j < |after| ==> after[j] < |pages| - 1
    ensures var last: nat := |pages| - 1;
      multiset(Flatten(Reordered(pages, before + [last] + after)))
        == multiset(Flatten(Reordered(pages[..last], before + after))) + multiset(pages[last])
  {
    var last: nat := |pages| - 1;
    var front := pages[..last];
    ReorderedPrefix(pages, last, before);
    ReorderedPrefix(pages, last, after);
    ReorderedAppend(front, before, after);
    ReorderedAppend(pages, before, [last]);
    ReorderedAppend(pages, before + [last], after);
    var rb, ra := Reordered(pages, before), Reordered(pages, after);
    assert Reordered(pages, [last]) == [pages[last]];
    assert Reordered(pages, before + [last] + after) == rb + [pages[last]] + ra;
    FlattenAppend(rb + [pages[last]], ra);
    FlattenAppend(rb, [pages[last]]);
    FlattenAppend(rb, ra);
    FlattenSingle(pages[last]);
  }

  /** Whatever order the buckets complete in, the merged issues are the same
      multiset as those of the pages in submission order. */
  lemma {:induction false} ReorderPreservesItems<T>(pages: seq<seq<T>>, order: seq<nat>)
    requires IsPermutation(order, |pages|)
    ensures multiset(Flatten(Reordered(pages, order))) == multiset(Flatten(pages))
    decreases |pages|
  {
    var n := |pages|;
    if n == 0 {
      assert |order| == |multiset(order)| == 0;
      assert Reordered(pages, order) == [];
    } else {
      var last: nat := n - 1;
      var p := FindLast(order, last);
      var before, after := order[..p], order[p + 1..];
      assert order == before + [last] + after;
      DropLast(order, p, last);
      ReorderPreservesItems(pages[..last], before + after);
      forall j | 0 <= j < |before| ensures before[j] < last {
        assert (before + after)[j] == before[j];
      }
      forall j | 0 <= j < |after| ensures after[j] < last {
        assert (before + after)[|before| + j] == after[j];
      }
      SplitAtLast(pages, before, after);
    }
  }

  /** The merge loop: append each finished bucket's issues, in completion
      order. The result holds every fetched issue exactly as often as the
      pages do, however the fetches interleave. */
  method Merge<Item>(pages: seq<seq<Item>>, completion: seq<nat>) returns (issues: seq<Item>)
    requires IsPermutation(completion, |pages|)
    ensures issues == Flatten(Reordered(pages, completion))
    ensures multiset(issues) == multiset(Flatten(pages))
    ensures |issues| == TotalLength(pages)
  {
    issues := [];
    ghost var done := Reordered(pages, completion);
    for j := 0 to |completion|
      invariant issues == Flatten(done[..j])
    {
      assert done[..j + 1][..j] == done[..j];
      issues := issues + pages[completion[j]];
    }
    assert done[..|completion|] == done;
    ReorderPreservesItems(pages, completion);
    FlattenLength(pages);
    assert |issues| == |multiset(issues)| == |multiset(Flatten(pages))|;
  }

  /** The merged multiset does not depend on the completion order. */
  lemma MergeOrderIndependent<T>(pages: seq<seq<T>>, o1: seq<nat>, o2: seq<nat>)
    requires IsPermutation(o1, |pages|) && IsPermutation(o2, |pages|)
    ensures multiset(Flatten(Reordered(pages, o1))) == multiset(Flatten(Reordered(pages, o2)))
    ensures |Flatten(Reordered(pages, o1))| == |Flatten(Reordered(pages, o2))| == TotalLength(pages)
  {
    ReorderPreservesItems(pages, o1);
    ReorderPreservesItems(pages, o2);
    FlattenLength(pages);
    assert |Flatten(Reordered(pages, o1))| == |multiset(Flatten(pages))|;
    assert |Flatten(Reordered(pages, o2))| == |multiset(Flatten(pages))|;
  }
}
