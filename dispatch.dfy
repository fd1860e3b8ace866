/**
 * `run`: one probe per target, submitted to a thread pool and collected
 * in completion order. The network is a parameter that answers the probe
 * of the i-th submitted target, so duplicate targets are separate probes
 * with outcomes of their own; the completion order is a parameter that
 * visits every submitted probe exactly once.
 */
module Dispatch {
  import opened Wrappers
  import opened Seqs
  import opened Query
  import opened Probe

  /** The exchange the probe of the i-th submitted target (with that URL) gets for its request. */
  type Network = (nat, string, Request) -> Exchange

  /** The record of the i-th submitted probe. */
  function Probed(targets: seq<string>, i: nat, verb: string, data: Option<string>,
                  network: Network, unescape: Unescape): (r: ProbeResult)
    requires i < |targets|
    ensures r.url == targets[i]
  {
    CheckUrl(targets[i], verb, data, req => network(i, targets[i], req), unescape)
  }

  /** The records in the order their probes complete. */
  function Completed(targets: seq<string>, order: seq<nat>, verb: string, data: Option<string>,
                     network: Network, unescape: Unescape): (results: seq<ProbeResult>)
    requires forall k | 0 <= k < |order| :: order[k] < |targets|
    ensures |results| == |order|
  {
    seq(|order|, k requires 0 <= k < |order| => Probed(targets, order[k], verb, data, network, unescape))
  }

  /** Completing one more probe adds its record at the end. */
  lemma CompletedAppend(targets: seq<string>, order: seq<nat>, k: nat, verb: string, data: Option<string>,
                        network: Network, unescape: Unescape)
    requires k < |order| && forall j | 0 <= j < |order| :: order[j] < |targets|
    ensures Completed(targets, order[..k + 1], verb, data, network, unescape)
      == Completed(targets, order[..k], verb, data, network, unescape) + [Probed(targets, order[k], verb, data, network, unescape)]
  {
  }

  /** The URLs of the records, in order. */
  function Urls(results: seq<ProbeResult>): (urls: seq<string>)
    ensures |urls| == |results|
    ensures forall k | 0 <= k < |results| :: urls[k] == results[k].url
  {
    seq(|results|, k requires 0 <= k < |results| => results[k].url)
  }

  /**
   * `run(targets, threads, method, data, ...)`: append each completed
   * probe's record. There is one record per target, and the records' URLs
   * are the targets rearranged, duplicates included.
   */
  method Run(targets: seq<string>, verb: string, data: Option<string>,
             network: Network, unescape: Unescape, order: seq<nat>) returns (results: seq<ProbeResult>)
    requires IsCompletionOrder(order, |targets|)
    ensures results == Completed(targets, order, verb, data, network, unescape)
    ensures |results| == |targets|
    ensures multiset(Urls(results)) == multiset(targets)
  {
    results := [];
    var k := 0;
    while k < |order|
      invariant 0 <= k <= |order|
      invariant results == Completed(targets, order[..k], verb, data, network, unescape)
    {
      var record := Probed(targets, order[k], verb, data, network, unescape);
      CompletedAppend(targets, order, k, verb, data, network, unescape);
      results := results + [record];
      k := k + 1;
    }
    assert order[..k] == order;
    CompletedUrls(targets, order, verb, data, network, unescape);
  }

  /** The URLs of the completed records are the targets read in completion order, a permutation of them. */
  lemma CompletedUrls(targets: seq<string>, order: seq<nat>, verb: string, data: Option<string>,
                      network: Network, unescape: Unescape)
    requires IsCompletionOrder(order, |targets|)
    ensures Urls(Completed(targets, order, verb, data, network, unescape)) == Pick(targets, order)
    ensures multiset(Urls(Completed(targets, order, verb, data, network, unescape))) == multiset(targets)
  {
    PickPermutation(targets, order);
  }

  /**
   * Every submitted index occurs exactly once in the completion order, so
   * the record of each submitted probe, duplicates included, is collected
   * exactly once.
   */
  lemma EachProbeOnce(targets: seq<string>, order: seq<nat>, i: nat)
    requires IsCompletionOrder(order, |targets|) && i < |targets|
    ensures multiset(order)[i] == 1
  {
    IndicesOnce(|targets|, i);
  }

  /** Each position below n occurs once in `[0, ..., n - 1]`. */
  lemma {:induction false} IndicesOnce(n: nat, i: nat)
    requires i < n
    ensures multiset(Indices(n))[i] == 1
  {
    IndicesLast(n);
    var front := Indices(n - 1);
    var before: multiset<nat> := multiset(front);
    var last: multiset<nat> := multiset{(n - 1) as nat};
    if i < n - 1 {
      IndicesOnce(n - 1, i);
      assert before[i] == 1 && last[i] == 0;
    } else {
      assert forall j | 0 <= j < |front| :: front[j] < i;
      assert i !in front;
      assert before[i] == 0 && last[i] == 1;
    }
  }
}
