/**
 * `main()` of the standalone script `paramhunter.py`: the same steps as the
 * package's command line, except that each completed probe's record and
 * its log line are appended together in one loop. Given the same answers
 * from the network, it ends in the same outcome as `Cli.RunMain`. (The
 * script's session sends no `User-Agent` of its own; a `Network` does not
 * see request headers.)
 */
module Standalone {
  import opened Wrappers
  import opened Strings
  import opened Seqs
  import opened Query
  import opened Targets
  import opened Probe
  import opened Report
  import opened Dispatch
  import opened Cli

  /**
   * The script's `main`: collect the targets, stop when there are none,
   * otherwise append each completed record to `results` and its log line
   * to `lines` in the same iteration.
   */
  method RunMain(args: Args, network: Network, unescape: Unescape, order: seq<nat>, richAvailable: bool)
    returns (outcome: MainOutcome)
    requires IsCompletionOrder(order, |TargetsOf(args.url, args.listLines)|)
    ensures outcome == MainSpec(args, network, unescape, order, richAvailable)
  {
    var targets := CollectTargets(args.url, args.listLines);
    if targets == [] {
      return NoTargets;
    }
    var results, lines := ProbeAndLog(targets, args.verb, args.data, network, unescape, order);
    var view := None;
    if !args.noBanner {
      view := Some(PrettyPrint(results, richAvailable));
    }
    var txt := Join("\n", lines);
    var csvRows := None;
    if args.csv {
      var rows := SaveCsv(results);
      csvRows := Some(rows);
    }
    outcome := Finished(results, lines, view, txt, csvRows);
  }

  /**
   * The script's collection loop: per completed probe, one record and one
   * line, so the two lists keep equal length and matching positions.
   */
  method ProbeAndLog(targets: seq<string>, verb: string, data: Option<string>,
                     network: Network, unescape: Unescape, order: seq<nat>)
    returns (results: seq<ProbeResult>, lines: seq<string>)
    requires IsCompletionOrder(order, |targets|)
    ensures results == Completed(targets, order, verb, data, network, unescape)
    ensures lines == LogLines(results)
    ensures |results| == |lines| == |targets|
  {
    results, lines := [], [];
    var k := 0;
    while k < |order|
      invariant 0 <= k <= |order|
      invariant results == Completed(targets, order[..k], verb, data, network, unescape)
      invariant lines == LogLines(results)
    {
      var res := Probed(targets, order[k], verb, data, network, unescape);
      CompletedAppend(targets, order, k, verb, data, network, unescape);
      LogLinesAppend(results, res);
      results := results + [res];
      lines := lines + [LogLine(res)];
      k := k + 1;
    }
    assert order[..k] == order;
  }
}
