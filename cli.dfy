/**
 * `paramhunter/cli.py`: collect the targets, stop when there are none,
 * otherwise run the probes, build one log line per record, show the
 * records and write the text and CSV outputs.
 */
module Cli {
  import opened Wrappers
  import opened Strings
  import opened Seqs
  import opened Query
  import opened Targets
  import opened Probe
  import opened Report
  import opened Dispatch

  /**
   * The parsed command line: `-u`, the lines of the `-l` file (None when no
   * list is given), `--method`, `--data`, `--csv` and `--no-banner`.
   */
  datatype Args = Args(
    url: Option<string>,
    listLines: Option<seq<string>>,
    verb: string,
    data: Option<string>,
    csv: bool,
    noBanner: bool)

  /**
   * What `main` ends in: the notice that there are no targets, or the
   * records, their log lines, what the console shows (nothing with
   * `--no-banner`), the text file's content and the CSV rows (with `--csv`).
   */
  datatype MainOutcome =
    | NoTargets
    | Finished(
        results: seq<ProbeResult>,
        lines: seq<string>,
        view: Option<ConsoleView>,
        txt: string,
        csvRows: Option<seq<seq<string>>>)

  /** The outcome of `main` for the given records, once the targets are known not to be empty. */
  function FinishedWith(args: Args, results: seq<ProbeResult>, richAvailable: bool): MainOutcome
  {
    var lines := LogLines(results);
    Finished(
      results,
      lines,
      if args.noBanner then None else Some(PrettyPrint(results, richAvailable)),
      Join("\n", lines),
      if args.csv then Some(CsvTable(results)) else None)
  }

  /**
   * `main`'s outcome: no targets gives the notice and no probe at all;
   * otherwise the records of the probes in completion order, and what is
   * shown and written about them.
   */
  function MainSpec(args: Args, network: Network, unescape: Unescape, order: seq<nat>, richAvailable: bool): MainOutcome
    requires IsCompletionOrder(order, |TargetsOf(args.url, args.listLines)|)
  {
    var targets := TargetsOf(args.url, args.listLines);
    if targets == [] then NoTargets
    else FinishedWith(args, Completed(targets, order, args.verb, args.data, network, unescape), richAvailable)
  }

  /** The `lines` loop of `main`: one log line appended per record. */
  method BuildLines(results: seq<ProbeResult>) returns (lines: seq<string>)
    ensures lines == LogLines(results)
  {
    lines := [];
    var i := 0;
    while i < |results|
      invariant 0 <= i <= |results|
      invariant |lines| == i
      invariant forall j | 0 <= j < i :: lines[j] == LogLine(results[j])
    {
      lines := lines + [LogLine(results[i])];
      i := i + 1;
    }
  }

  /** `main()` of `paramhunter/cli.py`. */
  method RunMain(args: Args, network: Network, unescape: Unescape, order: seq<nat>, richAvailable: bool)
    returns (outcome: MainOutcome)
    requires IsCompletionOrder(order, |TargetsOf(args.url, args.listLines)|)
    ensures outcome == MainSpec(args, network, unescape, order, richAvailable)
  {
    var targets := CollectTargets(args.url, args.listLines);
    if targets == [] {
      return NoTargets;
    }
    var results := Run(targets, args.verb, args.data, network, unescape, order);
    var lines := BuildLines(results);
    var view := None;
    if !args.noBanner {
      view := Some(PrettyPrint(results, richAvailable));
    }
    var txt := Join("\n", lines);
    var csvRows := None;
    if args.csv {
      var rows := SaveCsv(results);
      csvRows := Some(rows);
    }
    outcome := Finished(results, lines, view, txt, csvRows);
  }

  /** Neither a truthy `-u` nor a line of the `-l` file that `load_targets` keeps. */
  predicate NothingToProbe(args: Args)
  {
    && !Given(args.url)
    && (args.listLines.Some? ==> forall i | 0 <= i < |args.listLines.value| :: !Keeps(args.listLines.value[i]))
  }

  /** There are no targets, and so no probe, exactly when neither `-u` nor `-l` yields one. */
  lemma NoTargetsIff(args: Args, network: Network, unescape: Unescape, order: seq<nat>, richAvailable: bool)
    requires IsCompletionOrder(order, |TargetsOf(args.url, args.listLines)|)
    ensures MainSpec(args, network, unescape, order, richAvailable).NoTargets? <==> NothingToProbe(args)
  {
    TargetsOfEmptyIff(args.url, args.listLines);
  }

  /**
   * A finished run has one record per target, the targets' URLs rearranged,
   * and one log line per record at the same position.
   */
  lemma FinishedShape(args: Args, network: Network, unescape: Unescape, order: seq<nat>, richAvailable: bool)
    requires IsCompletionOrder(order, |TargetsOf(args.url, args.listLines)|)
    requires MainSpec(args, network, unescape, order, richAvailable).Finished?
    ensures var o := MainSpec(args, network, unescape, order, richAvailable);
      && |o.results| == |TargetsOf(args.url, args.listLines)|
      && multiset(Urls(o.results)) == multiset(TargetsOf(args.url, args.listLines))
      && |o.lines| == |o.results|
      && (forall i | 0 <= i < |o.lines| :: KindOfLine(o.lines[i]) == Classify(o.results[i]))
  {
    var targets := TargetsOf(args.url, args.listLines);
    CompletedUrls(targets, order, args.verb, args.data, network, unescape);
    var o := MainSpec(args, network, unescape, order, richAvailable);
    forall i | 0 <= i < |o.lines|
      ensures KindOfLine(o.lines[i]) == Classify(o.results[i])
    {
      LogLineTagged(o.results[i]);
    }
  }
}
