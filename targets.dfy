/**
 * Building the target list: `load_targets` over the lines of a file, and
 * `collect_targets`, which puts the `-u` URL first and the file's targets
 * after it.
 */
module Targets {
  import opened Wrappers
  import opened Strings
  import opened Seqs

  /** `line.startswith("#")`, checked on the line as read, before stripping. */
  predicate IsComment(line: string)
  {
    |line| > 0 && line[0] == '#'
  }

  /** The comprehension's filter: the stripped line is non-empty and the raw line is no comment. */
  predicate Keeps(line: string)
    ensures Keeps(line) ==> line != "" && line[0] != '#' && IsTarget(Strip(line))
  {
    Strip(line) != "" && !IsComment(line)
  }

  /** A target as `load_targets` yields it: non-empty, no whitespace at either end. */
  predicate IsTarget(t: string)
  {
    t != "" && !IsSpace(t[0]) && !IsSpace(t[|t| - 1])
  }

  /**
   * `load_targets` over the lines of the file (each with its line end, as
   * iterating a text file yields them): the stripped lines the filter keeps,
   * in file order. Every target is non-empty and starts and ends with a
   * non-whitespace character.
   */
  function LoadTargets(lines: seq<string>): (r: seq<string>)
    ensures |r| <= |lines|
    ensures forall k | 0 <= k < |r| :: IsTarget(r[k])
  {
    if lines == [] then []
    else
      var rest := LoadTargets(lines[1..]);
      if Keeps(lines[0]) then
        var t := Strip(lines[0]);
        assert IsTarget(t);
        PrependTarget(t, rest);
        [t] + rest
      else rest
  }

  /** A target put in front of targets gives targets. */
  lemma PrependTarget(t: string, rest: seq<string>)
    requires IsTarget(t)
    requires forall k | 0 <= k < |rest| :: IsTarget(rest[k])
    ensures forall k | 0 <= k < |[t] + rest| :: IsTarget(([t] + rest)[k])
  {
    forall k | 0 <= k < |[t] + rest|
      ensures IsTarget(([t] + rest)[k])
    {
      if k > 0 {
        assert ([t] + rest)[k] == rest[k - 1];
      }
    }
  }

  /** `load_targets` is the comprehension `[strip(line) for line in lines if keeps(line)]`. */
  lemma {:induction false} LoadTargetsIsComprehension(lines: seq<string>)
    ensures LoadTargets(lines) == FilterMap(lines, Keeps, Strip)
  {
    if lines != [] {
      LoadTargetsIsComprehension(lines[1..]);
    }
  }

  /**
   * `load_targets` keeps exactly the lines the filter accepts, strips each,
   * and keeps the file order: the k-th target is the stripped text of the
   * k-th kept line, and the kept lines' positions increase.
   */
  lemma LoadTargetsSpec(lines: seq<string>)
    ensures var pos := KeptPositions(lines, Keeps, 0);
      && |pos| == |LoadTargets(lines)|
      && (forall k | 0 <= k < |pos| :: pos[k] < |lines| && LoadTargets(lines)[k] == Strip(lines[pos[k]]))
      && (forall k, m | 0 <= k < m < |pos| :: pos[k] < pos[m])
      && (forall i | 0 <= i < |lines| :: i in pos <==> Keeps(lines[i]))
  {
    LoadTargetsIsComprehension(lines);
    FilterMapSpec(lines, Keeps, Strip);
  }

  /** The k-th target is the stripped text of the k-th kept line. */
  lemma LoadTargetsValues(lines: seq<string>)
    ensures var pos := KeptPositions(lines, Keeps, 0);
      && |pos| == |LoadTargets(lines)|
      && (forall k | 0 <= k < |pos| :: pos[k] < |lines| && LoadTargets(lines)[k] == Strip(lines[pos[k]]))
  {
    LoadTargetsIsComprehension(lines);
    KeptPositionsValues(lines, Keeps, Strip, 0);
  }

  /** Every target is its own stripped text. */
  lemma {:induction false} LoadTargetsStripped(lines: seq<string>)
    ensures forall k | 0 <= k < |LoadTargets(lines)| :: Strip(LoadTargets(lines)[k]) == LoadTargets(lines)[k]
  {
    if lines != [] {
      LoadTargetsStripped(lines[1..]);
      if Keeps(lines[0]) {
        StripIdempotent(lines[0]);
      }
    }
  }

  /** Loading targets from two runs of lines is loading each run and concatenating. */
  lemma LoadTargetsAppend(a: seq<string>, b: seq<string>)
    ensures LoadTargets(a + b) == LoadTargets(a) + LoadTargets(b)
  {
    LoadTargetsIsComprehension(a);
    LoadTargetsIsComprehension(b);
    LoadTargetsIsComprehension(a + b);
    FilterMapAppend(a, b, Keeps, Strip);
  }

  /** `strip()` of whitespace, then a text without whitespace at either end, then whitespace, is that text. */
  lemma StripPadded(front: string, t: string, back: string)
    requires AllSpace(front)
    requires AllSpace(back)
    requires t != "" && !IsSpace(t[0]) && !IsSpace(t[|t| - 1])
    ensures Strip(front + t + back) == t
  {
    assert front + t + back == front + (t + back);
    assert (t + back)[0] == t[0];
    TrimLeftPadded(front, t + back);
    TrimRightPadded(t, back);
  }

  /**
   * A comment marker after leading whitespace does not make a comment: the
   * line `   # x` is kept, as `# x`.
   */
  lemma IndentedCommentKept(indent: string, x: string, lineEnd: string)
    requires |indent| > 0 && AllSpace(indent)
    requires AllSpace(lineEnd)
    requires x == "" || !IsSpace(x[|x| - 1])
    ensures LoadTargets([indent + "#" + x + lineEnd]) == ["#" + x]
  {
    var t := "#" + x;
    assert t[|t| - 1] == if x == "" then '#' else x[|x| - 1];
    assert indent + "#" + x + lineEnd == indent + t + lineEnd;
    StripPadded(indent, t, lineEnd);
    assert [indent + "#" + x + lineEnd][1..] == [];
  }

  /**
   * The file of tests/test_core.py: a comment line, an indented URL, a
   * blank line and a last indented URL without line end give the two URLs.
   */
  lemma TestFileTargets(comment: string, indent: string, u1: string, u2: string, nl: string, blank: string)
    requires AllSpace(indent)
    requires AllSpace(nl)
    requires AllSpace(blank)
    requires u1 != "" && u1[0] != '#' && !IsSpace(u1[0]) && !IsSpace(u1[|u1| - 1])
    requires u2 != "" && u2[0] != '#' && !IsSpace(u2[0]) && !IsSpace(u2[|u2| - 1])
    ensures LoadTargets(["#" + comment + nl, indent + u1 + nl, blank + nl, indent + u2]) == [u1, u2]
  {
    var l0, l1, l2, l3 := "#" + comment + nl, indent + u1 + nl, blank + nl, indent + u2;
    CommentLine(comment, nl);
    IndentedTarget(indent, u1, nl);
    BlankLineDropped(blank, nl);
    IndentedTarget(indent, u2, "");
    assert l3 == indent + u2 + "";
    KeptSecondAndLast(l0, l1, l2, l3);
  }

  /** A line that starts with `#` is a comment, whatever follows. */
  lemma CommentLine(comment: string, nl: string)
    ensures IsComment("#" + comment + nl)
  {
    assert ("#" + comment + nl)[0] == '#';
  }

  /** A line of whitespace only is dropped. */
  lemma BlankLineDropped(blank: string, nl: string)
    requires AllSpace(blank)
    requires AllSpace(nl)
    ensures !Keeps(blank + nl)
  {
    StripEmptyIff(blank + nl);
    var line := blank + nl;
    assert forall i | 0 <= i < |line| :: IsSpace(line[i]) by {
      forall i | 0 <= i < |line| ensures IsSpace(line[i]) {
        if i >= |blank| { assert line[i] == nl[i - |blank|]; }
      }
    }
  }

  /** Four lines of which the second and the last are kept. */
  lemma KeptSecondAndLast(l0: string, l1: string, l2: string, l3: string)
    requires !Keeps(l0) && Keeps(l1) && !Keeps(l2) && Keeps(l3)
    ensures LoadTargets([l0, l1, l2, l3]) == [Strip(l1), Strip(l3)]
  {
    LoadTargetsIsComprehension([l0, l1, l2, l3]);
    FilterMapSecondAndLast(l0, l1, l2, l3, Keeps, Strip);
  }

  /** An indented target line is kept as the target. */
  lemma IndentedTarget(indent: string, u: string, lineEnd: string)
    requires AllSpace(indent)
    requires AllSpace(lineEnd)
    requires u != "" && u[0] != '#' && !IsSpace(u[0]) && !IsSpace(u[|u| - 1])
    ensures Keeps(indent + u + lineEnd) && Strip(indent + u + lineEnd) == u
  {
    StripPadded(indent, u, lineEnd);
    var line := indent + u + lineEnd;
    assert line[0] == if indent == "" then u[0] else indent[0];
  }

  /** A Python value is truthy as an argument here when it is given and non-empty. */
  predicate Given(arg: Option<string>)
  {
    arg.Some? && arg.value != ""
  }

  /**
   * The target list `collect_targets` builds: the `-u` URL when it is
   * truthy, then the targets loaded from the `-l` file. `listLines` holds
   * the file's lines when a (non-empty) list path is given, None otherwise.
   */
  function TargetsOf(url: Option<string>, listLines: Option<seq<string>>): seq<string>
  {
    (if Given(url) then [url.value] else [])
    + (if listLines.Some? then LoadTargets(listLines.value) else [])
  }

  /**
   * `collect_targets` (and the same steps in the standalone script's
   * `main`): start empty, append the URL, extend with the loaded targets.
   */
  method CollectTargets(url: Option<string>, listLines: Option<seq<string>>) returns (targets: seq<string>)
    ensures targets == TargetsOf(url, listLines)
  {
    targets := [];
    if Given(url) {
      targets := targets + [url.value];
    }
    if listLines.Some? {
      targets := targets + LoadTargets(listLines.value);
    }
  }

  /**
   * The URL comes first when it is truthy; after it, the k-th target is
   * the stripped text of the k-th line the filter keeps, in file order.
   */
  lemma TargetsOfOrder(url: Option<string>, lines: seq<string>)
    ensures var t, off, pos := TargetsOf(url, Some(lines)), (if Given(url) then 1 else 0), KeptPositions(lines, Keeps, 0);
      && |t| == off + |pos|
      && (Given(url) ==> t[0] == url.value)
      && (forall k | 0 <= k < |pos| :: pos[k] < |lines| && t[off + k] == Strip(lines[pos[k]]))
  {
    TargetsOfSplit(url, lines);
    LoadTargetsValues(lines);
    StrippedAfterHead(TargetsOf(url, Some(lines)), if Given(url) then [url.value] else [], if Given(url) then 1 else 0,
                      LoadTargets(lines), lines, KeptPositions(lines, Keeps, 0));
    forall k | 0 <= k < |KeptPositions(lines, Keeps, 0)|
      ensures KeptPositions(lines, Keeps, 0)[k] < |lines|
      ensures TargetsOf(url, Some(lines))[(if Given(url) then 1 else 0) + k] == Strip(lines[KeptPositions(lines, Keeps, 0)[k]])
    {
    }
  }

  /** With a list given, the target list is the URL, when truthy, and then the loaded targets. */
  lemma TargetsOfSplit(url: Option<string>, lines: seq<string>)
    ensures TargetsOf(url, Some(lines)) == (if Given(url) then [url.value] else []) + LoadTargets(lines)
  {
  }

  /** Stripped lines after a head keep their positions, shifted by the head's length. */
  lemma StrippedAfterHead(t: seq<string>, head: seq<string>, off: nat, loaded: seq<string>, lines: seq<string>, pos: seq<nat>)
    requires t == head + loaded && off == |head| && |pos| == |loaded|
    requires forall k | 0 <= k < |pos| :: pos[k] < |lines| && loaded[k] == Strip(lines[pos[k]])
    ensures |t| == off + |pos|
    ensures forall k | 0 <= k < |pos| :: pos[k] < |lines| && t[off + k] == Strip(lines[pos[k]])
  {
    AfterHead(t, head, off, loaded);
  }

  /**
   * There are no targets exactly when the URL is missing or empty and the
   * list is missing or keeps no line.
   */
  lemma TargetsOfEmptyIff(url: Option<string>, listLines: Option<seq<string>>)
    ensures TargetsOf(url, listLines) == []
      <==> !Given(url) && (listLines.Some? ==> forall i | 0 <= i < |listLines.value| :: !Keeps(listLines.value[i]))
  {
    if listLines.Some? {
      var lines := listLines.value;
      LoadTargetsSpec(lines);
      var pos := KeptPositions(lines, Keeps, 0);
      assert |pos| > 0 ==> Keeps(lines[pos[0]]);
      forall i | 0 <= i < |lines| && Keeps(lines[i])
        ensures LoadTargets(lines) != []
      {
        assert i in pos;
      }
    }
  }
}
