/** The block filter (`cutout_trace_file`): keeps the lines from an allow-listed `Begin:` line
    through the `End:` line that names the same block, and drops everything else. */
module Cutout {
  import opened Wrappers
  import opened Text
  import opened Subsequence

  /** `needed`: the blocks whose lines are kept. */
  const Needed: seq<string> :=
    ["Engines.MME", "PBM", "VirtualPipelines", "Engines.NCAv3", "Engines.EIOA", "EIOA Port(s) Enable"]

  /** `re.match(r".*" + re.escape(name) + r"\s*\Z", line)`: the line ends with `name` followed by
      white space only, and no newline comes before `name` (`.` does not match one). Every name
      in Needed ends with a non-white-space character, so the white space after it is exactly
      what `rstrip()` removes. */
  predicate EndsWithName(line: string, name: string)
  {
    var t := TrimRight(line, Whitespace);
    EndsWith(t, name) && '\n' !in t[..|t| - |name|]
  }

  /** The guard of the inner loop over `needed` succeeds for some name. */
  predicate NamesNeededBlock(line: string)
  {
    exists k :: 0 <= k < |Needed| && EndsWithName(line, Needed[k])
  }

  /** A line that starts a kept block while no block is active. */
  predicate OpensBlock(line: string)
  {
    Contains(line, "Begin:") && NamesNeededBlock(line)
  }

  /** `line[line.find("Begin:"):][len("Begin: "):]`: what follows `Begin: `, newline included. */
  function TagOf(line: string): (tag: string)
    requires Contains(line, "Begin:")
    ensures EndsWith(line, tag)
  {
    var rest := line[Find(line, "Begin:")..];
    var tag := if |rest| < 7 then [] else rest[7..];
    assert line[|line| - |tag|..] == tag;
    tag
  }

  /** `re.match(r".*" + re.escape(tag) + r"\s*", line)`: `tag` occurs in the line with no newline
      before it. The first occurrence is the one that decides, since any later one has at least the
      same characters before it. */
  predicate MatchesTag(line: string, tag: string)
  {
    var i := Find(line, tag);
    i >= 0 && '\n' !in line[..i]
  }

  /** A line that ends the active block named by `tag`. */
  predicate ClosesBlock(line: string, tag: string)
  {
    Contains(line, "End:") && MatchesTag(line, tag)
  }

  /** `cur_tag` and the lines written so far. */
  datatype Filter = Filter(tag: Option<string>, kept: seq<string>)

  /** The tag after the `Begin:` check of one iteration. */
  function StartedTag(f: Filter, line: string): Option<string>
  {
    if f.tag.None? && OpensBlock(line) then Some(TagOf(line)) else f.tag
  }

  /** One iteration of the loop of `cutout_trace_file`. */
  function FilterStep(f: Filter, line: string): Filter
  {
    var tag := StartedTag(f, line);
    var kept := if tag.Some? then f.kept + [line] else f.kept;
    Filter(if tag.Some? && ClosesBlock(line, tag.value) then None else tag, kept)
  }

  /** The filter before the first line: no block active, nothing written. */
  const Idle := Filter(None, [])

  /** The filter after the lines `lines`, starting from `f`. */
  function Run(f: Filter, lines: seq<string>): Filter
    decreases |lines|
  {
    if lines == [] then f else FilterStep(Run(f, lines[..|lines| - 1]), lines[|lines| - 1])
  }

  /** The lines `cutout_trace_file` writes to the reduced trace. */
  function Cutout(lines: seq<string>): seq<string>
  {
    Run(Idle, lines).kept
  }

  /** `cutout_trace_file`, with the input file given as its lines and the output returned. */
  method CutoutTraceFile(lines: seq<string>) returns (out: seq<string>)
    ensures out == Cutout(lines)
  {
    out := [];
    var tag: Option<string> := None;
    for i := 0 to |lines|
      invariant Run(Idle, lines[..i]) == Filter(tag, out)
    {
      tag, out := FilterLine(tag, out, lines[i]);
      assert lines[..i + 1] == lines[..i] + [lines[i]];
      RunLine(Idle, lines[..i], lines[i]);
    }
    assert lines[..|lines|] == lines;
  }

  /** The body of the loop of `cutout_trace_file`, for one line. */
  method FilterLine(tag0: Option<string>, out0: seq<string>, line: string) returns (tag: Option<string>, out: seq<string>)
    ensures Filter(tag, out) == FilterStep(Filter(tag0, out0), line)
  {
    tag, out := tag0, out0;
    if tag.None? && Contains(line, "Begin:") {
      var named := SearchNeeded(line);
      if named {
        tag := Some(TagOf(line));
      }
    }
    assert tag == StartedTag(Filter(tag0, out0), line);
    if tag.Some? {
      out := out + [line];
    }
    if tag.Some? && Contains(line, "End:") && MatchesTag(line, tag.value) {
      tag := None;
    }
  }

  /** The inner loop of `cutout_trace_file` over `needed`: whether the line names a kept block. */
  method SearchNeeded(line: string) returns (named: bool)
    ensures named == NamesNeededBlock(line)
  {
    named := false;
    for k := 0 to |Needed|
      invariant named == exists j :: 0 <= j < k && EndsWithName(line, Needed[j])
    {
      if EndsWithName(line, Needed[k]) {
        named := true;
      }
    }
  }

  /** A line is written exactly when a block is active before it or the line itself starts one. */
  lemma KeptExactlyWhileActive(f: Filter, line: string)
    ensures FilterStep(f, line).kept == f.kept + (if f.tag.Some? || OpensBlock(line) then [line] else [])
  {
  }

  /** A `Begin:` line seen while a block is active does not replace its tag; only the block's
      own end line clears it. */
  lemma ActiveTagIsKept(f: Filter, line: string)
    requires f.tag.Some?
    ensures FilterStep(f, line).tag == if ClosesBlock(line, f.tag.value) then None else f.tag
  {
  }

  /** The reduced trace is an in-order subsequence of the input. */
  lemma {:induction false} CutoutIsSubsequence(lines: seq<string>)
    ensures IsSubsequence(Cutout(lines), lines)
    decreases |lines|
  {
    if lines != [] {
      var init, last := lines[..|lines| - 1], lines[|lines| - 1];
      CutoutIsSubsequence(init);
      assert lines == init + [last];
      if Cutout(lines) == Cutout(init) {
        Drop(Cutout(init), init, last);
      } else {
        Keep(Cutout(init), init, last);
      }
    }
  }

  lemma RunLine(f: Filter, a: seq<string>, line: string)
    ensures Run(f, a + [line]) == FilterStep(Run(f, a), line)
  {
    assert (a + [line])[..|a|] == a;
  }

  /** Filtering `a + b` is filtering `b` from where `a` left off. */
  lemma {:induction false} RunAppend(f: Filter, a: seq<string>, b: seq<string>)
    ensures Run(f, a + b) == Run(Run(f, a), b)
    decreases |b|
  {
    if b == [] {
      assert a + b == a;
    } else {
      var init := b[..|b| - 1];
      assert (a + b)[..|a + b| - 1] == a + init;
      RunAppend(f, a, init);
    }
  }

  /** An active block that the line does not close keeps the line and stays active. */
  lemma ActiveStep(f: Filter, line: string)
    requires f.tag.Some? && !ClosesBlock(line, f.tag.value)
    ensures FilterStep(f, line) == Filter(f.tag, f.kept + [line])
  {
  }

  /** No line of `b` ends the block named by `tag`. */
  predicate KeepsOpen(b: seq<string>, tag: string)
    decreases |b|
  {
    b == [] || (KeepsOpen(b[..|b| - 1], tag) && !ClosesBlock(b[|b| - 1], tag))
  }

  lemma {:induction false} KeepsOpenLines(b: seq<string>, tag: string)
    ensures KeepsOpen(b, tag) <==> forall j :: 0 <= j < |b| ==> !ClosesBlock(b[j], tag)
    decreases |b|
  {
    if b != [] {
      var init := b[..|b| - 1];
      KeepsOpenLines(init, tag);
      assert forall j :: 0 <= j < |init| ==> init[j] == b[j];
    }
  }

  /** While a block is active, lines that do not close it are all kept and it stays active. */
  lemma {:induction false} UnclosedBlockKeepsRest(f: Filter, b: seq<string>)
    requires f.tag.Some? && KeepsOpen(b, f.tag.value)
    ensures Run(f, b) == Filter(f.tag, f.kept + b)
    decreases |b|
  {
    if b == [] {
      assert f.kept + b == f.kept;
    } else {
      var init, last := b[..|b| - 1], b[|b| - 1];
      UnclosedBlockKeepsRest(f, init);
      ActiveStep(Filter(f.tag, f.kept + init), last);
      assert (f.kept + init) + [last] == f.kept + b;
    }
  }

  /** With no block active, a block whose start line opens it, whose body does not close it
      and whose end line does is kept whole, start and end lines included, and leaves no block
      active. */
  lemma BalancedBlockKept(f: Filter, begin: string, body: seq<string>, end: string)
    requires f.tag.None?
    requires OpensBlock(begin) && !ClosesBlock(begin, TagOf(begin))
    requires forall j :: 0 <= j < |body| ==> !ClosesBlock(body[j], TagOf(begin))
    requires ClosesBlock(end, TagOf(begin))
    ensures Run(f, [begin] + body + [end]) == Filter(None, f.kept + [begin] + body + [end])
  {
    var active := Filter(Some(TagOf(begin)), f.kept + [begin]);
    assert Run(f, [begin]) == active by { RunLine(f, [], begin); }
    KeepsOpenLines(body, TagOf(begin));
    UnclosedBlockKeepsRest(active, body);
    RunAppend(f, [begin], body);
    RunLine(f, [begin] + body, end);
    assert active.kept + body + [end] == f.kept + [begin] + body + [end];
  }

  /** While no block is active, a line that does not start one is dropped. */
  lemma OutsideLineDropped(f: Filter, line: string)
    requires f.tag.None? && !OpensBlock(line)
    ensures FilterStep(f, line) == f
  {
  }
}
