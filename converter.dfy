/** `convert`: one engine's trace lines become the rows of a C array of `ncr_command_t`: a
    header, a row or a comment per line, and the NULL sentinel and closing brace as a footer. */
module Converter {
  import opened Wrappers
  import opened Text
  import opened Records
  import opened Numbers
  import opened Writes
  import opened Handlers

  /** `\w`: letters, digits and the underscore. */
  predicate IsWordChar(c: char)
  {
    ('a' <= c <= 'z') || ('A' <= c <= 'Z') || ('0' <= c <= '9') || c == '_'
  }

  lemma WordCharIsNoSpace(c: char)
    requires IsWordChar(c)
    ensures !IsSpace(c)
  {
  }

  /** A run of `\w` characters: what `([\w]+)` captures. */
  predicate IsKeyword(c: string)
  {
    c != [] && forall i :: 0 <= i < |c| ==> IsWordChar(c[i])
  }

  /** The length of the leading run of `\w` characters of `s`. */
  function WordRun(s: string): (n: nat)
    ensures n <= |s|
    ensures forall i :: 0 <= i < n ==> IsWordChar(s[i])
    ensures n == |s| || !IsWordChar(s[n])
    decreases |s|
  {
    if s == [] || !IsWordChar(s[0]) then 0 else 1 + WordRun(s[1..])
  }

  /** `(.*)`: `s` up to its first newline. */
  function UpToNewline(s: string): (r: string)
    ensures |r| <= |s| && r == s[..|r|]
    ensures forall i :: 0 <= i < |r| ==> r[i] != '\n'
    ensures |r| < |s| ==> s[|r|] == '\n'
    decreases |s|
  {
    if s == [] || s[0] == '\n' then []
    else
      var rest := UpToNewline(s[1..]);
      assert [s[0]] + rest == s[..1 + |rest|];
      [s[0]] + rest
  }

  /** A `([\w]+)\s+` match can end its word at `q`: a word character before `q`, white space
      at `q`. */
  predicate SplitsAt(line: string, q: int)
  {
    0 < q < |line| && IsWordChar(line[q - 1]) && IsSpace(line[q])
  }

  /** `re.search(r'([\w]+)\s+(.*)', line)`: the command is the first run of word characters
      followed by white space, and the options are what follows that white space up to the end
      of the line. No match is `None`. */
  function KeywordSplit(line: string): (r: Option<(string, string)>)
    ensures r.Some? ==> IsKeyword(r.value.0)
    ensures r.Some? ==> forall i :: 0 <= i < |r.value.1| ==> r.value.1[i] != '\n'
    decreases |line|
  {
    if line == [] then None
    else
      var n := WordRun(line);
      if 0 < n < |line| && IsSpace(line[n]) then Some((line[..n], UpToNewline(TrimLeft(line[n..], Whitespace))))
      else KeywordSplit(line[if n == 0 then 1 else n..])
  }

  /** Where KeywordSplit goes on looking when no match begins at the start of `line`. */
  function Skip(line: string): (k: nat)
    requires line != []
    ensures 0 < k <= |line|
  {
    var n := WordRun(line);
    if n == 0 then 1 else n
  }

  /** When no match begins at the start of `line`, none ends before Skip. */
  lemma NoSplitBeforeSkip(line: string, q: int)
    requires line != []
    requires var n := WordRun(line); !(0 < n < |line| && IsSpace(line[n]))
    requires q <= Skip(line)
    ensures !SplitsAt(line, q)
  {
    var n := WordRun(line);
    if q <= 0 {
    } else if n == 0 {
      assert q == 1 && !IsWordChar(line[0]);
    } else if q < n {
      WordCharIsNoSpace(line[q]);
    } else {
      assert q == n;
    }
  }

  /** The ends of matches past `k` are those of `line[k..]`, shifted. */
  lemma SplitsShift(line: string, k: nat, q: int)
    requires k < q && k <= |line|
    ensures SplitsAt(line, q) <==> SplitsAt(line[k..], q - k)
  {
    if q < |line| {
      assert line[k..][q - k] == line[q] && line[k..][q - k - 1] == line[q - 1];
    }
  }

  /** The pattern fails exactly on a line where no word character is followed by white space. */
  lemma {:induction false} KeywordSplitNone(line: string)
    ensures KeywordSplit(line).None? <==> forall q :: !SplitsAt(line, q)
    decreases |line|
  {
    if line != [] {
      var n := WordRun(line);
      if 0 < n < |line| && IsSpace(line[n]) {
        assert SplitsAt(line, n);
      } else {
        var k := Skip(line);
        KeywordSplitNone(line[k..]);
        if forall q :: !SplitsAt(line[k..], q) {
          forall q ensures !SplitsAt(line, q) {
            if q > k {
              SplitsShift(line, k, q);
            } else {
              NoSplitBeforeSkip(line, q);
            }
          }
        } else {
          var q :| SplitsAt(line[k..], q);
          assert q > 0;
          SplitsShift(line, k, q + k);
        }
      }
    }
  }

  /** The match KeywordSplit reports: the command starts at `p` after a non-word character (or
      at the start), is followed by white space, no earlier match ends before it, and the
      options are what follows the white space up to the end of the line. */
  ghost predicate MatchAt(line: string, p: nat, command: string, options: string)
  {
    && p + |command| < |line| && line[p..p + |command|] == command
    && (p == 0 || !IsWordChar(line[p - 1]))
    && SplitsAt(line, p + |command|)
    && (forall q :: 0 <= q < p + |command| ==> !SplitsAt(line, q))
    && options == UpToNewline(TrimLeft(line[p + |command|..], Whitespace))
  }

  /** A word run at the start of the line followed by white space is the leftmost match. */
  lemma MatchAtStart(line: string)
    requires var n := WordRun(line); 0 < n < |line| && IsSpace(line[n])
    ensures var n := WordRun(line); MatchAt(line, 0, line[..n], UpToNewline(TrimLeft(line[n..], Whitespace)))
  {
    var n := WordRun(line);
    forall q | 0 <= q < n
      ensures !SplitsAt(line, q)
    {
      if 0 < q {
        WordCharIsNoSpace(line[q]);
      }
    }
  }

  lemma DropSlice(s: string, k: nat, i: nat, j: nat)
    requires i <= j && k + j <= |s|
    ensures s[k..][i..j] == s[k + i..k + j] && s[k..][i..] == s[k + i..]
  {
  }

  /** A match in `line[k..]` is a match of `line` when no match of `line` ends at or before `k`
      and a command at the start of `line[k..]` follows a non-word character. */
  lemma MatchShift(line: string, k: nat, p: nat, command: string, options: string)
    requires k <= |line| && MatchAt(line[k..], p, command, options)
    requires forall q :: 0 <= q <= k ==> !SplitsAt(line, q)
    requires p == 0 && k > 0 ==> !IsWordChar(line[k - 1])
    ensures MatchAt(line, p + k, command, options)
  {
    var rest := line[k..];
    var e := p + k + |command|;
    DropSlice(line, k, p, p + |command|);
    DropSlice(line, k, p + |command|, p + |command|);
    SplitsShift(line, k, e);
    NoSplitsShift(line, k, e);
    if p > 0 {
      assert line[p + k - 1] == rest[p - 1];
    }
  }

  /** No match ends in `line` before `e` when none ends up to `k` and none ends in `line[k..]`
      before `e`. */
  lemma NoSplitsShift(line: string, k: nat, e: nat)
    requires k <= e <= |line|
    requires forall q :: 0 <= q <= k ==> !SplitsAt(line, q)
    requires forall q :: 0 <= q < e - k ==> !SplitsAt(line[k..], q)
    ensures forall q :: 0 <= q < e ==> !SplitsAt(line, q)
  {
    forall q | k < q < e
      ensures !SplitsAt(line, q)
    {
      SplitsShift(line, k, q);
    }
  }

  /** A match begins with a word character. */
  lemma MatchStartsWithWord(s: string, p: nat, command: string, options: string)
    requires IsKeyword(command) && MatchAt(s, p, command, options)
    ensures IsWordChar(s[p])
  {
    assert s[p] == s[p..p + |command|][0];
  }

  /** A match in what follows Skip is a match of the line. */
  lemma MatchAfterSkip(line: string, k: nat, p: nat, command: string, options: string)
    requires line != [] && k == Skip(line)
    requires var n := WordRun(line); !(0 < n < |line| && IsSpace(line[n]))
    requires IsKeyword(command) && MatchAt(line[k..], p, command, options)
    ensures MatchAt(line, p + k, command, options)
  {
    assert forall q :: 0 <= q <= k ==> !SplitsAt(line, q) by {
      forall q | 0 <= q <= k
        ensures !SplitsAt(line, q)
      {
        NoSplitBeforeSkip(line, q);
      }
    }
    assert p == 0 && k > 0 ==> !IsWordChar(line[k - 1]) by {
      MatchStartsWithWord(line[k..], p, command, options);
      assert line[k..][p] == line[k + p];
    }
    MatchShift(line, k, p, command, options);
  }

  /** KeywordSplit finds the leftmost match, with the whole word run in front of it. */
  lemma {:induction false} KeywordSplitLeftmost(line: string)
    requires KeywordSplit(line).Some?
    ensures exists p: nat :: MatchAt(line, p, KeywordSplit(line).value.0, KeywordSplit(line).value.1)
    decreases |line|
  {
    var n := WordRun(line);
    if 0 < n < |line| && IsSpace(line[n]) {
      MatchAtStart(line);
      assert MatchAt(line, 0, KeywordSplit(line).value.0, KeywordSplit(line).value.1);
    } else {
      var k := Skip(line);
      assert KeywordSplit(line) == KeywordSplit(line[k..]);
      KeywordSplitLeftmost(line[k..]);
      var r := KeywordSplit(line).value;
      var p: nat :| MatchAt(line[k..], p, r.0, r.1);
      MatchAfterSkip(line, k, p, r.0, r.1);
    }
  }

  lemma {:induction false} WordRunOf(c: string, rest: string)
    requires IsKeyword(c)
    requires rest == [] || !IsWordChar(rest[0])
    ensures WordRun(c + rest) == |c|
    decreases |c|
  {
    if |c| > 1 {
      assert (c + rest)[1..] == c[1..] + rest;
      WordRunOf(c[1..], rest);
    } else {
      assert (c + rest)[1..] == rest;
    }
  }

  /** How a line from `for line in f` ends: with its newline, or with nothing on the last line
      of a file that does not end in one. */
  predicate IsLineEnd(eol: string)
  {
    eol == [] || eol == "\n"
  }

  /** `(.*)` takes a text without newlines whole, and stops at the line's end. */
  lemma {:induction false} UpToNewlineOf(s: string, eol: string)
    requires forall i :: 0 <= i < |s| ==> s[i] != '\n'
    requires IsLineEnd(eol)
    ensures UpToNewline(s + eol) == s
    decreases |s|
  {
    if s != [] {
      assert (s + eol)[1..] == s[1..] + eol;
      UpToNewlineOf(s[1..], eol);
    } else {
      assert s + eol == eol;
    }
  }

  /** A command followed by white space matches at the start of the line. */
  lemma KeywordSplitAt(command: string, after: string)
    requires IsKeyword(command)
    requires after != [] && IsSpace(after[0])
    ensures KeywordSplit(command + after) == Some((command, UpToNewline(TrimLeft(after, Whitespace))))
  {
    var line := command + after;
    WordRunOf(command, after);
    assert line[|command|] == after[0];
    assert line[..|command|] == command && line[|command|..] == after;
  }

  /** White space, options that start with no white space and hold no newline, and the line's
      end leave exactly the options to `\s+(.*)`. */
  lemma OptionsAfterBlank(blank: string, options: string, eol: string)
    requires forall i :: 0 <= i < |blank| ==> IsSpace(blank[i])
    requires options == [] || !IsSpace(options[0])
    requires forall i :: 0 <= i < |options| ==> options[i] != '\n'
    requires IsLineEnd(eol)
    ensures UpToNewline(TrimLeft(blank + options + eol, Whitespace)) == options
  {
    if options == [] {
      assert blank + options + eol == (blank + eol) + [];
      TrimLeftPrefix(blank + eol, [], Whitespace);
    } else {
      assert blank + options + eol == blank + (options + eol);
      TrimLeftPrefix(blank, options + eol, Whitespace);
      UpToNewlineOf(options, eol);
    }
  }

  /** A command, a run of white space and options that start with no white space and hold no
      newline, then the line's end, split back into the command and the options. */
  lemma KeywordSplitOf(command: string, blank: string, options: string, eol: string)
    requires IsKeyword(command)
    requires blank != [] && forall i :: 0 <= i < |blank| ==> IsSpace(blank[i])
    requires options == [] || !IsSpace(options[0])
    requires forall i :: 0 <= i < |options| ==> options[i] != '\n'
    requires IsLineEnd(eol)
    ensures KeywordSplit(command + blank + options + eol) == Some((command, options))
  {
    var after := blank + options + eol;
    assert command + blank + options + eol == command + after;
    assert after[0] == blank[0];
    KeywordSplitAt(command, after);
    OptionsAfterBlank(blank, options, eol);
  }

  /** The handlers `convert` dispatches to. */
  const Commands: set<string> := {"ncpWrite", "ncpRead", "ncpModify", "ncpUsleep", "ncpPoll"}

  /** `handlers[command](f, options, parsed_data)`; an unknown command raises the `KeyError`
      that `convert` catches, and writes nothing. */
  function Handle(command: string, options: string, refUsePad: Option<int>): (o: Outcome)
    ensures forall j :: 0 <= j < |o.records| ==> IsCommand(o.records[j])
  {
    if command == "ncpWrite" then ConvertWrite(options, refUsePad)
    else if command == "ncpRead" then ConvertRead(options)
    else if command == "ncpModify" then ConvertModify(options)
    else if command == "ncpUsleep" then ConvertUsleep(options)
    else if command == "ncpPoll" then ConvertPoll(options)
    else Outcome([], false)
  }

  lemma UnknownCommandHandled(command: string, options: string, refUsePad: Option<int>)
    requires command !in Commands
    ensures Handle(command, options, refUsePad) == Outcome([], false)
  {
  }

  /** The dispatch of `convert`, with the write handler run one value pair at a time. */
  method Dispatch(command: string, options: string, refUsePad: Option<int>) returns (records: seq<Record>, raised: bool)
    ensures Outcome(records, raised) == Handle(command, options, refUsePad)
  {
    if command == "ncpWrite" {
      records, raised := ConvertNcpWrite(options, refUsePad);
    } else {
      var o := Handle(command, options, refUsePad);
      records, raised := o.records, o.raised;
    }
  }

  /** Whether `convert` goes on: still reading, stopped at a line it could not parse (`break`),
      or abandoned by an exception from a handler. */
  datatype Status = Reading | Stopped | Raised

  /** What `convert` has written so far, and how its loop stands. */
  datatype Progress = Progress(records: seq<Record>, status: Status)

  /** One iteration of the loop of `convert`: an empty line is skipped, a `#` line becomes a
      comment, any other line is a command for its handler. */
  function Line(p: Progress, line: string, refUsePad: Option<int>): Progress
  {
    if !p.status.Reading? || line == [] then p
    else if line[0] == '#' then p.(records := p.records + CComment(line))
    else match KeywordSplit(line)
      case None => p.(status := Stopped)
      case Some((command, options)) =>
        var o := Handle(command, options, refUsePad);
        Progress(p.records + o.records, if o.raised then Raised else Reading)
  }

  /** The loop of `convert` from `p` over `lines`. */
  function Lines(p: Progress, lines: seq<string>, refUsePad: Option<int>): Progress
    decreases |lines|
  {
    if lines == [] then p else Lines(Line(p, lines[0], refUsePad), lines[1..], refUsePad)
  }

  function Begin(name: string): Progress
  {
    Progress([Header(name)], Reading)
  }

  /** `convert(name + '.c', lines, ...)`: the header, the loop, and the footer unless a handler
      raised. */
  function ConvertFile(name: string, lines: seq<string>, refUsePad: Option<int>): Outcome
  {
    var p := Lines(Begin(name), lines, refUsePad);
    Outcome(p.records + (if p.status.Raised? then [] else [Null, Close]), p.status.Raised?)
  }

  /** Once the loop has stopped, the remaining lines change nothing. */
  lemma {:induction false} HaltedStaysHalted(p: Progress, lines: seq<string>, refUsePad: Option<int>)
    requires !p.status.Reading?
    ensures Lines(p, lines, refUsePad) == p
    decreases |lines|
  {
    if lines != [] {
      HaltedStaysHalted(p, lines[1..], refUsePad);
    }
  }

  /** The loop runs over `a + b` as over `a` and then `b`. */
  lemma {:induction false} LinesAppend(p: Progress, a: seq<string>, b: seq<string>, refUsePad: Option<int>)
    ensures Lines(p, a + b, refUsePad) == Lines(Lines(p, a, refUsePad), b, refUsePad)
    decreases |a|
  {
    if a != [] {
      assert (a + b)[0] == a[0] && (a + b)[1..] == a[1..] + b;
      LinesAppend(Line(p, a[0], refUsePad), a[1..], b, refUsePad);
    } else {
      assert a + b == b;
    }
  }

  lemma LinesStep(p: Progress, lines: seq<string>, i: nat, refUsePad: Option<int>)
    requires i < |lines|
    ensures Lines(p, lines[i..], refUsePad) == Lines(Line(p, lines[i], refUsePad), lines[i + 1..], refUsePad)
  {
    assert lines[i..][0] == lines[i] && lines[i..][1..] == lines[i + 1..];
  }

  /** A line that splits goes to its command's handler. */
  lemma LineHandled(p: Progress, line: string, command: string, options: string, refUsePad: Option<int>)
    requires p.status.Reading? && line != [] && line[0] != '#' && KeywordSplit(line) == Some((command, options))
    ensures var o := Handle(command, options, refUsePad);
      Line(p, line, refUsePad) == Progress(p.records + o.records, if o.raised then Raised else Reading)
  {
  }

  /** `convert`, writing into a list of records instead of a file. */
  method Convert(name: string, lines: seq<string>, refUsePad: Option<int>) returns (records: seq<Record>, raised: bool)
    ensures Outcome(records, raised) == ConvertFile(name, lines, refUsePad)
  {
    ghost var final := Lines(Begin(name), lines, refUsePad);
    records := [Header(name)];
    var i := 0;
    while i < |lines|
      invariant 0 <= i <= |lines|
      invariant Lines(Progress(records, Reading), lines[i..], refUsePad) == final
    {
      var line := lines[i];
      ghost var here := Progress(records, Reading);
      LinesStep(here, lines, i, refUsePad);
      if line == [] {
        assert Line(here, line, refUsePad) == here;
        i := i + 1;
        continue;
      }
      if line[0] == '#' {
        assert Line(here, line, refUsePad) == Progress(records + CComment(line), Reading);
        records := records + CComment(line);
        i := i + 1;
        continue;
      }
      var split := KeywordSplit(line);
      if split.None? {
        assert Line(here, line, refUsePad) == Progress(records, Stopped);
        HaltedStaysHalted(Progress(records, Stopped), lines[i + 1..], refUsePad);
        break;
      }
      var command, options := split.value.0, split.value.1;
      var out, failed := Dispatch(command, options, refUsePad);
      LineHandled(here, line, command, options, refUsePad);
      if failed {
        HaltedStaysHalted(Progress(records + out, Raised), lines[i + 1..], refUsePad);
        return records + out, true;
      }
      records := records + out;
      i := i + 1;
    }
    assert final.records == records && !final.status.Raised?;
    records := records + [Null, Close];
    raised := false;
  }

  // ---------------------------------------------------------------------------------------
  // Properties of the loop.

  /** The output as an array: the header first, then command rows and comments only. */
  ghost predicate Shaped(name: string, rs: seq<Record>)
  {
    |rs| >= 1 && rs[0] == Header(name) && forall j :: 1 <= j < |rs| ==> IsCommand(rs[j])
  }

  lemma ShapedAppend(name: string, rs: seq<Record>, more: seq<Record>)
    requires Shaped(name, rs) && forall j :: 0 <= j < |more| ==> IsCommand(more[j])
    ensures Shaped(name, rs + more)
  {
    var all := rs + more;
    forall j | 1 <= j < |all|
      ensures IsCommand(all[j])
    {
      if j >= |rs| {
        assert all[j] == more[j - |rs|];
      }
    }
  }

  lemma LineShaped(name: string, p: Progress, line: string, refUsePad: Option<int>)
    requires Shaped(name, p.records)
    ensures Shaped(name, Line(p, line, refUsePad).records)
  {
    if p.status.Reading? && line != [] {
      if line[0] == '#' {
        ShapedAppend(name, p.records, CComment(line));
      } else if KeywordSplit(line).Some? {
        var (command, options) := KeywordSplit(line).value;
        ShapedAppend(name, p.records, Handle(command, options, refUsePad).records);
      }
    }
  }

  lemma {:induction false} LinesShaped(name: string, p: Progress, lines: seq<string>, refUsePad: Option<int>)
    requires Shaped(name, p.records)
    ensures Shaped(name, Lines(p, lines, refUsePad).records)
    decreases |lines|
  {
    if lines != [] {
      LineShaped(name, p, lines[0], refUsePad);
      LinesShaped(name, Line(p, lines[0], refUsePad), lines[1..], refUsePad);
    }
  }

  /** Every output starts with the header, holds command rows and comments only in between, and
      ends with the NULL sentinel and the closing brace exactly when no handler raised. */
  lemma ConvertFileShape(name: string, lines: seq<string>, refUsePad: Option<int>)
    ensures var o := ConvertFile(name, lines, refUsePad);
      var n := |o.records| - (if o.raised then 0 else 2);
      && 1 <= n <= |o.records| && o.records[0] == Header(name)
      && (forall j :: 1 <= j < n ==> IsCommand(o.records[j]))
      && (!o.raised ==> o.records[n..] == [Null, Close])
  {
    LinesShaped(name, Begin(name), lines, refUsePad);
    var p := Lines(Begin(name), lines, refUsePad);
    if !p.status.Raised? {
      var o := ConvertFile(name, lines, refUsePad);
      assert o.records[..|p.records|] == p.records;
      assert forall j :: 1 <= j < |p.records| ==> o.records[j] == p.records[j];
    }
  }

  /** A line of white space only is not skipped like an empty one: no word character starts a
      match, so the array ends there. */
  lemma SpaceLineEndsArray(name: string, before: seq<string>, line: string, after: seq<string>, refUsePad: Option<int>)
    requires Lines(Begin(name), before, refUsePad).status.Reading?
    requires line != [] && forall i :: 0 <= i < |line| ==> IsSpace(line[i])
    ensures ConvertFile(name, before + [line] + after, refUsePad)
         == Outcome(Lines(Begin(name), before, refUsePad).records + [Null, Close], false)
  {
    assert line[0] != '#' by {
      assert IsSpace(line[0]);
    }
    forall q | SplitsAt(line, q)
      ensures false
    {
      WordCharIsNoSpace(line[q - 1]);
    }
    UnparsableLineEndsArray(name, before, line, after, refUsePad);
  }

  /** A line `convert` cannot parse ends the array there: the lines after it are ignored, and
      the footer is still written. */
  lemma UnparsableLineEndsArray(name: string, before: seq<string>, line: string, after: seq<string>, refUsePad: Option<int>)
    requires Lines(Begin(name), before, refUsePad).status.Reading?
    requires line != [] && line[0] != '#'
    requires forall q :: !SplitsAt(line, q)
    ensures ConvertFile(name, before + [line] + after, refUsePad)
         == Outcome(Lines(Begin(name), before, refUsePad).records + [Null, Close], false)
  {
    var p := Lines(Begin(name), before, refUsePad);
    KeywordSplitNone(line);
    LinesAppend(Begin(name), before + [line], after, refUsePad);
    LinesAppend(Begin(name), before, [line], refUsePad);
    assert Lines(p, [line], refUsePad) == Line(p, line, refUsePad) == p.(status := Stopped);
    HaltedStaysHalted(p.(status := Stopped), after, refUsePad);
  }

  /** When a handler raises, the array is left without its footer, and the lines after that
      line are not converted. */
  lemma RaiseAbandonsArray(name: string, before: seq<string>, line: string, after: seq<string>, refUsePad: Option<int>)
    requires Lines(Begin(name), before, refUsePad).status.Reading?
    requires line != [] && line[0] != '#' && KeywordSplit(line).Some?
    requires Handle(KeywordSplit(line).value.0, KeywordSplit(line).value.1, refUsePad).raised
    ensures var o := Handle(KeywordSplit(line).value.0, KeywordSplit(line).value.1, refUsePad);
      ConvertFile(name, before + [line] + after, refUsePad)
         == Outcome(Lines(Begin(name), before, refUsePad).records + o.records, true)
  {
    var p := Lines(Begin(name), before, refUsePad);
    LinesAppend(Begin(name), before + [line], after, refUsePad);
    LinesAppend(Begin(name), before, [line], refUsePad);
    assert Lines(p, [line], refUsePad) == Line(p, line, refUsePad);
    HaltedStaysHalted(Line(p, line, refUsePad), after, refUsePad);
  }

  /** A line whose command has no handler is passed over. */
  lemma UnknownCommandSkipped(p: Progress, line: string, refUsePad: Option<int>)
    requires line != [] && line[0] != '#'
    requires KeywordSplit(line).Some? && KeywordSplit(line).value.0 !in Commands
    ensures Line(p, line, refUsePad) == p
  {
    UnknownCommandHandled(KeywordSplit(line).value.0, KeywordSplit(line).value.1, refUsePad);
  }

  // ---------------------------------------------------------------------------------------
  // Command lines as a trace prints them.

  /** A command, one space, options that start with a token character and hold no newline, and
      the line's end: the line goes to the command's handler with exactly those options. */
  lemma CommandLine(p: Progress, command: string, options: string, eol: string, refUsePad: Option<int>)
    requires p.status.Reading? && IsKeyword(command)
    requires options == [] || !IsSpace(options[0])
    requires forall i :: 0 <= i < |options| ==> options[i] != '\n'
    requires IsLineEnd(eol)
    ensures var o := Handle(command, options, refUsePad);
      Line(p, command + " " + options + eol, refUsePad) == Progress(p.records + o.records, if o.raised then Raised else Reading)
  {
    assert IsSpace(" "[0]);
    KeywordSplitOf(command, " ", options, eol);
    assert (command + " " + options + eol)[0] == command[0];
  }

  /** The names of the handlers are runs of word characters. */
  lemma CommandsAreKeywords()
    ensures IsKeyword("ncpWrite") && IsKeyword("ncpRead") && IsKeyword("ncpModify")
    ensures IsKeyword("ncpUsleep") && IsKeyword("ncpPoll")
  {
  }

  /** Options made of the tokens `ws`, joined by single spaces, go to the handler whole. */
  lemma TokensLine(p: Progress, command: string, ws: seq<string>, eol: string, refUsePad: Option<int>)
    requires p.status.Reading? && IsKeyword(command) && IsLineEnd(eol)
    requires ws != [] && forall k :: 0 <= k < |ws| ==> IsWord(ws[k])
    ensures var o := Handle(command, JoinWords(ws), refUsePad);
      Line(p, command + " " + JoinWords(ws) + eol, refUsePad) == Progress(p.records + o.records, if o.raised then Raised else Reading)
  {
    JoinWordsShape(ws);
    CommandLine(p, command, JoinWords(ws), eol, refUsePad);
  }

  /** TokensLine, given the handler's outcome. */
  lemma HandledTokensLine(p: Progress, command: string, ws: seq<string>, eol: string, refUsePad: Option<int>, o: Outcome)
    requires p.status.Reading? && IsKeyword(command) && IsLineEnd(eol)
    requires ws != [] && forall k :: 0 <= k < |ws| ==> IsWord(ws[k])
    requires Handle(command, JoinWords(ws), refUsePad) == o
    ensures Line(p, command + " " + JoinWords(ws) + eol, refUsePad) == Progress(p.records + o.records, if o.raised then Raised else Reading)
  {
    TokensLine(p, command, ws, eol, refUsePad);
  }

  /** `ncpRead <address>` becomes the pause and the read of that register. */
  lemma ReadLineConverts(p: Progress, domain: string, r: Region, eol: string, refUsePad: Option<int>)
    requires p.status.Reading? && IsField(domain) && IsLineEnd(eol)
    ensures Line(p, "ncpRead" + " " + RegionText(domain, r) + eol, refUsePad)
         == Progress(p.records + [Usleep("1000"), Read(r.node, r.target, r.offset)], Reading)
  {
    CommandsAreKeywords();
    RegionTextIsWord(domain, r);
    assert JoinWords([RegionText(domain, r)]) == RegionText(domain, r);
    TokensLine(p, "ncpRead", [RegionText(domain, r)], eol, refUsePad);
    ReadRoundTrip(domain, r);
  }

  /** A printed address and printed values are all tokens. */
  lemma WriteTokensAreWords(domain: string, r: Region, vs: seq<int>, ws: seq<string>)
    requires IsField(domain) && ws == [RegionText(domain, r)] + HexStrings(vs)
    ensures forall k :: 0 <= k < |ws| ==> IsWord(ws[k])
  {
    forall k | 0 <= k < |ws|
      ensures IsWord(ws[k])
    {
      if k == 0 {
        RegionTextIsWord(domain, r);
      } else {
        assert ws[k] == HexString(vs[k - 1]);
        HexStringIsWord(vs[k - 1]);
      }
    }
  }

  /** `ncpWrite <address> <values>` without the pad setting becomes one live write per value at
      consecutive words. */
  lemma WriteLineConverts(p: Progress, domain: string, r: Region, vs: seq<int>, eol: string)
    requires p.status.Reading? && IsField(domain) && vs != [] && !IsSkipped(r.node, r.target, r.offset)
    requires IsLineEnd(eol)
    ensures Line(p, "ncpWrite" + " " + JoinWords([RegionText(domain, r)] + HexStrings(vs)) + eol, None)
         == Progress(p.records + LiveWrites(r.node, r.target, r.offset, vs), Reading)
  {
    var ws := [RegionText(domain, r)] + HexStrings(vs);
    var o := Outcome(LiveWrites(r.node, r.target, r.offset, vs), false);
    assert IsKeyword("ncpWrite") && forall k :: 0 <= k < |ws| ==> IsWord(ws[k]) by {
      CommandsAreKeywords();
      WriteTokensAreWords(domain, r, vs, ws);
    }
    assert Handle("ncpWrite", JoinWords(ws), None) == o by {
      WriteRoundTrip(domain, r, vs);
    }
    HandledTokensLine(p, "ncpWrite", ws, eol, None, o);
  }

  /** `ncpModify <address> <mask> <value>` becomes that modify. */
  lemma ModifyLineConverts(p: Progress, domain: string, r: Region, mask: int, value: int, eol: string, refUsePad: Option<int>)
    requires p.status.Reading? && IsField(domain) && IsLineEnd(eol)
    ensures Line(p, "ncpModify" + " " + JoinWords([RegionText(domain, r), HexString(mask), HexString(value)]) + eol, refUsePad)
         == Progress(p.records + [Modify(r.node, r.target, r.offset, value, mask)], Reading)
  {
    CommandsAreKeywords();
    RegionTextIsWord(domain, r);
    HexStringIsWord(mask);
    HexStringIsWord(value);
    TokensLine(p, "ncpModify", [RegionText(domain, r), HexString(mask), HexString(value)], eol, refUsePad);
    ModifyRoundTrip(domain, r, mask, value);
  }

  lemma FlagsAreWords()
    ensures IsWord("-l") && IsWord("-t")
  {
  }

  /** `ncpPoll -l <loops> -t <timeout> <address> <mask> <value>` becomes that poll. */
  lemma PollLineConverts(p: Progress, loops: string, timeout: string, domain: string, r: Region, mask: int, value: int,
                          eol: string, refUsePad: Option<int>)
    requires p.status.Reading? && IsWord(loops) && IsWord(timeout) && IsField(domain) && IsLineEnd(eol)
    ensures var ws := ["-l", loops, "-t", timeout, RegionText(domain, r), HexString(mask), HexString(value)];
      Line(p, "ncpPoll" + " " + JoinWords(ws) + eol, refUsePad)
         == Progress(p.records + [Poll(r.node, r.target, r.offset, mask, value)], Reading)
  {
    CommandsAreKeywords();
    var ws := ["-l", loops, "-t", timeout, RegionText(domain, r), HexString(mask), HexString(value)];
    assert forall k :: 0 <= k < |ws| ==> IsWord(ws[k]) by {
      FlagsAreWords();
      RegionTextIsWord(domain, r);
      HexStringIsWord(mask);
      HexStringIsWord(value);
    }
    assert Handle("ncpPoll", JoinWords(ws), refUsePad) == Outcome([Poll(r.node, r.target, r.offset, mask, value)], false) by {
      PollRoundTrip(loops, timeout, domain, r, mask, value);
    }
    TokensLine(p, "ncpPoll", ws, eol, refUsePad);
  }

  /** `ncpUsleep <duration>` copies the duration into the record. */
  lemma UsleepLineConverts(p: Progress, duration: string, eol: string, refUsePad: Option<int>)
    requires p.status.Reading? && IsLineEnd(eol)
    requires duration == [] || !IsSpace(duration[0])
    requires forall i :: 0 <= i < |duration| ==> duration[i] != '\n'
    ensures Line(p, "ncpUsleep" + " " + duration + eol, refUsePad) == Progress(p.records + [Usleep(duration)], Reading)
  {
    CommandsAreKeywords();
    CommandLine(p, "ncpUsleep", duration, eol, refUsePad);
  }

  // ---------------------------------------------------------------------------------------
  // Concatenated inputs, as `save_trace` converts EIOA's lines followed by EIOAE's.

  /** One iteration appends to what was written before and never looks at it. */
  lemma LineFrom(p: Progress, line: string, refUsePad: Option<int>)
    ensures var q := Line(Progress([], p.status), line, refUsePad);
      Line(p, line, refUsePad) == Progress(p.records + q.records, q.status)
  {
    if p.status.Reading? && line != [] && line[0] == '#' {
      assert [] + CComment(line) == CComment(line);
    } else if p.status.Reading? && line != [] && KeywordSplit(line).Some? {
      var (command, options) := KeywordSplit(line).value;
      assert [] + Handle(command, options, refUsePad).records == Handle(command, options, refUsePad).records;
    } else {
      assert p.records + [] == p.records;
    }
  }

  /** The loop appends to what was written before, and how it ends depends only on the status it
      starts in. */
  lemma {:induction false} LinesFrom(p: Progress, lines: seq<string>, refUsePad: Option<int>)
    ensures var q := Lines(Progress([], p.status), lines, refUsePad);
      Lines(p, lines, refUsePad) == Progress(p.records + q.records, q.status)
    decreases |lines|
  {
    if lines == [] {
      assert p.records + [] == p.records;
    } else {
      var q, rest := Progress([], p.status), lines[1..];
      var p1, q1 := Line(p, lines[0], refUsePad), Line(q, lines[0], refUsePad);
      LineFrom(p, lines[0], refUsePad);
      LinesFrom(p1, rest, refUsePad);
      LinesFrom(q1, rest, refUsePad);
      Splice(p, p1, q1, Lines(p1, rest, refUsePad), Lines(q1, rest, refUsePad), Lines(Progress([], q1.status), rest, refUsePad));
    }
  }

  lemma Splice(p: Progress, p1: Progress, q1: Progress, x: Progress, y: Progress, c: Progress)
    requires p1 == Progress(p.records + q1.records, q1.status)
    requires x == Progress(p1.records + c.records, c.status)
    requires y == Progress(q1.records + c.records, c.status)
    ensures x == Progress(p.records + y.records, y.status)
  {
    assert p.records + q1.records + c.records == p.records + (q1.records + c.records);
  }

  /** Converting `a` and then `b` in one array, when the lines of `a` are all read: the rows of
      `a` after the header, then those of `b`, then the footer unless `b` raised. */
  lemma MergedArray(name: string, a: seq<string>, b: seq<string>, refUsePad: Option<int>)
    requires Lines(Begin(name), a, refUsePad).status.Reading?
    ensures var first, second := Lines(Begin(name), a, refUsePad), ConvertFile(name, b, refUsePad);
      |second.records| >= 1 && second.records[0] == Header(name)
      && ConvertFile(name, a + b, refUsePad) == Outcome(first.records + second.records[1..], second.raised)
  {
    var p := Lines(Begin(name), a, refUsePad);
    var x := Lines(Progress([], Reading), b, refUsePad);
    LinesAppend(Begin(name), a, b, refUsePad);
    LinesFrom(p, b, refUsePad);
    LinesFrom(Begin(name), b, refUsePad);
    FilesOfProgress(name, a + b, b, p.records, x, refUsePad);
  }

  /** The two arrays, given where the loop ends on each input: one goes on from `first`, the
      other from the bare header, and both end in the same rows `x`. */
  lemma FilesOfProgress(name: string, ab: seq<string>, b: seq<string>, first: seq<Record>, x: Progress, refUsePad: Option<int>)
    requires Lines(Begin(name), ab, refUsePad) == Progress(first + x.records, x.status)
    requires Lines(Begin(name), b, refUsePad) == Progress([Header(name)] + x.records, x.status)
    ensures var second := ConvertFile(name, b, refUsePad);
      |second.records| >= 1 && second.records[0] == Header(name)
      && ConvertFile(name, ab, refUsePad) == Outcome(first + second.records[1..], second.raised)
  {
    var footer: seq<Record> := if x.status.Raised? then [] else [Null, Close];
    var rows := x.records + footer;
    assert ConvertFile(name, b, refUsePad) == Outcome([Header(name)] + rows, x.status.Raised?) by {
      assert [Header(name)] + x.records + footer == [Header(name)] + rows;
    }
    assert ConvertFile(name, ab, refUsePad) == Outcome(first + rows, x.status.Raised?) by {
      assert first + x.records + footer == first + rows;
    }
    assert ([Header(name)] + rows)[1..] == rows;
  }

  /** The concatenation raises exactly when one of its parts raises, unless `a` stopped at a
      line it could not parse. */
  lemma MergeRaised(name: string, a: seq<string>, b: seq<string>, refUsePad: Option<int>)
    ensures ConvertFile(name, a + b, refUsePad).raised ==> ConvertFile(name, a, refUsePad).raised || ConvertFile(name, b, refUsePad).raised
    ensures ConvertFile(name, a, refUsePad).raised ==> ConvertFile(name, a + b, refUsePad).raised
    ensures Lines(Begin(name), a, refUsePad).status.Reading? && ConvertFile(name, b, refUsePad).raised ==> ConvertFile(name, a + b, refUsePad).raised
  {
    var p := Lines(Begin(name), a, refUsePad);
    LinesAppend(Begin(name), a, b, refUsePad);
    if p.status.Reading? {
      MergedArray(name, a, b, refUsePad);
    } else {
      HaltedStaysHalted(p, b, refUsePad);
    }
  }
}
