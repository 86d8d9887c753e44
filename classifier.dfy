/** The engine classifier (`parse_trace`): a LOOK/FOUND state machine that walks the reduced
    trace once and hands contiguous runs of lines to the engines in Order. */
module Classifier {
  import opened Text
  import opened Engines
  import opened Subsequence

  /** LOOK: waiting for the current engine's start line; FOUND: inside its block. */
  datatype Phase = Look | Found

  /** `trace`: the bucket of lines captured for each engine. */
  type Trace = map<Engine, seq<string>>

  /** The classifier's variables between two lines: the cursor into Order (which stands for
      `engine_type` and what is left of `ENGINES`), the phase (`state`), the buckets, and whether
      the scan has stopped because the last engine's block closed. */
  datatype Scan = Scan(cursor: Cursor, phase: Phase, trace: Trace, done: bool)

  const Start := Scan(0, Look, map[], false)

  function Bucket(t: Trace, e: Engine): seq<string>
  {
    if e in t then t[e] else []
  }

  /** `trace_append(trace, line, e)`: creates the bucket on first use, then appends. */
  function TraceAppend(t: Trace, line: string, e: Engine): (r: Trace)
    ensures forall f :: f in r <==> f in t || f == e
    ensures r[e] == Bucket(t, e) + [line]
    ensures forall f :: f in t && f != e ==> r[f] == t[f]
  {
    t[e := Bucket(t, e) + [line]]
  }

  /** One iteration of the loop of `parse_trace`. */
  function Step(defs: Defs, s: Scan, line: string): Scan
  {
    if s.done || IsBlank(line) then s
    else
      var e := EngineAt(s.cursor);
      match s.phase
      case Look =>
        if Opens(defs, e, line) then s.(phase := Found, trace := TraceAppend(s.trace, line, e)) else s
      case Found =>
        var t := TraceAppend(s.trace, line, e);
        if !Closes(defs, e, line) then s.(trace := t)
        else if s.cursor < 5 then Scan(s.cursor + 1, Look, t, false)
        else s.(trace := t, done := true)
  }

  /** The state after feeding `lines` to the machine in state `s`. */
  function Steps(defs: Defs, s: Scan, lines: seq<string>): Scan
    decreases |lines|
  {
    if lines == [] then s else Step(defs, Steps(defs, s, lines[..|lines| - 1]), lines[|lines| - 1])
  }

  /** The buckets `parse_trace` returns for the lines of the reduced trace. */
  function Classify(defs: Defs, lines: seq<string>): Trace
  {
    Steps(defs, Start, lines).trace
  }

  /** `parse_trace`, with the file given as its sequence of lines and `ENGINE_DEFS` as `defs`. */
  method ParseTrace(defs: Defs, lines: seq<string>) returns (trace: Trace)
    ensures trace == Classify(defs, lines)
  {
    trace := map[];
    var cursor: Cursor := 0;
    var engine := EngineAt(cursor);
    var phase := Look;
    var i := 0;
    while i < |lines|
      invariant 0 <= i <= |lines|
      invariant engine == EngineAt(cursor)
      invariant Steps(defs, Start, lines[..i]) == Scan(cursor, phase, trace, false)
    {
      var line := lines[i];
      assert lines[..i + 1][..i] == lines[..i];
      if IsBlank(line) {
        i := i + 1;
        continue;
      }
      if phase == Look {
        if StartsWith(line, defs(engine).startSign) {
          if engine == NCA {
            if |Words(line)| == 3 {
              phase := Found;
              trace := TraceAppend(trace, line, engine);
            }
          } else {
            phase := Found;
            trace := TraceAppend(trace, line, engine);
          }
        }
      } else if StartsWith(line, defs(engine).endSign) {
        trace := TraceAppend(trace, line, engine);
        if cursor < 5 {
          cursor := cursor + 1;
          engine := EngineAt(cursor);
          phase := Look;
        } else {
          // `ENGINES.pop(0)` raises IndexError: the scan stops here.
          StoppedScanIsFinal(defs, lines, i + 1);
          return;
        }
      } else {
        trace := TraceAppend(trace, line, engine);
      }
      i := i + 1;
    }
    assert lines[..|lines|] == lines;
  }

  lemma {:induction false} StepsAppend(defs: Defs, s: Scan, a: seq<string>, b: seq<string>)
    ensures Steps(defs, s, a + b) == Steps(defs, Steps(defs, s, a), b)
    decreases |b|
  {
    if b == [] {
      assert a + b == a;
    } else {
      var b' := b[..|b| - 1];
      assert (a + b)[..|a + b| - 1] == a + b';
      StepsAppend(defs, s, a, b');
    }
  }

  lemma Overwrite<K, V>(m: map<K, V>, k: K, a: V, b: V)
    ensures m[k := a][k := b] == m[k := b]
  {
  }

  lemma StepsThen(defs: Defs, s: Scan, a: seq<string>, b: seq<string>, mid: Scan, end: Scan)
    requires Steps(defs, s, a) == mid && Steps(defs, mid, b) == end
    ensures Steps(defs, s, a + b) == end
  {
    StepsAppend(defs, s, a, b);
  }

  lemma {:induction false} StoppedStaysStopped(defs: Defs, s: Scan, lines: seq<string>)
    requires s.done
    ensures Steps(defs, s, lines) == s
    decreases |lines|
  {
    if lines != [] {
      StoppedStaysStopped(defs, s, lines[..|lines| - 1]);
    }
  }

  /** Once the last engine's block has closed, later lines change nothing. */
  lemma StoppedScanIsFinal(defs: Defs, lines: seq<string>, k: nat)
    requires k <= |lines| && Steps(defs, Start, lines[..k]).done
    ensures Steps(defs, Start, lines) == Steps(defs, Start, lines[..k])
  {
    assert lines == lines[..k] + lines[k..];
    StepsAppend(defs, Start, lines[..k], lines[k..]);
    StoppedStaysStopped(defs, Steps(defs, Start, lines[..k]), lines[k..]);
  }

  // ---------------------------------------------------------------------------------------
  // The shape of the buckets

  ghost predicate NoBlankLine(b: seq<string>)
  {
    forall j :: 0 <= j < |b| ==> !IsBlank(b[j])
  }

  /** A closed bucket: opened by a start line, closed by its first end line. */
  ghost predicate ClosedBucket(defs: Defs, e: Engine, b: seq<string>)
  {
    && b != [] && Opens(defs, e, b[0]) && Closes(defs, e, b[|b| - 1])
    && (forall j :: 0 <= j < |b| - 1 ==> !Closes(defs, e, b[j]))
    && NoBlankLine(b)
  }

  /** The current engine's bucket while its block is still open. */
  ghost predicate OpenBucket(defs: Defs, e: Engine, b: seq<string>)
  {
    && b != [] && Opens(defs, e, b[0])
    && (forall j :: 0 <= j < |b| ==> !Closes(defs, e, b[j]))
    && NoBlankLine(b)
  }

  /** What holds of the classifier's variables after every line: exactly the engines before
      the cursor, and the current one once FOUND, have a bucket; the earlier ones are closed. */
  ghost predicate Valid(defs: Defs, s: Scan)
  {
    && (forall e :: e in s.trace <==> Position(e) < s.cursor || (Position(e) == s.cursor && s.phase == Found))
    && (forall e :: e in s.trace ==>
          if Position(e) < s.cursor || s.done then ClosedBucket(defs, e, s.trace[e]) else OpenBucket(defs, e, s.trace[e]))
    && (s.done ==> s.cursor == 5 && s.phase == Found)
  }

  lemma NewBucket(defs: Defs, e: Engine, line: string)
    requires SignsDistinct(defs)
    requires Opens(defs, e, line)
    ensures OpenBucket(defs, e, [line])
  {
    MarkersDistinct(defs, e, e, line);
  }

  lemma GrowBucket(defs: Defs, e: Engine, b: seq<string>, line: string)
    requires OpenBucket(defs, e, b) && !IsBlank(line)
    ensures !Closes(defs, e, line) ==> OpenBucket(defs, e, b + [line])
    ensures Closes(defs, e, line) ==> ClosedBucket(defs, e, b + [line])
  {
    assert (b + [line])[0] == b[0];
    assert forall j :: 0 <= j < |b| ==> (b + [line])[j] == b[j];
  }

  /** Valid is kept when the current engine's bucket becomes `b` and the scan moves on to
      `next`, given what `b` is. */
  lemma ValidAfterUpdate(defs: Defs, s: Scan, b: seq<string>, next: Scan)
    requires SignsDistinct(defs)
    requires Valid(defs, s) && !s.done
    requires next.trace == s.trace[EngineAt(s.cursor) := b]
    requires s.phase == Look ==> next.phase == Found && next.cursor == s.cursor && !next.done && OpenBucket(defs, EngineAt(s.cursor), b)
    requires s.phase == Found ==>
      || (next.phase == Found && next.cursor == s.cursor && !next.done && OpenBucket(defs, EngineAt(s.cursor), b))
      || (next.phase == Look && next.cursor == s.cursor + 1 && !next.done && ClosedBucket(defs, EngineAt(s.cursor), b))
      || (next.phase == Found && next.cursor == s.cursor == 5 && next.done && ClosedBucket(defs, EngineAt(s.cursor), b))
    ensures Valid(defs, next)
  {
    PositionOfOrder(s.cursor);
  }

  lemma OpenValid(defs: Defs, s: Scan, line: string)
    requires SignsDistinct(defs) && Valid(defs, s) && !s.done && s.phase == Look
    requires Opens(defs, EngineAt(s.cursor), line)
    ensures Valid(defs, Step(defs, s, line))
  {
    var e := EngineAt(s.cursor);
    assert e !in s.trace by { PositionOfOrder(s.cursor); }
    NewBucket(defs, e, line);
    MarkersDistinct(defs, e, e, line);
    assert Bucket(s.trace, e) + [line] == [line];
    ValidAfterUpdate(defs, s, [line], Step(defs, s, line));
  }

  /** While FOUND, the current engine's bucket exists and is still open. */
  lemma CurrentBucketOpen(defs: Defs, s: Scan)
    requires Valid(defs, s) && !s.done && s.phase == Found
    ensures EngineAt(s.cursor) in s.trace && OpenBucket(defs, EngineAt(s.cursor), s.trace[EngineAt(s.cursor)])
  {
    PositionOfOrder(s.cursor);
  }

  lemma GrowValid(defs: Defs, s: Scan, line: string)
    requires SignsDistinct(defs) && Valid(defs, s) && !s.done && s.phase == Found && !IsBlank(line)
    ensures Valid(defs, Step(defs, s, line))
  {
    var e := EngineAt(s.cursor);
    CurrentBucketOpen(defs, s);
    GrowBucket(defs, e, s.trace[e], line);
    ValidAfterUpdate(defs, s, s.trace[e] + [line], Step(defs, s, line));
  }

  /** Valid holds after every line. */
  lemma StepValid(defs: Defs, s: Scan, line: string)
    requires SignsDistinct(defs) && Valid(defs, s)
    ensures Valid(defs, Step(defs, s, line))
  {
    if !s.done && !IsBlank(line) {
      if s.phase == Found {
        GrowValid(defs, s, line);
      } else if Opens(defs, EngineAt(s.cursor), line) {
        OpenValid(defs, s, line);
      }
    }
  }

  lemma {:induction false} StepsValid(defs: Defs, lines: seq<string>)
    requires SignsDistinct(defs)
    ensures Valid(defs, Steps(defs, Start, lines))
    decreases |lines|
  {
    if lines != [] {
      StepsValid(defs, lines[..|lines| - 1]);
      StepValid(defs, Steps(defs, Start, lines[..|lines| - 1]), lines[|lines| - 1]);
    }
  }

  /** Every bucket starts with its engine's start line (for NCA one of exactly three tokens),
      holds no blank line, ends at the first end line it meets, and the buckets of the engines
      before it in Order exist and are closed. */
  lemma BucketsAreOrderedBlocks(defs: Defs, lines: seq<string>)
    requires SignsDistinct(defs)
    ensures var t := Classify(defs, lines);
      forall e :: e in t ==>
        && t[e] != [] && StartsWith(t[e][0], defs(e).startSign)
        && (e == NCA ==> |Words(t[e][0])| == 3)
        && NoBlankLine(t[e])
        && (forall j :: 0 <= j < |t[e]| - 1 ==> !Closes(defs, e, t[e][j]))
        && (forall k :: 0 <= k < Position(e) ==> EngineAt(k) in t && ClosedBucket(defs, EngineAt(k), t[EngineAt(k)]))
  {
    StepsValid(defs, lines);
    var s := Steps(defs, Start, lines);
    forall e | e in s.trace
      ensures forall k :: 0 <= k < Position(e) ==> EngineAt(k) in s.trace && ClosedBucket(defs, EngineAt(k), s.trace[EngineAt(k)])
    {
      forall k | 0 <= k < Position(e)
        ensures EngineAt(k) in s.trace && ClosedBucket(defs, EngineAt(k), s.trace[EngineAt(k)])
      {
        PositionOfOrder(k);
      }
    }
  }

  /** An end line seen while LOOKing opens nothing and changes nothing. */
  lemma EndLineInLookChangesNothing(defs: Defs, s: Scan, line: string, f: Engine)
    requires SignsDistinct(defs)
    requires s.phase == Look && Closes(defs, f, line)
    ensures Step(defs, s, line) == s
  {
    MarkersDistinct(defs, EngineAt(s.cursor), f, line);
  }

  /** While LOOKing, a line that does not open the current engine's block is dropped. */
  lemma LookDropsOtherLines(defs: Defs, s: Scan, line: string)
    requires s.phase == Look && !Opens(defs, EngineAt(s.cursor), line)
    ensures Step(defs, s, line) == s
  {
  }

  /** An NCA start line is captured, and the phase becomes FOUND, exactly when it splits into
      three tokens. */
  lemma NcaStartNeedsThreeTokens(defs: Defs, s: Scan, line: string)
    requires SignsDistinct(defs)
    requires !s.done && s.phase == Look && EngineAt(s.cursor) == NCA
    requires StartsWith(line, defs(NCA).startSign)
    ensures Step(defs, s, line).phase == Found <==> |Words(line)| == 3
    ensures Step(defs, s, line).trace == s.trace <==> |Words(line)| != 3
  {
    MarkersDistinct(defs, NCA, NCA, line);
    var t := TraceAppend(s.trace, line, NCA);
    assert t != s.trace by {
      assert t[NCA] != Bucket(s.trace, NCA);
    }
  }

  // ---------------------------------------------------------------------------------------
  // Captured lines form a subsequence of the input

  /** The non-blank lines, in order. */
  function NonBlank(lines: seq<string>): (r: seq<string>)
    ensures forall j :: 0 <= j < |r| ==> !IsBlank(r[j])
    decreases |lines|
  {
    if lines == [] then []
    else
      var last := lines[|lines| - 1];
      NonBlank(lines[..|lines| - 1]) + (if IsBlank(last) then [] else [last])
  }

  /** The buckets of EngineAt(k..) one after the other. */
  function FlattenFrom(t: Trace, k: nat): seq<string>
    decreases 6 - k
  {
    if k >= 6 then [] else Bucket(t, EngineAt(k)) + FlattenFrom(t, k + 1)
  }

  /** The buckets concatenated in Order. */
  function Flatten(t: Trace): seq<string>
  {
    FlattenFrom(t, 0)
  }

  lemma {:induction false} FlattenFromEmpty(t: Trace, k: nat)
    requires forall f :: f in t ==> Position(f) < k
    ensures FlattenFrom(t, k) == []
    decreases 6 - k
  {
    if k < 6 {
      assert EngineAt(k) !in t by { PositionOfOrder(k); }
      FlattenFromEmpty(t, k + 1);
    }
  }

  /** Appending to the last engine that has a bucket extends the flattening at its own place. */
  lemma FlattenFromAppendHere(t: Trace, line: string, e: Engine)
    requires forall f :: f in t ==> Position(f) <= Position(e)
    ensures FlattenFrom(TraceAppend(t, line, e), Position(e)) == FlattenFrom(t, Position(e)) + [line]
  {
    var k: nat := Position(e);
    var t' := TraceAppend(t, line, e);
    FlattenFromEmpty(t, k + 1);
    FlattenFromEmpty(t', k + 1);
    assert FlattenFrom(t', k) == Bucket(t', e) + [];
    assert FlattenFrom(t, k) == Bucket(t, e) + [];
  }

  lemma {:induction false} FlattenFromAppend(t: Trace, line: string, e: Engine, k: nat)
    requires forall f :: f in t ==> Position(f) <= Position(e)
    requires k <= Position(e)
    ensures FlattenFrom(TraceAppend(t, line, e), k) == FlattenFrom(t, k) + [line]
    decreases 6 - k
  {
    if k == Position(e) {
      FlattenFromAppendHere(t, line, e);
    } else {
      var t' := TraceAppend(t, line, e);
      assert Bucket(t', EngineAt(k)) == Bucket(t, EngineAt(k)) by { PositionOfOrder(k); }
      FlattenFromAppend(t, line, e, k + 1);
      FlattenFromExtend(t, t', line, k);
    }
  }

  lemma FlattenFromExtend(t: Trace, t': Trace, line: string, k: nat)
    requires k < 6 && Bucket(t', EngineAt(k)) == Bucket(t, EngineAt(k))
    requires FlattenFrom(t', k + 1) == FlattenFrom(t, k + 1) + [line]
    ensures FlattenFrom(t', k) == FlattenFrom(t, k) + [line]
  {
    var here, rest := Bucket(t, EngineAt(k)), FlattenFrom(t, k + 1);
    assert here + (rest + [line]) == (here + rest) + [line];
  }

  /** A step leaves the buckets alone or appends the line to the current engine's bucket. */
  lemma StepTrace(defs: Defs, s: Scan, line: string)
    ensures var t := Step(defs, s, line).trace;
      t == s.trace || (!s.done && !IsBlank(line) && t == TraceAppend(s.trace, line, EngineAt(s.cursor)))
  {
  }

  lemma StepFlatten(defs: Defs, s: Scan, line: string)
    requires SignsDistinct(defs)
    requires Valid(defs, s)
    ensures var f := Flatten(Step(defs, s, line).trace);
      f == Flatten(s.trace) || (f == Flatten(s.trace) + [line] && !IsBlank(line))
  {
    StepTrace(defs, s, line);
    if Step(defs, s, line).trace != s.trace {
      var e := EngineAt(s.cursor);
      PositionOfOrder(s.cursor);
      FlattenFromAppend(s.trace, line, e, 0);
    }
  }

  /** The buckets, read in Order, are an in-order subsequence of the non-blank input lines. */
  lemma {:induction false} CapturedLinesAreSubsequence(defs: Defs, lines: seq<string>)
    requires SignsDistinct(defs)
    ensures IsSubsequence(Flatten(Classify(defs, lines)), NonBlank(lines))
    decreases |lines|
  {
    if lines == [] {
      FlattenFromEmpty(map[], 0);
    } else {
      var init, last := lines[..|lines| - 1], lines[|lines| - 1];
      CapturedLinesAreSubsequence(defs, init);
      StepsValid(defs, init);
      StepFlatten(defs, Steps(defs, Start, init), last);
      var before := Flatten(Classify(defs, init));
      if IsBlank(last) {
        assert NonBlank(lines) == NonBlank(init);
      } else if Flatten(Classify(defs, lines)) == before {
        Drop(before, NonBlank(init), last);
      } else {
        Keep(before, NonBlank(init), last);
      }
    }
  }

  lemma {:induction false} BucketInFlattenFrom(t: Trace, e: Engine, k: nat, x: string)
    requires e in t && x in t[e] && k <= Position(e)
    ensures x in FlattenFrom(t, k)
    decreases 6 - k
  {
    if k < Position(e) {
      BucketInFlattenFrom(t, e, k + 1, x);
    }
  }

  lemma {:induction false} NonBlankMembers(lines: seq<string>, x: string)
    requires x in NonBlank(lines)
    ensures x in lines
    decreases |lines|
  {
    var init := lines[..|lines| - 1];
    if x in NonBlank(init) {
      NonBlankMembers(init, x);
    }
  }

  /** An engine none of whose start lines occurs in the input (an end line alone, say) never
      gets a bucket. */
  lemma NeverOpenedWithoutStartLine(defs: Defs, lines: seq<string>, e: Engine)
    requires SignsDistinct(defs)
    requires forall j :: 0 <= j < |lines| ==> !Opens(defs, e, lines[j])
    ensures e !in Classify(defs, lines)
  {
    var t := Classify(defs, lines);
    if e in t {
      BucketsAreOrderedBlocks(defs, lines);
      var first := t[e][0];
      BucketInFlattenFrom(t, e, 0, first);
      CapturedLinesAreSubsequence(defs, lines);
      Members(Flatten(t), NonBlank(lines), first);
      NonBlankMembers(lines, first);
      assert false;
    }
  }

  // ---------------------------------------------------------------------------------------
  // A trace made of well-formed blocks

  /** Lines that do not open `e`, `e`'s start line, lines that do not close `e`, an end line. */
  ghost predicate WellFormedBlock(defs: Defs, e: Engine, pre: seq<string>, open: string, body: seq<string>, close: string)
  {
    && (forall j :: 0 <= j < |pre| ==> !Opens(defs, e, pre[j]))
    && Opens(defs, e, open)
    && (forall j :: 0 <= j < |body| ==> !Closes(defs, e, body[j]))
    && Closes(defs, e, close)
  }

  lemma {:induction false} SkipNoise(defs: Defs, s: Scan, pre: seq<string>)
    requires !s.done && s.phase == Look
    requires forall j :: 0 <= j < |pre| ==> !Opens(defs, EngineAt(s.cursor), pre[j])
    ensures Steps(defs, s, pre) == s
    decreases |pre|
  {
    if pre != [] {
      SkipNoise(defs, s, pre[..|pre| - 1]);
    }
  }

  lemma {:induction false} GatherBody(defs: Defs, s: Scan, body: seq<string>)
    requires !s.done && s.phase == Found && EngineAt(s.cursor) in s.trace
    requires forall j :: 0 <= j < |body| ==> !Closes(defs, EngineAt(s.cursor), body[j])
    ensures var e := EngineAt(s.cursor);
      Steps(defs, s, body) == s.(trace := s.trace[e := s.trace[e] + NonBlank(body)])
    decreases |body|
  {
    var e := EngineAt(s.cursor);
    if body == [] {
      assert s.trace[e] + [] == s.trace[e];
      assert s.trace[e := s.trace[e]] == s.trace;
    } else {
      var init, last := body[..|body| - 1], body[|body| - 1];
      GatherBody(defs, s, init);
      var g := s.trace[e] + NonBlank(init);
      var mid := s.(trace := s.trace[e := g]);
      assert Steps(defs, s, body) == Step(defs, mid, last);
      if IsBlank(last) {
        assert NonBlank(body) == NonBlank(init);
      } else {
        assert NonBlank(body) == NonBlank(init) + [last];
        assert TraceAppend(mid.trace, last, e) == s.trace[e := g + [last]];
        assert g + [last] == s.trace[e] + NonBlank(body);
      }
    }
  }

  lemma OpenStep(defs: Defs, s: Scan, open: string)
    requires SignsDistinct(defs)
    requires !s.done && s.phase == Look && EngineAt(s.cursor) !in s.trace && Opens(defs, EngineAt(s.cursor), open)
    ensures Step(defs, s, open) == s.(phase := Found, trace := s.trace[EngineAt(s.cursor) := [open]])
  {
    MarkersDistinct(defs, EngineAt(s.cursor), EngineAt(s.cursor), open);
    assert Bucket(s.trace, EngineAt(s.cursor)) + [open] == [open];
  }

  lemma CloseStep(defs: Defs, s: Scan, close: string)
    requires SignsDistinct(defs)
    requires !s.done && s.phase == Found && EngineAt(s.cursor) in s.trace && Closes(defs, EngineAt(s.cursor), close)
    ensures var e := EngineAt(s.cursor);
      var s' := Step(defs, s, close);
      && s'.trace == s.trace[e := s.trace[e] + [close]]
      && (if s.cursor < 5 then s'.cursor == s.cursor + 1 && s'.phase == Look && !s'.done
          else s'.done && s'.cursor == s.cursor && s'.phase == Found)
  {
    MarkersDistinct(defs, EngineAt(s.cursor), EngineAt(s.cursor), close);
  }

  lemma NoiseThenOpen(defs: Defs, s: Scan, pre: seq<string>, open: string)
    requires SignsDistinct(defs)
    requires !s.done && s.phase == Look && EngineAt(s.cursor) !in s.trace
    requires forall j :: 0 <= j < |pre| ==> !Opens(defs, EngineAt(s.cursor), pre[j])
    requires Opens(defs, EngineAt(s.cursor), open)
    ensures Steps(defs, s, pre + [open]) == s.(phase := Found, trace := s.trace[EngineAt(s.cursor) := [open]])
  {
    SkipNoise(defs, s, pre);
    assert (pre + [open])[..|pre|] == pre;
    OpenStep(defs, s, open);
  }

  lemma OpenedBody(defs: Defs, s: Scan, pre: seq<string>, open: string, body: seq<string>)
    requires SignsDistinct(defs)
    requires !s.done && s.phase == Look && EngineAt(s.cursor) !in s.trace
    requires forall j :: 0 <= j < |pre| ==> !Opens(defs, EngineAt(s.cursor), pre[j])
    requires Opens(defs, EngineAt(s.cursor), open)
    requires forall j :: 0 <= j < |body| ==> !Closes(defs, EngineAt(s.cursor), body[j])
    ensures Steps(defs, s, pre + [open] + body) == s.(phase := Found, trace := s.trace[EngineAt(s.cursor) := [open] + NonBlank(body)])
  {
    var e := EngineAt(s.cursor);
    var s1 := s.(phase := Found, trace := s.trace[e := [open]]);
    NoiseThenOpen(defs, s, pre, open);
    GatherBody(defs, s1, body);
    Overwrite(s.trace, e, [open], [open] + NonBlank(body));
    StepsThen(defs, s, pre + [open], body, s1, s1.(trace := s1.trace[e := s1.trace[e] + NonBlank(body)]));
  }

  /** One well-formed block closes the current engine's bucket with exactly the block's
      non-blank lines from its start line on, and moves the cursor to the next engine. */
  lemma BlockClassified(defs: Defs, s: Scan, pre: seq<string>, open: string, body: seq<string>, close: string)
    requires SignsDistinct(defs)
    requires !s.done && s.phase == Look && EngineAt(s.cursor) !in s.trace
    requires WellFormedBlock(defs, EngineAt(s.cursor), pre, open, body, close)
    ensures var e := EngineAt(s.cursor);
      var s' := Steps(defs, s, pre + [open] + body + [close]);
      && s'.trace == s.trace[e := [open] + NonBlank(body) + [close]]
      && (if s.cursor < 5 then s'.cursor == s.cursor + 1 && s'.phase == Look && !s'.done
          else s'.done && s'.cursor == s.cursor && s'.phase == Found)
  {
    var e := EngineAt(s.cursor);
    OpenedBody(defs, s, pre, open, body);
    var s2 := s.(phase := Found, trace := s.trace[e := [open] + NonBlank(body)]);
    var all := pre + [open] + body + [close];
    assert all[..|all| - 1] == pre + [open] + body;
    assert Steps(defs, s, all) == Step(defs, s2, close);
    CloseStep(defs, s2, close);
    Overwrite(s.trace, e, [open] + NonBlank(body), [open] + NonBlank(body) + [close]);
  }

  /** The first `n` blocks of a trace given block by block. */
  function Blocks(pre: seq<seq<string>>, opens: seq<string>, bodies: seq<seq<string>>, closes: seq<string>, n: nat): seq<string>
    requires n <= |pre| && n <= |opens| && n <= |bodies| && n <= |closes|
  {
    if n == 0 then []
    else Blocks(pre, opens, bodies, closes, n - 1) + (pre[n - 1] + [opens[n - 1]] + bodies[n - 1] + [closes[n - 1]])
  }

  /** The buckets of the first `n` engines of such a trace. */
  function BlockBuckets(opens: seq<string>, bodies: seq<seq<string>>, closes: seq<string>, n: nat): Trace
    requires n <= 6 && |opens| == |bodies| == |closes| == 6
  {
    if n == 0 then map[]
    else BlockBuckets(opens, bodies, closes, n - 1)[EngineAt(n - 1) := [opens[n - 1]] + NonBlank(bodies[n - 1]) + [closes[n - 1]]]
  }

  lemma {:induction false} BlockBucketsKeys(opens: seq<string>, bodies: seq<seq<string>>, closes: seq<string>, n: nat)
    requires n <= 6 && |opens| == |bodies| == |closes| == 6
    ensures var t := BlockBuckets(opens, bodies, closes, n);
      forall e :: (e in t <==> Position(e) < n) && (e in t ==> t[e] == [opens[Position(e)]] + NonBlank(bodies[Position(e)]) + [closes[Position(e)]])
  {
    if n > 0 {
      BlockBucketsKeys(opens, bodies, closes, n - 1);
      PositionOfOrder(n - 1);
    }
  }

  lemma {:induction false} BlocksClassified(defs: Defs, pre: seq<seq<string>>, opens: seq<string>, bodies: seq<seq<string>>, closes: seq<string>, n: nat)
    requires SignsDistinct(defs)
    requires |pre| == |opens| == |bodies| == |closes| == 6 && n <= 6
    requires forall k :: 0 <= k < 6 ==> WellFormedBlock(defs, EngineAt(k), pre[k], opens[k], bodies[k], closes[k])
    ensures Steps(defs, Start, Blocks(pre, opens, bodies, closes, n)) ==
      Scan(if n < 6 then n else 5, if n < 6 then Look else Found, BlockBuckets(opens, bodies, closes, n), n == 6)
  {
    if n > 0 {
      var m := n - 1;
      BlocksClassified(defs, pre, opens, bodies, closes, m);
      var s := Steps(defs, Start, Blocks(pre, opens, bodies, closes, m));
      assert s == Scan(m, Look, BlockBuckets(opens, bodies, closes, m), false);
      BlockBucketsKeys(opens, bodies, closes, m);
      PositionOfOrder(m);
      assert EngineAt(m) !in s.trace;
      var block := pre[m] + [opens[m]] + bodies[m] + [closes[m]];
      StepsAppend(defs, Start, Blocks(pre, opens, bodies, closes, m), block);
      BlockClassified(defs, s, pre[m], opens[m], bodies[m], closes[m]);
    }
  }

  /** A trace holding one well-formed block per engine, in Order, followed by anything, gives
      every engine one bucket: its start line, the non-blank lines of its body and its end line. */
  lemma WellFormedTraceClassified(defs: Defs, pre: seq<seq<string>>, opens: seq<string>, bodies: seq<seq<string>>, closes: seq<string>, rest: seq<string>)
    requires SignsDistinct(defs)
    requires |pre| == |opens| == |bodies| == |closes| == 6
    requires forall k :: 0 <= k < 6 ==> WellFormedBlock(defs, EngineAt(k), pre[k], opens[k], bodies[k], closes[k])
    ensures var t := Classify(defs, Blocks(pre, opens, bodies, closes, 6) + rest);
      forall e :: e in t && t[e] == [opens[Position(e)]] + NonBlank(bodies[Position(e)]) + [closes[Position(e)]]
  {
    var blocks := Blocks(pre, opens, bodies, closes, 6);
    BlocksClassified(defs, pre, opens, bodies, closes, 6);
    StepsAppend(defs, Start, blocks, rest);
    StoppedStaysStopped(defs, Steps(defs, Start, blocks), rest);
    BlockBucketsKeys(opens, bodies, closes, 6);
  }
}
