/** `save_trace`: every engine found in the trace gets its lines saved as `<output_file>.trace`
    and converted into `<output_file>.c`; EIOA and EIOAE share the `eioa` files, which end up
    holding EIOA's lines followed by EIOAE's when both are present. */
module Saving {
  import opened Wrappers
  import opened Engines
  import opened Classifier
  import opened Records
  import opened Converter

  /** What a saved file holds: the raw trace lines, or the records of its C array. */
  datatype File = TraceFile(lines: seq<string>) | CFile(records: seq<Record>)

  /** The files written, by name; a later write to a name replaces the earlier one. */
  type Files = map<string, File>

  /** The order in which `for engine_type in trace` visits the engines: a Python 2 dictionary
      keyed by the small integers `EIOA, EIOAE, MME, NCA, PBM, VP = range(6)` iterates in key
      order. */
  const DictOrder: seq<Engine> := [EIOA, EIOAE, MME, NCA, PBM, VP]

  function Base(e: Engine): string
  {
    EngineDefs(e).outputFile
  }

  function TraceName(base: string): string
  {
    base + ".trace"
  }

  function CName(base: string): string
  {
    base + ".c"
  }

  /** Different bases never share a file, and the `.trace` and `.c` files never share a name. */
  lemma NamesDistinct(a: string, b: string)
    ensures TraceName(a) == TraceName(b) <==> a == b
    ensures CName(a) == CName(b) <==> a == b
    ensures TraceName(a) != CName(b)
  {
    if TraceName(a) == TraceName(b) {
      assert a == TraceName(a)[..|a|] && b == TraceName(b)[..|b|];
    }
    if CName(a) == CName(b) {
      assert a == CName(a)[..|a|] && b == CName(b)[..|b|];
    }
    var t, c := TraceName(a), CName(b);
    assert t[|t| - 1] == 'e' && c[|c| - 1] == 'c';
  }

  /** `e` is in the trace and one of its files is called `name`. */
  predicate WritesName(trace: Trace, e: Engine, name: string)
  {
    e in trace && (name == TraceName(Base(e)) || name == CName(Base(e)))
  }

  /** How `convert` turns one file's lines into records; `save_trace` passes the `convert` loop. */
  type Conversion = (string, seq<string>) -> Outcome

  /** `convert` with the pad clock setting. */
  function Converting(refUsePad: Option<int>): Conversion
  {
    (base, lines) => ConvertFile(base, lines, refUsePad)
  }

  /** `save_file` and `convert` for one base name: the lines go to the `.trace` file and their
      conversion to the `.c` file, in full or up to the exception that abandons it. */
  function SaveFiles(files: Files, base: string, lines: seq<string>, convert: Conversion): (r: (Files, bool))
    ensures r.0.Keys == files.Keys + {TraceName(base), CName(base)}
    ensures r.0[TraceName(base)] == TraceFile(lines)
    ensures r.0[CName(base)] == CFile(convert(base, lines).records)
    ensures r.1 == convert(base, lines).raised
    ensures forall name :: name in files && name != TraceName(base) && name != CName(base) ==> r.0[name] == files[name]
  {
    NamesDistinct(base, base);
    var o := convert(base, lines);
    (files[TraceName(base) := TraceFile(lines)][CName(base) := CFile(o.records)], o.raised)
  }

  /** The first loop of `save_trace` over `engines`, from the files written so far; it stops at
      the first conversion that raises. */
  function SaveEach(files: Files, engines: seq<Engine>, trace: Trace, convert: Conversion): (Files, bool)
    decreases |engines|
  {
    if engines == [] then (files, false)
    else if engines[0] !in trace then SaveEach(files, engines[1..], trace, convert)
    else
      var (next, raised) := SaveFiles(files, Base(engines[0]), trace[engines[0]], convert);
      if raised then (next, true) else SaveEach(next, engines[1..], trace, convert)
  }

  /** What `save_trace` leaves behind: the files, the trace (whose EIOA list the merge extends
      in place) and whether a conversion raised. */
  datatype Saved = Saved(files: Files, trace: Trace, raised: bool)

  /** `save_trace(trace, arch, parsed_data)`. */
  function Save(trace: Trace, convert: Conversion): Saved
  {
    var (files, raised) := SaveEach(map[], DictOrder, trace, convert);
    if raised then Saved(files, trace, true)
    else if EIOA in trace && EIOAE in trace then
      var merged := trace[EIOA] + trace[EIOAE];
      var (next, failed) := SaveFiles(files, Base(EIOA), merged, convert);
      Saved(next, trace[EIOA := merged], failed)
    else Saved(files, trace, false)
  }

  /** One engine's two files, with the conversion run by the `convert` loop. */
  method SaveEngine(files: Files, base: string, lines: seq<string>, refUsePad: Option<int>) returns (next: Files, raised: bool)
    ensures (next, raised) == SaveFiles(files, base, lines, Converting(refUsePad))
  {
    var records;
    records, raised := Convert(base, lines, refUsePad);
    next := files[TraceName(base) := TraceFile(lines)][CName(base) := CFile(records)];
  }

  lemma SaveEachStep(files: Files, trace: Trace, i: nat, convert: Conversion)
    requires i < |DictOrder|
    ensures SaveEach(files, DictOrder[i..], trace, convert)
         == if DictOrder[i] !in trace then SaveEach(files, DictOrder[i + 1..], trace, convert)
            else
              var (next, raised) := SaveFiles(files, Base(DictOrder[i]), trace[DictOrder[i]], convert);
              if raised then (next, true) else SaveEach(next, DictOrder[i + 1..], trace, convert)
  {
    assert DictOrder[i..][0] == DictOrder[i] && DictOrder[i..][1..] == DictOrder[i + 1..];
  }

  /** `save_trace`, writing into a map of files. */
  method SaveTrace(trace: Trace, refUsePad: Option<int>) returns (saved: Saved)
    ensures saved == Save(trace, Converting(refUsePad))
  {
    ghost var convert := Converting(refUsePad);
    ghost var first := SaveEach(map[], DictOrder, trace, convert);
    var files: Files := map[];
    for i := 0 to |DictOrder|
      invariant SaveEach(files, DictOrder[i..], trace, convert) == first
    {
      var e := DictOrder[i];
      SaveEachStep(files, trace, i, convert);
      if e in trace {
        var next, raised := SaveEngine(files, Base(e), trace[e], refUsePad);
        if raised {
          return Saved(next, trace, true);
        }
        files := next;
      }
    }
    assert first == (files, false);
    var current := trace;
    if EIOA in current && EIOAE in current {
      current := current[EIOA := current[EIOA] + current[EIOAE]];
      var next, raised := SaveEngine(files, Base(EIOA), current[EIOA], refUsePad);
      return Saved(next, current, raised);
    }
    return Saved(files, current, false);
  }

  // ---------------------------------------------------------------------------------------
  // Properties of the first loop.

  /** A name no engine of `engines` writes keeps what it held. */
  lemma {:induction false} SaveEachUntouched(files: Files, engines: seq<Engine>, trace: Trace, convert: Conversion, name: string)
    requires forall j :: 0 <= j < |engines| ==> !WritesName(trace, engines[j], name)
    ensures var r := SaveEach(files, engines, trace, convert).0;
      (name in r <==> name in files) && (name in files ==> r[name] == files[name])
    decreases |engines|
  {
    if engines != [] {
      assert !WritesName(trace, engines[0], name);
      var next := if engines[0] in trace then SaveFiles(files, Base(engines[0]), trace[engines[0]], convert).0 else files;
      SaveEachUntouched(next, engines[1..], trace, convert, name);
      assert forall j :: 0 <= j < |engines| - 1 ==> engines[1..][j] == engines[j + 1];
    }
  }

  /** The first loop raises exactly when converting one of the engines it visits raises. */
  lemma {:induction false} SaveEachRaised(files: Files, engines: seq<Engine>, trace: Trace, convert: Conversion)
    ensures SaveEach(files, engines, trace, convert).1
        <==> exists j :: 0 <= j < |engines| && engines[j] in trace && convert(Base(engines[j]), trace[engines[j]]).raised
    decreases |engines|
  {
    if engines != [] {
      var e := engines[0];
      var next := if e in trace then SaveFiles(files, Base(e), trace[e], convert).0 else files;
      SaveEachRaised(next, engines[1..], trace, convert);
      assert forall j :: 0 <= j < |engines| - 1 ==> engines[1..][j] == engines[j + 1];
      if exists j :: 0 <= j < |engines| && engines[j] in trace && convert(Base(engines[j]), trace[engines[j]]).raised {
        var j :| 0 <= j < |engines| && engines[j] in trace && convert(Base(engines[j]), trace[engines[j]]).raised;
        if j > 0 {
          assert engines[1..][j - 1] == engines[j];
        }
      }
    }
  }

  /** The first loop writes exactly the files of the engines it visits, unless it raised. */
  lemma {:induction false} SaveEachKeys(files: Files, engines: seq<Engine>, trace: Trace, convert: Conversion, name: string)
    requires !SaveEach(files, engines, trace, convert).1
    ensures name in SaveEach(files, engines, trace, convert).0
        <==> name in files || exists j :: 0 <= j < |engines| && WritesName(trace, engines[j], name)
    decreases |engines|
  {
    if engines != [] {
      var e := engines[0];
      var next := if e in trace then SaveFiles(files, Base(e), trace[e], convert).0 else files;
      SaveEachKeys(next, engines[1..], trace, convert, name);
      assert forall j :: 0 <= j < |engines| - 1 ==> engines[1..][j] == engines[j + 1];
      if exists j :: 0 <= j < |engines| && WritesName(trace, engines[j], name) {
        var j :| 0 <= j < |engines| && WritesName(trace, engines[j], name);
        if j > 0 {
          assert engines[1..][j - 1] == engines[j];
        }
      }
    }
  }

  /** The files of the engine at `j` hold its lines and their conversion when no later engine
      writes to the same base name and the loop did not raise. */
  lemma {:induction false} SaveEachLast(files: Files, engines: seq<Engine>, trace: Trace, convert: Conversion, j: nat)
    requires j < |engines| && engines[j] in trace
    requires !SaveEach(files, engines, trace, convert).1
    requires forall k :: j < k < |engines| && engines[k] in trace ==> Base(engines[k]) != Base(engines[j])
    ensures var r, e := SaveEach(files, engines, trace, convert).0, engines[j];
      && TraceName(Base(e)) in r && CName(Base(e)) in r
      && r[TraceName(Base(e))] == TraceFile(trace[e])
      && r[CName(Base(e))] == CFile(convert(Base(e), trace[e]).records)
    decreases |engines|
  {
    var e := engines[j];
    var next := if engines[0] in trace then SaveFiles(files, Base(engines[0]), trace[engines[0]], convert).0 else files;
    assert forall k :: 0 <= k < |engines| - 1 ==> engines[1..][k] == engines[k + 1];
    if j == 0 {
      forall k | 0 <= k < |engines| - 1
        ensures !WritesName(trace, engines[1..][k], TraceName(Base(e))) && !WritesName(trace, engines[1..][k], CName(Base(e)))
      {
        NamesDistinct(Base(engines[1..][k]), Base(e));
        NamesDistinct(Base(e), Base(engines[1..][k]));
      }
      SaveEachUntouched(next, engines[1..], trace, convert, TraceName(Base(e)));
      SaveEachUntouched(next, engines[1..], trace, convert, CName(Base(e)));
    } else {
      SaveEachLast(next, engines[1..], trace, convert, j - 1);
    }
  }

  // ---------------------------------------------------------------------------------------
  // Properties of `save_trace`.

  /** The lines an engine's files end up holding: EIOA and EIOAE share theirs, which hold EIOA's
      lines followed by EIOAE's when both are present. */
  function SavedLines(trace: Trace, e: Engine): (lines: seq<string>)
    requires e in trace
    ensures e !in {EIOA, EIOAE} ==> lines == trace[e]
    ensures e in {EIOA, EIOAE} && EIOA in trace && EIOAE in trace ==> lines == trace[EIOA] + trace[EIOAE]
    ensures e in {EIOA, EIOAE} && !(EIOA in trace && EIOAE in trace) ==> lines == trace[e]
  {
    if e in {EIOA, EIOAE} && EIOA in trace && EIOAE in trace then trace[EIOA] + trace[EIOAE] else trace[e]
  }

  lemma DictOrderHasAll(e: Engine)
    ensures exists j :: 0 <= j < |DictOrder| && DictOrder[j] == e
  {
    match e
    case EIOA => assert DictOrder[0] == e;
    case EIOAE => assert DictOrder[1] == e;
    case MME => assert DictOrder[2] == e;
    case NCA => assert DictOrder[3] == e;
    case PBM => assert DictOrder[4] == e;
    case VP => assert DictOrder[5] == e;
  }

  /** The first loop of `save_trace` raises exactly when converting one engine's lines on their
      own raises, and so does `save_trace` when the merged EIOA input raises only if one of its
      two parts does. */
  lemma SaveRaisedWith(trace: Trace, convert: Conversion)
    requires EIOA in trace && EIOAE in trace && convert(Base(EIOA), trace[EIOA] + trace[EIOAE]).raised
      ==> convert(Base(EIOA), trace[EIOA]).raised || convert(Base(EIOA), trace[EIOAE]).raised
    ensures Save(trace, convert).raised <==> exists e :: e in trace && convert(Base(e), trace[e]).raised
  {
    SaveEachRaised(map[], DictOrder, trace, convert);
    if exists e :: e in trace && convert(Base(e), trace[e]).raised {
      var e :| e in trace && convert(Base(e), trace[e]).raised;
      DictOrderHasAll(e);
    }
    if EIOA in trace && EIOAE in trace {
      assert Base(EIOAE) == Base(EIOA) && DictOrder[0] == EIOA && DictOrder[1] == EIOAE;
    }
  }

  /** `save_trace` raises exactly when converting one engine's lines on their own raises. */
  lemma SaveRaised(trace: Trace, refUsePad: Option<int>)
    ensures Save(trace, Converting(refUsePad)).raised <==> exists e :: e in trace && ConvertFile(Base(e), trace[e], refUsePad).raised
  {
    if EIOA in trace && EIOAE in trace {
      MergeRaised(Base(EIOA), trace[EIOA], trace[EIOAE], refUsePad);
    }
    SaveRaisedWith(trace, Converting(refUsePad));
  }

  /** When nothing raised, the files written are the two of each engine of the trace. */
  lemma SaveKeys(trace: Trace, convert: Conversion, name: string)
    requires !Save(trace, convert).raised
    ensures name in Save(trace, convert).files <==> exists e :: WritesName(trace, e, name)
  {
    var (files, raised) := SaveEach(map[], DictOrder, trace, convert);
    SaveEachKeys(map[], DictOrder, trace, convert, name);
    if exists e :: WritesName(trace, e, name) {
      var e :| WritesName(trace, e, name);
      DictOrderHasAll(e);
    }
    if !raised && EIOA in trace && EIOAE in trace {
      assert WritesName(trace, DictOrder[0], TraceName(Base(EIOA))) && WritesName(trace, DictOrder[0], CName(Base(EIOA)));
    }
  }

  /** Only EIOA and EIOAE share their output base name. */
  lemma BasesInOrder(j: nat, k: nat)
    requires j < k < |DictOrder|
    ensures Base(DictOrder[j]) == Base(DictOrder[k]) <==> j == 0 && k == 1
  {
    OutputFilesDistinct(DictOrder[j], DictOrder[k]);
  }

  /** The contents of the `eioa` files after the merge. */
  lemma SaveContentsMerged(trace: Trace, convert: Conversion, e: Engine)
    requires e in {EIOA, EIOAE} && EIOA in trace && EIOAE in trace && !SaveEach(map[], DictOrder, trace, convert).1
    ensures var files, lines := Save(trace, convert).files, trace[EIOA] + trace[EIOAE];
      && TraceName(Base(e)) in files && CName(Base(e)) in files
      && files[TraceName(Base(e))] == TraceFile(lines)
      && files[CName(Base(e))] == CFile(convert(Base(e), lines).records)
  {
    assert Base(e) == Base(EIOA);
  }

  /** The contents of the files of an engine whose files the merge does not rewrite. */
  lemma SaveContentsAlone(trace: Trace, convert: Conversion, e: Engine)
    requires e in trace && !Save(trace, convert).raised
    requires !(e in {EIOA, EIOAE} && EIOA in trace && EIOAE in trace)
    ensures var files := Save(trace, convert).files;
      && TraceName(Base(e)) in files && CName(Base(e)) in files
      && files[TraceName(Base(e))] == TraceFile(trace[e])
      && files[CName(Base(e))] == CFile(convert(Base(e), trace[e]).records)
  {
    var (files, raised) := SaveEach(map[], DictOrder, trace, convert);
    assert !raised;
    var j :| 0 <= j < |DictOrder| && DictOrder[j] == e by {
      DictOrderHasAll(e);
    }
    forall k | j < k < |DictOrder| && DictOrder[k] in trace
      ensures Base(DictOrder[k]) != Base(DictOrder[j])
    {
      BasesInOrder(j, k);
    }
    SaveEachLast(map[], DictOrder, trace, convert, j);
    if EIOA in trace && EIOAE in trace {
      OutputFilesDistinct(e, EIOA);
      NamesDistinct(Base(e), Base(EIOA));
      NamesDistinct(Base(EIOA), Base(e));
    }
  }

  /** When nothing raised, each engine's `.trace` file holds the lines saved for it and its `.c`
      file their conversion. */
  lemma SaveContents(trace: Trace, convert: Conversion, e: Engine)
    requires e in trace && !Save(trace, convert).raised
    ensures var files, lines := Save(trace, convert).files, SavedLines(trace, e);
      && TraceName(Base(e)) in files && CName(Base(e)) in files
      && files[TraceName(Base(e))] == TraceFile(lines)
      && files[CName(Base(e))] == CFile(convert(Base(e), lines).records)
  {
    if e in {EIOA, EIOAE} && EIOA in trace && EIOAE in trace {
      SaveContentsMerged(trace, convert, e);
    } else {
      SaveContentsAlone(trace, convert, e);
    }
  }

  /** The merge extends the caller's EIOA list by EIOAE's lines (the list is changed in place)
      before the merged conversion runs, so whether or not that raises; when the first loop
      raised, the merge never runs. Every other engine's lines stay as they were. */
  lemma SaveTraceUpdate(trace: Trace, convert: Conversion)
    ensures var t := Save(trace, convert).trace;
      && t.Keys == trace.Keys
      && (forall e :: e in trace && e != EIOA ==> t[e] == trace[e])
      && (!(EIOA in trace && EIOAE in trace) ==> t == trace)
      && (EIOA in trace && EIOAE in trace ==>
            t[EIOA] == if SaveEach(map[], DictOrder, trace, convert).1 then trace[EIOA] else trace[EIOA] + trace[EIOAE])
  {
  }

  /** When both EIOA blocks were found and EIOA's lines are all read, `eioa.c` is EIOA's array
      with EIOAE's rows appended before the footer. */
  lemma MergedEioa(trace: Trace, refUsePad: Option<int>)
    requires EIOA in trace && EIOAE in trace && !Save(trace, Converting(refUsePad)).raised
    requires Lines(Begin(Base(EIOA)), trace[EIOA], refUsePad).status.Reading?
    ensures var first, second := Lines(Begin(Base(EIOA)), trace[EIOA], refUsePad), ConvertFile(Base(EIOA), trace[EIOAE], refUsePad);
      && |second.records| >= 1 && second.records[0] == Header(Base(EIOA))
      && Save(trace, Converting(refUsePad)).files[CName(Base(EIOA))] == CFile(first.records + second.records[1..])
  {
    SaveContents(trace, Converting(refUsePad), EIOA);
    MergedArray(Base(EIOA), trace[EIOA], trace[EIOAE], refUsePad);
  }
}
