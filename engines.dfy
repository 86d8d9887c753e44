/** The engines of the trace, their marker lines and the fixed order in which they are classified. */
module Engines {
  import opened Text

  datatype Engine = MME | PBM | VP | NCA | EIOA | EIOAE

  /** `ENGINES`: the order in which the classifier looks for the engines' blocks. */
  const Order: seq<Engine> := [MME, PBM, VP, NCA, EIOA, EIOAE]

  /** An index into Order. */
  type Cursor = k: nat | k < 6

  /** `Order[k]`, spelled out case by case. */
  function EngineAt(k: Cursor): (e: Engine)
    ensures e == Order[k]
  {
    if k == 0 then MME else if k == 1 then PBM else if k == 2 then VP
    else if k == 3 then NCA else if k == 4 then EIOA else EIOAE
  }

  /** The place of `e` in Order. */
  function Position(e: Engine): (k: Cursor)
    ensures EngineAt(k) == e
  {
    match e
    case MME => 0
    case PBM => 1
    case VP => 2
    case NCA => 3
    case EIOA => 4
    case EIOAE => 5
  }

  /** Order names every engine exactly once. */
  lemma PositionOfOrder(k: Cursor)
    ensures Position(EngineAt(k)) == k
  {
  }

  /** `EngineSpec`: an engine's start and end marker lines and the base name of its output
      files. Its LOOK and FOUND state numbers are the classifier's Phase. */
  datatype EngineSpec = EngineSpec(startSign: string, endSign: string, outputFile: string)

  /** A table of engine definitions. */
  type Defs = Engine -> EngineSpec

  /** The text every start sign and every end sign begins with. */
  const BeginMark := "# Begin: "
  const EndMark := "# End:   "

  /** `ENGINE_DEFS`: EIOAE shares EIOA's output base name. */
  function EngineDefs(e: Engine): EngineSpec
  {
    match e
    case EIOA => EngineSpec(BeginMark + "Engines.EIOA", EndMark + "Engines.EIOA", "eioa")
    case EIOAE => EngineSpec(BeginMark + "EIOA Port(s) Enable", EndMark + "EIOA Port(s) Enable", "eioa")
    case MME => EngineSpec(BeginMark + "Engines.MME", EndMark + "Engines.MME", "mme")
    case PBM => EngineSpec(BeginMark + "PBM", EndMark + "PBM", "pbm")
    case VP => EngineSpec(BeginMark + "VirtualPipelines", EndMark + "VirtualPipelines", "vp")
    case NCA => EngineSpec(BeginMark + "Engines.NCA", EndMark + "Engines.NCA", "nca")
  }

  /** A line that opens `e`'s block: it starts with the start sign, and for NCA it also splits
      into exactly three tokens, which turns away `# Begin: Engines.NCAv3 (CPU)`. */
  predicate Opens(defs: Defs, e: Engine, line: string)
  {
    StartsWith(line, defs(e).startSign) && (e == NCA ==> |Words(line)| == 3)
  }

  /** A line that closes `e`'s block. */
  predicate Closes(defs: Defs, e: Engine, line: string)
  {
    StartsWith(line, defs(e).endSign)
  }

  /** A sign that no blank line starts with. */
  predicate IsMarker(sign: string)
  {
    sign != [] && !IsSpace(sign[0])
  }

  /** Neither sign is a prefix of the other, so no line starts with both. */
  predicate Apart(a: string, b: string)
  {
    !StartsWith(a, b) && !StartsWith(b, a)
  }

  /** What the classifier relies on in a table: every sign is a marker, and no start sign and
      end sign can begin the same line. */
  ghost predicate SignsDistinct(defs: Defs)
  {
    && (forall e :: IsMarker(defs(e).startSign) && IsMarker(defs(e).endSign))
    && (forall e, f :: Apart(defs(e).startSign, defs(f).endSign))
  }

  /** No line both starts a block and ends one, and no marker line is blank. */
  lemma MarkersDistinct(defs: Defs, e: Engine, f: Engine, line: string)
    requires SignsDistinct(defs)
    ensures !(StartsWith(line, defs(e).startSign) && Closes(defs, f, line))
    ensures StartsWith(line, defs(e).startSign) ==> !IsBlank(line)
    ensures Closes(defs, f, line) ==> !IsBlank(line)
  {
    var a, b := defs(e).startSign, defs(f).endSign;
    assert Apart(a, b) && IsMarker(a) && IsMarker(b);
    if StartsWith(line, a) && StartsWith(line, b) {
      if |a| <= |b| {
        CommonPrefix(line, a, b);
      } else {
        CommonPrefix(line, b, a);
      }
    }
    if StartsWith(line, a) {
      assert line[0] == a[0];
    }
    if StartsWith(line, b) {
      assert line[0] == b[0];
    }
  }

  /** Two signs that differ at a position both have are apart. */
  lemma ApartAt(a: string, b: string, i: nat)
    requires i < |a| && i < |b| && a[i] != b[i]
    ensures Apart(a, b)
  {
    if |b| <= |a| {
      assert a[..|b|][i] != b[i];
    }
    if |a| <= |b| {
      assert b[..|a|][i] != a[i];
    }
  }

  /** Every start sign of `ENGINE_DEFS` begins with BeginMark and every end sign with EndMark. */
  lemma SignShape(e: Engine)
    ensures |EngineDefs(e).startSign| > 2 && EngineDefs(e).startSign[0] == '#' && EngineDefs(e).startSign[2] == 'B'
    ensures |EngineDefs(e).endSign| > 2 && EngineDefs(e).endSign[0] == '#' && EngineDefs(e).endSign[2] == 'E'
  {
    var a, b := EngineDefs(e).startSign, EngineDefs(e).endSign;
    assert a[..9] == BeginMark && b[..9] == EndMark;
    assert BeginMark[0] == '#' && BeginMark[2] == 'B' && EndMark[0] == '#' && EndMark[2] == 'E';
    assert a[0] == a[..9][0] && a[2] == a[..9][2];
    assert b[0] == b[..9][0] && b[2] == b[..9][2];
  }

  /** `ENGINE_DEFS` meets what the classifier relies on. */
  lemma EngineDefsDistinct()
    ensures SignsDistinct(EngineDefs)
  {
    forall e
      ensures IsMarker(EngineDefs(e).startSign) && IsMarker(EngineDefs(e).endSign)
    {
      SignShape(e);
    }
    forall e, f
      ensures Apart(EngineDefs(e).startSign, EngineDefs(f).endSign)
    {
      SignShape(e);
      SignShape(f);
      ApartAt(EngineDefs(e).startSign, EngineDefs(f).endSign, 2);
    }
  }

  /** Every engine but EIOAE writes its own pair of output files. */
  lemma OutputFilesDistinct(e: Engine, f: Engine)
    ensures EngineDefs(e).outputFile == EngineDefs(f).outputFile <==> e == f || (e in {EIOA, EIOAE} && f in {EIOA, EIOAE})
  {
  }
}
