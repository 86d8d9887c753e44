/** The command handlers (`convert_ncp_write`, `convert_ncp_read`, `convert_ncp_modify`,
    `convert_ncp_usleep`, `convert_ncp_poll`) and `c_comment`. Every handler reads the options
    of one trace line as the tokens `str.split()` gives; the address token is
    `domain.node.target.offset`, with a decimal node and target and a hexadecimal offset. */
module Handlers {
  import opened Wrappers
  import opened Text
  import opened Numbers
  import opened Records
  import opened Writes

  /** The characters `c_comment` strips from both ends of a `#` line. */
  const CommentTrim: set<char> := {' ', '#', '\n'}

  /** `c_comment(line)`: the line without its leading and trailing blanks, hashes and newlines,
      as a comment, or nothing when nothing is left. */
  function CComment(line: string): (rs: seq<Record>)
    ensures |rs| <= 1
    ensures forall j :: 0 <= j < |rs| ==> rs[j].Remark?
  {
    var text := Strip(line, CommentTrim);
    if text == [] then [] else [Remark(text)]
  }

  /** A `#` line gives no comment exactly when it holds nothing but blanks, hashes and newlines. */
  lemma CCommentEmpty(line: string)
    ensures CComment(line) == [] <==> forall i :: 0 <= i < |line| ==> line[i] in CommentTrim
  {
    var r := TrimRight(line, CommentTrim);
    if r != [] {
      assert r[|r| - 1] !in CommentTrim;
      assert TrimLeft(r, CommentTrim) != [];
      assert line[|r| - 1] == r[|r| - 1];
    }
  }

  /** `t` sits at index `i` of `line`, with only characters of `cs` around it. */
  predicate Framed(line: string, i: nat, t: string, cs: set<char>)
  {
    && i + |t| <= |line| && line[i..i + |t|] == t
    && (forall j :: 0 <= j < i ==> line[j] in cs)
    && (forall j :: i + |t| <= j < |line| ==> line[j] in cs)
  }

  /** A prefix `r` of `line` followed by characters of `cs` only, and a suffix `t` of `r`
      preceded by characters of `cs` only, frame `t` in `line`. */
  lemma FrameCompose(line: string, r: string, t: string, cs: set<char>)
    requires |r| <= |line| && r == line[..|r|] && forall j :: |r| <= j < |line| ==> line[j] in cs
    requires |t| <= |r| && t == r[|r| - |t|..] && forall j :: 0 <= j < |r| - |t| ==> r[j] in cs
    ensures Framed(line, |r| - |t|, t, cs)
  {
    var i := |r| - |t|;
    assert line[i..i + |t|] == r[i..];
    forall j | 0 <= j < i
      ensures line[j] in cs
    {
      assert line[j] == r[j];
    }
  }

  /** What `strip` keeps is framed by what it removes. */
  lemma StripFramed(line: string, cs: set<char>)
    ensures Framed(line, |TrimRight(line, cs)| - |Strip(line, cs)|, Strip(line, cs), cs)
  {
    FrameCompose(line, TrimRight(line, cs), Strip(line, cs), cs);
  }

  /** The comment text is a piece of the line that neither starts nor ends with a stripped
      character, and everything around it was stripped. */
  lemma CCommentText(line: string)
    requires CComment(line) != []
    ensures var t := CComment(line)[0].text;
      t != [] && t[0] !in CommentTrim && t[|t| - 1] !in CommentTrim && exists i: nat :: Framed(line, i, t, CommentTrim)
  {
    var r := TrimRight(line, CommentTrim);
    var t := TrimLeft(r, CommentTrim);
    StripFramed(line, CommentTrim);
    assert t[|t| - 1] == r[|r| - 1];
  }

  /** `c_comment` gives back the text of a comment line written as `# text`. */
  lemma CCommentOfRemark(text: string)
    requires text != [] && text[0] !in CommentTrim && text[|text| - 1] !in CommentTrim
    ensures CComment("# " + text) == [Remark(text)]
  {
    var line := "# " + text;
    assert line[|line| - 1] == text[|text| - 1];
    TrimLeftPrefix("# ", text, CommentTrim);
  }

  /** `s` has no dot. */
  predicate DotFree(s: string)
    decreases |s|
  {
    s == [] || (s[0] != '.' && DotFree(s[1..]))
  }

  /** The text before the first dot of `s` and the text after it, when `s` has a dot. */
  function SplitDot(s: string): (r: Option<(string, string)>)
    ensures r.Some? ==> s == r.value.0 + "." + r.value.1 && DotFree(r.value.0)
    decreases |s|
  {
    if s == [] then None
    else if s[0] == '.' then
      assert s == [] + "." + s[1..];
      Some(([], s[1..]))
    else
      match SplitDot(s[1..])
      case None => None
      case Some((head, tail)) =>
        assert ([s[0]] + head)[1..] == head;
        Some(([s[0]] + head, tail))
  }

  /** A dot-free text in front of a dot is what SplitDot finds. */
  lemma {:induction false} SplitDotOf(d: string, rest: string)
    requires DotFree(d)
    ensures SplitDot(d + "." + rest) == Some((d, rest))
    decreases |d|
  {
    var s := d + "." + rest;
    if d == [] {
      assert s[1..] == rest;
    } else {
      assert s[0] == d[0] && s[1..] == d[1..] + "." + rest;
      SplitDotOf(d[1..], rest);
      assert [d[0]] + d[1..] == d;
    }
  }

  /** The four parts of a `domain.node.target.offset` token, still as text. */
  datatype Address = Address(domain: string, node: string, target: string, offset: string)

  function AddressText(a: Address): string
  {
    a.domain + "." + (a.node + "." + (a.target + "." + a.offset))
  }

  /** The address groups of the handlers' patterns on one token: three dot-free parts, each
      followed by a dot, and the rest of the token. */
  function SplitAddress(token: string): (r: Option<Address>)
    ensures r.Some? ==> AddressText(r.value) == token
    ensures r.Some? ==> DotFree(r.value.domain) && DotFree(r.value.node) && DotFree(r.value.target)
  {
    match SplitDot(token)
    case None => None
    case Some((domain, r1)) =>
      match SplitDot(r1)
      case None => None
      case Some((node, r2)) =>
        match SplitDot(r2)
        case None => None
        case Some((target, offset)) => Some(Address(domain, node, target, offset))
  }

  /** A token with three dot-free parts in front splits into exactly those parts. */
  lemma SplitAddressOf(a: Address)
    requires DotFree(a.domain) && DotFree(a.node) && DotFree(a.target)
    ensures SplitAddress(AddressText(a)) == Some(a)
  {
    SplitDotOf(a.domain, a.node + "." + (a.target + "." + a.offset));
    SplitDotOf(a.node, a.target + "." + a.offset);
    SplitDotOf(a.target, a.offset);
  }

  /** A register: `NCP_REGION_ID(node, target)` and an offset. */
  datatype Region = Region(node: int, target: int, offset: int)

  /** What a handler's pattern yields: no match (`Unable to parse`, nothing written), a match
      with a number `int()` cannot read (an uncaught `ValueError`), or the parsed value. */
  datatype Parse<T> = NoMatch | Malformed | Parsed(value: T)

  /** `int(node)`, `int(target)` and `int(offset, 16)` of a matched address. */
  function Locate(a: Address): (r: Option<Region>)
    ensures r.Some? <==> ParseDecimal(a.node).Some? && ParseDecimal(a.target).Some? && ParseHex(a.offset).Some?
  {
    match (ParseDecimal(a.node), ParseDecimal(a.target), ParseHex(a.offset))
    case (Some(n), Some(t), Some(o)) => Some(Region(n, t, o))
    case _ => None
  }

  /** The address token of a handler: matched and read. */
  function ParseRegion(token: string): Parse<Region>
  {
    match SplitAddress(token)
    case None => NoMatch
    case Some(a) =>
      match Locate(a)
      case None => Malformed
      case Some(r) => Parsed(r)
  }

  /** `convert_ncp_write`: the address, white space and the values, which may be none; a
      skipped register writes nothing; with `REF_USE_PAD` set, the clock register's first value
      is patched (a nonzero setting enables the clock, and no value at all is the `IndexError`);
      then `write_values` runs on the new and the original values. */
  function ConvertWrite(options: string, refUsePad: Option<int>): (o: Outcome)
    ensures forall j :: 0 <= j < |o.records| ==> o.records[j].Write? || o.records[j].OldWrite?
  {
    var fields := Words(options);
    if fields == [] || AfterFirstWord(options) == [] then Outcome([], false)
    else match ParseRegion(fields[0])
      case NoMatch => Outcome([], false)
      case Malformed => Outcome([], true)
      case Parsed(r) =>
        var values := fields[1..];
        if IsSkipped(r.node, r.target, r.offset) then Outcome([], false)
        else if refUsePad.None? then WriteRecords(values, values, r.node, r.target, r.offset)
        else match PadClock(values, r.node, r.target, r.offset, refUsePad.value != 0)
          case None => Outcome([], true)
          case Some(news) => WriteRecords(news, values, r.node, r.target, r.offset)
  }

  /** `convert_ncp_write` as the source runs it, one value pair at a time. */
  method ConvertNcpWrite(options: string, refUsePad: Option<int>) returns (records: seq<Record>, raised: bool)
    ensures Outcome(records, raised) == ConvertWrite(options, refUsePad)
  {
    var fields := Words(options);
    if fields == [] || AfterFirstWord(options) == [] {
      return [], false;
    }
    var parsed := ParseRegion(fields[0]);
    if !parsed.Parsed? {
      return [], parsed.Malformed?;
    }
    var r := parsed.value;
    var values := fields[1..];
    if IsSkipped(r.node, r.target, r.offset) {
      return [], false;
    }
    var news := values;
    if refUsePad.Some? {
      var patched := PadClock(values, r.node, r.target, r.offset, refUsePad.value != 0);
      if patched.None? {
        return [], true;
      }
      news := patched.value;
    }
    records, raised := WriteValues(news, values, r.node, r.target, r.offset);
  }

  /** `convert_ncp_read`: a 1000 microsecond pause, then the read. */
  function ConvertRead(options: string): (o: Outcome)
    ensures o.raised ==> o.records == []
    ensures o.records == [] || (|o.records| == 2 && o.records[0] == Usleep("1000") && o.records[1].Read?)
  {
    var fields := Words(options);
    if |fields| < 1 then Outcome([], false)
    else match ParseRegion(fields[0])
      case NoMatch => Outcome([], false)
      case Malformed => Outcome([], true)
      case Parsed(r) => Outcome([Usleep("1000"), Read(r.node, r.target, r.offset)], false)
  }

  /** `convert_ncp_modify`: the address, the mask and the value; the record lists the value
      before the mask. The pattern's `([\S]*)` groups may match nothing, so with fewer than three
      tokens it still matches once two white-space characters follow the address, and the
      missing mask or value then fails in `int('', 16)`. */
  function ConvertModify(options: string): (o: Outcome)
    ensures o.raised ==> o.records == []
    ensures o.records == [] || (|o.records| == 1 && o.records[0].Modify?)
  {
    var fields := Words(options);
    if |fields| < 3 then
      Outcome([], fields != [] && SpaceCount(AfterFirstWord(options)) >= 2 && !ParseRegion(fields[0]).NoMatch?)
    else match ParseRegion(fields[0])
      case NoMatch => Outcome([], false)
      case Malformed => Outcome([], true)
      case Parsed(r) =>
        match (ParseHex(fields[1]), ParseHex(fields[2]))
        case (Some(mask), Some(value)) => Outcome([Modify(r.node, r.target, r.offset, value, mask)], false)
        case _ => Outcome([], true)
  }

  /** `convert_ncp_usleep`: the options are copied into the record as they are. */
  function ConvertUsleep(options: string): Outcome
  {
    Outcome([Usleep(options)], false)
  }

  /** The token `-c`. */
  predicate IsFlag(w: string, c: char)
  {
    |w| == 2 && w[0] == '-' && w[1] == c
  }

  /** `convert_ncp_poll`: `-l loops -t timeout address mask value`, where the offset has no dot;
      loops and timeout are matched but not used. */
  function ConvertPoll(options: string): (o: Outcome)
    ensures o.raised ==> o.records == []
    ensures o.records == [] || (|o.records| == 1 && o.records[0].Poll?)
  {
    var fields := Words(options);
    if |fields| != 7 || !IsFlag(fields[0], 'l') || !IsFlag(fields[2], 't') then Outcome([], false)
    else PollRecord(fields[4], fields[5], fields[6])
  }

  /** The address, mask and value tokens of a poll line, matched and read. */
  function PollRecord(token: string, m: string, v: string): (o: Outcome)
    ensures o.raised ==> o.records == []
    ensures o.records == [] || (|o.records| == 1 && o.records[0].Poll?)
  {
    match SplitAddress(token)
    case None => Outcome([], false)
    case Some(a) =>
      if !DotFree(a.offset) then Outcome([], false)
      else match Locate(a)
        case None => Outcome([], true)
        case Some(r) =>
          match (ParseHex(m), ParseHex(v))
          case (Some(mask), Some(value)) => Outcome([Poll(r.node, r.target, r.offset, mask, value)], false)
          case _ => Outcome([], true)
  }

  // ---------------------------------------------------------------------------------------
  // The handlers read back what the C rows say: a trace line printed from a record's fields
  // converts to that record.

  /** A field of an address token: no dot, no white space. */
  predicate IsField(s: string)
  {
    forall i :: 0 <= i < |s| ==> s[i] != '.' && !IsSpace(s[i])
  }

  lemma DigitsAreWordChars(n: nat, base: nat)
    requires base == 10 || base == 16
    ensures IsField(Digits(n, base))
  {
    var ds := Digits(n, base);
    forall i | 0 <= i < |ds|
      ensures ds[i] != '.' && !IsSpace(ds[i])
    {
      assert IsDigit(ds[i], base);
    }
  }

  lemma FieldConcat(p: string, d: string)
    requires IsField(p) && IsField(d)
    ensures IsField(p + d)
  {
    var s := p + d;
    forall i | 0 <= i < |s|
      ensures s[i] != '.' && !IsSpace(s[i])
    {
      if i < |p| {
        assert s[i] == p[i];
      } else {
        assert s[i] == d[i - |p|];
      }
    }
  }

  /** `hex(n)` prints a field. */
  lemma HexStringIsField(n: int)
    ensures IsField(HexString(n))
  {
    assert IsField("-0x") && IsField("0x");
    if n < 0 {
      DigitsAreWordChars(-n, 16);
      FieldConcat("-0x", Digits(-n, 16));
    } else {
      DigitsAreWordChars(n, 16);
      FieldConcat("0x", Digits(n, 16));
    }
  }

  /** `str(n)` prints a field. */
  lemma DecimalStringIsField(n: int)
    ensures IsField(DecimalString(n))
  {
    assert IsField("-");
    if n < 0 {
      DigitsAreWordChars(-n, 10);
      FieldConcat("-", Digits(-n, 10));
    } else {
      DigitsAreWordChars(n, 10);
    }
  }

  lemma {:induction false} FieldIsDotFree(s: string)
    requires IsField(s)
    ensures DotFree(s)
    decreases |s|
  {
    if s != [] {
      assert forall i :: 0 <= i < |s| - 1 ==> s[1..][i] == s[i + 1];
      FieldIsDotFree(s[1..]);
    }
  }

  /** `str(n)` and `hex(n)` print fields. */
  lemma NumeralsAreFields(n: int)
    ensures IsField(HexString(n)) && IsField(DecimalString(n))
    ensures DotFree(HexString(n)) && DotFree(DecimalString(n))
  {
    HexStringIsField(n);
    DecimalStringIsField(n);
    FieldIsDotFree(HexString(n));
    FieldIsDotFree(DecimalString(n));
  }

  /** The address token of register `r` in domain `domain`. */
  function RegionText(domain: string, r: Region): string
  {
    AddressText(Address(domain, DecimalString(r.node), DecimalString(r.target), HexString(r.offset)))
  }

  predicate NoSpace(s: string)
  {
    forall i :: 0 <= i < |s| ==> !IsSpace(s[i])
  }

  lemma DottedNoSpace(a: string, b: string)
    requires IsField(a) && NoSpace(b)
    ensures NoSpace(a + "." + b)
  {
    var s := a + "." + b;
    forall i | 0 <= i < |s|
      ensures !IsSpace(s[i])
    {
      if i < |a| {
        assert s[i] == a[i];
      } else if i > |a| {
        assert s[i] == b[i - |a| - 1];
      }
    }
  }

  /** A printed address is one token. */
  lemma RegionTextIsWord(domain: string, r: Region)
    requires IsField(domain)
    ensures IsWord(RegionText(domain, r))
  {
    var n, t, o := DecimalString(r.node), DecimalString(r.target), HexString(r.offset);
    NumeralsAreFields(r.node);
    NumeralsAreFields(r.target);
    NumeralsAreFields(r.offset);
    DottedNoSpace(t, o);
    DottedNoSpace(n, t + "." + o);
    DottedNoSpace(domain, n + "." + (t + "." + o));
  }

  /** A printed address reads back as its register. */
  lemma ParseRegionText(domain: string, r: Region)
    requires IsField(domain)
    ensures ParseRegion(RegionText(domain, r)) == Parsed(r)
  {
    var a := Address(domain, DecimalString(r.node), DecimalString(r.target), HexString(r.offset));
    NumeralsAreFields(r.node);
    NumeralsAreFields(r.target);
    FieldIsDotFree(domain);
    SplitAddressOf(a);
    DecimalRoundTrip(r.node);
    DecimalRoundTrip(r.target);
    HexRoundTrip(r.offset);
  }

  /** `hex(v)` of every value. */
  function HexStrings(vs: seq<int>): (ss: seq<string>)
    ensures |ss| == |vs|
    ensures forall i :: 0 <= i < |vs| ==> ss[i] == HexString(vs[i])
  {
    if vs == [] then [] else [HexString(vs[0])] + HexStrings(vs[1..])
  }

  /** The live writes of `vs` at consecutive words from `offset`. */
  function LiveWrites(node: int, target: int, offset: int, vs: seq<int>): (rs: seq<Record>)
    ensures |rs| == |vs|
    ensures forall i :: 0 <= i < |vs| ==> rs[i] == Write(node, target, offset + 4 * i, vs[i])
    decreases |vs|
  {
    if vs == [] then [] else [Write(node, target, offset, vs[0])] + LiveWrites(node, target, offset + 4, vs[1..])
  }

  /** `hex(n)` prints one token. */
  lemma HexStringIsWord(n: int)
    ensures IsWord(HexString(n))
  {
    NumeralsAreFields(n);
    assert HexString(n) != [];
  }

  lemma HexStringsAreWords(vs: seq<int>)
    ensures forall i :: 0 <= i < |vs| ==> IsWord(HexStrings(vs)[i])
  {
    forall i | 0 <= i < |vs|
      ensures IsWord(HexStrings(vs)[i])
    {
      HexStringIsWord(vs[i]);
    }
  }

  /** `write_values` on unpatched printed values writes each of them once, uncommented. */
  lemma {:induction false} WriteRecordsOfHex(node: int, target: int, offset: int, vs: seq<int>)
    ensures WriteRecords(HexStrings(vs), HexStrings(vs), node, target, offset) == Outcome(LiveWrites(node, target, offset, vs), false)
    decreases |vs|
  {
    if vs != [] {
      var ss := HexStrings(vs);
      assert ss[1..] == HexStrings(vs[1..]);
      HexRoundTrip(vs[0]);
      WriteRecordsOfHex(node, target, offset + 4, vs[1..]);
      WriteRecordsCons(ss, ss, node, target, offset);
      assert PairRecords(node, target, offset, vs[0], vs[0]) == [Write(node, target, offset, vs[0])];
    }
  }

  /** A write line whose address reads as an unskipped register runs `write_values` on its
      values, unpatched when the pad setting is unset. */
  lemma WriteParsed(options: string, a: string, values: seq<string>, r: Region)
    requires Words(options) == [a] + values && values != []
    requires ParseRegion(a) == Parsed(r) && !IsSkipped(r.node, r.target, r.offset)
    ensures ConvertWrite(options, None) == WriteRecords(values, values, r.node, r.target, r.offset)
  {
    SecondWordFollows(options);
    assert Words(options)[1..] == values;
  }

  /** A read line whose address reads as a register gives the pause and the read. */
  lemma ReadParsed(options: string, a: string, r: Region)
    requires |Words(options)| >= 1 && Words(options)[0] == a && ParseRegion(a) == Parsed(r)
    ensures ConvertRead(options) == Outcome([Usleep("1000"), Read(r.node, r.target, r.offset)], false)
  {
  }

  /** A modify line with a readable address, mask and value gives that modify. */
  lemma ModifyParsed(options: string, a: string, m: string, v: string, r: Region, mask: int, value: int)
    requires |Words(options)| >= 3 && Words(options)[..3] == [a, m, v]
    requires ParseRegion(a) == Parsed(r) && ParseHex(m) == Some(mask) && ParseHex(v) == Some(value)
    ensures ConvertModify(options) == Outcome([Modify(r.node, r.target, r.offset, value, mask)], false)
  {
    var fields := Words(options);
    assert fields[0] == a && fields[1] == m && fields[2] == v by {
      assert fields[..3][0] == fields[0] && fields[..3][1] == fields[1] && fields[..3][2] == fields[2];
    }
  }

  /** A modify line with fewer than three tokens: the address token, white space, perhaps the
      mask and more white space. It raises exactly when the address matches the pattern and two
      white-space characters follow it, and writes nothing either way. */
  lemma ModifyMissingValue(a: string, blank: string, m: string, trail: string)
    requires IsWord(a) && (m == [] || (IsWord(m) && blank != []))
    requires forall i :: 0 <= i < |blank| ==> IsSpace(blank[i])
    requires forall i :: 0 <= i < |trail| ==> IsSpace(trail[i])
    ensures var o := ConvertModify(a + blank + m + trail);
      o.records == [] && (o.raised <==> !ParseRegion(a).NoMatch? && |blank| + |trail| >= 2)
  {
    var options, rest := a + blank + m + trail, blank + m + trail;
    assert 1 <= |Words(options)| < 3 && Words(options)[0] == a
        && SpaceCount(AfterFirstWord(options)) == |blank| + |trail| by {
      assert options == a + rest;
      SpacedWord(blank, m, trail);
      WordFirst(a, rest);
    }
    ModifyFewTokens(options);
  }

  /** ConvertModify on fewer than three tokens. */
  lemma ModifyFewTokens(options: string)
    requires 1 <= |Words(options)| < 3
    ensures ConvertModify(options)
         == Outcome([], SpaceCount(AfterFirstWord(options)) >= 2 && !ParseRegion(Words(options)[0]).NoMatch?)
  {
  }

  /** A write line whose address has no values after it: without white space after the address
      the pattern does not match; with it, nothing is written, and the line raises exactly when
      the address is malformed or, with the pad setting, `pad_clock` finds no first value at the
      clock register. */
  lemma WriteWithoutValues(a: string, blank: string, refUsePad: Option<int>)
    requires IsWord(a) && forall i :: 0 <= i < |blank| ==> IsSpace(blank[i])
    ensures var o, p := ConvertWrite(a + blank, refUsePad), ParseRegion(a);
      o.records == []
      && (o.raised <==> blank != [] && (p.Malformed? || (p.Parsed? && !IsSkipped(p.value.node, p.value.target, p.value.offset)
                                                          && refUsePad.Some? && IsClockPad(p.value.node, p.value.target, p.value.offset))))
  {
    assert Words(a + blank) == [a] && AfterFirstWord(a + blank) == blank by {
      WordFirst(a, blank);
      Spaces(blank, []);
      assert blank + [] == blank;
    }
  }

  /** A poll line of seven tokens with the two flags in place is read from its address, mask
      and value tokens alone. */
  lemma PollShape(options: string, loops: string, timeout: string, t: string, m: string, v: string)
    requires Words(options) == ["-l", loops, "-t", timeout, t, m, v]
    ensures ConvertPoll(options) == PollRecord(t, m, v)
  {
  }

  /** A readable address whose offset has no dot, and a readable mask and value, give that
      poll. */
  lemma PollParsed(t: string, a: Address, m: string, v: string, r: Region, mask: int, value: int)
    requires SplitAddress(t) == Some(a) && DotFree(a.offset)
    requires Locate(a) == Some(r) && ParseHex(m) == Some(mask) && ParseHex(v) == Some(value)
    ensures PollRecord(t, m, v) == Outcome([Poll(r.node, r.target, r.offset, mask, value)], false)
  {
  }

  /** An `ncpWrite` line printed from a register and its values converts, without the pad
      setting, to one live write per value at consecutive words. */
  lemma WriteRoundTrip(domain: string, r: Region, vs: seq<int>)
    requires IsField(domain) && vs != [] && !IsSkipped(r.node, r.target, r.offset)
    ensures ConvertWrite(JoinWords([RegionText(domain, r)] + HexStrings(vs)), None)
         == Outcome(LiveWrites(r.node, r.target, r.offset, vs), false)
  {
    var a, values := RegionText(domain, r), HexStrings(vs);
    RegionTextIsWord(domain, r);
    HexStringsAreWords(vs);
    WordsOfJoinCons(a, values);
    ParseRegionText(domain, r);
    WriteParsed(JoinWords([a] + values), a, values, r);
    WriteRecordsOfHex(r.node, r.target, r.offset, vs);
  }

  /** An `ncpRead` line printed from a register converts to the pause and the read. */
  lemma ReadRoundTrip(domain: string, r: Region)
    requires IsField(domain)
    ensures ConvertRead(RegionText(domain, r)) == Outcome([Usleep("1000"), Read(r.node, r.target, r.offset)], false)
  {
    var a := RegionText(domain, r);
    RegionTextIsWord(domain, r);
    WordsOfJoin([a]);
    ParseRegionText(domain, r);
    ReadParsed(a, a, r);
  }

  /** An `ncpModify` line printed from a register, a mask and a value converts to that modify. */
  lemma ModifyRoundTrip(domain: string, r: Region, mask: int, value: int)
    requires IsField(domain)
    ensures ConvertModify(JoinWords([RegionText(domain, r), HexString(mask), HexString(value)]))
         == Outcome([Modify(r.node, r.target, r.offset, value, mask)], false)
  {
    var a, m, v := RegionText(domain, r), HexString(mask), HexString(value);
    RegionTextIsWord(domain, r);
    HexStringIsWord(mask);
    HexStringIsWord(value);
    WordsOfJoin([a, m, v]);
    ParseRegionText(domain, r);
    HexRoundTrip(mask);
    HexRoundTrip(value);
    ModifyParsed(JoinWords([a, m, v]), a, m, v, r, mask, value);
  }

  lemma PollLineWords(loops: string, timeout: string, t: string, m: string, v: string)
    requires IsWord(loops) && IsWord(timeout) && IsWord(t) && IsWord(m) && IsWord(v)
    ensures Words(JoinWords(["-l", loops, "-t", timeout, t, m, v])) == ["-l", loops, "-t", timeout, t, m, v]
  {
    assert IsWord("-l") && IsWord("-t");
    WordsOfJoin(["-l", loops, "-t", timeout, t, m, v]);
  }

  /** A poll line joined from seven tokens with a readable address, mask and value gives that
      poll. */
  lemma PollLine(loops: string, timeout: string, t: string, a: Address, m: string, v: string,
                 r: Region, mask: int, value: int)
    requires IsWord(loops) && IsWord(timeout) && IsWord(t) && IsWord(m) && IsWord(v)
    requires SplitAddress(t) == Some(a) && DotFree(a.offset)
    requires Locate(a) == Some(r) && ParseHex(m) == Some(mask) && ParseHex(v) == Some(value)
    ensures ConvertPoll(JoinWords(["-l", loops, "-t", timeout, t, m, v]))
         == Outcome([Poll(r.node, r.target, r.offset, mask, value)], false)
  {
    var ws := ["-l", loops, "-t", timeout, t, m, v];
    PollLineWords(loops, timeout, t, m, v);
    PollShape(JoinWords(ws), loops, timeout, t, m, v);
    PollParsed(t, a, m, v, r, mask, value);
  }

  /** An `ncpPoll` line printed from loops, a timeout, a register, a mask and a value converts
      to that poll. */
  lemma PollRoundTrip(loops: string, timeout: string, domain: string, r: Region, mask: int, value: int)
    requires IsWord(loops) && IsWord(timeout) && IsField(domain)
    ensures ConvertPoll(JoinWords(["-l", loops, "-t", timeout, RegionText(domain, r), HexString(mask), HexString(value)]))
         == Outcome([Poll(r.node, r.target, r.offset, mask, value)], false)
  {
    var a := Address(domain, DecimalString(r.node), DecimalString(r.target), HexString(r.offset));
    assert IsWord(RegionText(domain, r)) && IsWord(HexString(mask)) && IsWord(HexString(value)) by {
      RegionTextIsWord(domain, r);
      HexStringIsWord(mask);
      HexStringIsWord(value);
    }
    assert SplitAddress(RegionText(domain, r)) == Some(a) && DotFree(a.offset) by {
      NumeralsAreFields(r.node);
      NumeralsAreFields(r.target);
      NumeralsAreFields(r.offset);
      FieldIsDotFree(domain);
      SplitAddressOf(a);
    }
    assert Locate(a) == Some(r) by {
      DecimalRoundTrip(r.node);
      DecimalRoundTrip(r.target);
      HexRoundTrip(r.offset);
    }
    assert ParseHex(HexString(mask)) == Some(mask) && ParseHex(HexString(value)) == Some(value) by {
      HexRoundTrip(mask);
      HexRoundTrip(value);
    }
    PollLine(loops, timeout, RegionText(domain, r), a, HexString(mask), HexString(value), r, mask, value);
  }

  // ---------------------------------------------------------------------------------------
  // The write handler's branches.

  /** The skip list wins over everything: a skipped register writes nothing and raises nothing,
      whatever its values and the pad setting. */
  lemma SkippedRegisterWritesNothing(options: string, refUsePad: Option<int>, r: Region)
    requires |Words(options)| >= 2 && ParseRegion(Words(options)[0]) == Parsed(r)
    requires IsSkipped(r.node, r.target, r.offset)
    ensures ConvertWrite(options, refUsePad) == Outcome([], false)
  {
  }

  /** Without the pad setting, a write line only ever produces live writes. */
  lemma UnpaddedWriteHasNoComment(options: string)
    ensures forall j :: 0 <= j < |ConvertWrite(options, None).records| ==> ConvertWrite(options, None).records[j].Write?
  {
    var fields := Words(options);
    if fields != [] && AfterFirstWord(options) != [] && ParseRegion(fields[0]).Parsed? {
      var r := ParseRegion(fields[0]).value;
      UnpatchedWritesOnly(fields[1..], r.node, r.target, r.offset);
      if !IsSkipped(r.node, r.target, r.offset) {
        assert ConvertWrite(options, None) == WriteRecords(fields[1..], fields[1..], r.node, r.target, r.offset);
      }
    }
  }

  /** Away from the clock register, the pad setting makes no difference. */
  lemma PadOnlyAtClock(options: string, p: int, r: Region)
    requires |Words(options)| >= 2 && ParseRegion(Words(options)[0]) == Parsed(r)
    requires !IsClockPad(r.node, r.target, r.offset)
    ensures ConvertWrite(options, Some(p)) == ConvertWrite(options, None)
  {
  }

  /** At the clock register with the pad setting, the first live write carries the first value
      with bit 1 set (setting nonzero) or cleared (setting zero), and its comment, if any, the
      original value; every later write keeps its value. */
  lemma PaddedClockWrite(options: string, p: int, v: int)
    requires |Words(options)| >= 2 && ParseRegion(Words(options)[0]) == Parsed(Region(273, 0, 0x4c))
    requires ParseHex(Words(options)[1]) == Some(v)
    ensures var cs := Unwrite(ConvertWrite(options, Some(p)).records);
      && cs != []
      && cs[0].before == v && cs[0].node == 273 && cs[0].target == 0 && cs[0].offset == 0x4c
      && Bit1(cs[0].after) == (if p != 0 then 1 else 0) && cs[0].after / 4 == v / 4 && cs[0].after % 2 == v % 2
      && forall i :: 1 <= i < |cs| ==> cs[i].before == cs[i].after
  {
    SecondWordFollows(options);
    var values := Words(options)[1..];
    var usePad := p != 0;
    assert IsClockPad(273, 0, 0x4c) && !IsSkipped(273, 0, 0x4c);
    PadClockBits(values, 273, 0, 0x4c, usePad, v);
    var news := PadClock(values, 273, 0, 0x4c, usePad).value;
    assert ConvertWrite(options, Some(p)) == WriteRecords(news, values, 273, 0, 0x4c);
    WriteRecordsDecode(news, values, 273, 0, 0x4c);
    HexRoundTrip(if usePad then SetBit1(v) else ClearBit1(v));
  }
}
