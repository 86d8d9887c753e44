/** The write path of the converter: the skip list, the pad-clock patch (`pad_clock`) and the
    emission of one write per value (`write_values`). */
module Writes {
  import opened Wrappers
  import opened Numbers
  import opened Records

  /** `CLOCK_PAD_ADDR`, 0.273.0.0x4c: the register holding the PAD clock enable in bit 1. */
  predicate IsClockPad(node: int, target: int, offset: int)
  {
    node == 273 && target == 0 && offset == 0x4c
  }

  /** `pad_clock`: at the clock register, set (`use_pad`) or clear bit 1 of the first value and
      write it back with `hex`. `None` is the `IndexError` of an empty value list or the
      `ValueError` of a first value that is not hexadecimal. */
  function PadClock(values: seq<string>, node: int, target: int, offset: int, usePad: bool): (r: Option<seq<string>>)
    ensures !IsClockPad(node, target, offset) ==> r == Some(values)
    ensures r.None? <==> IsClockPad(node, target, offset) && (values == [] || ParseHex(values[0]).None?)
    ensures r.Some? ==> |r.value| == |values| && forall i :: 1 <= i < |values| ==> r.value[i] == values[i]
  {
    if !IsClockPad(node, target, offset) then Some(values)
    else if values == [] then None
    else match ParseHex(values[0])
      case None => None
      case Some(v) => Some(values[0 := HexString(if usePad then SetBit1(v) else ClearBit1(v))])
  }

  /** At the clock register the new first value reads back as the old one with bit 1 set or
      cleared as `use_pad` says, and every other bit as it was. */
  lemma PadClockBits(values: seq<string>, node: int, target: int, offset: int, usePad: bool, v: int)
    requires IsClockPad(node, target, offset) && values != [] && ParseHex(values[0]) == Some(v)
    ensures PadClock(values, node, target, offset, usePad).Some?
    ensures var w := ParseHex(PadClock(values, node, target, offset, usePad).value[0]);
      w.Some? && Bit1(w.value) == (if usePad then 1 else 0) && w.value / 4 == v / 4 && w.value % 2 == v % 2
  {
    HexRoundTrip(if usePad then SetBit1(v) else ClearBit1(v));
  }

  /** Patching an already patched list changes nothing. */
  lemma PadClockIdempotent(values: seq<string>, node: int, target: int, offset: int, usePad: bool)
    requires PadClock(values, node, target, offset, usePad).Some?
    ensures PadClock(PadClock(values, node, target, offset, usePad).value, node, target, offset, usePad)
         == PadClock(values, node, target, offset, usePad)
  {
    if IsClockPad(node, target, offset) {
      var v := ParseHex(values[0]).value;
      var w := if usePad then SetBit1(v) else ClearBit1(v);
      HexRoundTrip(w);
      var once := values[0 := HexString(w)];
      assert (if usePad then SetBit1(w) else ClearBit1(w)) == w;
      assert once[0 := HexString(w)] == once;
    }
  }

  /** The offsets skipped for target 16 of nodes 23 and 31. */
  const SkippedAt16: set<int> := {160, 164, 168, 172, 176, 180, 184, 188}

  /** The offsets skipped for target 18 of nodes 23 and 31. */
  const SkippedAt18: set<int> :=
    {772, 776, 836, 840, 844, 848, 852, 964, 968,
     1028, 1032, 1036, 1040, 1044, 1156, 1160, 1220,
     1224, 1228, 1232, 1236, 1348, 1352, 1412, 1416,
     1420, 1424, 1428}

  /** The registers `convert_ncp_write` never writes. */
  predicate IsSkipped(node: int, target: int, offset: int)
  {
    (node == 23 || node == 31) &&
    ((target == 16 && offset in SkippedAt16) || (target == 18 && offset in SkippedAt18))
  }

  /** The target-16 list is the eight words from 160 to 188. */
  lemma SkippedAt16Words(offset: int)
    ensures offset in SkippedAt16 <==> 160 <= offset <= 188 && offset % 4 == 0
  {
  }

  /** The target-18 list repeats one pattern in four banks 192 bytes apart: words 0 and 4 of the
      bank and the five words from 64 to 80. */
  lemma SkippedAt18Banks(offset: int)
    ensures offset in SkippedAt18 <==>
      772 <= offset && (offset - 772) / 192 < 4 && (offset - 772) % 192 in {0, 4, 64, 68, 72, 76, 80}
  {
    if 772 <= offset && (offset - 772) / 192 < 4 {
      var bank, word := (offset - 772) / 192, (offset - 772) % 192;
      assert offset == 772 + 192 * bank + word;
      assert bank == 0 || bank == 1 || bank == 2 || bank == 3;
    }
  }

  /** What one value pair of `write_values` writes: the old value as a tagged comment when the
      values differ, then the new value. */
  function PairRecords(node: int, target: int, offset: int, newval: int, oldval: int): seq<Record>
  {
    (if newval != oldval then [OldWrite(node, target, offset, oldval)] else []) + [Write(node, target, offset, newval)]
  }

  /** `write_values`: the pairs of `zip(news, olds)` at consecutive words from `offset`; a value
      that is not hexadecimal raises, after the earlier pairs have been written. */
  function WriteRecords(news: seq<string>, olds: seq<string>, node: int, target: int, offset: int): (o: Outcome)
    ensures forall j :: 0 <= j < |o.records| ==> o.records[j].Write? || o.records[j].OldWrite?
    decreases |news|
  {
    if news == [] || olds == [] then Outcome([], false)
    else if ParseHex(news[0]).None? || ParseHex(olds[0]).None? then Outcome([], true)
    else
      var rest := WriteRecords(news[1..], olds[1..], node, target, offset + 4);
      Outcome(PairRecords(node, target, offset, ParseHex(news[0]).value, ParseHex(olds[0]).value) + rest.records, rest.raised)
  }

  /** The records of `o` written after `rs`. */
  function Resume(rs: seq<Record>, o: Outcome): Outcome
  {
    Outcome(rs + o.records, o.raised)
  }

  /** WriteRecords on two non-empty lists, one pair at a time. */
  lemma WriteRecordsCons(news: seq<string>, olds: seq<string>, node: int, target: int, offset: int)
    requires news != [] && olds != []
    ensures var o := WriteRecords(news, olds, node, target, offset);
      if ParseHex(news[0]).Some? && ParseHex(olds[0]).Some? then
        var rest := WriteRecords(news[1..], olds[1..], node, target, offset + 4);
        o == Outcome(PairRecords(node, target, offset, ParseHex(news[0]).value, ParseHex(olds[0]).value) + rest.records, rest.raised)
      else o == Outcome([], true)
  {
  }

  lemma Associative<T>(a: seq<T>, b: seq<T>, c: seq<T>)
    ensures a + (b + c) == (a + b) + c
  {
  }

  /** A pair with a malformed value raises after what was written before it. */
  lemma ResumeRaise(records: seq<Record>, news: seq<string>, olds: seq<string>, node: int, target: int, offset: int, i: nat)
    requires i < |news| && i < |olds|
    requires ParseHex(news[i]).None? || ParseHex(olds[i]).None?
    ensures Resume(records, WriteRecords(news[i..], olds[i..], node, target, offset)) == Outcome(records, true)
  {
    WriteRecordsCons(news[i..], olds[i..], node, target, offset);
    assert records + [] == records;
  }

  /** A pair with readable values moves its records in front of the rest. */
  lemma ResumePair(records: seq<Record>, news: seq<string>, olds: seq<string>, node: int, target: int, offset: int, i: nat)
    requires i < |news| && i < |olds|
    requires ParseHex(news[i]).Some? && ParseHex(olds[i]).Some?
    ensures Resume(records, WriteRecords(news[i..], olds[i..], node, target, offset))
         == Resume(records + PairRecords(node, target, offset, ParseHex(news[i]).value, ParseHex(olds[i]).value),
                   WriteRecords(news[i + 1..], olds[i + 1..], node, target, offset + 4))
  {
    WriteRecordsCons(news[i..], olds[i..], node, target, offset);
    assert news[i..][1..] == news[i + 1..] && olds[i..][1..] == olds[i + 1..];
    var rest := WriteRecords(news[i + 1..], olds[i + 1..], node, target, offset + 4);
    Associative(records, PairRecords(node, target, offset, ParseHex(news[i]).value, ParseHex(olds[i]).value), rest.records);
  }

  /** `write_values`, with the file it writes to replaced by the records it returns. */
  method WriteValues(news: seq<string>, olds: seq<string>, node: int, target: int, offset0: int)
    returns (records: seq<Record>, raised: bool)
    ensures Outcome(records, raised) == WriteRecords(news, olds, node, target, offset0)
  {
    records, raised := [], false;
    var offset := offset0;
    var i := 0;
    while i < |news| && i < |olds|
      invariant i <= |news| && i <= |olds|
      invariant Resume(records, WriteRecords(news[i..], olds[i..], node, target, offset)) == WriteRecords(news, olds, node, target, offset0)
    {
      var newval := ParseHex(news[i]);
      if newval.None? {
        ResumeRaise(records, news, olds, node, target, offset, i);
        raised := true;
        return;
      }
      var oldval := ParseHex(olds[i]);
      if oldval.None? {
        ResumeRaise(records, news, olds, node, target, offset, i);
        raised := true;
        return;
      }
      ResumePair(records, news, olds, node, target, offset, i);
      ghost var pair := PairRecords(node, target, offset, newval.value, oldval.value);
      ghost var before := records;
      if newval.value != oldval.value {
        records := records + [OldWrite(node, target, offset, oldval.value)];
      }
      records := records + [Write(node, target, offset, newval.value)];
      assert records == before + pair;
      offset := offset + 4;
      i := i + 1;
    }
    assert news[i..] == [] || olds[i..] == [];
    assert records + [] == records;
  }

  /** One changed or unchanged register as the output shows it. */
  datatype Change = Change(node: int, target: int, offset: int, before: int, after: int)

  /** The live writes of a record list. */
  function Live(rs: seq<Record>): (ws: seq<Record>)
    ensures forall j :: 0 <= j < |ws| ==> ws[j].Write?
  {
    if rs == [] then []
    else (if rs[0].Write? then [rs[0]] else []) + Live(rs[1..])
  }

  /** The reader's view of the output: every live write, with the value of the tagged comment
      right before it as its old value, or its own value when there is none. */
  function Unwrite(rs: seq<Record>): (cs: seq<Change>)
    ensures |cs| == |Live(rs)|
    decreases |rs|
  {
    if rs == [] then []
    else if |rs| >= 2 && rs[0].OldWrite? && rs[1].Write? then
      assert Live(rs) == Live(rs[1..]) && rs[1..][1..] == rs[2..];
      [Change(rs[1].node, rs[1].target, rs[1].offset, rs[0].value, rs[1].value)] + Unwrite(rs[2..])
    else if rs[0].Write? then
      [Change(rs[0].node, rs[0].target, rs[0].offset, rs[0].value, rs[0].value)] + Unwrite(rs[1..])
    else Unwrite(rs[1..])
  }

  /** `cs` lists the first `|cs|` pairs, each with readable values, at consecutive words from
      `offset`. */
  predicate DecodesPairs(cs: seq<Change>, news: seq<string>, olds: seq<string>, node: int, target: int, offset: int)
  {
    && |cs| <= |news| && |cs| <= |olds|
    && forall i :: 0 <= i < |cs| ==>
      ParseHex(news[i]).Some? && ParseHex(olds[i]).Some? &&
      cs[i] == Change(node, target, offset + 4 * i, ParseHex(olds[i]).value, ParseHex(news[i]).value)
  }

  /** Entry `i - 1` of a decoding of the tails is entry `i` of a decoding of the whole lists. */
  lemma DecodesShift(tail: seq<Change>, news: seq<string>, olds: seq<string>, node: int, target: int, offset: int, i: nat)
    requires news != [] && olds != [] && 1 <= i <= |tail|
    requires DecodesPairs(tail, news[1..], olds[1..], node, target, offset + 4)
    ensures ParseHex(news[i]).Some? && ParseHex(olds[i]).Some?
    ensures tail[i - 1] == Change(node, target, offset + 4 * i, ParseHex(olds[i]).value, ParseHex(news[i]).value)
  {
    assert news[1..][i - 1] == news[i] && olds[1..][i - 1] == olds[i];
  }

  lemma DecodesCons(c0: Change, tail: seq<Change>, news: seq<string>, olds: seq<string>, node: int, target: int, offset: int)
    requires news != [] && olds != [] && ParseHex(news[0]).Some? && ParseHex(olds[0]).Some?
    requires c0 == Change(node, target, offset, ParseHex(olds[0]).value, ParseHex(news[0]).value)
    requires DecodesPairs(tail, news[1..], olds[1..], node, target, offset + 4)
    ensures DecodesPairs([c0] + tail, news, olds, node, target, offset)
  {
    var cs := [c0] + tail;
    forall i | 1 <= i < |cs|
      ensures ParseHex(news[i]).Some? && ParseHex(olds[i]).Some? &&
        cs[i] == Change(node, target, offset + 4 * i, ParseHex(olds[i]).value, ParseHex(news[i]).value)
    {
      DecodesShift(tail, news, olds, node, target, offset, i);
    }
  }

  /** Reading back a pair's records gives the pair. */
  lemma UnwritePair(node: int, target: int, offset: int, newval: int, oldval: int, rest: seq<Record>)
    ensures Unwrite(PairRecords(node, target, offset, newval, oldval) + rest)
         == [Change(node, target, offset, oldval, newval)] + Unwrite(rest)
  {
    var rs := PairRecords(node, target, offset, newval, oldval) + rest;
    if newval != oldval {
      assert rs[2..] == rest;
    } else {
      assert rs[1..] == rest;
    }
  }

  /** Reading the output back gives, for the first `k` pairs, one live write each at word `i`
      after `offset` with both of the pair's values; `write_values` raises exactly when `k`
      falls short of the number of pairs, and then pair `k` is the one with a malformed value. */
  lemma {:induction false} WriteRecordsDecode(news: seq<string>, olds: seq<string>, node: int, target: int, offset: int)
    ensures var o, n := WriteRecords(news, olds, node, target, offset), if |news| < |olds| then |news| else |olds|;
      var cs := Unwrite(o.records);
      && DecodesPairs(cs, news, olds, node, target, offset)
      && (o.raised <==> |cs| < n)
      && (|cs| < n ==> ParseHex(news[|cs|]).None? || ParseHex(olds[|cs|]).None?)
    decreases |news|
  {
    if news != [] && olds != [] {
      WriteRecordsCons(news, olds, node, target, offset);
      if ParseHex(news[0]).Some? && ParseHex(olds[0]).Some? {
        var nv, ov := ParseHex(news[0]).value, ParseHex(olds[0]).value;
        var rest := WriteRecords(news[1..], olds[1..], node, target, offset + 4);
        WriteRecordsDecode(news[1..], olds[1..], node, target, offset + 4);
        var tail := Unwrite(rest.records);
        UnwritePair(node, target, offset, nv, ov, rest.records);
        DecodesCons(Change(node, target, offset, ov, nv), tail, news, olds, node, target, offset);
        if |tail| < |news| - 1 && |tail| < |olds| - 1 {
          assert news[1..][|tail|] == news[|tail| + 1] && olds[1..][|tail|] == olds[|tail| + 1];
        }
      }
    }
  }

  /** Every tagged comment is followed by the live write of the same register, with a value
      that differs from the commented one. */
  predicate CommentsMarkChanges(rs: seq<Record>)
  {
    forall j :: 0 <= j < |rs| && rs[j].OldWrite? ==>
      && j + 1 < |rs| && rs[j + 1].Write?
      && rs[j + 1].node == rs[j].node && rs[j + 1].target == rs[j].target && rs[j + 1].offset == rs[j].offset
      && rs[j + 1].value != rs[j].value
  }

  lemma PairMarksChange(node: int, target: int, offset: int, newval: int, oldval: int, rest: seq<Record>)
    requires CommentsMarkChanges(rest)
    ensures CommentsMarkChanges(PairRecords(node, target, offset, newval, oldval) + rest)
  {
    var head := PairRecords(node, target, offset, newval, oldval);
    var rs := head + rest;
    forall j | 0 <= j < |rs| && rs[j].OldWrite?
      ensures && j + 1 < |rs| && rs[j + 1].Write?
              && rs[j + 1].node == rs[j].node && rs[j + 1].target == rs[j].target && rs[j + 1].offset == rs[j].offset
              && rs[j + 1].value != rs[j].value
    {
      if j >= |head| {
        assert rs[j] == rest[j - |head|];
        assert j + 1 < |rs| ==> rs[j + 1] == rest[j - |head| + 1];
      }
    }
  }

  /** A tagged comment only ever precedes a changed value: with WriteRecordsDecode, which reads
      the old value of an uncommented write as its new one, the comment appears exactly when the
      two values of the pair differ. */
  lemma {:induction false} RemarksMarkChanges(news: seq<string>, olds: seq<string>, node: int, target: int, offset: int)
    ensures CommentsMarkChanges(WriteRecords(news, olds, node, target, offset).records)
    decreases |news|
  {
    if news != [] && olds != [] {
      WriteRecordsCons(news, olds, node, target, offset);
      if ParseHex(news[0]).Some? && ParseHex(olds[0]).Some? {
        RemarksMarkChanges(news[1..], olds[1..], node, target, offset + 4);
        PairMarksChange(node, target, offset, ParseHex(news[0]).value, ParseHex(olds[0]).value,
          WriteRecords(news[1..], olds[1..], node, target, offset + 4).records);
      }
    }
  }

  /** With the new values the same as the old, `write_values` writes no comment. */
  lemma {:induction false} UnpatchedWritesOnly(values: seq<string>, node: int, target: int, offset: int)
    ensures var rs := WriteRecords(values, values, node, target, offset).records;
      forall j :: 0 <= j < |rs| ==> rs[j].Write?
    decreases |values|
  {
    if values != [] {
      WriteRecordsCons(values, values, node, target, offset);
      UnpatchedWritesOnly(values[1..], node, target, offset + 4);
      if ParseHex(values[0]).Some? {
        var rest := WriteRecords(values[1..], values[1..], node, target, offset + 4).records;
        var v := ParseHex(values[0]).value;
        assert PairRecords(node, target, offset, v, v) + rest == [Write(node, target, offset, v)] + rest;
      }
    }
  }
}
