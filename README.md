# A verified model of the trace-to-C converter

`convert.py` turns a register trace, as a configuration tool prints it, into C arrays of
`ncr_command_t` for a boot loader. The trace is first cut down to the blocks of a fixed list of
engines (`cutout_trace_file`). A LOOK/FOUND state machine then classifies the remaining lines
into one bucket per engine (`parse_trace`, `trace_append`, `ENGINES`, `ENGINE_DEFS`). Every
engine's bucket is saved as `<output_file>.trace` and converted into `<output_file>.c`
(`save_trace`). EIOA and EIOAE share the `eioa` files, and when both are present the `eioa` files
are rewritten from EIOA's lines followed by EIOAE's.

The conversion (`convert`) writes a header, one row or comment per trace line and a footer.
Empty lines are skipped, and `#` lines become C comments (`c_comment`). A line of white space
only does not split and ends the array early. Any other line is split into a command word and
its options, and a handler turns the options into rows: `ncpWrite` (with the register skip
list, the optional PAD clock patch `pad_clock` and `write_values`), `ncpRead`, `ncpModify`,
`ncpUsleep` and `ncpPoll`. A line that does not split ends the array early. A handler that
raises (a malformed number, a missing value) abandons the file without its footer, and
`save_trace` stops there.

The model works on values. Each C row is a `Records.Record`, and a file is its sequence of lines
or records. Wherever the source runs a loop, the model has a method with that loop, proved equal
to a specification function: `Cutout.CutoutTraceFile`, `Classifier.ParseTrace`,
`Writes.WriteValues`, `Handlers.ConvertNcpWrite`, `Converter.Convert` and `Saving.SaveTrace`. The
lemmas state what the source promises about those functions.

Modules, one per file: `Wrappers` (Option), `Text` (Python string operations), `Numbers`
(`int()`, `hex()`, `str()` and the bit operations), `Subsequence`, `Engines`, `Cutout`,
`Classifier`, `Records`, `Writes`, `Handlers`, `Converter` and `Saving`.

## Model

| member | source | states |
|---|---|---|
| Engines.EngineDefs | convert.py:33-40 | the start sign, end sign and output base name of every engine, as `ENGINE_DEFS` gives them |
| Engines.Position | convert.py:29 | `ENGINES` lists every engine exactly once: the position of `e` in the order is an index that names `e` |
| Engines.PositionOfOrder | convert.py:29 | the order has no repeats: the position of the k-th engine is k |
| Engines.EngineDefsDistinct | convert.py:33-40 | every sign of `ENGINE_DEFS` is a non-blank marker, and no start sign and end sign can begin the same line |
| Engines.MarkersDistinct | convert.py:154-169 | under that property no line both opens one block and closes another, and no marker line is blank |
| Engines.OutputFilesDistinct | convert.py:33-40 | two engines share output files exactly when both are EIOA or EIOAE |
| Cutout.TagOf | convert.py:90-91 | the tag taken after `Begin: ` is a suffix of the line: it keeps the line's newline |
| Cutout.CutoutTraceFile | convert.py:79-98 | the loop writes exactly the lines the filter function keeps |
| Cutout.FilterLine | convert.py:87-98 | one iteration of the loop, as the filter step |
| Cutout.SearchNeeded | convert.py:88-89 | the inner loop over `needed` succeeds exactly when the line ends with one of the names, white space aside |
| Cutout.KeptExactlyWhileActive | convert.py:93-94 | a line is written exactly when a block is active before it or the line itself opens one |
| Cutout.ActiveTagIsKept | convert.py:87-98 | while a block is active, a `Begin:` line does not replace its tag; only an `End:` line that matches the tag clears it |
| Cutout.CutoutIsSubsequence | convert.py:79-98 | the reduced trace is an in-order subsequence of the input |
| Cutout.RunAppend | convert.py:86-98 | filtering `a + b` is filtering `b` from the state `a` left |
| Cutout.UnclosedBlockKeepsRest | convert.py:93-98 | while a block is active, lines that do not close it are all kept and it stays active |
| Cutout.BalancedBlockKept | convert.py:87-98 | with no block active, a listed block is kept whole from its `Begin:` line to its `End:` line, and then no block is active |
| Cutout.OutsideLineDropped | convert.py:87-94 | with no block active, a line that opens no listed block is dropped |
| Classifier.TraceAppend | convert.py:134-137 | `trace_append` creates the bucket on first use, appends the line to it, and leaves every other bucket alone |
| Classifier.ParseTrace | convert.py:140-181 | the loop builds exactly the buckets of the classifier function |
| Classifier.StepsAppend | convert.py:149-179 | running the machine on `a + b` is running it on `b` from where `a` left it |
| Classifier.StoppedScanIsFinal | convert.py:172-176 | once the last engine's block has closed (the `IndexError` break), later lines change nothing |
| Classifier.StepsValid | convert.py:145-179 | the state machine's invariant holds after every line: exactly the engines before the cursor, and the current one once FOUND, have buckets, and the earlier ones are closed |
| Classifier.BucketsAreOrderedBlocks | convert.py:155-176 | every bucket starts with its engine's start line (for NCA one of three tokens), has no blank line and ends at the first end line it meets; the engines before it in `ENGINES` have closed buckets |
| Classifier.EndLineInLookChangesNothing | convert.py:155-165 | an end line seen while LOOKing opens nothing and changes nothing |
| Classifier.LookDropsOtherLines | convert.py:155-165 | while LOOKing, a line that does not open the current engine's block is dropped |
| Classifier.NcaStartNeedsThreeTokens | convert.py:157-162 | an NCA start line is captured, and the state becomes FOUND, exactly when it splits into three tokens |
| Classifier.NonBlank | convert.py:150 | the lines `parse_trace` looks at: the non-blank ones, in order |
| Classifier.CapturedLinesAreSubsequence | convert.py:140-181 | the buckets read in `ENGINES` order are an in-order subsequence of the non-blank input lines |
| Classifier.NeverOpenedWithoutStartLine | convert.py:155-165 | an engine none of whose start lines occurs in the input never gets a bucket |
| Classifier.BlockClassified | convert.py:155-176 | one well-formed block fills the current engine's bucket with the block's non-blank lines from its start line to its end line, and moves on to the next engine |
| Classifier.BlocksClassified | convert.py:140-181 | a trace of well-formed blocks, one per engine in order, leaves the machine with exactly the first n buckets |
| Classifier.WellFormedTraceClassified | convert.py:140-181 | such a trace, followed by anything, gives every engine one bucket: its start line, the non-blank lines of its body and its end line |
| Text.Find | convert.py:87-96 | `str.find`: the first index where the text occurs, or -1 when it occurs nowhere |
| Text.TrimRight | convert.py:150 | `rstrip`: a prefix of the text that does not end with a stripped character, with only stripped characters after it |
| Text.TrimLeft | convert.py:103 | `lstrip`: a suffix of the text that does not start with a stripped character, with only stripped characters before it |
| Text.Words | convert.py:160 | `split()` gives tokens only: non-empty and free of white space |
| Text.BlankIffAllSpace | convert.py:150 | `not line.rstrip()` holds exactly when the line is all white space |
| Text.WordsOfJoin | convert.py:160 | `split()` of tokens joined by spaces gives the tokens back |
| Text.JoinWordsShape | convert.py:344 | tokens joined by spaces start with a token character and hold no newline |
| Text.AfterFirstWord | convert.py:241 | what follows the first token: a suffix of the text that is empty or starts with white space |
| Text.WordsAfterFirst | convert.py:241 | the tokens after the first token are the tokens of what follows it |
| Text.SpaceCount | convert.py:285 | the number of white-space characters, at most the text's length |
| Numbers.Digits | convert.py:216 | the digits `hex()` and `str()` print: non-empty, unsigned, all digits of the base |
| Numbers.DigitsRead | convert.py:216 | those digits read back as the number |
| Numbers.HexString | convert.py:216 | `hex(n)` minus its `L` starts with `0x`, after a minus sign for a negative number |
| Numbers.HexRoundTrip | convert.py:212-216 | `int(hex(n), 16) == n` for every integer, negative ones included |
| Numbers.DecimalRoundTrip | convert.py:246-247 | `int(str(n)) == n` |
| Numbers.SetBit1 | convert.py:213-214 | `v \| (1 << 1)` sets bit 1 and keeps bit 0 and the bits above bit 1 |
| Numbers.ClearBit1 | convert.py:216-217 | `v & ~(1 << 1)` clears bit 1 and keeps bit 0 and the bits above bit 1 |
| Numbers.BitsDetermine | convert.py:213-217 | bit 0, bit 1 and the bits above bit 1 fix an integer, so the two contracts above determine the results |
| Numbers.SetAndClearDifferInBit1 | convert.py:211-217 | enabling and disabling the PAD clock bit give values 2 apart |
| Writes.PadClock | convert.py:205-218 | only the clock register is patched; the patch fails exactly when that register has no first value or an unreadable one; only the first value changes |
| Writes.PadClockBits | convert.py:208-217 | at the clock register the new first value reads back as the old one with bit 1 set or cleared as `use_pad` says, all other bits kept |
| Writes.PadClockIdempotent | convert.py:205-218 | patching an already patched list changes nothing |
| Writes.SkippedAt16Words | convert.py:251-252 | the target-16 skip list is the eight words from 160 to 188 |
| Writes.SkippedAt18Banks | convert.py:254-259 | the target-18 skip list is one pattern repeated in four banks 192 bytes apart |
| Writes.WriteRecords | convert.py:221-236 | `write_values` produces only live writes and commented-out old writes |
| Writes.WriteValues | convert.py:221-236 | the loop writes exactly the records of the specification, stopping where a value fails to parse |
| Writes.WriteRecordsDecode | convert.py:221-236 | reading the output back gives each pair up to the first malformed one, at consecutive words, with both values; it raises exactly when it stops short |
| Writes.RemarksMarkChanges | convert.py:226-230 | a "modified by converter" comment only ever comes right before the live write of the same register with a different value |
| Writes.UnpatchedWritesOnly | convert.py:221-236 | with the new values equal to the old, `write_values` writes no comment |
| Handlers.CComment | convert.py:101-110 | `c_comment` gives at most one comment |
| Handlers.CCommentEmpty | convert.py:103-105 | a `#` line gives no comment exactly when it is made of blanks, hashes and newlines only |
| Handlers.CCommentText | convert.py:101-110 | the comment text is a piece of the line that neither starts nor ends with a stripped character, with only stripped characters around it |
| Handlers.CCommentOfRemark | convert.py:101-110 | `# text` gives back `text` |
| Handlers.SplitDot | convert.py:241 | `([^\.]*)\.`: the text before the first dot, and the rest |
| Handlers.SplitAddress | convert.py:241 | the address groups of the handlers' patterns: three dot-free fields, then the rest, which together give back the token |
| Handlers.SplitAddressOf | convert.py:241 | a token with three dot-free fields in front splits into exactly those |
| Handlers.Locate | convert.py:246-248 | the register is found exactly when node and target are decimal and offset is hexadecimal |
| Handlers.ConvertWrite | convert.py:239-264 | the write handler produces live writes and commented-out old writes only |
| Handlers.ConvertNcpWrite | convert.py:239-264 | the handler, running `write_values` pair by pair, writes exactly the specification's records |
| Handlers.WriteWithoutValues | convert.py:241-264 | a write line with only an address writes nothing; it raises exactly when white space follows the address and the address is malformed, or is the unskipped clock register with the pad setting given (the `IndexError` of `pad_clock`) |
| Handlers.ConvertRead | convert.py:267-280 | the read handler writes nothing, or the 1000 microsecond pause and one read |
| Handlers.ConvertModify | convert.py:283-297 | the modify handler writes nothing or one modify, and nothing when it raises |
| Handlers.ModifyMissingValue | convert.py:285-294 | a modify line with an address and fewer than two further tokens writes nothing, and raises exactly when its address matches the pattern and two white-space characters follow the address, so the empty mask or value reaches `int('', 16)` |
| Handlers.ConvertPoll | convert.py:305-324 | the poll handler writes nothing or one poll, and nothing when it raises |
| Handlers.PollRecord | convert.py:318-324 | the address, mask and value of a poll line give nothing or one poll |
| Handlers.ParseRegionText | convert.py:241-248 | a printed address reads back as its register |
| Handlers.WriteRecordsOfHex | convert.py:221-236 | `write_values` on unpatched printed values writes each of them once, uncommented, at consecutive words |
| Handlers.WriteParsed | convert.py:239-264 | a write line with an unskipped register and no pad setting runs `write_values` on its values, unpatched |
| Handlers.ReadParsed | convert.py:267-280 | a read line with a readable address gives the pause and the read |
| Handlers.ModifyParsed | convert.py:283-297 | a modify line with a readable address, mask and value gives that modify, the value listed before the mask |
| Handlers.PollShape | convert.py:305-316 | a seven-token poll line with both flags in place is read from its last three tokens alone |
| Handlers.PollParsed | convert.py:318-324 | a readable address with a dot-free offset, and a readable mask and value, give that poll |
| Handlers.WriteRoundTrip | convert.py:239-264 | a write line printed from a register and its values gives one live write per value at consecutive words |
| Handlers.ReadRoundTrip | convert.py:267-280 | a read line printed from a register gives the pause and the read of that register |
| Handlers.ModifyRoundTrip | convert.py:283-297 | a modify line printed from a register, a mask and a value gives that modify |
| Handlers.PollRoundTrip | convert.py:305-324 | a poll line printed from loops, a timeout, a register, a mask and a value gives that poll |
| Handlers.SkippedRegisterWritesNothing | convert.py:251-261 | a skipped register writes nothing and raises nothing, whatever the values and the pad setting |
| Handlers.UnpaddedWriteHasNoComment | convert.py:260-264 | without the pad setting a write line produces live writes only |
| Handlers.PadOnlyAtClock | convert.py:260-264 | away from the clock register the pad setting makes no difference |
| Handlers.PaddedClockWrite | convert.py:205-264 | at the clock register, the first write carries the first value with bit 1 set (nonzero setting) or cleared, its comment the original value, and later values are unchanged |
| Converter.WordRun | convert.py:344 | `[\w]+` at the start of the text: the longest run of word characters |
| Converter.UpToNewline | convert.py:344 | `(.*)`: the text up to its first newline |
| Converter.KeywordSplit | convert.py:344-346 | the command found is a run of word characters and the options hold no newline |
| Converter.KeywordSplitNone | convert.py:344-353 | the pattern fails exactly on a line where no word character is followed by white space |
| Converter.KeywordSplitLeftmost | convert.py:344-346 | the split is the leftmost match, with the whole word run in front of the first white space that follows a word character |
| Converter.UpToNewlineOf | convert.py:344 | `(.*)` takes a text without newlines whole and stops at the line's newline |
| Converter.KeywordSplitOf | convert.py:344-346 | a command, white space, options that start with a non-blank and hold no newline, and the line's newline or nothing split back into that command and those options |
| Converter.Handle | convert.py:328-350 | every handler writes command rows only; an unknown command writes nothing |
| Converter.UnknownCommandHandled | convert.py:349-350 | the `KeyError` of an unknown command is caught and writes nothing |
| Converter.Dispatch | convert.py:347-350 | the dispatch, running the write handler's loop, writes exactly the specification's records |
| Converter.Convert | convert.py:327-357 | the loop writes exactly the specification's records, stopping at an unparsable line and abandoning the file on a raise |
| Converter.HaltedStaysHalted | convert.py:348-353 | after the `break`, or after a raise, no line is read |
| Converter.LinesAppend | convert.py:337-353 | converting `a + b` is converting `b` from where `a` left off |
| Converter.ConvertFileShape | convert.py:336-357 | the output is the header, command rows and comments only, and the footer exactly when no handler raised |
| Converter.UnparsableLineEndsArray | convert.py:344-357 | a line that does not split ends the array there: the lines after it are ignored and the footer is written |
| Converter.SpaceLineEndsArray | convert.py:338-357 | only the empty line is skipped: a line of white space only does not split, so it ends the array there and the footer is written |
| Converter.RaiseAbandonsArray | convert.py:347-350 | when a handler raises, the array has no footer and the lines after that line are not converted |
| Converter.UnknownCommandSkipped | convert.py:349-350 | a line whose command has no handler is passed over |
| Converter.LinesFrom | convert.py:337-353 | the loop only appends, and how it ends depends only on the state it starts in |
| Converter.CommandLine | convert.py:344-348 | a command, a space and options starting with a non-blank, ending the line with its newline or with nothing, go to that command's handler with exactly those options |
| Converter.ReadLineConverts | convert.py:267-280 | the line `ncpRead <address>`, with or without its newline, becomes the pause and the read of that register |
| Converter.WriteLineConverts | convert.py:239-264 | the line `ncpWrite <address> <values>`, with or without its newline and without the pad setting, becomes one live write per value at consecutive words |
| Converter.ModifyLineConverts | convert.py:283-297 | the line `ncpModify <address> <mask> <value>`, with or without its newline, becomes that modify |
| Converter.PollLineConverts | convert.py:305-324 | the line `ncpPoll -l <loops> -t <timeout> <address> <mask> <value>`, with or without its newline, becomes that poll |
| Converter.UsleepLineConverts | convert.py:300-302 | the line `ncpUsleep <duration>`, with or without its newline, copies the duration into the record |
| Converter.MergedArray | convert.py:127-131 | converting EIOA's lines followed by EIOAE's, when EIOA's are all read, gives EIOA's array with EIOAE's rows appended before the footer |
| Converter.MergeRaised | convert.py:127-131 | the merged input raises exactly when one of its parts does, unless the first part stopped at an unparsable line |
| Saving.NamesDistinct | convert.py:122-123 | different bases never share a file name, and a `.trace` file never shares a name with a `.c` file |
| Saving.SaveFiles | convert.py:113-123 | one engine's files: its lines in the `.trace` file, their conversion in the `.c` file, and every other file unchanged |
| Saving.SaveEngine | convert.py:122-123 | running the `convert` loop for one engine writes exactly those two files |
| Saving.SaveTrace | convert.py:118-131 | the loop and the merge leave exactly the files and the trace of the specification |
| Saving.SaveEachUntouched | convert.py:120-123 | a file no visited engine writes keeps what it held |
| Saving.SaveEachRaised | convert.py:120-123 | the first loop raises exactly when one visited engine's conversion raises |
| Saving.SaveEachKeys | convert.py:120-123 | the first loop writes exactly the files of the engines it visits |
| Saving.SaveEachLast | convert.py:120-123 | an engine's files hold its lines and their conversion when no later engine writes to the same base name |
| Saving.SavedLines | convert.py:125-131 | what the merge leaves in the `eioa` files: EIOA's lines followed by EIOAE's when both are present |
| Saving.SaveRaisedWith | convert.py:118-131 | `save_trace` raises exactly when one engine's own conversion raises, for any conversion under which the merged input raises only if a part does |
| Saving.SaveRaised | convert.py:118-131 | `save_trace` raises exactly when converting one engine's own lines raises |
| Saving.SaveKeys | convert.py:118-131 | when nothing raised, the files written are the two of each engine of the trace |
| Saving.SaveContents | convert.py:118-131 | when nothing raised, each engine's `.trace` file holds its saved lines and its `.c` file their conversion |
| Saving.SaveTraceUpdate | convert.py:118-131 | with both EIOA blocks present, the caller's EIOA list ends up extended by EIOAE's lines unless the first loop raised; the extension comes before the merged conversion, so it stays when that raises; no other bucket changes, and without both blocks the trace is unchanged |
| Saving.MergedEioa | convert.py:125-131 | with both EIOA blocks present and EIOA's lines all read, `eioa.c` is EIOA's array with EIOAE's rows appended before the footer |

## Left out

- File I/O: `open`, `save_file` and the `.c` text itself. Files are given as sequences of lines,
  and the output is a record per C row (`Records.Record`) rather than the formatted C text.
- `print` output: the "Unable to parse" messages, `VERBOSE` tracing, "Unknown command" and
  "parse trace". None of it changes what is written.
- `parse_args`, `usage`, `sanity`, `parse_tree`, `main`, `parse_all` and `save_all` are outside
  this model, as are the `arch` and `parsed_data` parameters, which the core never reads. No line
  of `convert.py` calls `parse_trace` or `save_trace` directly: `main` (convert.py:446-476) runs
  `cutout_trace_file`, then `parse_all` and `save_all`, which are not part of this model.
- The unreachable "Unknown processing state" branch of `parse_trace` is not modelled: the state
  is always the current engine's LOOK or FOUND state.
- Classifier.ParseTrace: `ENGINES` is a module-level list that `parse_trace` pops from. The model
  starts every call with the full list. A second call in the same process would see a shorter
  list, and that is not modelled. `ENGINE_DEFS` is passed in as `defs`, and
  `Engines.EngineDefsDistinct` proves that the real table meets the classifier's precondition.
- Saving.SaveTrace: a Python 2 dictionary keyed by the small integers `range(6)` iterates in key
  order, so the model fixes the order EIOA, EIOAE, MME, NCA, PBM, VP (`Saving.DictOrder`). The
  in-place `trace[EIOA] += trace[EIOAE]` is returned as the new trace value, so other references
  to the same list are not modelled.
- Converter.Convert: the header is written with the name `splitext(outfile)[0]`. The model is
  given that name, which `save_trace` makes the output base name.
- Handlers.ConvertWrite, Handlers.ConvertRead, Handlers.ConvertModify, Handlers.ConvertPoll: the
  handlers' regular expressions are modelled over the `split()` tokens of the options. The first
  token must be the address and the address's dots must lie inside that token. They agree with
  the source on every line a trace writer prints (the round-trip lemmas), but not on:
  - text in front of the address, or in front of `-l` on a poll line;
  - an address whose dot-free fields span several tokens;
  - a poll line with more than seven tokens (the source folds the extra tokens into the offset
    and then fails in `int()`);
  - options holding a newline: `convert` passes its handlers only text up to the line's first
    newline, so they never see one.
- Handlers.ConvertWrite: white space other than `' '` between or after write values is not
  modelled. The source splits the values on `' '` only (convert.py:249-250), so pieces such as
  `'\r'` or `'0x1\t0x2'` survive the empty-piece filter and `int()` rejects them. The model splits
  on all white space, so on `0.10.16.0x4 0x1 \r` it writes the one row and does not raise, while
  the source writes that row and then raises in `int('\r', 16)`.
- Numbers.ParseInt: Python's `int()` also skips white space around the number and accepts `_`
  separators in later versions. The model reads only `split()` tokens, which carry no white
  space, and the source runs under Python 2, so neither is modelled. The source's write values
  can carry white space other than `' '` (the Handlers.ConvertWrite line above).
- Writes.PadClock: the `L` that `hex()` appends to a Python 2 long is stripped by the source.
  The model prints no `L` at all.
- The `-r` setting (`REF_USE_PAD`) is an optional integer. Any nonzero value enables the PAD
  clock, as Python's truth value of an integer says.
- The NCA start line must split into exactly three tokens, `# Begin: Engines.NCAv3` alone
  (convert.py:160-162). A decorated header such as `# Begin: Engines.NCAv3 (CPU)` is neither
  captured nor advances the state (`Classifier.NcaStartNeedsThreeTokens`).
