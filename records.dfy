/** The entries of the generated `ncr_command_t` array, as values rather than C text. */
module Records {

  datatype Record =
    /** `static ncr_command_t <name>[] = {` */
    | Header(name: string)
    /** `/* text */`, from a `#` line of the trace */
    | Remark(text: string)
    /** the replaced value of a patched write, written as a C comment tagged "modified by converter" */
    | OldWrite(node: int, target: int, offset: int, value: int)
    /** `{NCR_COMMAND_WRITE, NCP_REGION_ID(node, target), offset, value, 0}` */
    | Write(node: int, target: int, offset: int, value: int)
    /** `{NCR_COMMAND_READ, NCP_REGION_ID(node, target), offset, 0, 0}` */
    | Read(node: int, target: int, offset: int)
    /** `{NCR_COMMAND_MODIFY, NCP_REGION_ID(node, target), offset, value, mask}` */
    | Modify(node: int, target: int, offset: int, value: int, mask: int)
    /** `{NCR_COMMAND_USLEEP, 0, 0, duration, 0}`, the duration copied as text */
    | Usleep(duration: string)
    /** `{NCR_COMMAND_POLL, NCP_REGION_ID(node, target), offset, mask, value}` */
    | Poll(node: int, target: int, offset: int, mask: int, value: int)
    /** the `{NCR_COMMAND_NULL, 0, 0, 0, 0}` sentinel */
    | Null
    /** `};` */
    | Close

  /** A record that a trace line can produce: anything but the array's header and footer. */
  predicate IsCommand(r: Record)
  {
    !(r.Header? || r.Null? || r.Close?)
  }

  /** What a step wrote, and whether it ended by raising an uncaught `ValueError` or `IndexError`
      (a malformed number, a missing value), which abandons the rest of the run. */
  datatype Outcome = Outcome(records: seq<Record>, raised: bool)
}
