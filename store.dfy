/** The persisted lifetime total: one text slot, the log file
    `~/.tmr/time_log.txt`. The slot is `None` while the file does not exist.
    Every operation of the tool addresses this one slot, so the model has a
    single `LogFile` object that all of them share. */
module Store {
  import opened Text

  /** The text a save writes: the decimal value and a newline. */
  function SaveText(v: int): string {
    ToDecimal(v) + "\n"
  }

  /** The text `read_from_file` returns for a slot: "0" when the file is
      missing, otherwise its contents trimmed. */
  function ReadText(slot: Option<string>): string {
    match slot
    case None => "0"
    case Some(content) => Trim(content)
  }

  /** The slot after `read_from_file`: a missing file is created empty. */
  function SlotAfterRead(slot: Option<string>): Option<string> {
    if slot.None? then Some("") else slot
  }

  /** What the callers make of a read: `.trim().parse().unwrap_or(0)`. */
  function ParsePrevious(text: string): int {
    match ParseInt(Trim(text))
    case Some(v) => v
    case None => 0
  }

  /** The total a read of the slot yields to the accumulator. */
  function StoredTotal(slot: Option<string>): int {
    ParsePrevious(ReadText(slot))
  }

  class LogFile {
    /** Contents of the log file; `None` while it does not exist. */
    var slot: Option<string>
    /** Every value saved so far, oldest first. */
    ghost var writes: seq<int>

    constructor (initial: Option<string>)
      ensures slot == initial && writes == []
    {
      slot := initial;
      writes := [];
    }

    /** `save_to_file`: `File::create` truncates, then `writeln!` writes the
        decimal value and a newline, so the whole slot is replaced. */
    method Save(v: int)
      modifies this
      ensures slot == Some(SaveText(v))
      ensures writes == old(writes) + [v]
    {
      slot := Some(ToDecimal(v) + "\n");
      writes := writes + [v];
    }

    /** `reset_file`: a save of 0. */
    method Reset()
      modifies this
      ensures slot == Some("0\n")
      ensures writes == old(writes) + [0]
    {
      SaveTextZero();
      Save(0);
    }

    /** `read_from_file`: a missing file is created empty and "0" is
        returned; otherwise the contents are read whole and trimmed. */
    method Read() returns (text: string)
      modifies this
      ensures text == ReadText(old(slot))
      ensures slot == SlotAfterRead(old(slot))
      ensures writes == old(writes)
    {
      if slot.None? {
        slot := Some("");
        return "0";
      }
      var content := slot.value;
      text := Trim(content);
    }
  }

  /** Round trip: after a save of `v`, a read returns the decimal text of
      `v`, which the callers parse back to `v`. */
  lemma SaveThenRead(v: int)
    ensures ReadText(Some(SaveText(v))) == ToDecimal(v)
    ensures StoredTotal(Some(SaveText(v))) == v
  {
    var d := ToDecimal(v);
    ToDecimalBare(v);
    assert AllWhitespace("\n");
    TrimDropsTrailing(d, "\n");
    assert ReadText(Some(SaveText(v))) == d;
    TrimKeepsBare(d);
    ParseToDecimal(v);
    assert ParseInt(Trim(d)) == Some(v);
  }

  /** After a reset the slot reads back as "0", whatever it held before. */
  lemma ResetReadsZero()
    ensures ReadText(Some("0\n")) == "0"
    ensures StoredTotal(Some("0\n")) == 0
  {
    SaveTextZero();
    SaveThenRead(0);
  }

  lemma SaveTextZero()
    ensures SaveText(0) == "0\n"
  {
    assert ToDecimal(0) == "0";
  }

  /** A missing slot reads as "0"; the read leaves it existing but empty, so
      the next read returns "", which the callers' parse turns into 0. */
  lemma ReadAfterMissing()
    ensures ReadText(None) == "0" && StoredTotal(None) == 0
    ensures SlotAfterRead(None) == Some("")
    ensures ReadText(SlotAfterRead(None)) == "" && StoredTotal(SlotAfterRead(None)) == 0
  {
    assert Trim("") == "";
    assert ParseInt("0") == Some(0);
  }

  /** A read never changes the total the next read yields, so recomputing a
      total without a save in between gives the same value. */
  lemma ReadKeepsTotal(slot: Option<string>)
    ensures StoredTotal(SlotAfterRead(slot)) == StoredTotal(slot)
  {
    if slot.None? {
      ReadAfterMissing();
    }
  }

  /** Text that does not parse, such as a corrupted log, counts as 0. */
  lemma UnparsableReadsZero(content: string)
    requires ParseInt(Trim(Trim(content))).None?
    ensures StoredTotal(Some(content)) == 0
  {
  }
}
