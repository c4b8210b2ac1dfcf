/** The object-span check: for three buffers on the board, read the
    address (`id`) and the length the REPL prints, and say whether the bytes
    lie in internal SRAM, in the OSPI RAM mapped after it, straddle the
    boundary, or lie elsewhere. */
module ObjectSpans {
  import opened Base
  import opened Text

  /** Internal SRAM is `[SramStart, SramEnd)`; the mapped OSPI RAM follows. */
  const SramStart: int := 0x2000_0000
  const SramEnd: int := 0x2008_0000

  datatype Span = InternalSram | MappedOspi | Spanning(internalPart: int, ospiPart: int) | Unknown

  /** The verdict for an object of `size` bytes at `start`, its end being
      `start + size`. */
  function Classify(start: int, size: int): Span {
    var end := start + size;
    if start >= SramStart && end <= SramEnd then InternalSram
    else if start >= SramEnd then MappedOspi
    else if start < SramEnd && end > SramEnd then Spanning(SramEnd - start, end - SramEnd)
    else Unknown
  }

  /** Each verdict, stated by itself: internal SRAM exactly when the whole
      object lies in `[SramStart, SramEnd]`; mapped OSPI exactly when it
      starts at or past `SramEnd` without ending by it (so every start in
      the 0x68000000 range counts too); spanning exactly when it starts
      before `SramEnd` and ends after it, the two parts then being positive
      and adding up to the size; unknown exactly when it starts below
      `SramStart` and ends by `SramEnd`. */
  lemma ClassifyCases(start: int, size: int)
    requires size >= 0
    ensures Classify(start, size) == InternalSram <==> SramStart <= start && start + size <= SramEnd
    ensures Classify(start, size) == MappedOspi <==> start >= SramEnd && start + size > SramEnd
    ensures Classify(start, size).Spanning? <==> start < SramEnd < start + size
    ensures Classify(start, size) == Unknown <==> start < SramStart && start + size <= SramEnd
    ensures Classify(start, size).Spanning? ==>
              var sp := Classify(start, size);
              sp.internalPart > 0 && sp.ospiPart > 0 && sp.internalPart + sp.ospiPart == size
  {
  }

  /** A spanning object that starts below SRAM counts the bytes below SRAM
      as internal: its internal part exceeds the size of SRAM exactly then. */
  lemma SpanningBelowSram(start: int, size: int)
    requires start < SramEnd < start + size
    ensures Classify(start, size).internalPart > SramEnd - SramStart <==> start < SramStart
  {
  }

  /** What the script does for one object. */
  datatype Step = Reported(start: nat, end: nat, span: Span) | Skipped | Raised

  /** One object: no verdict when either reply is missing or empty; `int()`
      raises on a reply that is not a decimal number, which ends the whole
      check. */
  function CheckObject(startReply: Option<string>, sizeReply: Option<string>): (s: Step)
    ensures s.Skipped? <==> startReply.None? || startReply.value == "" || sizeReply.None? || sizeReply.value == ""
  {
    if startReply.None? || startReply.value == "" || sizeReply.None? || sizeReply.value == "" then Skipped
    else if !AllDigits(startReply.value) || !AllDigits(sizeReply.value) then Raised
    else
      var start := DecimalValue(startReply.value);
      var size := DecimalValue(sizeReply.value);
      Reported(start, start + size, Classify(start, size))
  }

  /** The three checks in turn; the first one that raises is the last. */
  function CheckObjects(replies: seq<(Option<string>, Option<string>)>): (steps: seq<Step>)
    ensures |steps| <= |replies|
    ensures replies != [] ==> steps != [] && steps[0] == CheckObject(replies[0].0, replies[0].1)
  {
    if replies == [] then []
    else
      var step := CheckObject(replies[0].0, replies[0].1);
      if step.Raised? then [step] else [step] + CheckObjects(replies[1..])
  }

  /** Every object checked gets the same treatment: the steps are the
      per-object checks of a prefix of the replies, which is all of them
      unless one raised, and then that one ends the list. */
  lemma {:induction false} CheckObjectsUniform(replies: seq<(Option<string>, Option<string>)>)
    ensures var out := CheckObjects(replies);
            |out| <= |replies|
            && (forall i :: 0 <= i < |out| ==> out[i] == CheckObject(replies[i].0, replies[i].1))
            && (forall i :: 0 <= i < |out| - 1 ==> !out[i].Raised?)
            && (|out| < |replies| ==> out != [] && out[|out| - 1].Raised?)
  {
    if replies != [] {
      CheckObjectsUniform(replies[1..]);
      var step := CheckObject(replies[0].0, replies[0].1);
      if !step.Raised? {
        var out := CheckObjects(replies);
        var rest := CheckObjects(replies[1..]);
        assert out == [step] + rest;
        forall i | 1 <= i < |out|
          ensures out[i] == CheckObject(replies[i].0, replies[i].1)
        {
          assert out[i] == rest[i - 1];
          assert replies[1..][i - 1] == replies[i];
        }
      }
    }
  }

  /** A reported object's end is its start plus its size, and its verdict is
      the classification of those numbers. */
  lemma ReportedObject(startReply: string, sizeReply: string)
    requires startReply != "" && sizeReply != "" && AllDigits(startReply) && AllDigits(sizeReply)
    ensures var step := CheckObject(Some(startReply), Some(sizeReply));
            step.Reported?
            && step.start == DecimalValue(startReply)
            && step.end == step.start + DecimalValue(sizeReply)
            && step.span == Classify(step.start, DecimalValue(sizeReply))
  {
  }
}
