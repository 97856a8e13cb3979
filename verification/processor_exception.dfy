/** `ProcessorException`: the aggregate failure raised by a dispatch pass, carrying
    the processor that raised it and the non-empty, ordered list of module failures. */
module ProcessorExceptions {
  import opened Wrappers

  /** A module failure (an `OpenAS2Exception`), reduced to its message. */
  datatype Cause = Cause(message: string)

  /** Object identity of the processor that raised the failure. */
  datatype ProcessorRef = ProcessorRef(id: nat)

  datatype ProcessorExceptionData = ProcessorExceptionData(processor: ProcessorRef, causes: seq<Cause>)

  /** The constructor's invariant, carried by the type: the causes are never empty. */
  type ProcessorException = e: ProcessorExceptionData | e.causes != []
    witness ProcessorExceptionData(ProcessorRef(0), [Cause("")])

  /** What construction can throw: `NullPointerException ("processor")` or
      `IllegalArgumentException` for a null or empty cause list. */
  datatype ConstructionError = NullProcessor | EmptyCauses

  /** The constructor. The processor is checked first, then the causes; the stored
      list is a copy, so it keeps the argument's elements in the argument's order. */
  function NewProcessorException(processor: Option<ProcessorRef>, causes: Option<seq<Cause>>)
    : (r: Result<ProcessorException, ConstructionError>)
    ensures r == Failure(NullProcessor) <==> processor.None?
    ensures r == Failure(EmptyCauses) <==> processor.Some? && (causes.None? || causes.value == [])
    ensures r.Success? <==> processor.Some? && causes.Some? && causes.value != []
    ensures r.Success? ==> r.value.processor == processor.value && r.value.causes == causes.value
  {
    if processor.None? then Failure(NullProcessor)
    else if causes.None? || causes.value == [] then Failure(EmptyCauses)
    else Success(ProcessorExceptionData(processor.value, causes.value))
  }

  /** `getCauses`: a fresh copy of the stored list, never empty. */
  function GetCauses(e: ProcessorException): (r: seq<Cause>)
    ensures r != []
  {
    e.causes
  }

  function GetProcessor(e: ProcessorException): ProcessorRef {
    e.processor
  }

  /** Reading back what was constructed: the processor and the very causes, in order. */
  lemma ConstructThenRead(processor: ProcessorRef, causes: seq<Cause>)
    requires causes != []
    ensures NewProcessorException(Some(processor), Some(causes)).Success?
    ensures var e := NewProcessorException(Some(processor), Some(causes)).value;
            GetProcessor(e) == processor && GetCauses(e) == causes && |GetCauses(e)| == |causes|
  {
  }

  /** The line separator `println ()` writes; the platform's, taken here as "\n". */
  const LineSeparator := "\n"

  /** One section per cause: a line break, then the cause's stack trace text. */
  function Sections(causes: seq<Cause>, stackTrace: Cause -> string): string
  {
    if causes == [] then "" else LineSeparator + stackTrace(causes[0]) + Sections(causes[1..], stackTrace)
  }

  /** `getMessage`: the base message followed by the sections of all causes, and
      nothing after the last one. The
      stack-trace rendering of a cause is a parameter, and so is the base message
      (`OpenAS2Exception` is not part of this model). */
  function GetMessage(e: ProcessorException, base: Option<string>, stackTrace: Cause -> string): (r: string)
    ensures |r| >= |JavaText(base)| + |e.causes|
    ensures r[..|JavaText(base)|] == JavaText(base)
    ensures r[|JavaText(base)|] == '\n'
    ensures |r| == |JavaText(base)| + SectionStart(e.causes, |e.causes|, stackTrace)
  {
    SectionsLength(e.causes, stackTrace);
    assert e.causes[..|e.causes|] == e.causes;
    JavaText(base) + Sections(e.causes, stackTrace)
  }

  /** The per-cause layout of the message itself: after the base text, the section of
      cause `k` is a line break followed by its stack trace, placed after the sections
      of all earlier causes. */
  lemma MessageSectionOfCause(e: ProcessorException, base: Option<string>, stackTrace: Cause -> string, k: nat)
    requires k < |e.causes|
    ensures var b := |JavaText(base)|;
            var lo := b + SectionStart(e.causes, k, stackTrace);
            var hi := b + SectionStart(e.causes, k + 1, stackTrace);
            lo < hi <= |GetMessage(e, base, stackTrace)|
            && GetMessage(e, base, stackTrace)[lo..hi] == LineSeparator + stackTrace(e.causes[k])
  {
    SectionOfCause(e.causes, k, stackTrace);
    assert GetMessage(e, base, stackTrace) == JavaText(base) + Sections(e.causes, stackTrace);
  }

  /** Each cause contributes at least its line break. */
  lemma {:induction false} SectionsLength(causes: seq<Cause>, stackTrace: Cause -> string)
    ensures |Sections(causes, stackTrace)| >= |causes|
    ensures causes != [] ==> Sections(causes, stackTrace)[0] == '\n'
  {
    if causes != [] {
      SectionsLength(causes[1..], stackTrace);
    }
  }

  /** Sections of a concatenation are the concatenation of the sections. */
  lemma {:induction false} SectionsAppend(a: seq<Cause>, b: seq<Cause>, stackTrace: Cause -> string)
    ensures Sections(a + b, stackTrace) == Sections(a, stackTrace) + Sections(b, stackTrace)
  {
    if a == [] {
      assert a + b == b;
    } else {
      assert (a + b)[1..] == a[1..] + b;
      SectionsAppend(a[1..], b, stackTrace);
    }
  }

  /** Where the section of cause `k` starts in `Sections(causes, …)`. */
  function SectionStart(causes: seq<Cause>, k: nat, stackTrace: Cause -> string): nat
    requires k <= |causes|
  {
    |Sections(causes[..k], stackTrace)|
  }

  /** The sections appear in cause order: the text of cause `k`'s section, led by a
      line break, sits exactly between the ends of the sections of the causes
      before it and of the causes up to it. */
  lemma SectionOfCause(causes: seq<Cause>, k: nat, stackTrace: Cause -> string)
    requires k < |causes|
    ensures SectionStart(causes, k, stackTrace) < SectionStart(causes, k + 1, stackTrace) <= |Sections(causes, stackTrace)|
    ensures Sections(causes, stackTrace)[SectionStart(causes, k, stackTrace)..SectionStart(causes, k + 1, stackTrace)]
            == LineSeparator + stackTrace(causes[k])
  {
    var before, one, after := causes[..k], [causes[k]], causes[k + 1..];
    assert causes == before + one + after;
    assert causes[..k + 1] == before + one;
    SectionsAppend(before + one, after, stackTrace);
    SectionsAppend(before, one, stackTrace);
    assert one[1..] == [];
    assert Sections(one, stackTrace) == LineSeparator + stackTrace(causes[k]);
  }
}
