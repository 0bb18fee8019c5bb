/**
 * `(*Entry).EncodeBibTeX`: one BibTeX block written straight from a record, the
 * fixed fields only, after checking that the entry type and the citation key
 * are set.
 */
module EntryWriter {
  import opened Wrappers
  import opened Text
  import opened Writers
  import opened Format
  import FieldWriter
  import BibTeX

  const EntryTypeRequiredMessage := "An entry type must be specified in order for entry to be encoded to BibTeX"
  const CitationKeyRequiredMessage := "A citation key must be specified in order for entry to be encoded to BibTeX"

  /** The argument checks made before anything is written: the entry type first, then the citation key. */
  function ArgumentError(e: BibTeX.Entry): (r: Option<Error>)
    ensures r.None? <==> |e.entryType| > 0 && |e.citationKey| > 0
    ensures |e.entryType| == 0 ==> r == Some(Message(EntryTypeRequiredMessage))
    ensures |e.entryType| > 0 && |e.citationKey| == 0 ==> r == Some(Message(CitationKeyRequiredMessage))
  {
    if |e.entryType| == 0 then Some(Message(EntryTypeRequiredMessage))
    else if |e.citationKey| == 0 then Some(Message(CitationKeyRequiredMessage))
    else None
  }

  /** The text of a successful encoding: the header, every present fixed field, the closing brace. */
  function ExpectedText(e: BibTeX.Entry): string
  {
    Block(e.entryType, e.citationKey, PresentFields(e.common))
  }

  /**
   * What `EncodeBibTeX` does as written. The error of the header write is kept in
   * the error variable but not tested: the first present field's write replaces
   * it. Only when no field is present does it reach the test before the closing
   * brace, which is written when the variable holds no error.
   */
  function AsWritten(e: BibTeX.Entry, start: nat, fails: nat -> bool): Outcome
  {
    if ArgumentError(e).Some? then Outcome("", 0, ArgumentError(e))
    else
      AfterHeader(Run([Header(e.entryType, e.citationKey)], start, fails),
                  Run(FieldTexts(PresentFields(e.common)), start + 1, fails),
                  PresentFields(e.common) == [], start, fails)
  }

  /**
   * The rest of `AsWritten`, from the outcomes of the header write and of the
   * field writes (`noFields` when no field is present).
   */
  function AfterHeader(header: Outcome, fields: Outcome, noFields: bool, start: nat, fails: nat -> bool): Outcome
  {
    var err := if fields.err.Some? then fields.err
               else if noFields then header.err
               else None;
    if err.Some? then Outcome(header.text + fields.text, 1 + fields.attempts, err)
    else
      var closing := Run([Closing], start + 1 + fields.attempts, fails);
      Outcome(header.text + fields.text + closing.text, 1 + fields.attempts + closing.attempts, closing.err)
  }

  /**
   * What encoding an entry should do: the argument checks, then the writes of the
   * block in order, stopping at the first that fails and returning its error.
   */
  function Encoded(e: BibTeX.Entry, start: nat, fails: nat -> bool): Outcome
  {
    if ArgumentError(e).Some? then Outcome("", 0, ArgumentError(e))
    else Run(EntryChunks(e.entryType, e.citationKey, PresentFields(e.common)), start, fails)
  }

  /** `EncodeBibTeX(writer)` as written. */
  method EncodeBibTeX(sink: Sink, e: BibTeX.Entry) returns (err: Option<Error>)
    modifies sink
    ensures var r := AsWritten(e, old(sink.attempts), sink.fails);
            sink.out == old(sink.out) + r.text && sink.attempts == old(sink.attempts) + r.attempts && err == r.err
  {
    if |e.entryType| == 0 {
      return Some(Message(EntryTypeRequiredMessage));
    }
    if |e.citationKey| == 0 {
      return Some(Message(CitationKeyRequiredMessage));
    }
    ghost var start := sink.attempts;
    err := WriteBlock(sink, e);
    AsWrittenUnfold(e, start, sink.fails);
  }

  /** The writes of `EncodeBibTeX` once its argument checks have passed. */
  method WriteBlock(sink: Sink, e: BibTeX.Entry) returns (err: Option<Error>)
    modifies sink
    ensures var r := AfterHeader(Run([Header(e.entryType, e.citationKey)], old(sink.attempts), sink.fails),
                                 Run(FieldTexts(PresentFields(e.common)), old(sink.attempts) + 1, sink.fails),
                                 PresentFields(e.common) == [], old(sink.attempts), sink.fails);
            sink.out == old(sink.out) + r.text && sink.attempts == old(sink.attempts) + r.attempts && err == r.err
  {
    ghost var out0, start := sink.out, sink.attempts;
    var header := Header(e.entryType, e.citationKey);
    err := sink.Write(header);
    ghost var out1, err1 := sink.out, err;
    err := FieldWriter.WriteFixedFields(sink, e.common, err);
    ghost var out2, attempts2, err2 := sink.out, sink.attempts, err;
    if err.None? {
      err := sink.Write(Closing);
    }
    AsWrittenSteps(header, FieldTexts(PresentFields(e.common)), PresentFields(e.common) == [], start, sink.fails,
                   out0, out1, err1, out2, attempts2, err2, sink.out, sink.attempts, err);
  }

  lemma AsWrittenUnfold(e: BibTeX.Entry, start: nat, fails: nat -> bool)
    requires ArgumentError(e).None?
    ensures AsWritten(e, start, fails)
            == AfterHeader(Run([Header(e.entryType, e.citationKey)], start, fails),
                           Run(FieldTexts(PresentFields(e.common)), start + 1, fails),
                           PresentFields(e.common) == [], start, fails)
  {
  }

  /**
   * The sink states `WriteBlock` passes through, each as the write or the field
   * writer leaves it, add up to `AfterHeader` of the header run and the run of the
   * field texts `fs` (`noFields` when no field is present).
   */
  lemma AsWrittenSteps(h: string, fs: seq<string>, noFields: bool, start: nat, fails: nat -> bool, out0: string,
                       out1: string, err1: Option<Error>, out2: string, attempts2: nat, err2: Option<Error>,
                       outAfter: string, attemptsAfter: nat, err: Option<Error>)
    requires err1 == (if fails(start) then Some(WriteFailure(start)) else None)
    requires out1 == (if fails(start) then out0 else out0 + h)
    requires var r := Run(fs, start + 1, fails);
             && out2 == out1 + r.text
             && attempts2 == start + 1 + r.attempts
             && err2 == (if r.err.Some? then r.err else if noFields then err1 else None)
    requires err2.Some? ==> outAfter == out2 && attemptsAfter == attempts2 && err == err2
    requires err2.None? ==> && attemptsAfter == attempts2 + 1
                            && err == (if fails(attempts2) then Some(WriteFailure(attempts2)) else None)
                            && outAfter == (if fails(attempts2) then out2 else out2 + Closing)
    ensures var r := AfterHeader(Run([h], start, fails), Run(fs, start + 1, fails), noFields, start, fails);
            outAfter == out0 + r.text && attemptsAfter == start + r.attempts && err == r.err
  {
    var header, fields := Run([h], start, fails), Run(fs, start + 1, fails);
    WriteIsRun(h, start, fails, out0, out1, start + 1, err1);
    assert out2 == out0 + (header.text + fields.text);
    if err2.None? {
      WriteIsRun(Closing, attempts2, fails, out2, outAfter, attemptsAfter, err);
      var closing := Run([Closing], attempts2, fails);
      assert outAfter == out0 + (header.text + fields.text + closing.text);
    }
  }

  /**
   * `EncodeBibTeX` with the header write checked like every other write: the first
   * failed write ends the encoding and its error is returned.
   */
  method EncodeBibTeXChecked(sink: Sink, e: BibTeX.Entry) returns (err: Option<Error>)
    modifies sink
    ensures var r := Encoded(e, old(sink.attempts), sink.fails);
            sink.out == old(sink.out) + r.text && sink.attempts == old(sink.attempts) + r.attempts && err == r.err
  {
    if |e.entryType| == 0 {
      return Some(Message(EntryTypeRequiredMessage));
    }
    if |e.citationKey| == 0 {
      return Some(Message(CitationKeyRequiredMessage));
    }
    ghost var out0, start := sink.out, sink.attempts;
    var header := Header(e.entryType, e.citationKey);
    ghost var fields := FieldTexts(PresentFields(e.common));
    err := sink.Write(header);
    RunSingle(header, start, sink.fails);
    ghost var out1, attempts1, err1 := sink.out, sink.attempts, err;
    if err.None? {
      err := FieldWriter.WriteFixedFields(sink, e.common, None);
    }
    RunThen([header], fields, start, sink.fails, out0, out1, attempts1, err1, sink.out, sink.attempts, err);
    ghost var out2, attempts2, err2 := sink.out, sink.attempts, err;
    if err.None? {
      err := sink.Write(Closing);
      RunSingle(Closing, attempts2, sink.fails);
    }
    RunThen([header] + fields, [Closing], start, sink.fails, out0, out2, attempts2, err2, sink.out, sink.attempts, err);
  }

  // ---------------------------------------------------------------------------
  // Properties

  /** A missing entry type is reported first, with its message, and nothing is written. */
  lemma MissingEntryType(e: BibTeX.Entry, start: nat, fails: nat -> bool)
    requires |e.entryType| == 0
    ensures AsWritten(e, start, fails) == Outcome("", 0, Some(Message(EntryTypeRequiredMessage)))
    ensures Encoded(e, start, fails) == AsWritten(e, start, fails)
  {
  }

  /** With an entry type but no citation key, the citation key message is returned and nothing is written. */
  lemma MissingCitationKey(e: BibTeX.Entry, start: nat, fails: nat -> bool)
    requires |e.entryType| > 0 && |e.citationKey| == 0
    ensures AsWritten(e, start, fails) == Outcome("", 0, Some(Message(CitationKeyRequiredMessage)))
    ensures Encoded(e, start, fails) == AsWritten(e, start, fails)
  {
  }

  /**
   * With both set and no failing write, the whole block is written with one write
   * for the header, one per present field and one for the closing brace, and nil
   * is returned.
   */
  lemma AllWritesSucceed(e: BibTeX.Entry, start: nat, fails: nat -> bool)
    requires ArgumentError(e).None?
    requires forall i :: start <= i < start + |PresentFields(e.common)| + 2 ==> !fails(i)
    ensures AsWritten(e, start, fails) == Outcome(ExpectedText(e), |PresentFields(e.common)| + 2, None)
    ensures Encoded(e, start, fails) == AsWritten(e, start, fails)
  {
    var h, fs := Header(e.entryType, e.citationKey), FieldTexts(PresentFields(e.common));
    FieldTextsLength(PresentFields(e.common));
    RunSingle(h, start, fails);
    RunAllSucceed(fs, start + 1, fails);
    RunSingle(Closing, start + 1 + |fs|, fails);
    var chunks := EntryChunks(e.entryType, e.citationKey, PresentFields(e.common));
    RunAllSucceed(chunks, start, fails);
    EntryChunksText(e.entryType, e.citationKey, PresentFields(e.common));
    assert h + Concat(fs) + Closing == ExpectedText(e);
  }

  /**
   * As long as the header write succeeds, the encoder as written behaves as the
   * checked one: every later failure is caught.
   */
  lemma AgreesWhenHeaderWritten(e: BibTeX.Entry, start: nat, fails: nat -> bool)
    requires !fails(start)
    ensures AsWritten(e, start, fails) == Encoded(e, start, fails)
  {
    if ArgumentError(e).None? {
      AsWrittenUnfold(e, start, fails);
      var ps := PresentFields(e.common);
      AfterHeaderAgrees(Header(e.entryType, e.citationKey), FieldTexts(ps), ps == [], start, fails);
    }
  }

  /** Once the header write `h` succeeds, `AfterHeader` is the run of the whole block `h`, `fs`, closing brace. */
  lemma AfterHeaderAgrees(h: string, fs: seq<string>, noFields: bool, start: nat, fails: nat -> bool)
    requires !fails(start)
    ensures AfterHeader(Run([h], start, fails), Run(fs, start + 1, fails), noFields, start, fails)
            == Run([h] + fs + [Closing], start, fails)
  {
    RunSingle(h, start, fails);
    var f := Run(fs, start + 1, fails);
    RunSplit([h], fs, start, fails, start + 1);
    assert Run([h] + fs, start, fails) == Outcome(h + f.text, 1 + f.attempts, f.err);
    RunSplit([h] + fs, [Closing], start, fails, start + 1 + f.attempts);
    if f.err.None? {
      var c := Run([Closing], start + 1 + f.attempts, fails);
      assert Run([h] + fs + [Closing], start, fails) == Outcome(h + f.text + c.text, 1 + f.attempts + c.attempts, c.err);
    }
  }

  /**
   * The header write's error is lost when a field is present: when only the
   * header write fails, the encoder as written appends the fields and the closing
   * brace after the missing header and returns nil, while the checked encoder
   * stops at once with the header's error.
   */
  lemma HeaderErrorLost(e: BibTeX.Entry, start: nat, fails: nat -> bool)
    requires ArgumentError(e).None? && PresentFields(e.common) != []
    requires fails(start)
    requires forall i :: start < i < start + |PresentFields(e.common)| + 2 ==> !fails(i)
    ensures AsWritten(e, start, fails)
            == Outcome(Concat(FieldTexts(PresentFields(e.common))) + Closing, |PresentFields(e.common)| + 2, None)
    ensures Encoded(e, start, fails) == Outcome("", 1, Some(WriteFailure(start)))
  {
    var h, fs := Header(e.entryType, e.citationKey), FieldTexts(PresentFields(e.common));
    FieldTextsLength(PresentFields(e.common));
    RunSingle(h, start, fails);
    RunAllSucceed(fs, start + 1, fails);
    RunSingle(Closing, start + 1 + |fs|, fails);
    AsWrittenUnfold(e, start, fails);
    var header, fields := Run([h], start, fails), Run(fs, start + 1, fails);
    assert AfterHeader(header, fields, false, start, fails)
           == Outcome(header.text + fields.text + Closing, 1 + |fs| + 1, None);
    assert header.text + fields.text == Concat(fs);
    RunFirstFailure(EntryChunks(e.entryType, e.citationKey, PresentFields(e.common)), start, fails, 0);
  }

  /**
   * After the first failed field write nothing more is written (no later field,
   * no closing brace) and that write's error is returned, whatever became of the
   * header.
   */
  lemma FieldFailureStops(e: BibTeX.Entry, start: nat, fails: nat -> bool, k: nat)
    requires ArgumentError(e).None?
    requires k < |PresentFields(e.common)| && fails(start + 1 + k)
    requires forall i :: start + 1 <= i < start + 1 + k ==> !fails(i)
    ensures AsWritten(e, start, fails)
            == Outcome(Run([Header(e.entryType, e.citationKey)], start, fails).text
                         + Concat(FieldTexts(PresentFields(e.common)[..k])),
                       k + 2, Some(WriteFailure(start + 1 + k)))
  {
    var ps := PresentFields(e.common);
    AsWrittenUnfold(e, start, fails);
    FieldTextsTake(ps, k);
    AfterHeaderFieldFailure(Run([Header(e.entryType, e.citationKey)], start, fails), FieldTexts(ps), ps == [],
                            start, fails, k);
  }

  /** `AfterHeader` when field write `k` is the first field write to fail. */
  lemma AfterHeaderFieldFailure(header: Outcome, fs: seq<string>, noFields: bool, start: nat, fails: nat -> bool, k: nat)
    requires k < |fs| && fails(start + 1 + k)
    requires forall i :: start + 1 <= i < start + 1 + k ==> !fails(i)
    ensures AfterHeader(header, Run(fs, start + 1, fails), noFields, start, fails)
            == Outcome(header.text + Concat(fs[..k]), k + 2, Some(WriteFailure(start + 1 + k)))
  {
    RunFirstFailure(fs, start + 1, fails, k);
  }

  /** With no field present, a successful encoding writes exactly `@type{key` and the closing brace. */
  lemma NoFieldsWritesHeaderAndClosing(e: BibTeX.Entry, start: nat, fails: nat -> bool)
    requires ArgumentError(e).None? && PresentFields(e.common) == []
    requires !fails(start) && !fails(start + 1)
    ensures AsWritten(e, start, fails) == Outcome("@" + e.entryType + "{" + e.citationKey + "\n}\n", 2, None)
  {
    AllWritesSucceed(e, start, fails);
    EmptyBlock(e.entryType, e.citationKey);
  }

  /** With no field present, the header's error does reach the test and is returned, as the checked encoder does. */
  lemma HeaderErrorKeptWithoutFields(e: BibTeX.Entry, start: nat, fails: nat -> bool)
    requires ArgumentError(e).None? && PresentFields(e.common) == []
    requires fails(start)
    ensures AsWritten(e, start, fails) == Outcome("", 1, Some(WriteFailure(start)))
    ensures Encoded(e, start, fails) == AsWritten(e, start, fails)
  {
    RunSingle(Header(e.entryType, e.citationKey), start, fails);
    RunFirstFailure(EntryChunks(e.entryType, e.citationKey, PresentFields(e.common)), start, fails, 0);
  }

  /**
   * The checked encoder stops at the first failed write: the writes before it
   * reached the sink, nothing after it was attempted, and its error is returned.
   */
  lemma CheckedStopsAtFirstFailure(e: BibTeX.Entry, start: nat, fails: nat -> bool, k: nat)
    requires ArgumentError(e).None?
    requires k < |EntryChunks(e.entryType, e.citationKey, PresentFields(e.common))| && fails(start + k)
    requires forall i :: start <= i < start + k ==> !fails(i)
    ensures var chunks := EntryChunks(e.entryType, e.citationKey, PresentFields(e.common));
            Encoded(e, start, fails) == Outcome(Concat(chunks[..k]), k + 1, Some(WriteFailure(start + k)))
  {
    RunFirstFailure(EntryChunks(e.entryType, e.citationKey, PresentFields(e.common)), start, fails, k);
  }

  /** A successful checked encoding has written exactly the expected block. */
  lemma CheckedSuccessWritesBlock(e: BibTeX.Entry, start: nat, fails: nat -> bool)
    requires Encoded(e, start, fails).err.None?
    ensures Encoded(e, start, fails).text == ExpectedText(e)
    ensures Encoded(e, start, fails).attempts == |PresentFields(e.common)| + 2
  {
    var chunks := EntryChunks(e.entryType, e.citationKey, PresentFields(e.common));
    FieldTextsLength(PresentFields(e.common));
    RunSuccess(chunks, start, fails);
    EntryChunksText(e.entryType, e.citationKey, PresentFields(e.common));
  }
}
