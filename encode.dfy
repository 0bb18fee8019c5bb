/**
 * The stream encoder of the BibTeX package: it gathers the fields of an entry
 * (the additional ones, then the present fixed ones), puts them in name order
 * and writes one block per call, and it holds a sticky error that ends all
 * later encoding.
 */
module Encode {
  import opened Wrappers
  import opened Text
  import opened Writers
  import opened Format
  import FieldWriter
  import Bibliography
  import BibTeX

  /**
   * `getEntityFields(entry, additionalFields)`: the additional fields in the map's
   * iteration order, followed by the present fixed fields in table order.
   */
  function EntityFields(e: Bibliography.Entry, m: map<string, string>, order: seq<string>): (r: seq<Field>)
    requires forall k :: k in order ==> k in m
    ensures |r| == |order| + |PresentFields(e)|
    ensures forall i :: 0 <= i < |order| ==> r[i] == Field(order[i], m[order[i]])
    ensures r[|order|..] == PresentFields(e)
  {
    FieldWriter.Additional(m, order) + PresentFields(e)
  }

  /**
   * Every additional pair is gathered exactly once, every present fixed field is
   * gathered, and nothing else: a gathered field is an additional pair or a
   * present fixed field.
   */
  lemma EntityFieldsContents(e: Bibliography.Entry, m: map<string, string>, order: seq<string>)
    requires FieldWriter.IsIterationOrder(order, m)
    ensures forall k :: k in m ==> multiset(EntityFields(e, m, order))[Field(k, m[k])]
                                    >= multiset(FieldWriter.Additional(m, order))[Field(k, m[k])] == 1
    ensures forall f :: f in PresentFields(e) ==> f in EntityFields(e, m, order)
    ensures forall f :: f in EntityFields(e, m, order) ==>
              (f.name in m && f.value == m[f.name]) || f in PresentFields(e)
    ensures |EntityFields(e, m, order)| == |m| + |PresentFields(e)|
  {
    FieldWriter.AdditionalExactlyOnce(m, order);
    FieldWriter.AdditionalLength(m, order);
    OrderLength(order, m);
  }

  /** An iteration order lists as many keys as the map has. */
  lemma OrderLength(order: seq<string>, m: map<string, string>)
    requires FieldWriter.IsIterationOrder(order, m)
    ensures |order| == |m|
  {
    var keys := set k | k in order;
    assert keys == m.Keys;
    DistinctCard(order);
  }

  lemma {:induction false} DistinctCard(xs: seq<string>)
    requires FieldWriter.Distinct(xs)
    ensures |set k | k in xs| == |xs|
  {
    if xs != [] {
      var rest := xs[1..];
      assert FieldWriter.Distinct(rest) by {
        forall i, j | 0 <= i < j < |rest| ensures rest[i] != rest[j] {
          assert rest[i] == xs[i + 1] && rest[j] == xs[j + 1];
        }
      }
      DistinctCard(rest);
      assert xs[0] !in rest by {
        forall i | 0 <= i < |rest| ensures rest[i] != xs[0] {
          assert rest[i] == xs[i + 1];
        }
      }
      assert (set k | k in xs) == (set k | k in rest) + {xs[0]};
    }
  }

  /**
   * `writeEntry(writer, entryType, citationKey, fields)` as written: the header,
   * one write per field in the given order, the closing brace; the result of every
   * write is discarded and nil is returned.
   */
  method WriteEntry(sink: Sink, entryType: string, citationKey: string, fields: seq<Field>)
    returns (err: Option<Error>)
    modifies sink
    ensures var chunks := EntryChunks(entryType, citationKey, fields);
            && sink.out == old(sink.out) + Each(chunks, old(sink.attempts), sink.fails)
            && sink.attempts == old(sink.attempts) + |chunks|
            && err == None
  {
    ghost var out0, start := sink.out, sink.attempts;
    var header := Header(entryType, citationKey);
    ghost var outBefore := sink.out;
    var ignored := sink.Write(header);
    WriteExtendsEach([], header, start, sink.fails, out0, outBefore, start, sink.out, sink.attempts);
    assert [] + [header] == [header];
    FieldTextsLength(fields[..0]);
    for i := 0 to |fields|
      invariant sink.out == out0 + Each([header] + FieldTexts(fields[..i]), start, sink.fails)
      invariant sink.attempts == start + 1 + i
    {
      ghost var done := [header] + FieldTexts(fields[..i]);
      var text := FieldText(fields[i]);
      FieldTextsPrefix(header, fields, i);
      ghost var outBefore, attemptsBefore := sink.out, sink.attempts;
      ignored := sink.Write(text);
      WriteExtendsEach(done, text, start, sink.fails, out0, outBefore, attemptsBefore, sink.out, sink.attempts);
    }
    assert fields[..|fields|] == fields;
    ghost var done := [header] + FieldTexts(fields);
    FieldTextsLength(fields);
    outBefore := sink.out;
    ghost var attemptsBefore := sink.attempts;
    ignored := sink.Write(Closing);
    WriteExtendsEach(done, Closing, start, sink.fails, out0, outBefore, attemptsBefore, sink.out, sink.attempts);
    err := None;
  }

  /**
   * `writeEntry` with its write errors checked: the writes of the block in order,
   * stopping at the first that fails and returning its error.
   */
  method WriteEntryChecked(sink: Sink, entryType: string, citationKey: string, fields: seq<Field>)
    returns (err: Option<Error>)
    modifies sink
    ensures var r := Run(EntryChunks(entryType, citationKey, fields), old(sink.attempts), sink.fails);
            sink.out == old(sink.out) + r.text && sink.attempts == old(sink.attempts) + r.attempts && err == r.err
  {
    var chunks := EntryChunks(entryType, citationKey, fields);
    ghost var out0, start := sink.out, sink.attempts;
    err := None;
    assert chunks[..0] == [];
    for i := 0 to |chunks|
      invariant err.None?
      invariant sink.out == out0 + Run(chunks[..i], start, sink.fails).text
      invariant sink.attempts == start + Run(chunks[..i], start, sink.fails).attempts
      invariant Run(chunks[..i], start, sink.fails).err.None?
    {
      ghost var outBefore, attemptsBefore := sink.out, sink.attempts;
      err := sink.Write(chunks[i]);
      WriteExtendsRun(chunks[..i], chunks[i], start, sink.fails, out0, outBefore, attemptsBefore,
                      sink.out, sink.attempts, err);
      assert chunks[..i + 1] == chunks[..i] + [chunks[i]];
      if err.Some? {
        assert chunks == chunks[..i + 1] + chunks[i + 1..];
        RunAppend(chunks[..i + 1], chunks[i + 1..], start, sink.fails);
        return;
      }
    }
    assert chunks[..|chunks|] == chunks;
  }

  /**
   * When write `k` of a block is the first to fail, the as-written `writeEntry`
   * leaves that chunk out and goes on with the later ones (and reports nil), while
   * the checked one stops there and reports that write's error.
   */
  lemma WriteEntryFailureLost(entryType: string, citationKey: string, fields: seq<Field>,
                              start: nat, fails: nat -> bool, k: nat)
    requires k < |EntryChunks(entryType, citationKey, fields)| && fails(start + k)
    requires forall i :: start <= i < start + k ==> !fails(i)
    ensures var chunks := EntryChunks(entryType, citationKey, fields);
            Each(chunks, start, fails) == Concat(chunks[..k]) + Each(chunks[k + 1..], start + k + 1, fails)
    ensures var chunks := EntryChunks(entryType, citationKey, fields);
            Run(chunks, start, fails) == Outcome(Concat(chunks[..k]), k + 1, Some(WriteFailure(start + k)))
  {
    var chunks := EntryChunks(entryType, citationKey, fields);
    RunFirstFailure(chunks, start, fails, k);
    EachFirstFailure(chunks, start, fails, k);
  }

  /** With no failing write, ignoring errors and checking them write the same block. */
  lemma WriteEntryAgreesWithoutFailure(entryType: string, citationKey: string, fields: seq<Field>,
                                        start: nat, fails: nat -> bool)
    requires forall i :: start <= i < start + |fields| + 2 ==> !fails(i)
    ensures var chunks := EntryChunks(entryType, citationKey, fields);
            && Each(chunks, start, fails) == Block(entryType, citationKey, fields)
            && Run(chunks, start, fails) == Outcome(Block(entryType, citationKey, fields), |fields| + 2, None)
  {
    FieldTextsLength(fields);
    var chunks := EntryChunks(entryType, citationKey, fields);
    EachAllSucceed(chunks, start, fails);
    RunAllSucceed(chunks, start, fails);
    EntryChunksText(entryType, citationKey, fields);
  }

  /**
   * `writeEntry` checks neither the entry type nor the citation key: with an empty
   * entry type and no failing write, the block begins `@{` and is written whole.
   */
  lemma WriteEntryWithoutEntryType(citationKey: string, fields: seq<Field>, start: nat, fails: nat -> bool)
    requires forall i :: start <= i < start + |fields| + 2 ==> !fails(i)
    ensures Each(EntryChunks("", citationKey, fields), start, fails)
            == "@{" + citationKey + Concat(FieldTexts(fields)) + Closing
  {
    WriteEntryAgreesWithoutFailure("", citationKey, fields, start, fails);
    assert Header("", citationKey) == "@{" + citationKey;
  }

  /** An encoder: the stream it writes to and the sticky error of an earlier call. */
  class Encoder {
    const writer: Sink
    var err: Option<Error>

    /** `NewEncoder(writer)`: keeps the stream, starts with no error, writes nothing. */
    constructor (writer: Sink)
      ensures this.writer == writer && err == None
      ensures unchanged(writer)
    {
      this.writer := writer;
      err := None;
    }

    /**
     * `Encode(entry)` as written. With an earlier error it returns that error and
     * writes nothing. Otherwise it gathers the fields, puts them in name order
     * (`arranged`, see below) and writes the block, and since `writeEntry` reports
     * nil whatever happens, it stores and returns nil.
     *
     * `order` is the iteration order of the additional fields map. `arranged` is the
     * gathered fields as `orderEntityByName` leaves them, which the model takes to
     * be a rearrangement of them.
     */
    method Encode(entry: BibTeX.Entry, ghost order: seq<string>, arranged: seq<Field>) returns (r: Option<Error>)
      requires FieldWriter.IsIterationOrder(order, entry.additionalFields)
      requires multiset(arranged) == multiset(EntityFields(entry.common, entry.additionalFields, order))
      modifies this, writer
      ensures old(err).Some? ==> r == old(err) && err == old(err) && unchanged(writer)
      ensures old(err).None? ==>
                var chunks := EntryChunks(entry.entryType, entry.citationKey, arranged);
                && writer.out == old(writer.out) + Each(chunks, old(writer.attempts), writer.fails)
                && writer.attempts == old(writer.attempts) + |chunks|
                && r == None && err == None
    {
      r := err;
      if r.Some? {
        return;
      }
      err := WriteEntry(writer, entry.entryType, entry.citationKey, arranged);
      r := err;
    }

    /**
     * `Encode` with `writeEntry`'s errors checked: the first failed write ends the
     * block, and its error is stored, so every later call returns it unchanged.
     */
    method EncodeChecked(entry: BibTeX.Entry, ghost order: seq<string>, arranged: seq<Field>) returns (r: Option<Error>)
      requires FieldWriter.IsIterationOrder(order, entry.additionalFields)
      requires multiset(arranged) == multiset(EntityFields(entry.common, entry.additionalFields, order))
      modifies this, writer
      ensures old(err).Some? ==> r == old(err) && err == old(err) && unchanged(writer)
      ensures old(err).None? ==>
                var o := Run(EntryChunks(entry.entryType, entry.citationKey, arranged), old(writer.attempts), writer.fails);
                && writer.out == old(writer.out) + o.text
                && writer.attempts == old(writer.attempts) + o.attempts
                && r == o.err && err == o.err
    {
      r := err;
      if r.Some? {
        return;
      }
      err := WriteEntryChecked(writer, entry.entryType, entry.citationKey, arranged);
      r := err;
    }
  }
}
