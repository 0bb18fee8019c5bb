/**
 * The examples of the package's test files, stated over the model: which fixed
 * fields are written for them and what the encoders then write.
 */
module Scenarios {
  import opened Wrappers
  import opened Text
  import opened Writers
  import opened Format
  import Bibliography
  import BibTeX
  import FieldWriter
  import EntryWriter
  import Encode

  const BookTitle := "DevOps Troubleshooting: Linux Server Best Practices"
  const AuthorField := Field("author", "Kyle Rankin")
  const TitleField := Field("title", BookTitle)
  const YearField := Field("year", "2012")

  /** The book of the tests: one author, a title and a year; every other field empty. */
  predicate IsBook(e: Bibliography.Entry)
  {
    && e.author == ["Kyle Rankin"] && e.title == BookTitle && e.year == "2012"
    && e.editor == []
    && e.address == "" && e.bookTitle == "" && e.chapter == "" && e.edition == ""
    && e.howPublished == "" && e.institution == "" && e.journal == "" && e.key == ""
    && e.month == "" && e.note == "" && e.number == "" && e.organization == ""
    && e.pages == "" && e.publisher == "" && e.school == "" && e.series == ""
    && e.publicationType == "" && e.volume == ""
  }

  /** The book entry of the tests: type `book`, key `devOpsTroubleshooting`, no additional fields. */
  predicate IsBookEntry(e: BibTeX.Entry)
  {
    e.entryType == "book" && e.citationKey == "devOpsTroubleshooting" && IsBook(e.common)
  }

  /** The writes for the book: header, author, title, year, closing brace. */
  function BookText(): string
  {
    Header("book", "devOpsTroubleshooting") + FieldText(AuthorField) + FieldText(TitleField)
      + FieldText(YearField) + Closing
  }

  lemma {:induction false} EmittedThree(s: seq<Slot>, i: nat, j: nat, k: nat)
    requires i < j < k < |s|
    requires s[i].present && s[j].present && s[k].present
    requires forall n :: 0 <= n < |s| && n != i && n != j && n != k ==> !s[n].present
    ensures Emitted(s) == [Field(s[i].name, s[i].value), Field(s[j].name, s[j].value), Field(s[k].name, s[k].value)]
  {
    assert s[|s|..] == [];
    var t3 := [Field(s[k].name, s[k].value)];
    EmittedStep(s, k, |s|, []);
    assert [Field(s[k].name, s[k].value)] + [] == t3;
    var t2 := [Field(s[j].name, s[j].value)] + t3;
    EmittedStep(s, j, k, t3);
    EmittedStep(s, i, j, t2);
    EmittedSkip(s, 0, i);
    assert s[0..] == s;
  }

  /** Of the book's table rows only author, title and year are present. */
  lemma BookRows(e: Bibliography.Entry)
    requires IsBook(e)
    ensures forall n: nat :: n < FieldCount && n != 1 && n != 18 && n != 21 ==> !RowPresent(e, n)
    ensures RowPresent(e, 1) && RowValue(e, 1) == "Kyle Rankin"
    ensures RowPresent(e, 18) && RowValue(e, 18) == BookTitle
    ensures RowPresent(e, 21) && RowValue(e, 21) == "2012"
  {
    assert Join(e.author, AndSeparator) == "Kyle Rankin";
  }

  /** The book writes exactly the author, title and year fields, in that order. */
  lemma BookFields(e: Bibliography.Entry)
    requires IsBook(e)
    ensures PresentFields(e) == [AuthorField, TitleField, YearField]
  {
    SlotNames(e);
    BookRows(e);
    var s := Slots(e);
    assert s[1] == Slot("author", true, "Kyle Rankin");
    assert s[18] == Slot("title", true, BookTitle);
    assert s[21] == Slot("year", true, "2012");
    EmittedThree(s, 1, 18, 21);
  }

  lemma BlockOfThree(t: string, key: string, a: Field, b: Field, c: Field)
    ensures Block(t, key, [a, b, c]) == Header(t, key) + FieldText(a) + FieldText(b) + FieldText(c) + Closing
  {
    var fa, fb, fc := FieldText(a), FieldText(b), FieldText(c);
    assert [a, b, c][1..] == [b, c] && [b, c][1..] == [c] && [c][1..] == [];
    assert FieldTexts([c]) == [fc];
    assert FieldTexts([b, c]) == [fb, fc];
    assert FieldTexts([a, b, c]) == [fa, fb, fc];
    assert [fa, fb, fc][1..] == [fb, fc] && [fb, fc][1..] == [fc] && [fc][1..] == [];
    assert Concat([fc]) == fc;
    assert Concat([fb, fc]) == fb + fc;
    assert Concat([fa, fb, fc]) == fa + (fb + fc);
    var h := Header(t, key);
    assert h + (fa + (fb + fc)) == h + fa + fb + fc;
  }

  lemma FieldTextsOfFour(a: Field, b: Field, c: Field, d: Field)
    ensures FieldTexts([a, b, c, d]) == [FieldText(a), FieldText(b), FieldText(c), FieldText(d)]
  {
    assert [a, b, c, d][1..] == [b, c, d] && [b, c, d][1..] == [c, d] && [c, d][1..] == [d] && [d][1..] == [];
    assert FieldTexts([d]) == [FieldText(d)];
    assert FieldTexts([c, d]) == [FieldText(c), FieldText(d)];
    assert FieldTexts([b, c, d]) == [FieldText(b), FieldText(c), FieldText(d)];
  }

  lemma ConcatFour(w: string, x: string, y: string, z: string)
    ensures Concat([w, x, y, z]) == w + x + y + z
  {
    assert [w, x, y, z][1..] == [x, y, z] && [x, y, z][1..] == [y, z] && [y, z][1..] == [z] && [z][1..] == [];
    assert Concat([z]) == z;
    assert Concat([y, z]) == y + z;
    assert Concat([x, y, z]) == x + (y + z);
    assert w + (x + (y + z)) == w + x + y + z;
  }

  /** `EncodeBibTeX` on the book, with no failing write: the book's block and nil. */
  lemma BookEncodeBibTeX(e: BibTeX.Entry, start: nat, fails: nat -> bool)
    requires IsBookEntry(e)
    requires forall i :: start <= i < start + 5 ==> !fails(i)
    ensures EntryWriter.AsWritten(e, start, fails) == Outcome(BookText(), 5, None)
  {
    BookFields(e.common);
    EntryWriter.AllWritesSucceed(e, start, fails);
    BlockOfThree("book", "devOpsTroubleshooting", AuthorField, TitleField, YearField);
  }

  /** Put in name order, the book's entity fields are its three fixed fields. */
  lemma BookArranged(e: BibTeX.Entry, order: seq<string>, arranged: seq<Field>)
    requires IsBookEntry(e) && e.additionalFields == map[] && order == []
    requires multiset(arranged) == multiset(Encode.EntityFields(e.common, e.additionalFields, order))
    requires SortedByName(arranged)
    ensures arranged == [AuthorField, TitleField, YearField]
  {
    BookFields(e.common);
    assert FieldWriter.Additional(e.additionalFields, order) == [];
    assert Encode.EntityFields(e.common, e.additionalFields, order) == PresentFields(e.common);
    PresentFieldsInFieldOrder(e.common);
    SortedByNameUnique(arranged, PresentFields(e.common));
  }

  /**
   * `Encode` on the book with no additional fields, the fields put in name order,
   * and no failing write: the same block (and, `Encode` as written, nil).
   */
  lemma BookEncode(e: BibTeX.Entry, order: seq<string>, arranged: seq<Field>, start: nat, fails: nat -> bool)
    requires IsBookEntry(e) && e.additionalFields == map[] && order == []
    requires multiset(arranged) == multiset(Encode.EntityFields(e.common, e.additionalFields, order))
    requires SortedByName(arranged)
    requires forall i :: start <= i < start + 5 ==> !fails(i)
    ensures Each(EntryChunks(e.entryType, e.citationKey, arranged), start, fails) == BookText()
  {
    BookArranged(e, order, arranged);
    Encode.WriteEntryAgreesWithoutFailure(e.entryType, e.citationKey, arranged, start, fails);
    BlockOfThree("book", "devOpsTroubleshooting", AuthorField, TitleField, YearField);
  }

  /** `writeFieldsFromEntry` on the book with one additional `isbn` field: the fixed fields, then the isbn. */
  lemma BookWithIsbn(e: Bibliography.Entry, m: map<string, string>, order: seq<string>, start: nat, fails: nat -> bool)
    requires IsBook(e) && m == map["isbn" := "9780321832047"] && order == ["isbn"]
    requires forall i :: start <= i < start + 4 ==> !fails(i)
    ensures FieldWriter.FieldsOutcome(e, m, order, start, fails)
            == Outcome(FieldText(AuthorField) + FieldText(TitleField) + FieldText(YearField)
                         + FieldText(Field("isbn", "9780321832047")), 4, None)
  {
    BookFields(e);
    assert FieldWriter.IsIterationOrder(order, m);
    var isbn := Field("isbn", "9780321832047");
    assert FieldWriter.Additional(m, order) == [isbn];
    var fields := [AuthorField, TitleField, YearField, isbn];
    FieldTextsAppend([AuthorField, TitleField, YearField], [isbn]);
    assert [AuthorField, TitleField, YearField] + [isbn] == fields;
    FieldTextsLength(fields);
    var fs := FieldTexts(fields);
    RunAllSucceed(fs, start, fails);
    FieldTextsOfFour(AuthorField, TitleField, YearField, isbn);
    ConcatFour(FieldText(AuthorField), FieldText(TitleField), FieldText(YearField), FieldText(isbn));
  }

  /**
   * `EncodeBibTeX` on an entry with every fixed field set, with no failing write:
   * the header, all 22 fields in table order and the closing brace, and nil.
   */
  lemma AllFieldsEncodeBibTeX(e: BibTeX.Entry, start: nat, fails: nat -> bool)
    requires e.entryType != "" && e.citationKey != ""
    requires forall i: nat :: i < FieldCount ==> RowPresent(e.common, i)
    requires forall i :: start <= i < start + FieldCount + 2 ==> !fails(i)
    ensures EntryWriter.AsWritten(e, start, fails) == Outcome(Block(e.entryType, e.citationKey, PresentFields(e.common)), FieldCount + 2, None)
    ensures |PresentFields(e.common)| == FieldCount
    ensures forall i :: 0 <= i < FieldCount ==> PresentFields(e.common)[i] == Field(FieldNames[i], RowValue(e.common, i))
  {
    AllPresentEmitsEveryRow(e.common);
    EntryWriter.AllWritesSucceed(e, start, fails);
  }
}
