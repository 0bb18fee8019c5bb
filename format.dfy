/**
 * The BibTeX text the encoders write: the table of the 22 fixed fields in their
 * emission order, the `name = {value}` line of a field, the header and the
 * closing brace of a block.
 */
module Format {
  import opened Text
  import Bibliography

  /** A `name = {value}` pair. */
  datatype Field = Field(name: string, value: string)

  /** One row of the fixed field table: the printed name, whether the field is present, its printed value. */
  datatype Slot = Slot(name: string, present: bool, value: string)

  /** The separator between the names of an author or editor list. */
  const AndSeparator := " and "

  /** The number of fixed fields. */
  const FieldCount := 22

  /** The printed name of fixed field `i`, in emission order. */
  function FieldName(i: int): string
  {
    match i
    case 0 => "address"
    case 1 => "author"
    case 2 => "booktitle"
    case 3 => "chapter"
    case 4 => "edition"
    case 5 => "editor"
    case 6 => "howpublished"
    case 7 => "institution"
    case 8 => "journal"
    case 9 => "key"
    case 10 => "month"
    case 11 => "note"
    case 12 => "number"
    case 13 => "organization"
    case 14 => "pages"
    case 15 => "publisher"
    case 16 => "school"
    case 17 => "series"
    case 18 => "title"
    case 19 => "type"
    case 20 => "volume"
    case _ => "year"
  }

  /** The printed names of the fixed fields, in emission order. */
  const FieldNames: seq<string> := seq(FieldCount, i => FieldName(i))

  /**
   * The printed value of fixed field `i` of `e`: the string itself, or for the
   * author and editor lists the names joined with " and ".
   */
  function RowValue(e: Bibliography.Entry, i: nat): string
  {
    match i
    case 0 => e.address
    case 1 => Join(e.author, AndSeparator)
    case 2 => e.bookTitle
    case 3 => e.chapter
    case 4 => e.edition
    case 5 => Join(e.editor, AndSeparator)
    case 6 => e.howPublished
    case 7 => e.institution
    case 8 => e.journal
    case 9 => e.key
    case 10 => e.month
    case 11 => e.note
    case 12 => e.number
    case 13 => e.organization
    case 14 => e.pages
    case 15 => e.publisher
    case 16 => e.school
    case 17 => e.series
    case 18 => e.title
    case 19 => e.publicationType
    case 20 => e.volume
    case _ => e.year
  }

  /**
   * Whether fixed field `i` of `e` is written: a string field when it is non-empty,
   * a list field when the list is non-empty (even if its names are empty).
   */
  predicate RowPresent(e: Bibliography.Entry, i: nat)
  {
    match i
    case 1 => |e.author| > 0
    case 5 => |e.editor| > 0
    case _ => |RowValue(e, i)| > 0
  }

  /** Row `i` of the fixed field table of `e`. */
  function SlotAt(e: Bibliography.Entry, i: nat): Slot
    requires i < FieldCount
  {
    Slot(FieldName(i), RowPresent(e, i), RowValue(e, i))
  }

  /** The fixed field table of `e`, one row per field in emission order. */
  function Slots(e: Bibliography.Entry): (r: seq<Slot>)
    ensures |r| == FieldCount
    ensures forall i :: 0 <= i < FieldCount ==>
              r[i].name == FieldName(i) && (r[i].present <==> RowPresent(e, i)) && r[i].value == RowValue(e, i)
  {
    seq(FieldCount, i requires 0 <= i < FieldCount => SlotAt(e, i))
  }

  /** The rows of `slots` that are present, as fields, in table order. */
  function Emitted(slots: seq<Slot>): seq<Field>
  {
    if slots == [] then []
    else (if slots[0].present then [Field(slots[0].name, slots[0].value)] else []) + Emitted(slots[1..])
  }

  /** The fixed fields of `e` that are written, in the order they are written. */
  function PresentFields(e: Bibliography.Entry): seq<Field>
  {
    Emitted(Slots(e))
  }

  /** `",\n  name = {value}"`: the text written for one field. Values are not escaped. */
  function FieldText(f: Field): string
  {
    ",\n  " + f.name + " = {" + f.value + "}"
  }

  function FieldTexts(fs: seq<Field>): seq<string>
  {
    if fs == [] then [] else [FieldText(fs[0])] + FieldTexts(fs[1..])
  }

  /** `"@type{key"`. */
  function Header(entryType: string, citationKey: string): string
  {
    "@" + entryType + "{" + citationKey
  }

  const Closing := "\n}\n"

  /** The writes of one block, in order: header, one per field, closing brace. */
  function EntryChunks(entryType: string, citationKey: string, fs: seq<Field>): seq<string>
  {
    [Header(entryType, citationKey)] + FieldTexts(fs) + [Closing]
  }

  /** The text of one complete block. */
  function Block(entryType: string, citationKey: string, fs: seq<Field>): string
  {
    Header(entryType, citationKey) + Concat(FieldTexts(fs)) + Closing
  }

  ghost predicate SortedByName(fs: seq<Field>)
  {
    forall i, j :: 0 <= i < j < |fs| ==> Less(fs[i].name, fs[j].name)
  }

  // ---------------------------------------------------------------------------
  // Properties of the table and of the text

  lemma {:induction false} FieldTextsAppend(a: seq<Field>, b: seq<Field>)
    ensures FieldTexts(a + b) == FieldTexts(a) + FieldTexts(b)
  {
    if a == [] {
      assert a + b == b;
    } else {
      assert (a + b)[1..] == a[1..] + b;
      FieldTextsAppend(a[1..], b);
    }
  }

  lemma {:induction false} FieldTextsLength(fs: seq<Field>)
    ensures |FieldTexts(fs)| == |fs|
  {
    if fs != [] {
      FieldTextsLength(fs[1..]);
    }
  }

  /** The texts of the first `k` fields are the first `k` field texts. */
  lemma FieldTextsTake(fs: seq<Field>, k: nat)
    requires k <= |fs|
    ensures |FieldTexts(fs)| == |fs|
    ensures FieldTexts(fs)[..k] == FieldTexts(fs[..k])
  {
    FieldTextsLength(fs);
    assert fs == fs[..k] + fs[k..];
    FieldTextsAppend(fs[..k], fs[k..]);
    FieldTextsLength(fs[..k]);
  }

  /** The chunks after the header grow by one field text per field written. */
  lemma FieldTextsPrefix(header: string, fields: seq<Field>, i: nat)
    requires i < |fields|
    ensures |[header] + FieldTexts(fields[..i])| == 1 + i
    ensures ([header] + FieldTexts(fields[..i])) + [FieldText(fields[i])] == [header] + FieldTexts(fields[..i + 1])
  {
    FieldTextsLength(fields[..i]);
    assert fields[..i + 1] == fields[..i] + [fields[i]];
    FieldTextsAppend(fields[..i], [fields[i]]);
    assert [fields[i]][1..] == [];
    assert FieldTexts([fields[i]]) == [FieldText(fields[i])];
  }

  lemma {:induction false} EmittedAppend(a: seq<Slot>, b: seq<Slot>)
    ensures Emitted(a + b) == Emitted(a) + Emitted(b)
  {
    if a == [] {
      assert a + b == b;
    } else {
      var head := if a[0].present then [Field(a[0].name, a[0].value)] else [];
      assert (a + b)[0] == a[0] && (a + b)[1..] == a[1..] + b;
      assert Emitted(a + b) == head + Emitted(a[1..] + b);
      EmittedAppend(a[1..], b);
      assert head + (Emitted(a[1..]) + Emitted(b)) == (head + Emitted(a[1..])) + Emitted(b);
    }
  }

  /** Absent rows `i` to `j` of a table emit nothing. */
  lemma {:induction false} EmittedSkip(slots: seq<Slot>, i: nat, j: nat)
    requires i <= j <= |slots|
    requires forall k :: i <= k < j ==> !slots[k].present
    ensures Emitted(slots[i..]) == Emitted(slots[j..])
    decreases j - i
  {
    if i < j {
      assert slots[i..][1..] == slots[i + 1..];
      EmittedSkip(slots, i + 1, j);
    }
  }

  /** A present row `i` of a table emits its field ahead of the rows after it. */
  lemma EmittedTake(slots: seq<Slot>, i: nat)
    requires i < |slots| && slots[i].present
    ensures Emitted(slots[i..]) == [Field(slots[i].name, slots[i].value)] + Emitted(slots[i + 1..])
  {
    assert slots[i..][1..] == slots[i + 1..];
  }

  /**
   * A present row `i` followed by absent rows up to row `j` emits its field
   * ahead of what rows `j` onwards emit.
   */
  lemma EmittedStep(slots: seq<Slot>, i: nat, j: nat, tail: seq<Field>)
    requires i < j <= |slots| && slots[i].present
    requires forall n :: i < n < j ==> !slots[n].present
    requires Emitted(slots[j..]) == tail
    ensures Emitted(slots[i..]) == [Field(slots[i].name, slots[i].value)] + tail
  {
    EmittedSkip(slots, i + 1, j);
    EmittedTake(slots, i);
  }

  /** A table whose rows are all present emits every row, in order. */
  lemma {:induction false} EmittedAllPresent(slots: seq<Slot>)
    requires forall i :: 0 <= i < |slots| ==> slots[i].present
    ensures |Emitted(slots)| == |slots|
    ensures forall i :: 0 <= i < |slots| ==> Emitted(slots)[i] == Field(slots[i].name, slots[i].value)
  {
    if slots != [] {
      EmittedAllPresent(slots[1..]);
      var rest := Emitted(slots[1..]);
      assert Emitted(slots) == [Field(slots[0].name, slots[0].value)] + rest;
      forall i | 0 < i < |slots| ensures Emitted(slots)[i] == Field(slots[i].name, slots[i].value) {
        assert Emitted(slots)[i] == rest[i - 1];
        assert slots[1..][i - 1] == slots[i];
      }
    }
  }

  /** Every emitted field is a present row of the table, with that row's name and value. */
  lemma {:induction false} EmittedFromPresentRow(slots: seq<Slot>, f: Field)
    requires f in Emitted(slots)
    ensures exists i :: 0 <= i < |slots| && slots[i].present && f == Field(slots[i].name, slots[i].value)
  {
    if !(slots[0].present && f == Field(slots[0].name, slots[0].value)) {
      EmittedFromPresentRow(slots[1..], f);
      var i :| 0 <= i < |slots[1..]| && slots[1..][i].present && f == Field(slots[1..][i].name, slots[1..][i].value);
      assert slots[i + 1] == slots[1..][i];
    }
  }

  /** Every present row of the table is emitted. */
  lemma {:induction false} PresentRowEmitted(slots: seq<Slot>, i: nat)
    requires i < |slots| && slots[i].present
    ensures Field(slots[i].name, slots[i].value) in Emitted(slots)
  {
    if i > 0 {
      PresentRowEmitted(slots[1..], i - 1);
    }
  }

  /** A table whose names ascend emits its fields in ascending name order. */
  lemma {:induction false} EmittedSorted(slots: seq<Slot>)
    requires forall i, j :: 0 <= i < j < |slots| ==> Less(slots[i].name, slots[j].name)
    ensures SortedByName(Emitted(slots))
  {
    if slots != [] {
      EmittedSorted(slots[1..]);
      var rest := Emitted(slots[1..]);
      if slots[0].present {
        forall j | 0 <= j < |rest| ensures Less(slots[0].name, rest[j].name) {
          EmittedFromPresentRow(slots[1..], rest[j]);
        }
      }
    }
  }

  /** The fixed-field table lists its 22 names in the order address ... year, which ascends. */
  lemma FieldNamesAscending()
    ensures Ascending(FieldNames)
  {
    NamesAscendFrom0();
    NamesAscendFrom7();
    NamesAscendFrom14();
    AscendingFromNeighbours(FieldNames);
  }

  lemma NamesAscendFrom0()
    ensures forall k :: 0 <= k < 7 ==> Less(FieldNames[k], FieldNames[k + 1])
  {
    var n := FieldNames;
    LessAt(n[0], n[1], 1); LessAt(n[1], n[2], 0); LessAt(n[2], n[3], 0); LessAt(n[3], n[4], 0);
    EditionBeforeEditor();
    LessAt(n[5], n[6], 0); LessAt(n[6], n[7], 0);
  }

  /** The only neighbours with a longer common prefix: "edition" and "editor" share "edit". */
  lemma EditionBeforeEditor()
    ensures Less(FieldNames[4], FieldNames[5])
  {
    var a, b := FieldNames[4], FieldNames[5];
    assert a == "edition" && b == "editor";
    assert a[0] == b[0] && a[1] == b[1] && a[2] == b[2] && a[3] == b[3];
    LessAt(a, b, 4);
  }

  lemma NamesAscendFrom7()
    ensures forall k :: 7 <= k < 14 ==> Less(FieldNames[k], FieldNames[k + 1])
  {
    var n := FieldNames;
    LessAt(n[7], n[8], 0); LessAt(n[8], n[9], 0); LessAt(n[9], n[10], 0); LessAt(n[10], n[11], 0);
    LessAt(n[11], n[12], 1); LessAt(n[12], n[13], 0); LessAt(n[13], n[14], 0);
  }

  lemma NamesAscendFrom14()
    ensures forall k :: 14 <= k < 21 ==> Less(FieldNames[k], FieldNames[k + 1])
  {
    var n := FieldNames;
    LessAt(n[14], n[15], 1); LessAt(n[15], n[16], 0); LessAt(n[16], n[17], 1); LessAt(n[17], n[18], 0);
    LessAt(n[18], n[19], 1); LessAt(n[19], n[20], 0); LessAt(n[20], n[21], 0);
  }

  /** The table has one row per name of `FieldNames`, row `i` being `SlotAt(e, i)` and carrying name `i`. */
  lemma SlotNames(e: Bibliography.Entry)
    ensures |Slots(e)| == |FieldNames| == FieldCount
    ensures forall i :: 0 <= i < FieldCount ==> Slots(e)[i] == SlotAt(e, i) && Slots(e)[i].name == FieldNames[i]
  {
  }

  /** An entry with every field present writes all 22 of them, in table order. */
  lemma AllPresentEmitsEveryRow(e: Bibliography.Entry)
    requires forall i: nat :: i < FieldCount ==> RowPresent(e, i)
    ensures |PresentFields(e)| == FieldCount
    ensures forall i :: 0 <= i < FieldCount ==> PresentFields(e)[i] == Field(FieldNames[i], RowValue(e, i))
  {
    SlotNames(e);
    EmittedAllPresent(Slots(e));
  }

  /** Fields are written in the fixed order address ... year, each name at most once. */
  lemma PresentFieldsInFieldOrder(e: Bibliography.Entry)
    ensures SortedByName(PresentFields(e))
  {
    SlotNames(e);
    FieldNamesAscending();
    EmittedSorted(Slots(e));
  }

  /**
   * A fixed field is written if and only if it is present (its string or its list
   * is non-empty), and then with the value of its table row.
   */
  lemma EmittedIffPresent(e: Bibliography.Entry, i: nat)
    requires i < FieldCount
    ensures (exists f :: f in PresentFields(e) && f.name == FieldNames[i]) <==> Slots(e)[i].present
    ensures Slots(e)[i].present ==> Field(FieldNames[i], Slots(e)[i].value) in PresentFields(e)
  {
    SlotNames(e);
    if Slots(e)[i].present {
      PresentRowEmitted(Slots(e), i);
    }
    if f :| f in PresentFields(e) && f.name == FieldNames[i] {
      EmittedFromPresentRow(Slots(e), f);
      var j :| 0 <= j < |Slots(e)| && Slots(e)[j].present && f == Field(Slots(e)[j].name, Slots(e)[j].value);
      FieldNamesAscending();
      LessIrreflexive(FieldNames[i]);
      assert j == i;
    }
  }

  /** The author line is written exactly when the list is non-empty, as the names joined with " and " in list order. */
  lemma AuthorEmitted(e: Bibliography.Entry)
    ensures (exists f :: f in PresentFields(e) && f.name == "author") <==> |e.author| > 0
    ensures |e.author| > 0 ==> Field("author", Join(e.author, " and ")) in PresentFields(e)
  {
    EmittedIffPresent(e, 1);
  }

  /** The editor line is written exactly when the list is non-empty, as the names joined with " and " in list order. */
  lemma EditorEmitted(e: Bibliography.Entry)
    ensures (exists f :: f in PresentFields(e) && f.name == "editor") <==> |e.editor| > 0
    ensures |e.editor| > 0 ==> Field("editor", Join(e.editor, " and ")) in PresentFields(e)
  {
    EmittedIffPresent(e, 5);
  }

  lemma {:induction false} NothingPresentEmitsNothing(slots: seq<Slot>)
    requires forall i :: 0 <= i < |slots| ==> !slots[i].present
    ensures Emitted(slots) == []
  {
    if slots != [] {
      NothingPresentEmitsNothing(slots[1..]);
    }
  }

  /** The zero record has no field to write. */
  lemma ZeroEmitsNothing()
    ensures PresentFields(Bibliography.Zero()) == []
  {
    var z := Bibliography.Zero();
    assert z.author == [] && z.editor == [];
    NoValueEmitsNothing(z);
  }

  /** A record whose strings and lists are all empty has no field to write. */
  lemma NoValueEmitsNothing(e: Bibliography.Entry)
    requires e.author == [] && e.editor == []
    requires e.address == "" && e.bookTitle == "" && e.chapter == "" && e.edition == ""
    requires e.howPublished == "" && e.institution == "" && e.journal == "" && e.key == ""
    requires e.month == "" && e.note == "" && e.number == "" && e.organization == ""
    requires e.pages == "" && e.publisher == "" && e.school == "" && e.series == ""
    requires e.title == "" && e.publicationType == "" && e.volume == "" && e.year == ""
    ensures PresentFields(e) == []
  {
    SlotNames(e);
    NothingPresentEmitsNothing(Slots(e));
  }

  /**
   * Two lists strictly sorted by name that hold the same fields are the same list:
   * sorting fields with distinct names has a single outcome.
   */
  lemma {:induction false} SortedByNameUnique(a: seq<Field>, b: seq<Field>)
    requires SortedByName(a) && SortedByName(b) && multiset(a) == multiset(b)
    ensures a == b
    decreases |a|
  {
    assert |a| == |multiset(a)| == |multiset(b)| == |b|;
    if a != [] {
      assert a[0] in multiset(b) && b[0] in multiset(a);
      var i :| 0 <= i < |a| && a[i] == b[0];
      var j :| 0 <= j < |b| && b[j] == a[0];
      LessAsymmetric(a[0].name, b[0].name);
      assert a[0] == b[0];
      assert a == [a[0]] + a[1..] && b == [b[0]] + b[1..];
      TailsSameFields(a[0], a[1..], b[1..]);
      SortedByNameUnique(a[1..], b[1..]);
    }
  }

  lemma TailsSameFields(x: Field, p: seq<Field>, q: seq<Field>)
    requires multiset([x] + p) == multiset([x] + q)
    ensures multiset(p) == multiset(q)
  {
    assert multiset([x] + p) == multiset{x} + multiset(p);
    assert multiset([x] + q) == multiset{x} + multiset(q);
    assert forall f :: multiset(p)[f] == multiset([x] + p)[f] - multiset{x}[f];
  }

  /** A block without fields is the header followed directly by the closing brace. */
  lemma EmptyBlock(entryType: string, citationKey: string)
    ensures Block(entryType, citationKey, []) == "@" + entryType + "{" + citationKey + "\n}\n"
  {
    var h := Header(entryType, citationKey);
    assert Concat(FieldTexts([])) == "";
    assert h + "" == h;
  }

  /**
   * The text of a field: `,`, a line break and two spaces, the name, ` = {`, the
   * value verbatim and `}`.
   */
  lemma FieldTextLayout(f: Field)
    ensures var r := FieldText(f);
            && |r| == |f.name| + |f.value| + 9
            && r[..4] == ",\n  " && r[4..4 + |f.name|] == f.name && r[4 + |f.name|..8 + |f.name|] == " = {"
            && r[8 + |f.name|..|r| - 1] == f.value && r[|r| - 1] == '}'
  {
  }

  /** The header of a block: `@`, the entry type, `{` and the citation key, with nothing between them. */
  lemma HeaderLayout(entryType: string, citationKey: string)
    ensures var r := Header(entryType, citationKey);
            && |r| == |entryType| + |citationKey| + 2
            && r[0] == '@' && r[1..1 + |entryType|] == entryType && r[1 + |entryType|] == '{'
            && r[2 + |entryType|..] == citationKey
  {
  }

  /** The writes of a block, concatenated, are the block's text. */
  lemma EntryChunksText(entryType: string, citationKey: string, fs: seq<Field>)
    ensures Concat(EntryChunks(entryType, citationKey, fs)) == Block(entryType, citationKey, fs)
  {
    var h := [Header(entryType, citationKey)];
    ConcatAppend(h + FieldTexts(fs), [Closing]);
    ConcatAppend(h, FieldTexts(fs));
  }
}
