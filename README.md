# BibTeX entry encoder

The model covers the BibTeX encoder of the Go module `github.com/matthewdunsdon/bibliography`. The encoder is in package `bibtex`, the record it writes is in package `bibliography`, and a stub encoder is in package `encoding`:

- `bibliography.go` is the bibliographic record. It has 20 string fields and the ordered `Author` and `Editor` lists.
- `bibtex/bibtex.go` is the BibTeX entry. It adds a citation key, an entry type and a map of additional fields.
- `bibtex/entry.go` is `(*Entry).EncodeBibTeX`. It checks that the entry type and the citation key are set, writes `@type{key`, writes `,\n  name = {value}` for every non-empty fixed field in the order address … year, and writes the closing `\n}\n`. It stops at the first failed field write. The header write's error is never tested (see Findings).
- `bibtex/fields.go` is `writeFieldsFromEntry`. It writes the same fixed fields, then every additional field.
- `bibtex/encode.go` has three parts. `getEntityFields` gathers the fields. `writeEntry` writes one block. The `Encoder` holds a stream and a sticky error, and its `Encode` writes one block per call.
- `encoding/encoding.go` is the stub encoder. It only passes an earlier error through.

Modules:

- `Bibliography` is the record. `BibTeX` is the entry.
- `Text` holds string joining, concatenation and the lexicographic order of names.
- `Writers` models the `io.Writer`:
  - A `Sink` object holds its text so far, the number of writes tried, and a fixed failure pattern `fails`. Write number `i` fails exactly when `fails(i)` holds, and a failed write appends nothing.
  - `Run` is the text, write count and error of a series of writes that stops at the first failure.
  - `Each` is the text of a series that ignores failures.
- `Format` holds the 22-row fixed field table, the text of a field, the header, the closing brace and a block.
- The writers are `FieldWriter` (`fields.go`), `EntryWriter` (`entry.go`), `Encode` (`encode.go`, `bibtex.go`) and `Encoding` (`encoding/encoding.go`).
- `Scenarios` restates the test cases of the package as lemmas.

The only method of the `Sink` is `Write`, one `Fprintf`. Each imperative Go function is a module-level method that takes the `Sink` as an argument: `WriteRows`, `WriteFixedFields`, `WriteAdditional`, `WriteFieldsFromEntry`, `EncodeBibTeX`, `WriteBlock` and `WriteEntry`, and their corrected versions. The encoders' `Encode` methods are methods of their `Encoder` classes. Each method's `ensures` ties the new text, the new write count and the returned error to a specification function of the entry and the failure pattern. The properties lemmas then prove are stated about those functions.

Modelling choices:

- `fmt.Fprintf` with `%s` is plain concatenation. A write either appends the whole string or fails and appends nothing.
- The 22 `if len(..) > 0` blocks of `entry.go` and `fields.go` are one loop over the field table, `Format.Slots`. Each row has the field's printed name, its presence test and its printed value. The table repeats the code's names, order and tests, including the `" and "` join of authors and editors.
- Go's map iteration order is not specified, so the model takes it as an input `order`. `FieldWriter.IsIterationOrder` requires `order` to list every key of the map exactly once.
- `orderEntityByName` and `appendFieldsFromEntry` are not part of this model. `Encode.Encoder.Encode` therefore takes the rearranged field list `arranged`, required to be a permutation of what `getEntityFields` gathers. The model assumes that `appendFieldsFromEntry` appends the present fixed fields in table order.
- Package `bibtex` declares `Entry` twice, in `bibtex/entry.go:18-22` and in `bibtex/bibtex.go:11-16`. The model has one `BibTeX.Entry` with all four parts, and `EncodeBibTeX` ignores its additional fields.
- `Encoder.Encode` (bibtex/encode.go:39-51) makes none of the argument checks of `EncodeBibTeX`. The model does the same: with an empty entry type, the block begins `@{` (`Encode.WriteEntryWithoutEntryType`).
- `Text.Less` compares strings character by character, and Go compares them byte by byte. The two orders agree on the 22 field names, which are ASCII.
- In the tests, `Encoder.Encode` takes `&Entry{..}` and dispatches on the type. The `Encode` in `bibtex/encode.go` takes an `Entry`, and the model follows that code.

## Model

| member | source | states |
|---|---|---|
| Writers.Sink.Write | bibtex/entry.go:34 | One `Fprintf`: the attempt count grows by one; on a failing attempt nothing is appended and the failure is returned, otherwise the text is appended and nil returned |
| Writers.RunFirstFailure | bibtex/entry.go:36-38 | In a series that stops at the first failure, when write `k` is the first to fail, the text is the first `k` chunks, `k + 1` writes were tried, and write `k`'s error is returned |
| Writers.RunAllSucceed | bibtex/entry.go:34-150 | With no failing write, a stopping series writes every chunk, tries each once and returns nil |
| Writers.EachFirstFailure | bibtex/encode.go:30-34 | A series that ignores errors skips a failed chunk and goes on: the first `k` chunks, then the rest from write `k + 1` |
| Text.JoinElementAt | bibtex/entry.go:41 | `Text.Join`, the model of `strings.Join`, places every list element in order, at its computed offset, in the joined text |
| Text.JoinSeparatorAt | bibtex/entry.go:62 | Between neighbouring elements the joined text holds exactly the separator |
| Text.JoinLength | bibtex/fields.go:22 | The joined text ends right after the last element |
| Bibliography.Zero | bibliography.go:8-81 | Go's zero record: every string field is empty and both lists are empty |
| Format.Slots | bibtex/entry.go:35-146 | The field table of an entry has 22 rows. Row `i` has the `i`-th name of the emission order, is present if and only if the `i`-th guard holds, and carries the printed value (the lists joined by `" and "`) |
| Format.FieldTextLayout | bibtex/fields.go:16 | A field is written as `,`, a line break and two spaces, the name, ` = {`, the value verbatim and `}` |
| Format.HeaderLayout | bibtex/entry.go:34 | The header is `@`, the entry type, `{` and the citation key, with nothing between them |
| Format.FieldNamesAscending | bibliography.go:12-80 | The 22 printed names in emission order (address … year) are strictly ascending |
| Format.PresentFieldsInFieldOrder | bibtex/entry.go:35-146 | The fixed fields are written in table order, sorted by name with no name twice |
| Format.EmittedIffPresent | bibtex/entry.go:35-146 | A fixed field is written if and only if its string or list is non-empty, and then with its row's value |
| Format.AuthorEmitted | bibtex/entry.go:40-45 | The author line is written if and only if the list is non-empty, with the names joined by `" and "` |
| Format.EditorEmitted | bibtex/entry.go:61-66 | The editor line is written if and only if the list is non-empty, with the names joined by `" and "` |
| Format.AllPresentEmitsEveryRow | bibtex/entry.go:35-146 | With every field present, all 22 are written, row `i` as name `i` with value `i` |
| Format.ZeroEmitsNothing | bibliography.go:8-81 | The zero record has no field to write |
| Format.NoValueEmitsNothing | bibtex/fields.go:15-148 | A record whose strings and lists are all empty has no field to write |
| Format.SortedByNameUnique | bibtex/encode.go:46 | Arranging fields with distinct names by name has a single outcome |
| Format.EmptyBlock | bibtex/encode.go:30-34 | A block without fields is `@type{key` directly followed by `\n}\n` |
| Format.EntryChunksText | bibtex/encode.go:30-34 | The header, field and closing writes of a block concatenate to the block's text |
| FieldWriter.Additional | bibtex/fields.go:149 | The additional fields in iteration order: one per key of the order, the `i`-th being the `i`-th key with its map value |
| FieldWriter.AdditionalExactlyOnce | bibtex/fields.go:149-153 | Each additional pair is written exactly once, with its own value, and nothing else is |
| FieldWriter.AdditionalLength | bibtex/fields.go:149-153 | One additional field per key of the iteration order |
| FieldWriter.WriteRows | bibtex/fields.go:15-148 | The guarded writes over a field table: the present rows are written in table order until the first failure, whose error is returned; with no present row the error variable is left as it was |
| FieldWriter.WriteFixedFields | bibtex/fields.go:15-148 | The 22 guarded fixed-field writes, as `WriteRows` over the entry's table |
| FieldWriter.WriteAdditional | bibtex/fields.go:149-153 | The loop over the map: each field is written while no write has failed, and the first failure's error is returned |
| FieldWriter.WriteFieldsFromEntry | bibtex/fields.go:14-155 | The fixed fields, then the additional ones, as one series that stops at the first failure |
| FieldWriter.FieldsAllSucceed | bibtex/fields.go:14-155 | With no failure, every present fixed field is written and then every additional field, and nil is returned |
| FieldWriter.FixedFailureStopsAll | bibtex/fields.go:17-19 | A failed fixed-field write ends everything: no later fixed field and no additional field |
| FieldWriter.AdditionalFailureStopsRest | bibtex/fields.go:150-152 | When additional write `k` is the first to fail, the text ends after the fixed fields and the first `k` additional ones, and that error is returned |
| FieldWriter.NothingToWrite | bibtex/fields.go:14-155 | A record with nothing present and an empty map writes nothing and returns nil |
| EntryWriter.EncodeBibTeX | bibtex/entry.go:26-151 | `EncodeBibTeX` as written: the text, write count and error are those of `AsWritten`, including the unchecked header write |
| EntryWriter.WriteBlock | bibtex/entry.go:34-150 | The writes after the argument checks: the header, the guarded fields working on the header's error variable, and the closing brace only if that variable is nil |
| EntryWriter.ArgumentError | bibtex/entry.go:27-32 | The argument checks pass if and only if the entry type and the citation key are both non-empty. An empty entry type gives the entry-type message, whatever the key. A set type with an empty key gives the citation-key message. The messages are the constants of bibtex/entry.go:12-15 |
| EntryWriter.MissingEntryType | bibtex/entry.go:27-29 | An empty entry type returns the entry-type message and writes nothing, even without a citation key |
| EntryWriter.MissingCitationKey | bibtex/entry.go:30-32 | A set entry type with an empty citation key returns the citation-key message and writes nothing |
| EntryWriter.AllWritesSucceed | bibtex/entry.go:34-150 | With no failure: `@type{key`, then every present field in table order, then `\n}\n`, in `fields + 2` writes; nil is returned |
| EntryWriter.NoFieldsWritesHeaderAndClosing | bibtex/entry.go:147-149 | With no field present, the text is exactly `@type{key\n}\n` |
| EntryWriter.FieldFailureStops | bibtex/entry.go:36-38 | After the first failed field write nothing more is written (no later field, no closing brace), and that write's error is returned |
| EntryWriter.HeaderErrorKeptWithoutFields | bibtex/entry.go:147-150 | With no field present, a failed header write is returned and the closing brace is not written, as the checked encoder does |
| EntryWriter.AgreesWhenHeaderWritten | bibtex/entry.go:34-150 | Whenever the header write succeeds, the encoder as written and the checked encoder give the same outcome |
| EntryWriter.HeaderErrorLost | bibtex/entry.go:34 | As written: when only the header write fails and a field is present, the fields and the closing brace are written without the header and nil is returned; the checked encoder returns the header's error |
| EntryWriter.EncodeBibTeXChecked | bibtex/entry.go:26-151 | The corrected encoder: the argument checks, then the writes of the block in order, stopping at the first failure and returning its error |
| EntryWriter.CheckedStopsAtFirstFailure | bibtex/entry.go:26-151 | The corrected encoder writes the chunks before the first failed write, tries nothing after it and returns its error |
| EntryWriter.CheckedSuccessWritesBlock | bibtex/entry.go:26-151 | A successful corrected encoding has written exactly the expected block, in `fields + 2` writes |
| Encode.EntityFields | bibtex/encode.go:20-27 | `getEntityFields`: the additional pairs come first, one per key in iteration order, and the present fixed fields follow them |
| Encode.EntityFieldsContents | bibtex/encode.go:20-27 | In `getEntityFields`, the additional part holds each pair exactly once. Every present fixed field is included, and nothing else is. The length is that of the map plus the present fields. A pair can occur twice overall, when a key repeats a fixed field with the same value |
| Encode.WriteEntry | bibtex/encode.go:29-36 | `writeEntry` as written: one write per chunk (header, each field in list order, closing brace), each result ignored, and nil returned |
| Encode.WriteEntryAgreesWithoutFailure | bibtex/encode.go:30-34 | With no failure, the block is the header, each field in list order and the closing brace, whether errors are ignored or checked |
| Writers.EachAllFail | bibtex/encode.go:29-36 | A sink that fails every write receives nothing from a series that ignores errors, such as `writeEntry` |
| Encode.WriteEntryWithoutEntryType | bibtex/encode.go:30 | `writeEntry` makes no argument checks: with an empty entry type and no failure it writes `@{key`, the fields and the closing brace |
| Encode.WriteEntryFailureLost | bibtex/encode.go:29-36 | As written: a failed chunk is skipped and writing goes on; the checked version stops there with that write's error |
| Encode.WriteEntryChecked | bibtex/encode.go:29-36 | The corrected `writeEntry`: the block's writes in order, stopping at the first failure and returning its error |
| Encode.Encoder.constructor | bibtex/bibtex.go:19-22 | `NewEncoder` keeps the given writer, starts with a nil error and writes nothing |
| Encode.Encoder.Encode | bibtex/encode.go:39-51 | With a stored error, that error is returned, kept, and nothing is written; otherwise the arranged block is written with errors ignored, and nil is both stored and returned |
| Encode.Encoder.EncodeChecked | bibtex/encode.go:39-51 | The corrected `Encode`: the block stops at the first failure, and that error is both stored and returned, so later calls return it without writing |
| Encoding.Encoder.constructor | encoding/encoding.go:17-20 | `NewEncoder` keeps the given writer, starts with a nil error and writes nothing |
| Encoding.Encoder.Encode | encoding/encoding.go:23-30 | Returns the stored error (nil when none), changes nothing and writes nothing |
| Scenarios.BookFields | bibtex/entry_test.go:11-17 | The book record's present fields are exactly author, title, year, with their values |
| Scenarios.BookEncodeBibTeX | bibtex/entry_test.go:10-29 | `EncodeBibTeX` on the book entry writes `@book{devOpsTroubleshooting`, the author, title and year lines and the closing brace, in five writes, and returns nil |
| Scenarios.BookArranged | bibtex/encode_test.go:72-93 | The book entry's gathered fields, arranged by name, are author, title, year |
| Scenarios.BookEncode | bibtex/encode_test.go:72-93 | `Encode` of the book entry, with no failing write, writes exactly the book block of the `EncodeBibTeX` test |
| Scenarios.BookWithIsbn | bibtex/fields_test.go:10-25 | `writeFieldsFromEntry` on the book record with `isbn` writes the author, title and year lines, then the isbn line, and returns nil |
| Scenarios.AllFieldsEncodeBibTeX | bibtex/entry_test.go:35-98 | With all 22 fields set, the block holds every field in table order, in 24 writes |

## Left out

- Type detection in `Encoder.Encode`, with its error "bibtex encoding not available for type …" (bibtex/encode_test.go:119-133). The `Encode` in `bibtex/encode.go` takes an `Entry` and has no such branch.
- The bodies of `orderEntityByName`, `appendFieldsFromEntry` and `Encoder.EncodeBibTeX` are not part of this model (bibtex/encode_test.go:28-70 calls the last). `Encode.Encoder.Encode` receives the arranged fields as a permutation of the gathered ones. The scenario lemmas additionally require that list to be sorted by name.
- Encode.Encoder.Encode: states only that its written block is some permutation of the gathered fields, because `orderEntityByName` is not part of this model.
- Partial writes and byte counts of `io.Writer`: every write is all or nothing, and the count result of `Fprintf` is dropped as in the code.
- The concrete iteration order of Go maps: it is an input, and only properties that hold for every order are stated.
- Values are written verbatim. The code escapes nothing, and neither does the model.
- The 22 field blocks are modelled as one loop over a field table, not as 22 separate statements.
- Scenarios.BookEncodeBibTeX: the expected text is built from `Header`, `FieldText` and `Closing` with the test's names and values, not written out as one string literal.
- Error values are `Message(text)` for `errors.New(text)` and `WriteFailure(i)` for write `i`. Error identity (`err != originalErr`) is equality of these values.
- `cmd/bibtexer` (a reflection-based JSON encoder, a code generator and a command line) and `playground/play_bibtex.go` (a demo that prints): these are tooling and I/O, not the encoder.
- `EncoderOptions` (bibtex/encode.go:16-18) is declared but never used.

## Findings

| source | as written | input that shows it | evidently intended | confidence | as-written member | corrected member |
|---|---|---|---|---|---|---|
| bibtex/entry.go:34 | The header write's error goes into `err` untested. The first present field's write then overwrites it. | An entry with type, key and one field, on a writer whose first write fails and later writes succeed. The writer gets `,\n  author = {..}\n}\n` with no header, and nil is returned. | Stop after a failed header write and return its error, as every field write does | not executed; high | EntryWriter.HeaderErrorLost | EntryWriter.EncodeBibTeXChecked |
| bibtex/encode.go:29-36 | `writeEntry` never assigns its named result `err`, whatever the writes return. `Encode` therefore stores nil in the sticky `enc.err` after a failed write. | Any block on a writer whose header write fails. Nothing is stored, and later calls go on writing. | Return the first write error, so the sticky error stops later `Encode` calls | not executed; medium | Encode.WriteEntryFailureLost | Encode.WriteEntryChecked |
