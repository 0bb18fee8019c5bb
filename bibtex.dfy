/** The record the BibTeX encoders take. */
module BibTeX {
  import Bibliography

  /**
   * One BibTeX entry: its citation key, its entry type (`book`, `article`, ...),
   * the common record, and extra `name = {value}` fields outside the fixed schema.
   * A map, so each extra field name occurs once.
   */
  datatype Entry = Entry(
    citationKey: string,
    entryType: string,
    common: Bibliography.Entry,
    additionalFields: map<string, string>)
}
