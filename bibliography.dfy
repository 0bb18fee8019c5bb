/** The common bibliographic record: twenty single-valued fields and two ordered lists of names. */
module Bibliography {

  datatype Entry = Entry(
    address: string,
    author: seq<string>,
    bookTitle: string,
    chapter: string,
    edition: string,
    editor: seq<string>,
    howPublished: string,
    institution: string,
    journal: string,
    key: string,
    month: string,
    note: string,
    number: string,
    organization: string,
    pages: string,
    publisher: string,
    school: string,
    series: string,
    title: string,
    /** The BibTeX `type` field (a further categorisation of the publication). */
    publicationType: string,
    volume: string,
    year: string)

  /** Go's zero value of the record: every string empty, both lists nil. */
  function Zero(): (z: Entry)
    ensures z.author == [] && z.editor == []
    ensures && |z.address| == 0 && |z.bookTitle| == 0 && |z.chapter| == 0 && |z.edition| == 0
            && |z.howPublished| == 0 && |z.institution| == 0 && |z.journal| == 0 && |z.key| == 0
            && |z.month| == 0 && |z.note| == 0 && |z.number| == 0 && |z.organization| == 0
            && |z.pages| == 0 && |z.publisher| == 0 && |z.school| == 0 && |z.series| == 0
            && |z.title| == 0 && |z.publicationType| == 0 && |z.volume| == 0 && |z.year| == 0
  {
    Entry("", [], "", "", "", [], "", "", "", "", "", "", "", "", "", "", "", "", "", "", "", "")
  }
}
