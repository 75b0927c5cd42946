/** The records the ingestion route reads and writes. */
module Feed {
  import opened Wrappers
  import opened DisplayDate

  /** A parsed `Date`: its instant in milliseconds since the epoch, which the
      age filter compares, and the local calendar day `formatDate` prints. */
  datatype Stamp = Stamp(instant: int, local: CalendarDate)

  /** One parsed RSS item (`ExtendedRSSItem`). `pubDate` is already parsed;
      `company` and `creator` are the optional `company` and `dc:creator`
      extension fields. */
  datatype Item = Item(
    title: Option<string>,
    link: Option<string>,
    content: Option<string>,
    pubDate: Option<Stamp>,
    guid: string,
    company: Option<string>,
    creator: Option<string>)

  /** One row of the `jobs` table as the route inserts it. */
  datatype Record = Record(
    title: Option<string>,
    url: Option<string>,
    description: string,
    pubDate: Stamp,
    guid: string,
    company: string)

  /** The value of an optional text field under JavaScript's `x || ''`. */
  function OrEmpty(o: Option<string>): (r: string)
    ensures o.None? ==> r == ""
    ensures o.Some? ==> r == o.value
  {
    o.GetOr("")
  }

  /** JavaScript truthiness of an optional string: present and not empty. */
  predicate IsTruthy(o: Option<string>) {
    o.Some? && o.value != ""
  }
}
