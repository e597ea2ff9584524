/** The publication records the homepage lists, and the JavaScript truthiness
    rules that the rendering code applies to their optional fields. */
module Papers {

  /** An optional value: `undefined` (None) or a present value. */
  datatype Option<T> = None | Some(value: T)

  /** JavaScript truthiness of an optional string: `undefined` and `""` are falsy,
      every other string is truthy. */
  predicate Truthy(o: Option<string>)
  {
    o.Some? && o.value != ""
  }

  /** A paper's `year` field: either a number or a free-text label such as "2025+". */
  datatype Year = Num(n: int) | Str(s: string)

  /** JavaScript truthiness of the year field: the number 0 and the empty string are falsy. */
  predicate YearTruthy(y: Year)
  {
    match y
    case Num(n) => n != 0
    case Str(s) => s != ""
  }

  /** The optional `links` object of a paper: three optional URL strings. */
  datatype Links = Links(pdf: Option<string>, arxiv: Option<string>, doi: Option<string>)

  /** One literal publication record. */
  datatype Paper = Paper(
    year: Year,
    title: string,
    authors: seq<string>,
    venue: string,
    links: Option<Links>,
    note: Option<string>,
    award: Option<string>)

  /** The development-time data checks: a paper needs a non-empty title and at least one author. */
  predicate SanePaper(p: Paper)
  {
    |p.title| > 0 && |p.authors| > 0
  }

  predicate SaneData(papers: seq<Paper>)
  {
    forall i :: 0 <= i < |papers| ==> SanePaper(papers[i])
  }
}
