/** What `PaperList` shows for each paper: the title (linked or plain), the author
    line, the venue line and the optional note and award, in sorted order. */
module Display {
  import opened Papers
  import opened JsNumbers
  import opened LinkResolver
  import opened YearOrder
  import opened YearSort

  /** `xs.join(sep)`: the strings with `sep` between neighbours; "" for no strings. */
  function Join(xs: seq<string>, sep: string): string
  {
    if xs == [] then ""
    else if |xs| == 1 then xs[0]
    else xs[0] + sep + Join(xs[1..], sep)
  }

  /** `s.split(", ")`: the pieces between the occurrences of ", ", left to right. */
  function SplitAuthors(s: string): (parts: seq<string>)
    ensures |parts| >= 1
    decreases |s|
  {
    if s == [] then [""]
    else if |s| >= 2 && s[0] == ',' && s[1] == ' ' then [""] + SplitAuthors(s[2..])
    else
      var rest := SplitAuthors(s[1..]);
      [[s[0]] + rest[0]] + rest[1..]
  }

  /** Text without a comma joins onto the first piece of what follows it. */
  lemma {:induction false} SplitAuthorsPrefix(x: string, t: string)
    requires forall i :: 0 <= i < |x| ==> x[i] != ','
    ensures SplitAuthors(x + t) == [x + SplitAuthors(t)[0]] + SplitAuthors(t)[1..]
  {
    if x != [] {
      assert (x + t)[1..] == x[1..] + t;
      SplitAuthorsPrefix(x[1..], t);
      assert [x[0]] + (x[1..] + SplitAuthors(t)[0]) == x + SplitAuthors(t)[0];
    } else {
      var parts := SplitAuthors(t);
      assert x + t == t && x + parts[0] == parts[0];
      assert parts == [parts[0]] + parts[1..];
    }
  }

  /** The author line loses nothing: when no name contains a comma, splitting the
      line at ", " gives back the authors, in their original order. */
  lemma {:induction false} SplitJoinAuthors(authors: seq<string>)
    requires |authors| >= 1
    requires forall i, j :: 0 <= i < |authors| && 0 <= j < |authors[i]| ==> authors[i][j] != ','
    ensures SplitAuthors(Join(authors, ", ")) == authors
  {
    var x := authors[0];
    if |authors| == 1 {
      SplitAuthorsPrefix(x, "");
      assert x + "" == x;
    } else {
      var rest := authors[1..];
      SplitJoinAuthors(rest);
      var line := Join(rest, ", ");
      assert x + ", " + line == x + (", " + line);
      SplitAuthorsPrefix(x, ", " + line);
      assert (", " + line)[2..] == line;
      assert SplitAuthors(", " + line) == [""] + rest;
      assert x + "" == x;
      assert authors == [x] + rest;
    }
  }

  /** The text `${year}` shows for the year field. */
  function YearText(y: Year): string
  {
    match y
    case Num(n) => NumberToString(n)
    case Str(s) => s
  }

  /** `{venue}{year ? `, ${year}` : ""}`. */
  function VenueLine(p: Paper): string
  {
    if YearTruthy(p.year) then p.venue + ", " + YearText(p.year) else p.venue
  }

  /** The venue line is the venue alone when the year is falsy (0 or ""). Otherwise it
      is the venue, ", " and the year's text, and that text sorts like the year itself:
      reading it back through the year key gives the paper's own key. */
  lemma VenueLineShowsYear(p: Paper)
    ensures !YearTruthy(p.year) ==> VenueLine(p) == p.venue
    ensures YearTruthy(p.year) ==>
              |VenueLine(p)| == |p.venue| + 2 + |YearText(p.year)| &&
              VenueLine(p)[..|p.venue|] == p.venue &&
              VenueLine(p)[|p.venue|..|p.venue| + 2] == ", " &&
              VenueLine(p)[|p.venue| + 2..] == YearText(p.year)
    ensures YearTruthy(p.year) ==> YearKey(Str(YearText(p.year))) == YearKey(p.year)
  {
    if p.year.Num? {
      KeyOfYearText(p.year.n);
    }
  }

  /** One rendered list item. `link` is the `href` the title links to, None for a plain
      title; `note` and `award` are None when not shown. */
  datatype Entry = Entry(
    title: string,
    link: Option<string>,
    authorLine: string,
    venueLine: string,
    note: Option<string>,
    award: Option<string>)

  /** The list item of one paper. It shows the paper's own title, the author line and
      the venue line (see `SplitJoinAuthors` and `VenueLineShowsYear` for what these
      carry). The title is linked exactly when `paperHref` resolves a link, and then to
      that link: as the resolver never yields an empty string, the truthiness test
      `href ? ... : ...` never drops a resolved link. The note and the award are shown
      exactly when truthy, and then unchanged. */
  function RenderEntry(p: Paper): (e: Entry)
    ensures e.title == p.title
    ensures e.authorLine == Join(p.authors, ", ")
    ensures e.venueLine == VenueLine(p)
    ensures e.link == PaperHref(p.links)
    ensures e.link.Some? <==> p.links.Some? && exists i :: 0 <= i < 3 && Truthy(Candidates(p.links.value)[i])
    ensures e.note.Some? <==> Truthy(p.note)
    ensures e.note.Some? ==> e.note == p.note
    ensures e.award.Some? <==> Truthy(p.award)
    ensures e.award.Some? ==> e.award == p.award
  {
    PaperHrefPriority(p.links);
    var href := PaperHref(p.links);
    Entry(
      p.title,
      if Truthy(href) then href else None,
      Join(p.authors, ", "),
      VenueLine(p),
      if Truthy(p.note) then p.note else None,
      if Truthy(p.award) then p.award else None)
  }

  /** `PaperList`: copy and sort the papers by descending year key, then render each
      one. The items come in the sorted order: one per paper, none added or lost. */
  method PaperList(papers: array<Paper>) returns (entries: seq<Entry>)
    ensures |entries| == papers.Length
    ensures forall i :: 0 <= i < |entries| ==>
              entries[i] == RenderEntry(SortDesc(papers[..], Key)[i])
  {
    var sorted := SortedCopy(papers);
    var items := sorted[..];
    entries := seq(|items|, i requires 0 <= i < |items| => RenderEntry(items[i]));
  }
}
