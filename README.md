# Publication list of an academic homepage, in Dafny

The homepage (`my-homepage/app/page.tsx`) shows three lists of papers: working papers, journal papers and conference papers. Each list goes through the `PaperList` component, which does four things:

1. **Link resolution (`paperHref`).** A paper's optional `links` object holds three optional URLs. The title links to the first non-empty one in the order pdf, arxiv, doi. JavaScript truthiness decides what counts as set: an absent value and `""` are both unset.
2. **Year key.** A numeric year is its own key. A textual year such as `"2025+"` goes through the global `parseInt`, and a falsy result (NaN or 0) becomes the sentinel 9999, so undated papers sort first.
3. **Stable descending sort on a copy.** The list is spread into a fresh array and sorted in place with the comparator `yearB - yearA`. `Array.prototype.sort` is stable, so papers whose keys tie keep their input order.
4. **Display fields.** Each entry shows:
   - the title, linked exactly when a link resolved;
   - the authors joined with `", "`;
   - the venue, followed by `", "` and the year when the year is truthy;
   - the note and the award, when truthy.

The modules follow these pieces:

- `Papers` (`papers.dfy`): the paper record, the `Year` sum type (`Num` or `Str`), JavaScript truthiness of optional strings and of years, and the start-up data checks as a predicate.
- `LinkResolver` (`linkresolver.dfy`): `paperHref`, and the `||`-chain it is written as.
- `JsNumbers` (`jsnumbers.dfy`): the global `parseInt` without a radix, as section 19.2.5 of ECMA-262 (2023 edition) defines it. That covers leading white space, the sign, the `0x` prefix and the longest run of digits. The module also has the decimal text of an integer, which a template literal produces.
- `YearOrder` (`yearorder.dfy`): the year key and its sentinel.
- `YearSort` (`yearsort.dfy`):
  - `SortDesc`, a stable insertion sort written as a function, used as the specification;
  - proofs that `SortDesc` is a permutation, is non-increasing, is stable, and is the only such order;
  - `SortInPlace`, the in-place array method proved to compute `SortDesc`;
  - `SortedCopy`, which sorts a fresh copy and leaves its input untouched.
- `Display` (`display.dfy`): the author line and its inverse split, the venue line, one rendered entry, and `PaperList` itself.
- `Examples` (`examples.dfy`): the homepage's own three lists as concrete data, and worked examples over them and over small records.

## Model

| member | source | states |
|---|---|---|
| Papers.Truthy | my-homepage/app/page.tsx:157 | JavaScript truthiness of an optional string: absent and `""` are falsy. It has no contract of its own; `LinkResolver.PaperHrefPriority` and `Display.RenderEntry` state the tests built on it (page.tsx:157, 175, 185-186). |
| Papers.YearTruthy | my-homepage/app/page.tsx:184 | JavaScript truthiness of the year field: 0 and `""` are falsy. It has no contract of its own; `Display.VenueLineShowsYear` states what the venue line does in each case. |
| LinkResolver.FirstTruthy | my-homepage/app/page.tsx:157 | The `\|\|` chain over optional strings. It has no contract of its own; `LinkResolver.FirstTruthyIsFirst` states its behaviour. |
| LinkResolver.FirstTruthyIsFirst | my-homepage/app/page.tsx:157 | An `a \|\| b \|\| ... \|\| undefined` chain gives the candidate at the first truthy position. It is undefined exactly when no candidate is truthy. |
| LinkResolver.PaperHref | my-homepage/app/page.tsx:155-158 | A resolved link is never the empty string. |
| LinkResolver.PaperHrefIsChain | my-homepage/app/page.tsx:157 | With a `links` object, `paperHref` is the `\|\|`-chain over pdf, arxiv and doi, in that order. |
| LinkResolver.PaperHrefPriority | my-homepage/app/page.tsx:155-158 | No `links` gives undefined. A non-empty pdf wins whatever arxiv and doi are. Otherwise a non-empty arxiv wins, then a non-empty doi, then undefined. A link resolves iff some candidate is non-empty, and it is always one of the candidates. |
| JsNumbers.ParseInt | my-homepage/app/page.tsx:164-165 | The global `parseInt` without a radix. It has no contract of its own; `JsNumbers.ParseIntLeadingDecimal`, `JsNumbers.ParseIntNoLeadingDigit` and `JsNumbers.ParseIntNumberToString` state its behaviour. |
| JsNumbers.ParseUnsigned | my-homepage/app/page.tsx:164-165 | The part of `parseInt` after the sign: hex prefix, digit run, NaN for an empty run. It has no contract of its own; `JsNumbers.ParseUnsignedDecimal` and `JsNumbers.ParseIntLeadingDecimal` state its behaviour. |
| JsNumbers.NumberToString | my-homepage/app/page.tsx:184 | The decimal text `${n}` gives for an integer. It has no contract of its own; `JsNumbers.DecimalString` and `JsNumbers.ParseIntNumberToString` state its behaviour. |
| JsNumbers.TrimStart | my-homepage/app/page.tsx:164-165 | `parseInt` removes exactly the leading white-space and line-terminator characters: what remains is a suffix that does not start with white space. |
| JsNumbers.LeadingDigits | my-homepage/app/page.tsx:164-165 | The digits `parseInt` reads are the longest prefix made of digits of the radix. |
| JsNumbers.DigitValue | my-homepage/app/page.tsx:164-165 | A character's digit value is below 10 exactly for the decimal digits, and at most 36. |
| JsNumbers.DecimalString | my-homepage/app/page.tsx:184 | The decimal text of a number is non-empty, all digits, and has no leading zero. |
| JsNumbers.DecimalStringValue | my-homepage/app/page.tsx:184 | Reading the decimal text of a natural number back as digits gives that number. |
| JsNumbers.LeadingDigitsOfDigits | my-homepage/app/page.tsx:164-165 | The digit run of a digit string followed by a non-digit is exactly that digit string. |
| JsNumbers.NoHexPrefix | my-homepage/app/page.tsx:164-165 | Decimal digits followed by a non-digit begin with `0x` only when the digits are the single `0`. |
| JsNumbers.ParseIntLeadingDecimal | my-homepage/app/page.tsx:164-165 | `parseInt` of a decimal number followed by a non-digit (or by nothing) is that number, except for `0x`. So `parseInt("2025+")` is 2025. |
| JsNumbers.ParseIntNoLeadingDigit | my-homepage/app/page.tsx:164-165 | Text that starts with none of white space, a sign or a digit parses to NaN, e.g. `"TBD"`. |
| JsNumbers.ParseUnsignedDecimal | my-homepage/app/page.tsx:164-165 | Once the sign is read, the decimal text of a natural number is read back as that number, negated after a minus sign. |
| JsNumbers.ParseIntNumberToString | my-homepage/app/page.tsx:164-165 | Round trip: `parseInt` of the decimal text of any integer gives back that integer. |
| YearOrder.YearKey | my-homepage/app/page.tsx:164-165 | A numeric year's key is the number. A textual year's key is never 0. When it is not the sentinel 9999, it is what `parseInt` returns for the text. |
| YearOrder.KeyOfLeadingDecimal | my-homepage/app/page.tsx:164-165 | A textual year that starts with a decimal number has that number as its key, or 9999 when the number is 0. |
| YearOrder.KeyOfNoLeadingDigit | my-homepage/app/page.tsx:164-165 | A textual year without a leading number has key 9999. |
| YearOrder.KeyOfYearText | my-homepage/app/page.tsx:164-165 | A non-zero numeric year and its decimal text have the same key. The text of 0 gets 9999. |
| YearSort.Key | my-homepage/app/page.tsx:164-165 | The sort key of a paper, the year key of its year. It has no contract of its own; `YearOrder.YearKey` carries it. |
| YearSort.CompareBy | my-homepage/app/page.tsx:166 | The comparator `yearB - yearA`. It has no contract of its own; `YearSort.CompareIsConsistent` states its consistency, and `YearSort.SortDescNonIncreasing` the order it produces. |
| YearSort.Insert | my-homepage/app/page.tsx:163-167 | One insertion step of the stable sort: the result is one longer than the list. `YearSort.InsertMultiset`, `YearSort.InsertTies`, `YearSort.InsertNonIncreasing` and `YearSort.InsertSplit` state where the paper goes. |
| YearSort.SortDesc | my-homepage/app/page.tsx:163-167 | The order `.sort` produces, as long as its input. `YearSort.SortDescCorrect` and `YearSort.SortDescUnique` state that it is the unique stable descending order. |
| YearSort.CompareIsConsistent | my-homepage/app/page.tsx:163-167 | The comparator `keyB - keyA` is zero on equal papers and antisymmetric, and its before and tie relations are transitive. This is what ECMA-262 asks of a consistent comparator. |
| YearSort.InsertMultiset | my-homepage/app/page.tsx:163-167 | One insertion step adds exactly the inserted paper. |
| YearSort.SortDescMultiset | my-homepage/app/page.tsx:163-167 | The sorted order is a permutation of the input. |
| YearSort.InsertTies | my-homepage/app/page.tsx:163-167 | An insertion places the new paper behind the papers of its own key, and leaves every other key's group as it was. |
| YearSort.InsertAbove | my-homepage/app/page.tsx:163-167 | A lower bound on the keys of the list and the new paper holds for every paper after the insertion. |
| YearSort.InsertNonIncreasing | my-homepage/app/page.tsx:166 | Inserting into a list whose keys never increase keeps that property. |
| YearSort.SortDescNonIncreasing | my-homepage/app/page.tsx:166 | Keys never increase from front to back in the sorted order. |
| YearSort.SortDescTies | my-homepage/app/page.tsx:163-167 | For every key, the papers with that key appear in the sorted order as in the input (stability). |
| YearSort.SortDescCorrect | my-homepage/app/page.tsx:163-167 | The sorted order is a permutation of the input, is non-increasing by key, and is stable. |
| YearSort.TiesNonEmpty | my-homepage/app/page.tsx:163-167 | A key's group is non-empty iff some paper has that key. |
| YearSort.SameFirst | my-homepage/app/page.tsx:163-167 | Two non-increasing lists with the same key groups start with the same paper. |
| YearSort.SortedWithSameTiesEqual | my-homepage/app/page.tsx:163-167 | Two non-increasing lists with the same key groups are equal. |
| YearSort.SortDescUnique | my-homepage/app/page.tsx:163-167 | Every non-increasing stable rearrangement of the input equals `SortDesc`. So any stable sort the engine uses gives this order. |
| YearSort.SortDescIdempotent | my-homepage/app/page.tsx:163-167 | A list already in descending key order is left as it is, and sorting twice equals sorting once. |
| YearSort.SortInPlace | my-homepage/app/page.tsx:163-167 | Sorting the array in place leaves it holding `SortDesc` of its old contents. Its contents are a permutation of the old ones, non-increasing by key and stable. |
| YearSort.InsertAt | my-homepage/app/page.tsx:163-167 | One pass moves `a[i]` left into the ordered prefix, which then equals `Insert` of the old prefix and that paper. Nothing after `i` changes. |
| YearSort.InsertSplit | my-homepage/app/page.tsx:163-167 | An insertion puts the paper directly behind the last paper whose key is not below its own. |
| YearSort.ShiftedInsert | my-homepage/app/page.tsx:163-167 | A list that holds a prefix, then the inserted paper, then the rest shifted one place right is that concatenation. |
| YearSort.SortedCopy | my-homepage/app/page.tsx:163-167 | `[...papers].sort(...)` returns a fresh array and leaves the input unchanged. The result is `SortDesc` of the input by year key: a permutation, non-increasing and stable. |
| Display.Join | my-homepage/app/page.tsx:183 | `authors.join(", ")`. It has no contract of its own; `Display.SplitJoinAuthors` states that the authors can be read back from it, and `Examples.AuthorLineExample` gives a case. |
| Display.YearText | my-homepage/app/page.tsx:184 | The text `${p.year}` gives. It has no contract of its own; `Display.VenueLineShowsYear` states that this text has the year's own key. |
| Display.VenueLine | my-homepage/app/page.tsx:184 | The venue template. It has no contract of its own; `Display.VenueLineShowsYear` states its two cases. |
| Display.SplitAuthorsPrefix | my-homepage/app/page.tsx:183 | Text without a comma joins onto the first piece when splitting at `", "`. |
| Display.SplitJoinAuthors | my-homepage/app/page.tsx:183 | Splitting the author line at `", "` gives back the authors in their order, when no name contains a comma. |
| Display.VenueLineShowsYear | my-homepage/app/page.tsx:184 | A falsy year (0 or `""`) gives the venue alone. Otherwise the line is the venue, `", "`, then the year's text, and that text has the year's own sort key. |
| Display.RenderEntry | my-homepage/app/page.tsx:171-190 | The entry shows the paper's own title, the authors joined with `", "` and the venue line. The title is linked exactly when some link candidate is non-empty, and then to `paperHref`'s link. The note and the award are shown exactly when truthy, and then unchanged. |
| Display.PaperList | my-homepage/app/page.tsx:160-196 | One entry per paper. Entry `i` is the rendering of the `i`-th paper of the stable descending year order. |
| Examples.KeyOf2025Plus | my-homepage/app/page.tsx:35 | The label `"2025+"` has key 2025. |
| Examples.SentinelExamples | my-homepage/app/page.tsx:164-165 | `"TBD"` and `"0"` have key 9999; the number 0 has key 0. |
| Examples.PaperHrefExamples | my-homepage/app/page.tsx:155-158 | Concrete link choices, including an empty pdf and the empty `links: {}`. |
| Examples.AuthorLineExample | my-homepage/app/page.tsx:183 | `["A", "B", "C"]` gives the author line `"A, B, C"`. |
| Examples.TextOf2024 | my-homepage/app/page.tsx:184 | The number 2024 is shown as `"2024"`. |
| Examples.VenueLineOfText | my-homepage/app/page.tsx:33-40 | The first working paper's venue line is `"Working Paper, 2025+"`. |
| Examples.VenueLineOfNumber | my-homepage/app/page.tsx:66-73 | The DISH journal paper's venue line is `"IEEE Transactions on Signal Processing, 2024"`. |
| Examples.TitleLinkExamples | my-homepage/app/page.tsx:33-58 | A paper with `links: {}` has a plain title. A paper with only an arxiv link links to it. |
| Examples.SortThree | my-homepage/app/page.tsx:163-167 | Three papers with low, high and middle keys come out high, middle, low. |
| Examples.SortExample | my-homepage/app/page.tsx:163-167 | `"2025+"` sorts before 2024, which sorts before 2023. |
| Examples.KeepTwo | my-homepage/app/page.tsx:163-167 | Two papers whose keys do not increase keep their order, ties included. |
| Examples.KeepFour | my-homepage/app/page.tsx:163-167 | Four papers whose keys never increase keep their order. |
| Examples.WorkingPaperKeys | my-homepage/app/page.tsx:33-48 | Both working papers have key 2025. |
| Examples.JournalPaperKeys | my-homepage/app/page.tsx:50-81 | The journal papers have keys 2025, 2025, 2024 and 2023. |
| Examples.ConferencePaperKeys | my-homepage/app/page.tsx:83-113 | The conference papers have keys 2025, 2024, 2024 and 2022. |
| Examples.WorkingPapersKeepOrder | my-homepage/app/page.tsx:33-48 | The two tied `"2025+"` working papers keep their order. |
| Examples.JournalPapersKeepOrder | my-homepage/app/page.tsx:50-81 | The journal list is already in descending order, and sorting keeps it as written. |
| Examples.ConferencePapersKeepOrder | my-homepage/app/page.tsx:83-113 | The conference list is already in descending order, and sorting keeps it as written. |
| Examples.DatasetsAreSane | my-homepage/app/page.tsx:138-140 | Every journal and conference paper has a non-empty title and at least one author, as the start-up check asserts. The lemma is stronger than that check: it also covers the working papers, which the check never looks at. |

## Left out

- Rendering is left out: React, JSX, CSS classes, the `Button` component and the icons. An entry is modelled by the text and link it shows.
- `useTheme` is left out. It is React state with a DOM side effect.
- Most of `DevChecks` is left out. Only the title and author checks are kept, as `Papers.SaneData` with `Examples.DatasetsAreSane`. The profile, email, link and award assertions are console logging, not logic.
- The footer's `new Date()` and `toLocaleDateString` depend on the clock and the locale, and are left out.
- `JsNumbers.ParseInt`: numbers are unbounded integers. Past 2^53, `parseInt` rounds to a double; the model does not. The model also merges -0 and +0, which are both falsy.
- `Papers.Year`: a numeric year is an integer. Fractional years, NaN and Infinity are not modelled.
- `JsNumbers.NumberToString` writes every integer in decimal. JavaScript switches to exponent form at 1e21; the model does not.
- `YearSort.SortInPlace` is an insertion sort, while engines use other stable algorithms. `YearSort.SortDescUnique` shows that every stable sort with this comparator gives the same order, so the choice does not change the result.
- Strings are sequences of Unicode scalar values, while JavaScript strings are sequences of UTF-16 code units. So a lone surrogate cannot be represented, and a character outside the Basic Multilingual Plane has length 1 here but 2 in JavaScript. No modelled operation depends on this: every white-space character `parseInt` trims is in the Basic Multilingual Plane, and the data checks only test `length > 0`.
