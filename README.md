# PubMed AI cardiology digest: verified model of record building and digest rendering

The scraper asks PubMed's E-utilities for recent AI-related cardiology
articles. It turns the efetch XML answer into one record per article and
renders those records as a plain-text weekly digest that it then e-mails.
This project models the two deterministic steps of that pipeline and proves
their properties:

- **Record building** (`parse_article_details`, module `Articles`). Each
  PubmedArticle element, in document order, becomes a record of four values:
  title, abstract, publication year and journal title. Each value is the text
  of the first matching sub-element, or a fixed default when none matches:
  `"No Title"`, `"No Abstract"`, `"Unknown Date"`, `"Unknown Journal"`. The
  XML parser is not modelled. Its result is a `Body`: either `Malformed`
  (the parser raises) or the list of article elements. Each element is
  reduced to what its four `find` calls return (`Match`): `Absent`, or
  `Found(text)`. That text is `None` when the element has no leading
  character data, as Python's `.text` is. Such a `None` is kept in the
  record, as the source keeps it.
- **Digest rendering** (`format_results`, module `Digest`). The digest
  starts from the header `"Weekly AI in Cardiology Research Digest\n\n"`.
  Each record, in input order, appends `Title:`, `Journal:`, `Published:`
  and `Abstract:` lines and a line of 80 dashes. The abstract is cut to its
  first 500 characters and always followed by `...`, even when nothing was
  cut and even for the default `"No Abstract"`. An f-string shows a `None`
  title, journal or date as `None`. Slicing a `None` abstract raises a
  TypeError, which is the `Failure(AbstractNotText)` of the model.
- **Line structure** (module `TextLines`). Splitting the text of
  newline-free lines, each followed by a newline, at its newlines gives the
  lines back. This lets the digest be read back line by line and its
  separator lines counted.

`FormatResults` and `ParseArticleDetails` are written as loops that grow an
accumulator, as the source does. Each is proved equal to a specification
function (`Digest`, `ExtractArticle`), and the lemmas state the properties
of those functions.

The block written by pubmed_ai_scraper.py:80-84 has these properties, and
the model keeps them:
- A record has no link field, and its block shows none.
- A block has four labelled lines (title, journal, published, abstract)
  followed by the separator line.
- `...` is appended to every abstract snippet; no abstract is rendered
  differently.

Python slices strings by code point. Dafny's `char` is a Unicode scalar
value, so "the first 500 characters" means the same in both.

## Model

| member | source | states |
|---|---|---|
| `Articles.TextOr` | pubmed_ai_scraper.py:64-67 | The conditional expression of each field: the text of a found sub-element, `None` included, and the given default when the sub-element is absent. |
| `Articles.ExtractArticle` | pubmed_ai_scraper.py:64-72 | A missing title, abstract, year or journal sub-element yields "No Title", "No Abstract", "Unknown Date" or "Unknown Journal". A present one yields its `.text` unchanged, `None` included. |
| `Articles.ExtractFieldsIndependent` | pubmed_ai_scraper.py:64-72 | Replacing one sub-element of an article changes only the matching field of the record. The other three fields are unaffected. |
| `Articles.ParseArticleDetails` | pubmed_ai_scraper.py:60-74 | A malformed body fails exactly when the XML parser would raise. Otherwise there is exactly one record per article element, in document order, and record `i` is the extraction of element `i`. |
| `Articles.FetchArticleDetails` | pubmed_ai_scraper.py:46-57 | A status other than 200 gives the empty list. Status 200 gives the parse of the body: a failure exactly when the body is malformed, otherwise one record per element, in order. |
| `Digest.Repeat` | pubmed_ai_scraper.py:84 | `c * n` has length `n`, and every character of it is `c`. |
| `Digest.Rule` | pubmed_ai_scraper.py:84 | The separator has 80 characters, all of them dashes, and holds no newline. |
| `Digest.Snippet` | pubmed_ai_scraper.py:83 | `abstract[:500]` is a prefix of the abstract with at most 500 characters. It is the whole abstract when that has at most 500 characters, and exactly 500 characters otherwise. |
| `Digest.Show` | pubmed_ai_scraper.py:80-82 | A field that is `None` renders as `None`; a string field renders as itself. |
| `Digest.AbstractLineShape` | pubmed_ai_scraper.py:83 | The abstract line is the label, at most 500 characters of the abstract and `...`. The ellipsis is there whether or not anything was cut. A short abstract appears whole; a longer one is cut to its first 500 characters. |
| `Digest.BlockLines` | pubmed_ai_scraper.py:80-84 | One record renders to five lines, the last of which is the 80-dash separator. |
| `Digest.Block` | pubmed_ai_scraper.py:80-84 | One record's block exists exactly when its abstract is text; a `None` abstract raises when sliced. |
| `Digest.Digest` | pubmed_ai_scraper.py:78-85 | The digest fails with the TypeError exactly when some abstract is `None`. A successful digest begins with the header, and an empty record list renders to the header alone. |
| `Digest.FormatResults` | pubmed_ai_scraper.py:77-85 | The loop's result is the digest of its input: the header, then each record's block in order, or the TypeError failure when some abstract is `None`. The output is therefore a function of the record list alone. |
| `Digest.AppendBlock` | pubmed_ai_scraper.py:80-84 | The five `+=` of one iteration take the digest of records `0..k-1` to the digest of records `0..k`. |
| `Digest.Blocks` | pubmed_ai_scraper.py:79-84 | Rendering the records succeeds if and only if no record's abstract is `None`. |
| `Digest.BlocksAppend` | pubmed_ai_scraper.py:79-84 | The blocks of `a + b` are the blocks of `a` followed by the blocks of `b`. It fails exactly when either part fails. |
| `Digest.DigestAppend` | pubmed_ai_scraper.py:78-85 | The digest of `a + b` succeeds exactly when the digests of `a` and `b` do. It is then the header, the blocks of `a` and the blocks of `b`, in that order. |
| `Digest.BlocksAreLines` | pubmed_ai_scraper.py:79-84 | The blocks of the records are exactly their lines, five per record, each ended by a newline. |
| `Digest.DigestIsLines` | pubmed_ai_scraper.py:78-84 | A digest whose abstracts are all text is its header lines followed by five lines per record, each ended by a newline. |
| `Digest.RecordLinesAt` | pubmed_ai_scraper.py:79-84 | Lines `5i` to `5i+4` of the record lines are the title, journal, published, abstract and separator lines of record `i`. |
| `Digest.DigestLinesAt` | pubmed_ai_scraper.py:78-84 | The digest's first two lines are the title and an empty line. Record `i` occupies lines `2+5i` to `6+5i`, so order is preserved and nothing is filtered. |
| `Digest.BlockSeparatorCount` | pubmed_ai_scraper.py:80-84 | Exactly one line of a block, the last, is the separator, whatever the fields hold. |
| `Digest.BlockLinesAreLines` | pubmed_ai_scraper.py:80-84 | No line of the block of a record with single-line fields holds a newline. |
| `Digest.LabelledLinesNotRule` | pubmed_ai_scraper.py:80-84 | None of the four labelled lines is the separator, whatever the fields hold. |
| `Digest.LabelledLinesAreLines` | pubmed_ai_scraper.py:80-83 | Each labelled line of a record with single-line fields holds no newline. |
| `Digest.HeaderLinesShape` | pubmed_ai_scraper.py:78 | Both header lines hold no newline, and neither is the separator. |
| `Digest.RecordLinesAreLines` | pubmed_ai_scraper.py:79-84 | No record line of records with single-line fields holds a newline. |
| `Digest.RecordSeparatorCount` | pubmed_ai_scraper.py:79-84 | The record lines hold exactly one separator per record, whatever the fields hold. |
| `Digest.DigestLinesAreLines` | pubmed_ai_scraper.py:78-84 | No digest line of records with single-line fields holds a newline. |
| `Digest.DigestSeparatorCount` | pubmed_ai_scraper.py:78-84 | Exactly one digest line per record is the separator, whatever the fields hold. |
| `Digest.DigestLineStructure` | pubmed_ai_scraper.py:78-84 | The digest of records with single-line fields is split at its newlines into `2 + 5n` lines: the header lines, then five lines per record. Exactly `n` of those lines are separators. |
| `Digest.MissingAbstractLine` | pubmed_ai_scraper.py:65-83 | An article without an AbstractText element renders the line `Abstract: No Abstract...`. |

## Left out

- HTTP requests (`requests.get`) in `fetch_pubmed_articles` and `fetch_article_details`: network I/O. Only the status branch of `fetch_article_details` is modelled, with the status and the parsed body as parameters.
- `fetch_pubmed_articles` and the JSON indexing of its response: a foreign JSON library over a network answer.
- The XML parser (`ET.fromstring`, `findall`, `find`): a foreign library. Its result is given as a `Body`, and each element is reduced to its four `Match` values.
- The query string and its date window (`QUERY`, `ONE_MONTH_AGO`): they depend on the wall clock and library date formatting.
- `send_email` and SendGrid: an external service. `load_dotenv`, environment reads and diagnostic `print` calls: configuration and output.
- The `__main__` driver: I/O sequencing only, fetching details when the id list is non-empty.
- `Digest.DigestLineStructure`: stated for records whose fields hold no newline. A field that holds one still renders as the code says (`Digest`, `FormatResults`), but then the text no longer splits into five lines per record.
