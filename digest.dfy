/**
 * The rendering step of the scraper: `format_results` starts from a fixed
 * header and, for each record in input order, appends four labelled lines
 * and a line of 80 dashes. The abstract is cut to its first 500 characters
 * and always followed by "...".
 *
 * Python's f-strings show `None` as "None"; slicing a `None` abstract raises
 * a TypeError, which is the `Failure` of the rendering here.
 */
module Digest {
  import opened Wrappers
  import opened Articles
  import opened TextLines

  /** The first line of every digest. */
  const DigestTitle := "Weekly AI in Cardiology Research Digest"
  /** The text every digest starts from: the title line and an empty line. */
  const Header := DigestTitle + "\n\n"
  /** The number of abstract characters kept in a block. */
  const SnippetLimit := 500
  /** The width of the separator line. */
  const RuleWidth := 80
  /** The label that opens the abstract line. */
  const AbstractLabel := "Abstract: "

  /** The TypeError raised by slicing an abstract that is `None`. */
  datatype FormatError = AbstractNotText

  /** `c` repeated `n` times, as Python's `c * n`. */
  function Repeat(c: char, n: nat): (s: string)
    ensures |s| == n
    ensures forall i | 0 <= i < n :: s[i] == c
  {
    if n == 0 then "" else Repeat(c, n - 1) + [c]
  }

  /** The separator line, without its newline. */
  function Rule(): (s: string)
    ensures |s| == RuleWidth && IsLine(s)
    ensures forall i | 0 <= i < |s| :: s[i] == '-'
  {
    Repeat('-', RuleWidth)
  }

  /** `text[:500]`: the longest prefix of the abstract that has at most 500
      characters. */
  function Snippet(text: string): (s: string)
    ensures |s| <= SnippetLimit
    ensures s <= text
    ensures |text| <= SnippetLimit ==> s == text
    ensures |text| > SnippetLimit ==> |s| == SnippetLimit
  {
    if |text| <= SnippetLimit then text else text[..SnippetLimit]
  }

  /** How an f-string shows a value that is a string or `None`. */
  function Show(v: Option<string>): (r: string)
    ensures v.None? ==> r == "None"
    ensures v.Some? ==> r == v.value
  {
    match v
    case Some(s) => s
    case None => "None"
  }

  /** The labelled lines of a block, without their newlines. */
  function TitleLine(a: Article): string
  {
    "Title: " + Show(a.title)
  }

  function JournalLine(a: Article): string
  {
    "Journal: " + Show(a.journal)
  }

  function PublishedLine(a: Article): string
  {
    "Published: " + Show(a.pubDate)
  }

  function AbstractLine(text: string): string
  {
    AbstractLabel + Snippet(text) + "..."
  }

  /** The abstract line always ends with the ellipsis, whether or not the
      abstract was cut, and between label and ellipsis holds at most 500
      characters: all of the abstract when it is no longer than that, its
      first 500 characters otherwise. */
  lemma AbstractLineShape(text: string)
    ensures |AbstractLine(text)| <= |AbstractLabel| + SnippetLimit + 3
    ensures AbstractLine(text)[..|AbstractLabel|] == AbstractLabel
    ensures AbstractLine(text)[|AbstractLine(text)| - 3..] == "..."
    ensures |text| <= SnippetLimit ==> AbstractLine(text) == AbstractLabel + text + "..."
    ensures |text| > SnippetLimit ==> AbstractLine(text) == AbstractLabel + text[..SnippetLimit] + "..."
  {
  }

  /** The five lines of one record's block, without their newlines. */
  function BlockLines(a: Article): (ls: seq<string>)
    requires a.abstractText.Some?
    ensures |ls| == 5 && ls[4] == Rule()
  {
    [TitleLine(a), JournalLine(a), PublishedLine(a), AbstractLine(a.abstractText.value), Rule()]
  }

  /** The text appended for one record: its five lines, each followed by a
      newline. */
  function Block(a: Article): (r: Result<string, FormatError>)
    ensures r.Success? <==> a.abstractText.Some?
  {
    if a.abstractText.None? then Failure(AbstractNotText)
    else Success(JoinLines(BlockLines(a)))
  }

  /** Two renderings one after the other; a failure in either fails both. */
  function Then(x: Result<string, FormatError>, y: Result<string, FormatError>): Result<string, FormatError>
  {
    if x.Success? && y.Success? then Success(x.value + y.value) else Failure(AbstractNotText)
  }

  /** The blocks of all records, in input order; a record whose abstract is
      `None` makes the whole rendering fail. */
  function Blocks(articles: seq<Article>): (r: Result<string, FormatError>)
    ensures r.Success? <==> AbstractsAreText(articles)
  {
    if articles == [] then Success("")
    else
      var init, last := articles[..|articles| - 1], articles[|articles| - 1];
      assert articles == init + [last];
      Then(Blocks(init), Block(last))
  }

  /** The digest of a list of records: it fails exactly when some abstract
      is `None`, every digest begins with the header, and the digest of no
      records is the header alone. */
  function Digest(articles: seq<Article>): (r: Result<string, FormatError>)
    ensures r.Success? <==> AbstractsAreText(articles)
    ensures r.Success? ==> Header <= r.value
    ensures articles == [] ==> r == Success(Header)
  {
    assert Header + "" == Header;
    match Blocks(articles)
    case Success(s) => Success(Header + s)
    case Failure(e) => Failure(e)
  }

  /** `format_results`: the accumulator starts at the header and each record
      appends its lines, one `+=` at a time. */
  method FormatResults(articles: seq<Article>) returns (r: Result<string, FormatError>)
    ensures r == Digest(articles)
  {
    var content := Header;
    for k := 0 to |articles|
      invariant Blocks(articles[..k]).Success?
      invariant content == Header + Blocks(articles[..k]).value
    {
      var a := articles[k];
      ghost var before := content;
      content := content + (TitleLine(a) + "\n");
      content := content + (JournalLine(a) + "\n");
      content := content + (PublishedLine(a) + "\n");
      if a.abstractText.None? {
        return Failure(AbstractNotText);
      }
      content := content + (AbstractLine(a.abstractText.value) + "\n");
      content := content + (Rule() + "\n");
      AppendBlock(articles, k, before);
    }
    assert articles[..|articles|] == articles;
    r := Success(content);
  }

  /** Appending the lines of record `k` one at a time to the digest of the
      records before it gives the digest of the records up to `k`. */
  lemma AppendBlock(articles: seq<Article>, k: nat, before: string)
    requires k < |articles| && articles[k].abstractText.Some?
    requires Blocks(articles[..k]).Success?
    requires before == Header + Blocks(articles[..k]).value
    ensures Blocks(articles[..k + 1]).Success?
    ensures before + (TitleLine(articles[k]) + "\n") + (JournalLine(articles[k]) + "\n")
              + (PublishedLine(articles[k]) + "\n")
              + (AbstractLine(articles[k].abstractText.value) + "\n") + (Rule() + "\n")
            == Header + Blocks(articles[..k + 1]).value
  {
    var a, done := articles[k], articles[..k + 1];
    assert done[..|done| - 1] == articles[..k] && done[|done| - 1] == a;
    BlockText(before, a);
    var x, y := Blocks(articles[..k]).value, Block(a).value;
    assert Blocks(done) == Then(Blocks(articles[..k]), Block(a));
    ConcatAssoc(Header, x, y);
  }

  /** Appending the lines of a block one at a time appends the block. */
  lemma BlockText(before: string, a: Article)
    requires a.abstractText.Some?
    ensures Block(a).Success?
    ensures before + (TitleLine(a) + "\n") + (JournalLine(a) + "\n") + (PublishedLine(a) + "\n")
              + (AbstractLine(a.abstractText.value) + "\n") + (Rule() + "\n")
            == before + Block(a).value
  {
    var t, j, p, b, r := TitleLine(a), JournalLine(a), PublishedLine(a),
      AbstractLine(a.abstractText.value), Rule();
    JoinFive(t, j, p, b, r);
    ConcatFive(before, t + "\n", j + "\n", p + "\n", b + "\n", r + "\n");
  }

  /** Every record has an abstract that can be sliced. */
  predicate AbstractsAreText(articles: seq<Article>)
  {
    forall i | 0 <= i < |articles| :: articles[i].abstractText.Some?
  }

  /** The blocks of `a + b` are the blocks of `a` followed by those of `b`:
      nothing is dropped, repeated or reordered. */
  lemma {:induction false} BlocksAppend(a: seq<Article>, b: seq<Article>)
    ensures Blocks(a + b) == Then(Blocks(a), Blocks(b))
    decreases |b|
  {
    if b == [] {
      assert a + b == a;
      assert Blocks(a).Success? ==> Blocks(a).value + "" == Blocks(a).value;
    } else {
      var n := |b| - 1;
      assert (a + b)[..|a + b| - 1] == a + b[..n];
      assert (a + b)[|a + b| - 1] == b[n];
      BlocksAppend(a, b[..n]);
      ThenAssoc(Blocks(a), Blocks(b[..n]), Block(b[n]));
    }
  }

  /** Rendering one part after another does not depend on grouping. */
  lemma ThenAssoc(x: Result<string, FormatError>, y: Result<string, FormatError>, z: Result<string, FormatError>)
    ensures Then(Then(x, y), z) == Then(x, Then(y, z))
  {
    if x.Success? && y.Success? && z.Success? {
      ConcatAssoc(x.value, y.value, z.value);
    }
  }

  /** The digest of `a + b` is the header, then the blocks of `a`, then the
      blocks of `b`. */
  lemma DigestAppend(a: seq<Article>, b: seq<Article>)
    ensures Digest(a + b).Success? <==> Digest(a).Success? && Digest(b).Success?
    ensures Digest(a + b).Success? ==>
      Digest(a + b).value == Header + Blocks(a).value + Blocks(b).value
  {
    BlocksAppend(a, b);
    if Blocks(a).Success? && Blocks(b).Success? {
      ConcatAssoc(Header, Blocks(a).value, Blocks(b).value);
    }
  }

  /** The lines of the blocks of all records, five per record, in input order. */
  function RecordLines(articles: seq<Article>): (ls: seq<string>)
    requires AbstractsAreText(articles)
    ensures |ls| == 5 * |articles|
  {
    if articles == [] then []
    else RecordLines(articles[..|articles| - 1]) + BlockLines(articles[|articles| - 1])
  }

  /** The lines of a digest: the title line, an empty line, then the lines
      of the records. */
  function DigestLines(articles: seq<Article>): (ls: seq<string>)
    requires AbstractsAreText(articles)
    ensures |ls| == 2 + 5 * |articles|
  {
    [DigestTitle, ""] + RecordLines(articles)
  }

  /** The header is the title line and an empty line. */
  lemma HeaderIsLines()
    ensures JoinLines([DigestTitle, ""]) == Header
  {
    JoinLinesSnoc([], DigestTitle);
    JoinLinesSnoc([DigestTitle], "");
    assert [DigestTitle] + [""] == [DigestTitle, ""];
    assert "" + (DigestTitle + "\n") + ("" + "\n") == Header;
  }

  /** The blocks of the records are exactly the text of their lines. */
  lemma {:induction false} BlocksAreLines(articles: seq<Article>)
    requires AbstractsAreText(articles)
    ensures Blocks(articles) == Success(JoinLines(RecordLines(articles)))
    decreases |articles|
  {
    if articles != [] {
      var n := |articles| - 1;
      var init := articles[..n];
      BlocksAreLines(init);
      JoinLinesAppend(RecordLines(init), BlockLines(articles[n]));
    }
  }

  /** A digest whose abstracts are all text is exactly the text of its lines. */
  lemma DigestIsLines(articles: seq<Article>)
    requires AbstractsAreText(articles)
    ensures Digest(articles) == Success(JoinLines(DigestLines(articles)))
  {
    BlocksAreLines(articles);
    HeaderIsLines();
    JoinLinesAppend([DigestTitle, ""], RecordLines(articles));
  }

  /** Record `i`'s lines are lines `5 * i` to `5 * i + 4` of the record lines. */
  lemma {:induction false} RecordLinesAt(articles: seq<Article>, i: nat)
    requires AbstractsAreText(articles)
    requires i < |articles|
    ensures RecordLines(articles)[5 * i .. 5 * i + 5] == BlockLines(articles[i])
    decreases |articles|
  {
    var n := |articles| - 1;
    var init := articles[..n];
    var front, last := RecordLines(init), BlockLines(articles[n]);
    assert RecordLines(articles) == front + last;
    if i < n {
      RecordLinesAt(init, i);
      assert 5 * i + 5 == 5 * (i + 1) <= 5 * n;
      SliceOfFront(front, last, 5 * i, 5 * i + 5);
    } else {
      SliceOfBack(front, last);
    }
  }

  /** Record `i`'s lines sit at lines `2 + 5 * i` to `6 + 5 * i` of the
      digest: one block per record, in input order, after the two header
      lines. */
  lemma DigestLinesAt(articles: seq<Article>, i: nat)
    requires AbstractsAreText(articles)
    requires i < |articles|
    ensures DigestLines(articles)[..2] == [DigestTitle, ""]
    ensures DigestLines(articles)[2 + 5 * i .. 7 + 5 * i] == BlockLines(articles[i])
  {
    RecordLinesAt(articles, i);
    var hs, rs := [DigestTitle, ""], RecordLines(articles);
    SliceOfFront(hs, rs, 0, 2);
    SliceWithinBack(hs, rs, 5 * i, 5 * i + 5);
  }

  /** The record's text fields and its abstract hold no newline. */
  predicate SingleLineFields(a: Article)
  {
    && IsLine(Show(a.title))
    && IsLine(Show(a.journal))
    && IsLine(Show(a.pubDate))
    && (a.abstractText.Some? ==> IsLine(a.abstractText.value))
  }

  /** None of the four labelled lines of a record is the separator: each
      begins with its label's first letter, the separator with a dash. */
  lemma LabelledLinesNotRule(a: Article)
    requires a.abstractText.Some?
    ensures TitleLine(a) != Rule() && JournalLine(a) != Rule()
    ensures PublishedLine(a) != Rule() && AbstractLine(a.abstractText.value) != Rule()
  {
    assert Rule()[0] == '-';
    assert TitleLine(a)[0] == 'T' && JournalLine(a)[0] == 'J';
    assert PublishedLine(a)[0] == 'P' && AbstractLine(a.abstractText.value)[0] == 'A';
  }

  /** Exactly one line of a block, its last, is the separator. */
  lemma BlockSeparatorCount(a: Article)
    requires a.abstractText.Some?
    ensures CountOf(Rule(), BlockLines(a)) == 1
  {
    var ls := BlockLines(a);
    LabelledLinesNotRule(a);
    CountOfAbsent(Rule(), ls[..4]);
    assert ls[..4] == ls[..|ls| - 1];
  }

  /** The four labelled lines of a record with single-line fields hold no
      newline. */
  lemma LabelledLinesAreLines(a: Article)
    requires a.abstractText.Some? && SingleLineFields(a)
    ensures IsLine(TitleLine(a)) && IsLine(JournalLine(a)) && IsLine(PublishedLine(a))
    ensures IsLine(AbstractLine(a.abstractText.value))
  {
    SnippetKeepsLine(a.abstractText.value);
  }

  /** No line of the block of a record with single-line fields holds a
      newline. */
  lemma BlockLinesAreLines(a: Article)
    requires a.abstractText.Some? && SingleLineFields(a)
    ensures AllLines(BlockLines(a))
  {
    LabelledLinesAreLines(a);
  }

  /** The snippet of a single-line abstract is a single line. */
  lemma SnippetKeepsLine(text: string)
    requires IsLine(text)
    ensures IsLine(Snippet(text))
  {
  }

  /** The record lines hold exactly one separator per record, whatever the
      fields hold. */
  lemma {:induction false} RecordSeparatorCount(articles: seq<Article>)
    requires AbstractsAreText(articles)
    ensures CountOf(Rule(), RecordLines(articles)) == |articles|
    decreases |articles|
  {
    if articles != [] {
      var n := |articles| - 1;
      var init := articles[..n];
      RecordSeparatorCount(init);
      BlockSeparatorCount(articles[n]);
      CountOfAppend(Rule(), RecordLines(init), BlockLines(articles[n]));
    }
  }

  /** No record line of records with single-line fields holds a newline. */
  lemma {:induction false} RecordLinesAreLines(articles: seq<Article>)
    requires AbstractsAreText(articles)
    requires forall i | 0 <= i < |articles| :: SingleLineFields(articles[i])
    ensures AllLines(RecordLines(articles))
    decreases |articles|
  {
    if articles != [] {
      var n := |articles| - 1;
      var init := articles[..n];
      RecordLinesAreLines(init);
      BlockLinesAreLines(articles[n]);
      AllLinesAppend(RecordLines(init), BlockLines(articles[n]));
    }
  }

  /** The two header lines are lines, and neither is the separator. */
  lemma HeaderLinesShape()
    ensures AllLines([DigestTitle, ""])
    ensures CountOf(Rule(), [DigestTitle, ""]) == 0
  {
    var hs := [DigestTitle, ""];
    assert IsLine(DigestTitle) by {
      assert forall j | 0 <= j < |DigestTitle| :: DigestTitle[j] != '\n';
    }
    assert |Rule()| != |hs[0]| && |Rule()| != |hs[1]|;
    CountOfAbsent(Rule(), hs);
  }

  /** Exactly one digest line per record is the separator, whatever the
      fields hold. */
  lemma DigestSeparatorCount(articles: seq<Article>)
    requires AbstractsAreText(articles)
    ensures CountOf(Rule(), DigestLines(articles)) == |articles|
  {
    RecordSeparatorCount(articles);
    HeaderLinesShape();
    CountOfAppend(Rule(), [DigestTitle, ""], RecordLines(articles));
  }

  /** No line of a digest of records with single-line fields holds a
      newline. */
  lemma DigestLinesAreLines(articles: seq<Article>)
    requires AbstractsAreText(articles)
    requires forall i | 0 <= i < |articles| :: SingleLineFields(articles[i])
    ensures AllLines(DigestLines(articles))
  {
    RecordLinesAreLines(articles);
    HeaderLinesShape();
    AllLinesAppend([DigestTitle, ""], RecordLines(articles));
  }

  /** Read back line by line, a digest of records with single-line fields
      has the two header lines, then five lines per record, and exactly one
      separator line per record. */
  lemma DigestLineStructure(articles: seq<Article>)
    requires AbstractsAreText(articles)
    requires forall i | 0 <= i < |articles| :: SingleLineFields(articles[i])
    ensures Digest(articles).Success?
    ensures SplitLines(Digest(articles).value) == DigestLines(articles)
    ensures |SplitLines(Digest(articles).value)| == 2 + 5 * |articles|
    ensures CountOf(Rule(), SplitLines(Digest(articles).value)) == |articles|
  {
    DigestIsLines(articles);
    DigestLinesAreLines(articles);
    DigestSeparatorCount(articles);
    SplitJoin(DigestLines(articles));
  }

  /** An article element without an abstract renders "No Abstract" with the
      ellipsis still appended. */
  lemma MissingAbstractLine(e: ArticleElement)
    requires e.abstractText.Absent?
    ensures ExtractArticle(e).abstractText.Some?
    ensures BlockLines(ExtractArticle(e))[3] == "Abstract: No Abstract..."
  {
  }
}
