/**
 * The record-building step of the scraper: `parse_article_details` turns the
 * PubmedArticle elements of an efetch XML response into one record of four
 * text fields each, and `fetch_article_details` hands it the response body
 * only when the HTTP status is 200.
 *
 * The XML parser itself (`ET.fromstring`, `findall`, `find`) is not modelled:
 * its result is given as a `Body`, a sequence of `ArticleElement`s in
 * document order, each reduced to what the four `find` calls return.
 */
module Articles {
  import opened Wrappers

  /** What `article.find(path)` and then `.text` yield: no matching
      sub-element, or the first match, whose `.text` is `None` when the
      element has no leading character data (as in `<ArticleTitle/>`). */
  datatype Match = Absent | Found(text: Option<string>)

  /** One PubmedArticle element, seen through the four paths the source reads:
      `.//ArticleTitle`, `.//AbstractText`, `.//PubDate/Year`, `.//Journal/Title`. */
  datatype ArticleElement = ArticleElement(
    title: Match,
    abstractText: Match,
    year: Match,
    journalTitle: Match)

  /** The response text after parsing: rejected by the XML parser, or a tree
      whose PubmedArticle elements are listed in document order. */
  datatype Body = Malformed | Parsed(elements: seq<ArticleElement>)

  /** The dictionary built per article. Each value is a string or `None`. */
  datatype Article = Article(
    title: Option<string>,
    abstractText: Option<string>,
    pubDate: Option<string>,
    journal: Option<string>)

  /** `ET.ParseError`, raised by `ET.fromstring` on a malformed body. */
  datatype ParseError = MalformedXml

  const NoTitle := "No Title"
  const NoAbstract := "No Abstract"
  const UnknownDate := "Unknown Date"
  const UnknownJournal := "Unknown Journal"

  /** The HTTP status for which the body is parsed. */
  const StatusOk := 200

  /** The conditional expression used for each field: the match's text when a
      sub-element was found, the literal default otherwise. */
  function TextOr(m: Match, default: string): (v: Option<string>)
    ensures m.Absent? ==> v == Some(default)
    ensures m.Found? ==> v == m.text
  {
    match m
    case Found(text) => text
    case Absent => Some(default)
  }

  /** The record built from one article element: a missing sub-element
      yields its default, a present one yields its text unchanged (`None`
      included). */
  function ExtractArticle(e: ArticleElement): (r: Article)
    ensures e.title.Absent? ==> r.title == Some(NoTitle)
    ensures e.abstractText.Absent? ==> r.abstractText == Some(NoAbstract)
    ensures e.year.Absent? ==> r.pubDate == Some(UnknownDate)
    ensures e.journalTitle.Absent? ==> r.journal == Some(UnknownJournal)
    ensures e.title.Found? ==> r.title == e.title.text
    ensures e.abstractText.Found? ==> r.abstractText == e.abstractText.text
    ensures e.year.Found? ==> r.pubDate == e.year.text
    ensures e.journalTitle.Found? ==> r.journal == e.journalTitle.text
  {
    Article(
      TextOr(e.title, NoTitle),
      TextOr(e.abstractText, NoAbstract),
      TextOr(e.year, UnknownDate),
      TextOr(e.journalTitle, UnknownJournal))
  }

  /** Each field's default applies on its own: replacing one sub-element of an
      article changes that field of the record and no other. */
  lemma ExtractFieldsIndependent(e: ArticleElement, m: Match)
    ensures ExtractArticle(e.(title := m)) == ExtractArticle(e).(title := TextOr(m, NoTitle))
    ensures ExtractArticle(e.(abstractText := m)) == ExtractArticle(e).(abstractText := TextOr(m, NoAbstract))
    ensures ExtractArticle(e.(year := m)) == ExtractArticle(e).(pubDate := TextOr(m, UnknownDate))
    ensures ExtractArticle(e.(journalTitle := m)) == ExtractArticle(e).(journal := TextOr(m, UnknownJournal))
  {
  }

  /** `parse_article_details`: one record per PubmedArticle element, appended
      in document order; a body the XML parser rejects raises. */
  method ParseArticleDetails(body: Body) returns (r: Result<seq<Article>, ParseError>)
    ensures body.Malformed? <==> r.Failure?
    ensures r.Success? ==> |r.value| == |body.elements|
    ensures r.Success? ==> forall i | 0 <= i < |r.value| :: r.value[i] == ExtractArticle(body.elements[i])
  {
    if body.Malformed? {
      return Failure(MalformedXml);
    }
    var elements := body.elements;
    var articles: seq<Article> := [];
    for k := 0 to |elements|
      invariant |articles| == k
      invariant forall i | 0 <= i < k :: articles[i] == ExtractArticle(elements[i])
    {
      var e := elements[k];
      var title := TextOr(e.title, NoTitle);
      var abstractText := TextOr(e.abstractText, NoAbstract);
      var pubDate := TextOr(e.year, UnknownDate);
      var journal := TextOr(e.journalTitle, UnknownJournal);
      articles := articles + [Article(title, abstractText, pubDate, journal)];
    }
    r := Success(articles);
  }

  /** `fetch_article_details` after the request: a status other than 200
      gives the empty list, otherwise the body is parsed. */
  method FetchArticleDetails(status: int, body: Body) returns (r: Result<seq<Article>, ParseError>)
    ensures status != StatusOk ==> r == Success([])
    ensures status == StatusOk ==> (body.Malformed? <==> r.Failure?)
    ensures status == StatusOk && r.Success? ==>
      |r.value| == |body.elements| &&
      forall i | 0 <= i < |r.value| :: r.value[i] == ExtractArticle(body.elements[i])
  {
    if status == StatusOk {
      r := ParseArticleDetails(body);
    } else {
      r := Success([]);
    }
  }
}
