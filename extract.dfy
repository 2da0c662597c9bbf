/**
 * The two listing-page scanners. A parsed page is given as its listing nodes; each node
 * keeps only what the scanner reads from it (BeautifulSoup lookups are not modelled).
 * A node whose structure makes the scanner raise yields an error, which aborts the scan.
 */
module Extract {
  import opened Wrappers
  import opened Text
  import opened Topics

  /** The only HTTP status a scanner accepts. */
  const OkStatus := 200

  /** Prefix for the site-relative links of the government listing. */
  const GovUrl := "https://gov.md"

  /** A news record: the dictionary a scanner builds; `tags` is absent until classification. */
  datatype Article = Article(title: string, link: string, body: string, tags: Option<seq<TopicTag>>)

  /** A `p` element of a government body container: its first text and the first texts of its `span`s. */
  datatype Paragraph = Paragraph(text: string, spans: seq<string>)

  /** A government body container: the first text of its nested `div`, if any, and its `p` elements in order. */
  datatype Content = Content(div: Option<string>, paragraphs: seq<Paragraph>)

  /** One `views-row` of the government listing: the title anchor's first text and `href`, and the body container. */
  datatype GovNode = GovNode(anchor: string, href: string, content: Content)

  /** One `article` of the local listing: the title anchor's first text and `href`, and the first texts of the entry's `p` elements. */
  datatype LocalNode = LocalNode(anchor: string, href: string, paragraphs: seq<string>)

  /** Why a scanner raises. */
  datatype ExtractError =
    | NoParagraph        // government body with no div, no span and no paragraph: `content_paragraphs[0]` fails
    | NoLocalParagraph   // local entry with no `p`: `findChild('p')` is None

  /** Index of the first paragraph that has spans, if there is one. */
  function FirstSpanned(ps: seq<Paragraph>): (r: Option<nat>)
    ensures r.Some? ==> r.value < |ps| && ps[r.value].spans != []
                        && forall j :: 0 <= j < r.value ==> ps[j].spans == []
    ensures r.None? ==> forall j :: 0 <= j < |ps| ==> ps[j].spans == []
  {
    if ps == [] then
      None
    else if ps[0].spans != [] then
      Some(0)
    else
      match FirstSpanned(ps[1..])
      case None => None
      case Some(i) => Some(i + 1)
  }

  /** The in-order concatenation of `texts`. */
  function Concat(texts: seq<string>): string
  {
    if texts == [] then "" else Concat(texts[..|texts| - 1]) + texts[|texts| - 1]
  }

  /** Concatenating two runs of texts is concatenating each run. */
  lemma {:induction false} ConcatAppend(a: seq<string>, b: seq<string>)
    ensures Concat(a + b) == Concat(a) + Concat(b)
    decreases |b|
  {
    if b == [] {
      assert a + b == a;
    } else {
      var init := b[..|b| - 1];
      ConcatAppend(a, init);
      assert (a + b)[..|a + b| - 1] == a + init;
    }
  }

  /** Every span's first text, stripped, in order. */
  function StripAll(spans: seq<string>): (r: seq<string>)
    ensures |r| == |spans| && forall i :: 0 <= i < |spans| ==> r[i] == Strip(spans[i])
  {
    if spans == [] then [] else StripAll(spans[..|spans| - 1]) + [Strip(spans[|spans| - 1])]
  }

  /** The body made of spans: their stripped texts joined without separator. */
  function JoinStripped(spans: seq<string>): string
  {
    Concat(StripAll(spans))
  }

  /**
   * The body of a government entry, first match wins: the nested div's stripped text;
   * else the joined spans of the first paragraph that has spans; else the first
   * paragraph's stripped text; with no paragraph at all the scanner raises.
   */
  function BodyOf(c: Content): (r: Result<string, ExtractError>)
    ensures c.div.Some? ==> r == Ok(Strip(c.div.value))
    ensures c.div.None? ==> forall i :: 0 <= i < |c.paragraphs| && c.paragraphs[i].spans != []
                                        && (forall j :: 0 <= j < i ==> c.paragraphs[j].spans == [])
                                        ==> r == Ok(JoinStripped(c.paragraphs[i].spans))
    ensures c.div.None? && (forall i :: 0 <= i < |c.paragraphs| ==> c.paragraphs[i].spans == []) ==>
              r == if c.paragraphs == [] then Err(NoParagraph) else Ok(Strip(c.paragraphs[0].text))
  {
    match c.div
    case Some(d) => Ok(Strip(d))
    case None =>
      match FirstSpanned(c.paragraphs)
      case Some(i) => Ok(JoinStripped(c.paragraphs[i].spans))
      case None => if c.paragraphs == [] then Err(NoParagraph) else Ok(Strip(c.paragraphs[0].text))
  }

  /** Paragraphs after the first one with spans never change the body. */
  lemma BodyIgnoresLaterParagraphs(c: Content, i: nat)
    requires c.div.None? && i < |c.paragraphs| && c.paragraphs[i].spans != []
    requires forall j :: 0 <= j < i ==> c.paragraphs[j].spans == []
    ensures BodyOf(c) == BodyOf(Content(None, c.paragraphs[..i + 1]))
  {
    var ps := c.paragraphs[..i + 1];
    assert ps[i] == c.paragraphs[i];
    assert forall j :: 0 <= j < i ==> ps[j] == c.paragraphs[j];
  }

  /**
   * The body extraction of scanGovPage: the span search loop that stops at the first
   * paragraph with spans, then the `+=` loop over those spans.
   */
  method ExtractBody(c: Content) returns (r: Result<string, ExtractError>)
    ensures r == BodyOf(c)
  {
    if c.div.Some? {
      return Ok(Strip(c.div.value));
    }
    var ps := c.paragraphs;
    var spans: seq<string> := [];
    var i := 0;
    while i < |ps|
      invariant 0 <= i <= |ps|
      invariant forall j :: 0 <= j < i ==> ps[j].spans == []
      invariant spans == []
    {
      spans := ps[i].spans;
      if spans != [] {
        break;
      }
      i := i + 1;
    }
    var body := "";
    if |spans| == 0 {
      if ps == [] {
        return Err(NoParagraph);
      }
      body := Strip(ps[0].text);
    } else {
      for k := 0 to |spans|
        invariant body == JoinStripped(spans[..k])
      {
        assert spans[..k + 1][..k] == spans[..k];
        assert StripAll(spans[..k + 1]) == StripAll(spans[..k]) + [Strip(spans[k])];
        body := body + Strip(spans[k]);
      }
      assert spans[..|spans|] == spans;
    }
    r := Ok(body);
  }

  /** The record scanGovPage builds from one entry, or the error it raises on it. */
  function GovArticle(n: GovNode): Result<Article, ExtractError>
  {
    match BodyOf(n.content)
    case Err(e) => Err(e)
    case Ok(body) => Ok(Article(Strip(n.anchor), GovUrl + n.href, body, None))
  }

  /**
   * A government record has the stripped anchor text as title, the site prefix followed by
   * `href` as link, `BodyOf` as body and no tags; it fails exactly when `BodyOf` does.
   */
  lemma GovArticleFields(n: GovNode)
    ensures GovArticle(n).Ok? <==> BodyOf(n.content).Ok?
    ensures GovArticle(n).Err? ==> GovArticle(n).error == BodyOf(n.content).error
    ensures GovArticle(n).Ok? ==> var a := GovArticle(n).value;
              && a.title == Strip(n.anchor)
              && a.link[..|GovUrl|] == GovUrl && a.link[|GovUrl|..] == n.href
              && Ok(a.body) == BodyOf(n.content)
              && a.tags.None?
  {
  }

  /** The record scanLocalPage builds from one entry, or the error it raises on it. */
  function LocalArticle(n: LocalNode): Result<Article, ExtractError>
  {
    if n.paragraphs == [] then Err(NoLocalParagraph)
    else Ok(Article(Strip(n.anchor), n.href, Strip(n.paragraphs[0]), None))
  }

  /**
   * A local record has the stripped anchor text as title, `href` unchanged as link, the first
   * paragraph's stripped text as body and no tags; it fails exactly when there is no paragraph.
   */
  lemma LocalArticleFields(n: LocalNode)
    ensures LocalArticle(n).Err? <==> n.paragraphs == []
    ensures LocalArticle(n).Err? ==> LocalArticle(n).error == NoLocalParagraph
    ensures LocalArticle(n).Ok? ==> var a := LocalArticle(n).value;
              && a.title == Strip(n.anchor)
              && a.link == n.href
              && a.body == Strip(n.paragraphs[0])
              && a.tags.None?
  {
  }

  /**
   * Extracting every node in order: one record per node when no node fails, otherwise
   * the error of the first node that fails.
   */
  function ExtractAll<N>(nodes: seq<N>, extract: N -> Result<Article, ExtractError>): (r: Result<seq<Article>, ExtractError>)
    ensures r.Ok? <==> forall i :: 0 <= i < |nodes| ==> extract(nodes[i]).Ok?
    ensures r.Ok? ==> |r.value| == |nodes| && forall i :: 0 <= i < |nodes| ==> extract(nodes[i]) == Ok(r.value[i])
    ensures forall i :: 0 <= i < |nodes| && extract(nodes[i]).Err? && (forall j :: 0 <= j < i ==> extract(nodes[j]).Ok?)
                        ==> r == Err(extract(nodes[i]).error)
  {
    if nodes == [] then
      Ok([])
    else
      match extract(nodes[0])
      case Err(e) => Err(e)
      case Ok(a) =>
        match ExtractAll(nodes[1..], extract)
        case Err(e) => Err(e)
        case Ok(rest) => Ok([a] + rest)
  }

  /** When every node extracts, the scan is exactly the extracted records. */
  lemma ExtractAllOk<N>(nodes: seq<N>, extract: N -> Result<Article, ExtractError>, news: seq<Article>)
    requires |news| == |nodes| && forall i :: 0 <= i < |nodes| ==> extract(nodes[i]) == Ok(news[i])
    ensures ExtractAll(nodes, extract) == Ok(news)
  {
    var r := ExtractAll(nodes, extract);
    assert r.Ok?;
    assert forall i :: 0 <= i < |nodes| ==> r.value[i] == news[i];
    assert r.value == news;
  }

  /** The scan fails with the error of the first node that fails. */
  lemma ExtractAllErr<N>(nodes: seq<N>, extract: N -> Result<Article, ExtractError>, i: nat)
    requires i < |nodes| && extract(nodes[i]).Err?
    requires forall j :: 0 <= j < i ==> extract(nodes[j]).Ok?
    ensures ExtractAll(nodes, extract) == Err(extract(nodes[i]).error)
  {
  }

  /**
   * What a scanner returns for a page fetched with `status` whose listing holds `nodes`:
   * nothing unless the status is 200, otherwise one record per node or the first node's error.
   */
  function Listing<N>(status: int, nodes: seq<N>, extract: N -> Result<Article, ExtractError>): (r: Result<seq<Article>, ExtractError>)
    ensures status != OkStatus ==> r == Ok([])
    ensures status == OkStatus ==> (r.Ok? <==> forall i :: 0 <= i < |nodes| ==> extract(nodes[i]).Ok?)
    ensures r.Ok? ==> |r.value| == (if status == OkStatus then |nodes| else 0)
    ensures status == OkStatus && r.Ok? ==> forall i :: 0 <= i < |nodes| ==> extract(nodes[i]) == Ok(r.value[i])
  {
    if status != OkStatus then Ok([]) else ExtractAll(nodes, extract)
  }

  /** scanGovPage on the fetched page: nothing unless the status is 200, else one record per entry. */
  method ScanGov(status: int, nodes: seq<GovNode>) returns (r: Result<seq<Article>, ExtractError>)
    ensures r == Listing(status, nodes, GovArticle)
  {
    if status != OkStatus {
      return Ok([]);
    }
    var news: seq<Article> := [];
    for i := 0 to |nodes|
      invariant |news| == i
      invariant forall j :: 0 <= j < i ==> GovArticle(nodes[j]) == Ok(news[j])
    {
      var node := nodes[i];
      var title := Strip(node.anchor);
      var link := GovUrl + node.href;
      var body := ExtractBody(node.content);
      if body.Err? {
        ExtractAllErr(nodes, GovArticle, i);
        return Err(body.error);
      }
      var article := Article(title, link, body.value, None);
      assert GovArticle(node) == Ok(article);
      news := news + [article];
    }
    ExtractAllOk(nodes, GovArticle, news);
    return Ok(news);
  }

  /** scanLocalPage on the fetched page: nothing unless the status is 200, else one record per entry. */
  method ScanLocal(status: int, nodes: seq<LocalNode>) returns (r: Result<seq<Article>, ExtractError>)
    ensures r == Listing(status, nodes, LocalArticle)
  {
    if status != OkStatus {
      return Ok([]);
    }
    var news: seq<Article> := [];
    for i := 0 to |nodes|
      invariant |news| == i
      invariant forall j :: 0 <= j < i ==> LocalArticle(nodes[j]) == Ok(news[j])
    {
      var node := nodes[i];
      if node.paragraphs == [] {
        ExtractAllErr(nodes, LocalArticle, i);
        return Err(NoLocalParagraph);
      }
      var article := Article(Strip(node.anchor), node.href, Strip(node.paragraphs[0]), None);
      assert LocalArticle(node) == Ok(article);
      news := news + [article];
    }
    ExtractAllOk(nodes, LocalArticle, news);
    return Ok(news);
  }
}
