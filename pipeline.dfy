/**
 * One crawler run: scan both listings, tag a copy of every record with the topics the
 * completion service's answer mentions, collect the tagged copies in the manager's
 * shared lists, and assemble the `posts` payload. The service is the parameter
 * `complete`, the answer it gives for an article's classification text.
 */
module Pipeline {
  import opened Wrappers
  import opened Text
  import opened Topics
  import opened Extract

  /** The text sent for classification: the title, one space, the body. */
  function ClassificationText(a: Article): (text: string)
    ensures |text| == |a.title| + 1 + |a.body|
    ensures text[..|a.title|] == a.title && text[|a.title|] == ' ' && text[|a.title| + 1..] == a.body
  {
    a.title + " " + a.body
  }

  /** The record once processArticle has set its `tags`; nothing else changes. */
  function Tagged(a: Article, complete: string -> string): (t: Article)
    ensures t.title == a.title && t.link == a.link && t.body == a.body && t.tags.Some?
  {
    a.(tags := Some(MatchTopics(Taxonomy, complete(ClassificationText(a)))))
  }

  /** Every record tagged, in order. */
  function TagAll(articles: seq<Article>, complete: string -> string): (r: seq<Article>)
    ensures |r| == |articles|
    ensures forall i :: 0 <= i < |articles| ==> r[i] == Tagged(articles[i], complete)
  {
    if articles == [] then []
    else TagAll(articles[..|articles| - 1], complete) + [Tagged(articles[|articles| - 1], complete)]
  }

  /**
   * Tagging changes nothing but `tags`, and the tags name exactly the taxonomy
   * topics that occur in the answer for the title-and-body text, each once, with type 1.
   */
  lemma TaggedProperties(a: Article, complete: string -> string)
    ensures var t := Tagged(a, complete);
      && t.title == a.title && t.link == a.link && t.body == a.body
      && t.tags.Some?
      && |t.tags.value| <= |Taxonomy|
      && (forall k :: 0 <= k < |t.tags.value| ==> t.tags.value[k].kind == TopicKind && t.tags.value[k].name in Taxonomy)
      && (forall i, j :: 0 <= i < j < |t.tags.value| ==> t.tags.value[i].name != t.tags.value[j].name)
      && (forall name :: (exists k :: 0 <= k < |t.tags.value| && t.tags.value[k].name == name)
                         <==> name in Taxonomy && Occurs(name, complete(ClassificationText(a))))
  {
    var response := complete(ClassificationText(a));
    MatchTopicsMembers(Taxonomy, response);
    MatchTopicsDistinct(Taxonomy, response);
  }

  /** Tagging two runs of records is tagging each run. */
  lemma TagAllAppend(a: seq<Article>, b: seq<Article>, complete: string -> string)
    ensures TagAll(a + b, complete) == TagAll(a, complete) + TagAll(b, complete)
  {
  }

  /** A record dictionary, which processArticle updates in place. */
  class Record {
    var title: string
    var link: string
    var body: string
    var tags: Option<seq<TopicTag>>

    /** The dictionary's current contents. */
    function Value(): Article
      reads this
    {
      Article(title, link, body, tags)
    }

    /** A dictionary holding `a`. */
    constructor (a: Article)
      ensures Value() == a
    {
      title, link, body, tags := a.title, a.link, a.body, a.tags;
    }
  }

  /** The two lists that the multiprocessing manager shares between the workers. */
  class SharedLists {
    var govNews: seq<Article>
    var localNews: seq<Article>

    /** Both lists start empty. */
    constructor ()
      ensures govNews == [] && localNews == []
    {
      govNews, localNews := [], [];
    }
  }

  /** `article.copy()`: a new dictionary with the same entries. */
  method CopyRecord(article: Record) returns (c: Record)
    ensures fresh(c) && c.Value() == article.Value()
  {
    c := new Record(article.Value());
  }

  /** processArticle: classify the title and body and store the entries under `tags`. */
  method ProcessArticle(article: Record, complete: string -> string)
    modifies article
    ensures article.Value() == Tagged(old(article.Value()), complete)
  {
    var text := ClassificationText(article.Value());
    var t := DetectTopics(Taxonomy, complete(text));
    article.tags := Some(t);
  }

  /**
   * processWrapper: tag a copy, leaving the record it was given untouched, and append
   * the copy to the shared government list, whichever listing the record came from.
   */
  method ProcessWrapper(article: Record, shared: SharedLists, complete: string -> string)
    modifies shared
    ensures unchanged(article)
    ensures shared.govNews == old(shared.govNews) + [Tagged(article.Value(), complete)]
    ensures shared.localNews == old(shared.localNews)
  {
    var copy := CopyRecord(article);
    ProcessArticle(copy, complete);
    shared.govNews := shared.govNews + [copy.Value()];
  }

  /** The payload that is posted: `posts` is the government list followed by the local list. */
  datatype Batch = Batch(govArticles: seq<Article>, localArticles: seq<Article>) {
    function Posts(): (posts: seq<Article>)
      ensures |posts| == |govArticles| + |localArticles|
      ensures posts[..|govArticles|] == govArticles && posts[|govArticles|..] == localArticles
    {
      govArticles + localArticles
    }
  }

  /** Where a worker pool's map leaves the shared lists: one tagged copy per record, in order. */
  method MapPool(articles: seq<Article>, shared: SharedLists, complete: string -> string)
    modifies shared
    ensures shared.govNews == old(shared.govNews) + TagAll(articles, complete)
    ensures shared.localNews == old(shared.localNews)
  {
    for i := 0 to |articles|
      invariant shared.govNews == old(shared.govNews) + TagAll(articles[..i], complete)
      invariant shared.localNews == old(shared.localNews)
    {
      var worker := new Record(articles[i]);
      ProcessWrapper(worker, shared, complete);
      assert articles[..i + 1][..i] == articles[..i];
    }
    assert articles[..|articles|] == articles;
  }

  /** Copy a shared list into a plain list, as the two collecting loops of main do. */
  method Collect(items: seq<Article>) returns (out: seq<Article>)
    ensures out == items
  {
    out := [];
    for i := 0 to |items|
      invariant out == items[..i]
    {
      out := out + [items[i]];
    }
  }

  /**
   * The part of main after scanning: run both worker pools over one pair of shared
   * lists, then copy the lists out. Every tagged record lands in the government list,
   * government records first, so the local list stays empty.
   */
  method Assemble(govNews: seq<Article>, localNews: seq<Article>, complete: string -> string) returns (b: Batch)
    ensures b == Batch(TagAll(govNews, complete) + TagAll(localNews, complete), [])
  {
    var shared := new SharedLists();
    MapPool(govNews, shared, complete);
    assert shared.govNews == TagAll(govNews, complete);
    MapPool(localNews, shared, complete);
    var govArticles := Collect(shared.govNews);
    var localArticles := Collect(shared.localNews);
    b := Batch(govArticles, localArticles);
  }

  /**
   * main, up to the HTTP post: scan the government listing, then the local one (a scan
   * that raises ends the run), and assemble the batch from the records of both.
   */
  method Run(govStatus: int, govNodes: seq<GovNode>, localStatus: int, localNodes: seq<LocalNode>,
             complete: string -> string) returns (r: Result<Batch, ExtractError>)
    ensures var g := Listing(govStatus, govNodes, GovArticle);
            var l := Listing(localStatus, localNodes, LocalArticle);
            && (g.Err? ==> r == Err(g.error))
            && (g.Ok? && l.Err? ==> r == Err(l.error))
            && (g.Ok? && l.Ok? ==> r == Ok(Batch(TagAll(g.value, complete) + TagAll(l.value, complete), [])))
  {
    var govNews := ScanGov(govStatus, govNodes);
    assert govNews == Listing(govStatus, govNodes, GovArticle);
    if govNews.Err? {
      return Err(govNews.error);
    }
    var localNews := ScanLocal(localStatus, localNodes);
    assert localNews == Listing(localStatus, localNodes, LocalArticle);
    if localNews.Err? {
      return Err(localNews.error);
    }
    var b := Assemble(govNews.value, localNews.value, complete);
    return Ok(b);
  }

  /**
   * For a run that completes, `posts` holds one tagged copy per scanned record:
   * the government records first, each in listing order.
   */
  lemma RunPosts(govNews: seq<Article>, localNews: seq<Article>, complete: string -> string)
    ensures var posts := Batch(TagAll(govNews, complete) + TagAll(localNews, complete), []).Posts();
      && posts == TagAll(govNews + localNews, complete)
      && |posts| == |govNews| + |localNews|
  {
  }
}
