# md_crawler, modelled in Dafny

`crawler/md_crawler.py` scans two Moldovan news listings (the government press-release
page and a local news site), turns each entry into a record dictionary (`title`,
`link`, `body`), asks a completion service which of five fixed topics
(`Alegeri`, `Economie`, `Societate`, `Demonstratii`, `Politica`) fit the title and body,
stores the topics mentioned in the answer under `tags`, and posts all records as
`{"posts": [...]}`. This project models the deterministic rules inside that plumbing
and proves what they guarantee:

- `Text` — Python's `str.strip()` (over exactly the code points for which `str.isspace()`
  holds) and the substring test `needle in haystack`.
- `Topics` — the matching loop of `detectTopics`: every taxonomy topic that occurs as a
  literal, case-sensitive substring of the answer, in taxonomy order, as `{type: 1, name}`.
- `Extract` — the listing nodes as datatypes, the first-match-wins body fallback of the
  government scanner (nested `div`, else the first paragraph with spans, else the first
  paragraph), link and title assembly, and the two scanners: status other than 200 gives
  `[]`, otherwise one record per node in order, or the error of the first node on which
  the Python code would raise.
- `Pipeline` — `processArticle` (tags a record dictionary in place), `processWrapper`
  (tags a copy and appends it to the shared list), and `main` up to the HTTP post.
  `processWrapper` always appends to `gov_news_shared`, so the local list
  `local_articles` is always empty, and `posts` still holds every tagged record,
  government records first. This is what the code does when the pool's workers inherit
  the globals that `main` sets, as they do under the `fork` start method.

The completion service is the parameter `complete: string -> string`, the answer given
for an article's classification text `title + ' ' + body`. The fetched page is the pair
(status, listing nodes). The worker pools run one after the other, and inside each pool
the records are processed in listing order.

The record dictionary is the class `Pipeline.Record`, and the manager's two shared lists
are the class `Pipeline.SharedLists`. Records going into and out of the lists are
`Extract.Article` values, because the manager and the pool pass dictionaries by copy.

## Model

| member | source | states |
|---|---|---|
| `Text.IsSpaceAscii` | crawler/md_crawler.py:32 | within ASCII, `IsSpace` (Python's `str.isspace`, which `strip()` uses) holds exactly for the space, `\t \n \v \f \r` and the separators 0x1C to 0x1F |
| `Text.Strip` | crawler/md_crawler.py:32 | the result neither starts nor ends with whitespace and is a slice of the input with only whitespace cut off on both sides |
| `Text.StripIdempotent` | crawler/md_crawler.py:50 | stripping an already stripped text changes nothing |
| `Text.Contains` | crawler/md_crawler.py:105 | `topic in response` is true exactly when the topic occurs as a contiguous piece of the response at some position |
| `Topics.MatchTopics` | crawler/md_crawler.py:103-111 | the reference filter the lemmas below are about; it never has more entries than there are topics |
| `Topics.DetectTopics` | crawler/md_crawler.py:103-111 | the matching loop returns exactly the reference filter `MatchTopics` of the taxonomy against the answer |
| `Topics.MatchTopicsMembers` | crawler/md_crawler.py:104-109 | a topic has an entry exactly when it is in the taxonomy and occurs in the answer; every entry has type 1 and names a taxonomy topic |
| `Topics.MatchTopicsAppend` | crawler/md_crawler.py:104-109 | matching a concatenated taxonomy is the concatenation of the matches, so entries keep taxonomy order |
| `Topics.MatchTopicsNone` | crawler/md_crawler.py:103-111 | an answer that contains no topic name yields `[]` |
| `Topics.MatchTopicsDistinct` | crawler/md_crawler.py:104-109 | with a duplicate-free taxonomy no topic gets two entries |
| `Topics.EmptyAnswer` | crawler/md_crawler.py:103-111 | when no topic is the empty string, an empty answer yields `[]` |
| `Topics.TaxonomyEmptyResponse` | crawler/md_crawler.py:13 | with the crawler's five topics an empty answer yields `[]` |
| `Extract.FirstSpanned` | crawler/md_crawler.py:42-46 | the span search stops at the first paragraph that has spans, and finds none only when no paragraph has spans |
| `Extract.BodyOf` | crawler/md_crawler.py:37-53 | with a nested div the body is its stripped text whatever the paragraphs hold; else the joined stripped spans of the first paragraph with spans; else the first paragraph's stripped text, and an error when there is no paragraph |
| `Extract.BodyIgnoresLaterParagraphs` | crawler/md_crawler.py:42-46 | paragraphs after the first one with spans do not affect the body |
| `Extract.ConcatAppend` | crawler/md_crawler.py:52-53 | the `+=` join of span texts over two consecutive runs is the join of each run |
| `Extract.ExtractBody` | crawler/md_crawler.py:37-53 | the span-search loop with `break` and the `+=` loop compute exactly `BodyOf` |
| `Extract.GovArticleFields` | crawler/md_crawler.py:27-56 | a government record (`GovArticle`) has the stripped anchor text as title, `GOV_URL` followed by `href` as link, `BodyOf` as body and no tags, and fails exactly when `BodyOf` does |
| `Extract.LocalArticleFields` | crawler/md_crawler.py:75-87 | a local record (`LocalArticle`) has the stripped anchor text as title, the raw `href` as link, the first paragraph's stripped text as body and no tags, and fails with the missing-`p` error exactly when there is no paragraph |
| `Extract.ExtractAll` | crawler/md_crawler.py:26-56 | extraction succeeds exactly when every node extracts, gives one record per node in order, and otherwise fails with the first failing node's error |
| `Extract.Listing` | crawler/md_crawler.py:19-62 | a page whose status is not 200 gives `[]`; a page with status 200 succeeds exactly when every node extracts, and then gives one record per node, in order |
| `Extract.ScanGov` | crawler/md_crawler.py:16-62 | the loop returns exactly `Listing` over `GovArticle`: `[]` for a status other than 200, else one government record per node in order, or the first node's error |
| `Extract.ScanLocal` | crawler/md_crawler.py:65-93 | the loop returns exactly `Listing` over `LocalArticle`: `[]` for a status other than 200, else one local record per node in order, or the error for the first node with no paragraph |
| `Pipeline.ClassificationText` | crawler/md_crawler.py:115 | the classification text is the title, then one space, then the body |
| `Pipeline.Tagged` | crawler/md_crawler.py:114-117 | tagging keeps title, link and body and sets `tags` |
| `Pipeline.TagAll` | crawler/md_crawler.py:141-145 | one tagged record per input record, at the same position |
| `Pipeline.TaggedProperties` | crawler/md_crawler.py:114-117 | tagging keeps title, link and body; the tags name, each once and with type 1, exactly the taxonomy topics that occur in the answer for `title + ' ' + body` |
| `Pipeline.TagAllAppend` | crawler/md_crawler.py:155-157 | tagging the government records and then the local ones is tagging their concatenation |
| `Pipeline.Record.constructor` | crawler/md_crawler.py:27 | a record dictionary (class `Record`) created with given entries holds exactly those entries |
| `Pipeline.CopyRecord` | crawler/md_crawler.py:121 | the copy is a new dictionary with the same entries |
| `Pipeline.ProcessArticle` | crawler/md_crawler.py:114-117 | the record afterwards is the old record with `tags` set to the detected topics of `title + ' ' + body` |
| `Pipeline.ProcessWrapper` | crawler/md_crawler.py:120-123 | the given record is unchanged; its tagged copy is appended to the government shared list; the local shared list is unchanged |
| `Pipeline.SharedLists.constructor` | crawler/md_crawler.py:134-139 | both manager lists start empty |
| `Pipeline.MapPool` | crawler/md_crawler.py:141-145 | a pool's map appends one tagged copy per record, in order, to the government shared list and leaves the local one alone |
| `Pipeline.Collect` | crawler/md_crawler.py:147-153 | each collecting loop copies its shared list unchanged |
| `Pipeline.Batch.Posts` | crawler/md_crawler.py:155-157 | `posts` is the government list followed by the local list, and no entry is added or lost |
| `Pipeline.Assemble` | crawler/md_crawler.py:134-157 | after both pools the government list holds the tagged government records followed by the tagged local records, and the local list is empty |
| `Pipeline.Run` | crawler/md_crawler.py:126-157 | a government scan error ends the run with that error, then a local scan error likewise; otherwise the batch is the tagged records of both scans, government first, with an empty local list |
| `Pipeline.RunPosts` | crawler/md_crawler.py:141-157 | the posted `posts` are the tagged concatenation of both scans, one per scanned record |

## Left out

- HTTP GET of the listings and the POST of the payload, with its headers and the reply status: the fetch is given as a status and a node list, and `Run` stops at the payload.
- BeautifulSoup parsing and the CSS-class lookups: a listing is given as a sequence of nodes holding only the texts the scanner reads. `findChild` and `findChildren` search all descendants; the node datatypes list what they find in document order.
- Lookups that return `None` or an empty `contents` for a missing title block, anchor, body container or listing block, and a first child that is a tag rather than text: every node is assumed to carry its anchor, its body container and the first text of every element. The two raising cases that depend on the modelled collections are kept: no paragraph in a government body without div or spans, and no `p` in a local entry.
- The completion call and its prompt wording: its answer is the parameter `complete`, a function of the classification text. This ignores nondeterminism, and exceptions raised by the service are not modelled.
- ProcessWrapper, MapPool and Assemble: the model passes the shared lists as a parameter, so it assumes that the pool's workers see the globals `gov_news_shared` and `local_news_shared` that `main` sets, as they do under the `fork` start method. Under `spawn` or `forkserver` the workers re-import the module without running `main`, `processWrapper` raises `NameError`, `pool.map` re-raises it, and nothing is posted as soon as either scan returned a record. The model does not capture that failure.
- The parallel workers of `multiprocessing.Pool` and the order in which they append to the shared list: the model processes each pool's records one after the other, in listing order.
- Timestamps from `datetime.now()`, `dotenv` configuration, `print` logging and the secret header.
- Deduplication by link: the code does not deduplicate, so neither does the model.
- Behaviour the code does not have is not modelled either: it keeps the local `href` as given rather than resolving it to an absolute URL, lets extraction and classification failures raise instead of substituting empty values, and posts every record without deduplication.
