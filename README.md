# Helpdesk crawler and retrieval-augmented chat, modelled in Dafny

This project models the parts of the generative-AI course code that hold control logic:

- the **checkpoint pipeline** of the helpdesk crawler (`HelpdeskScraperPipeline`). It buffers
  crawled items by page key and counts the new ones. Every 500 new items it flushes the buffer
  into the checkpoint file by key-wise upsert. When the spider closes, it flushes what is left;
- the **helpdesk spider** (`HelpdeskSpider`). It loads the visited keys from the checkpoint
  file and decides from the Content-Type header whether a probed URL is fetched. On each fetched
  page it emits one item and probes the links whose key is not yet visited;
- **retrieval and prompt assembly** of the chat service. This covers corpus deduplication by
  chunk text, top-k ranking with `argsort(...)[-top_k:][::-1]`, aligned lookups of chunk texts,
  keys and page URLs, the model-name gate in front of the generation worker, and the context
  prompt;
- the chat server's **message handler** `main`. It dispatches on the Plain/RAG chat mode, renders
  references as bullets and formats the reply;
- **`image_grid`** of lecture 03. It sizes the canvas and places tiles in row-major order.

Modules, one per source file: `Checkpoint` (checkpoint.dfy), `Crawler` (crawler.dfy),
`Retrieval` (retrieval.dfy), `ChatServer` (chat_server.dfy) and `ImageGrid` (image_grid.dfy).
They share `Common` (Option, Result), `Items` (the crawled item record) and `Strings`
(`startswith`, substring test, `str.join`).

Outside code is passed in as function-valued parameters:

- the MD5 hex digest that gives page keys is the spider's `digest` field. A key is therefore a
  function of the URL alone;
- `urljoin` is `resolve`;
- the embedder, with its normalisation and the product with the chunk matrix, is `similarity`.
  It maps the embedder's input text to one score per corpus row;
- numpy's `argsort` is `argsort`. It is constrained only by `IsArgsort`: a permutation along
  which the scores never decrease. The order of equal scores is left open;
- the HTTP generation worker is `generate`. It returns the response body, or None when the
  request itself fails.

Calls to the embedder and the worker are recorded as an effect trace (`Embed`, `Post`). This
makes "rejected before any call" a statement about the trace.

The checkpoint file is a field `file: Option<map<string, ScraperItem>>`, and None means that
the file does not exist. The fetch time of a page is a parameter.

Where the design description of the system and the code disagree, the model follows the code:

- equal scores are not ranked by earliest index, because `argsort` is not a stable sort;
- the spider drops only `mailto:` links. Every other href that does not start with `https://` is
  resolved, whatever its scheme;
- a worker response with a non-success status is returned as the answer, not raised as an error;
- the page's own key joins the visited set after the link scan. So the scan does not filter a
  self-link, unless that key was visited before;
- the pipeline's deduplication consults only its buffer, not the file.

## Model

| member | source | states |
|---|---|---|
| `Checkpoint.Merge` | code/lecture-02/scrape/helpdesk_scraper/pipelines.py:40-50 | The flushed file keeps every old key and gains the buffer's keys. Buffer values win on shared keys, other keys keep their old values, and a missing file becomes exactly the buffer. |
| `Checkpoint.ProcessStepKeepsInvariant` | code/lecture-02/scrape/helpdesk_scraper/pipelines.py:14-30 | Processing an item preserves "buffer size = counter mod 500". So the buffer never holds 500 items. |
| `Checkpoint.ProcessAllKeepsKeys` | code/lecture-02/scrape/helpdesk_scraper/pipelines.py:17-53 | Over any sequence of items the invariant holds and the file loses no key. Every processed or previously buffered key ends up in the buffer or in the file. |
| `Checkpoint.CloseAfterProcessingPersistsAll` | code/lecture-02/scrape/helpdesk_scraper/pipelines.py:55-58 | After processing and closing, the buffer is empty. Every processed, buffered or stored key is in the file. |
| `Checkpoint.FlushedKeyIsStoredAgain` | code/lecture-02/scrape/helpdesk_scraper/pipelines.py:21-26 | A key already flushed but not buffered is counted again. Its new item replaces the stored one at the next flush. |
| `Checkpoint.MergeTwiceIsLastWriterWins` | code/lecture-02/scrape/helpdesk_scraper/pipelines.py:44 | Two flushes in turn equal one flush of the union, with the later buffer winning. |
| `Checkpoint.DisjointMergesCommute` | code/lecture-02/scrape/helpdesk_scraper/pipelines.py:44 | Flushes of buffers with disjoint keys commute. |
| `Checkpoint.HelpdeskScraperPipeline.constructor` | code/lecture-02/scrape/helpdesk_scraper/pipelines.py:10-15 | Starts with an empty buffer, a zero counter and the file as found. The invariant holds. |
| `Checkpoint.HelpdeskScraperPipeline.ProcessItem` | code/lecture-02/scrape/helpdesk_scraper/pipelines.py:17-32 | Returns the item. A buffered key changes nothing. A new key is buffered under its key and the counter goes up by 1. When the counter reaches a multiple of 500, the buffer with the new item is merged into the file and emptied. The invariant is preserved. |
| `Checkpoint.HelpdeskScraperPipeline.StoreItems` | code/lecture-02/scrape/helpdesk_scraper/pipelines.py:35-53 | The file becomes `Merge(old file, buffer)` and the buffer is emptied. The counter is not reset. |
| `Checkpoint.HelpdeskScraperPipeline.CloseSpider` | code/lecture-02/scrape/helpdesk_scraper/pipelines.py:55-58 | Flushes if and only if the buffer is non-empty. Afterwards the buffer is empty. |
| `Strings.ContainsIffOccurs` | code/lecture-02/scrape/helpdesk_scraper/spiders/helpdesk.py:40 | The substring test holds exactly when some position of the string holds the substring. |
| `Crawler.ParseHeadersDecision` | code/lecture-02/scrape/helpdesk_scraper/spiders/helpdesk.py:38-43 | Yields at most one request. It yields one exactly when a Content-Type header is present and contains "text", and that request is the probe re-issued as GET with callback `parse`. |
| `Crawler.LinksToFollow` | code/lecture-02/scrape/helpdesk_scraper/spiders/helpdesk.py:49-59 | A page yields no more links to follow than it has hrefs. The lemmas below state which links these are. |
| `Crawler.LinksToFollowConcat` | code/lecture-02/scrape/helpdesk_scraper/spiders/helpdesk.py:49-59 | Links are filtered one at a time: the result for a concatenation is the concatenation of the results. So page order is kept and repeated links within one page are all kept. |
| `Crawler.LinksToFollowMembership` | code/lecture-02/scrape/helpdesk_scraper/spiders/helpdesk.py:50-59 | A URL is followed if and only if some non-`mailto:` href leads to it and that URL's key is not visited. An `https://` href leads to itself; any other href leads to its resolution against the page URL. |
| `Crawler.FollowedLinksAreUnvisited` | code/lecture-02/scrape/helpdesk_scraper/spiders/helpdesk.py:56-57 | No followed link has a visited key. |
| `Crawler.SelfLinkIsFollowedUnlessVisited` | code/lecture-02/scrape/helpdesk_scraper/spiders/helpdesk.py:56-74 | An `https://` self-link is followed if and only if the page's key was not visited before the scan. |
| `Crawler.HelpdeskSpider.constructor` | code/lecture-02/scrape/helpdesk_scraper/spiders/helpdesk.py:23-32 | The visited set is the key set of the checkpoint file when the file exists, and empty otherwise. |
| `Crawler.HelpdeskSpider.GetKeyFromUrl` | code/lecture-02/scrape/helpdesk_scraper/spiders/helpdesk.py:34-36 | A URL's key is the key of the item emitted for any page fetched from that URL. So the spider's visited set and the pipeline's buffer use the same key for a page. |
| `Crawler.HelpdeskSpider.Parse` | code/lecture-02/scrape/helpdesk_scraper/spiders/helpdesk.py:45-77 | Yields first exactly one item, with key `digest(url)`, the page text and metadata carrying the page URL. Then it yields one HEAD probe with callback `parse_headers` per link to follow, in order. The visited set gains exactly the page's key. |
| `Retrieval.GetCorpus` | code/lecture-02/chat/utils.py:26-31 | Deduplication never adds rows. Its meaning is stated by the three lemmas below. |
| `Retrieval.GetCorpusKeepsFirstOccurrences` | code/lecture-02/chat/utils.py:30 | The kept rows are the first occurrences of their chunk text, all of them, taken from increasing positions (original order, renumbered from 0). |
| `Retrieval.GetCorpusTextsUnique` | code/lecture-02/chat/utils.py:30 | No chunk text occurs twice after deduplication. |
| `Retrieval.GetCorpusKeepsEveryText` | code/lecture-02/chat/utils.py:30 | Every chunk text of the input survives deduplication. |
| `Retrieval.SliceStart` | code/lecture-02/chat/utils.py:42 | Python's start index of `a[start:]`, negative starts included. |
| `Retrieval.DenseRetrieval` | code/lecture-02/chat/utils.py:39-43 | For `top_k >= 1` it returns `min(top_k, n)` indices, and for `top_k = 0` all `n`. The indices are distinct and in range, with non-increasing scores. No index left out scores above a returned one. |
| `Retrieval.InsertByScore` | code/lecture-02/chat/utils.py:42 | This does not model numpy. It is a step of the witness that the `IsArgsort` requirement on the `argsort` parameter can be met: insertion adds exactly one position. |
| `Retrieval.InsertByScoreKeepsOrder` | code/lecture-02/chat/utils.py:42 | This does not model numpy. It is a step of the same witness: insertion keeps positions ascending by score and distinct. |
| `Retrieval.ArgsortPrefixIsArgsort` | code/lecture-02/chat/utils.py:42 | An argsort meeting `IsArgsort` exists for every score list, so the argsort contract is satisfiable. The witness puts later positions first on ties. It is one order the contract admits, not numpy's. |
| `Retrieval.GetDocuments` | code/lecture-02/chat/utils.py:61-65 | Succeeds if and only if every id is a row position. Keys and texts are then aligned with the ids, in the same length and order. |
| `Retrieval.FirstUrl` | code/lecture-02/chat/utils.py:48 | Gives the URL of the first metadata row with the key, and None if and only if no row has the key. |
| `Retrieval.Urls` | code/lecture-02/chat/utils.py:45-49 | On success there is one URL per key. |
| `Retrieval.UrlsMeaning` | code/lecture-02/chat/utils.py:45-49 | Succeeds if and only if every key has a metadata row, and then gives each key's first URL in order. Otherwise it reports the first key without one. |
| `Retrieval.UrlsFailurePersists` | code/lecture-02/chat/utils.py:47-48 | A lookup that fails on a prefix of the keys fails with the same error on the whole list. |
| `Retrieval.GetUrls` | code/lecture-02/chat/utils.py:45-49 | The loop computes exactly `Urls(keys, docs)`. |
| `Retrieval.QueryText` | code/lecture-02/chat/constants.py:5 | The embedder input is `"query: "` followed by the query verbatim. |
| `Retrieval.Query` | code/lecture-02/chat/utils.py:51-59 | Any model name but "vicuna-13b-v1.5" fails with UnsupportedModel and nothing is posted. The supported name posts the message once and returns the worker's body, or fails if the request fails. |
| `Retrieval.ContextPromptLayout` | code/lecture-02/chat/constants.py:12-21 | The prompt is the template with the context block and the query placed verbatim at fixed offsets between its fixed parts. |
| `Retrieval.ContextPromptInjective` | code/lecture-02/chat/constants.py:12-21 | When the contexts or the queries have equal length, equal prompts mean equal contexts and equal queries. The prompt determines what was asked. |
| `Retrieval.RetrievedIds` | code/lecture-02/chat/utils.py:40-42 | The ids ranked for a message are the `dense_retrieval` result on the scores of `"query: " + message`. There are `min(top_k, n)` of them, or all `n` for `top_k = 0`. They are distinct and in range, with non-increasing scores, and no position left out scores higher. |
| `Retrieval.ContextRetrieve` | code/lecture-02/chat/utils.py:68-75 | The only call is one embedding of the query text. It succeeds if and only if every retrieved id is a row whose key has a metadata row. It fails with PositionOutOfBounds exactly when some id is past the end of the table, and with KeyNotFound otherwise. On success, texts and URLs are aligned with the retrieved ids, and each URL is the first one recorded for that chunk's key. |
| `Retrieval.AlignedScoresFailOnlyOnMissingKeys` | code/lecture-02/chat/utils.py:68-75 | With one score per corpus row, as the session's tables give, retrieval succeeds if and only if every retrieved chunk's key has a metadata row. Otherwise it fails with KeyNotFound. |
| `Retrieval.AnswerWithContext` | code/lecture-02/chat/utils.py:79-83 | A failed retrieval is passed on with no further call. Otherwise the prompt from the joined contexts is posted if and only if the model is supported. The result succeeds if and only if the model is supported and the worker answers. The answer comes back with the references unchanged. |
| `Retrieval.RetrievalAugmentedQuery` | code/lecture-02/chat/utils.py:77-83 | It embeds first. A failed retrieval (top-k 5) is returned as is, with no post. After a successful retrieval with the supported model, exactly one post follows, of the context prompt built from the contexts joined by a blank line and the message. It then succeeds if and only if the worker answers for that prompt. An unsupported model never posts and always fails. On success the worker's answer comes back with the (at most 5) references unchanged. |
| `Strings.Join` | code/lecture-02/chat/utils.py:80 | `sep.join`: empty for no parts, starts with the first part, and its length is the parts' total plus one separator between each pair of neighbours. |
| `Strings.JoinSnoc` | code/lecture-02/chat/chat_server.py:80 | Joining one more part appends the separator and that part. |
| `ChatServer.JoinedBulletsAreLines` | code/lecture-02/chat/chat_server.py:80 | `"* " + "\n* ".join(refs) + "\n"` equals one `"* " + ref + "\n"` line per reference, for a non-empty list. |
| `ChatServer.FormatReferences` | code/lecture-02/chat/chat_server.py:79-80 | A list renders as one bullet line per reference, and the empty list as `"* \n"`. A text (Plain mode's "") is left unchanged. |
| `ChatServer.FormatReply` | code/lecture-02/chat/chat_server.py:82 | The reply is the answer, then `" \n\n### References:\n "`, then the references, each at its offset. |
| `ChatServer.Main` | code/lecture-02/chat/chat_server.py:69-84 | Plain mode never embeds. It posts the message as is for the supported model, and nothing otherwise. It sends a reply if and only if the model is supported and the worker answers, and the reply is the answer with empty references. Otherwise it reports ConnectionFailure or UnsupportedModel. RAG mode makes exactly the calls of the retrieval-augmented query. It replies if and only if that query succeeds, with the answer and the bullet list of its references, and otherwise passes on its error. Any other mode sends nothing and calls nothing. |
| `ImageGrid.FloorMod` | code/lecture-03/utils.py:13 | Python's `%` and `//`: `a == b * (a // b) + a % b`, with the remainder taking the sign of the divisor. |
| `ImageGrid.ImageGridOf` | code/lecture-03/utils.py:10-14 | An empty list fails. So does a negative canvas size, and zero columns (division by zero). Otherwise the canvas is `cols*w` by `rows*h` from the first image, and image `i` is pasted at `((i % cols) * w, (i // cols) * h)`. |
| `ImageGrid.TileInsideCanvas` | code/lecture-03/utils.py:11-13 | For `i < rows*cols` the tile `[x, x+w) × [y, y+h)` lies inside the canvas. |
| `ImageGrid.TilesDisjoint` | code/lecture-03/utils.py:13 | Tiles of distinct indices are a whole tile width or height apart, so they never overlap. |
| `ImageGrid.TilesRowMajor` | code/lecture-03/utils.py:13 | Within a row the next image sits `w` to the right. Image `i + cols` sits exactly `h` below image `i`. |
| `ImageGrid.TileBeyondGridIsOffCanvas` | code/lecture-03/utils.py:13 | An index `i >= rows*cols` gets `y >= rows*h`, at or below the canvas edge. No check is made. |

## Left out

- Embedding computation, mean pooling and L2 normalisation (code/lecture-02/chat/utils.py:10-37) are float and model code. They are folded into the `similarity` parameter. The zero-norm case is not modelled.
- File I/O is not modelled: pickle and parquet reads and writes become map and sequence values.
- The checkpoint file is rewritten in place, and crash-atomicity of that write is not modelled.
- The spider reads `scraped_data.pkl` from the working directory while the pipeline writes `../tmp/data/scraped_data.pkl`. The model passes the file content to each separately, so resume-safety across the two paths is not stated.
- Scrapy internals are not modelled: the scheduler, its request dedup filter, `allowed_domains`, concurrency and the lazy evaluation of the `parse` generator. `Parse` runs the whole body at once.
- The MD5 digest and `urljoin` are parameters with no internals. Neither is proved correct.
- A Content-Type header is modelled as already decoded text, so UTF-8 decoding errors are not modelled. The same holds for decoding the worker's response.
- Network failures of the embedder are not modelled. A failing worker request is one `ConnectionFailure`, without the reasons distinguished.
- The Chainlit session handlers `start` and `setup_agent` are not modelled. Neither is the module-level loading of models and tables in chat_server.py. The session's mode, model name and tables are parameters of `Main`.
- Logging and `print` calls are not modelled.
- `encode_image`, `decode_image` and `encode_text` of lecture-03 are not modelled.
- PIL's pixel semantics of `paste` are not modelled, including clipping at the canvas edge and images whose size differs from the first image's. Only canvas size and paste positions are modelled.
- The constants files are not modelled. Only the literal prompt strings, `RETRIEVAL_TOP_K = 5` and the model name "vicuna-13b-v1.5" are used.
