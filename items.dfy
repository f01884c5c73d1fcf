/** The record the crawler emits for every fetched page and the checkpoint pipeline stores. */
module Items {
  import opened Common

  /** Page title (absent when the page has no title element), the page URL and the fetch time. */
  datatype Metadata = Metadata(title: Option<string>, url: string, timestamp: string)

  /** One crawled page: `key` is the digest of the page URL, `content` the response text. */
  datatype ScraperItem = ScraperItem(key: string, content: string, metadata: Metadata)
}
