/** The helpdesk spider: loads the keys already checkpointed, probes each discovered link
    with a HEAD request, fetches only textual content, and on every fetched page emits one
    item and follows the links whose key has not been visited. */
module Crawler {
  import opened Common
  import opened Items
  import opened Strings

  datatype HttpMethod = Get | Head

  /** Which spider callback a request's response is handed to. */
  datatype Callback = Parse | ParseHeaders

  datatype Request = Request(url: string, httpMethod: HttpMethod, callback: Callback)

  /** What the spider sees of a response: its URL, the request that produced it, the decoded
      Content-Type header if one was sent, the href attributes of its anchors in page order,
      the text of its title element if any, and its body text. */
  datatype Response = Response(
    url: string,
    request: Request,
    contentType: Option<string>,
    hrefs: seq<string>,
    title: Option<string>,
    text: string)

  /** One value yielded by a callback. */
  datatype SpiderOutput = Emit(item: ScraperItem) | Follow(request: Request)

  const MailtoScheme: string := "mailto:"
  const HttpsScheme: string := "https://"
  const TextMarker: string := "text"

  /** Decision on a probed URL: re-issue its request as a GET routed to `Parse` exactly when
      a Content-Type header is present and contains "text"; otherwise yield nothing. */
  function ParseHeadersDecision(response: Response): (r: seq<Request>)
    ensures |r| <= 1
    ensures |r| == 1 <==>
              response.contentType.Some? && exists i :: OccursAt(response.contentType.value, TextMarker, i)
    ensures |r| == 1 ==> r[0] == response.request.(httpMethod := Get, callback := Parse)
  {
    if response.contentType.Some? then
      ContainsIffOccurs(response.contentType.value, TextMarker);
      if Contains(response.contentType.value, TextMarker)
      then [response.request.(httpMethod := Get, callback := Parse)]
      else []
    else []
  }

  /** The URL an href leads to: an absolute https link as written, anything else resolved
      against the page URL by `resolve` (reference resolution as in section 5.2 of RFC 3986). */
  function LinkTarget(resolve: (string, string) -> string, base: string, href: string): string
  {
    if StartsWith(href, HttpsScheme) then href else resolve(base, href)
  }

  /** An href is followed when it is not a mailto link and the key of its target is not visited. */
  predicate Followed(digest: string -> string, resolve: (string, string) -> string,
                     base: string, visited: set<string>, href: string)
  {
    !StartsWith(href, MailtoScheme) && digest(LinkTarget(resolve, base, href)) !in visited
  }

  /** The links a page leads the spider to follow, in page order. */
  function LinksToFollow(digest: string -> string, resolve: (string, string) -> string,
                         base: string, hrefs: seq<string>, visited: set<string>): (r: seq<string>)
    ensures |r| <= |hrefs|
    decreases |hrefs|
  {
    if hrefs == [] then []
    else
      var earlier := LinksToFollow(digest, resolve, base, hrefs[..|hrefs| - 1], visited);
      var href := hrefs[|hrefs| - 1];
      if Followed(digest, resolve, base, visited, href)
      then earlier + [LinkTarget(resolve, base, href)]
      else earlier
  }

  /** Links are filtered one by one: the links of a concatenation are the concatenation of
      the links, so page order is kept and repeated links on one page are all followed. */
  lemma {:induction false} LinksToFollowConcat(digest: string -> string, resolve: (string, string) -> string,
                                               base: string, visited: set<string>,
                                               front: seq<string>, back: seq<string>)
    ensures LinksToFollow(digest, resolve, base, front + back, visited)
         == LinksToFollow(digest, resolve, base, front, visited)
          + LinksToFollow(digest, resolve, base, back, visited)
    decreases |back|
  {
    if back != [] {
      var all := front + back;
      assert all[..|all| - 1] == front + back[..|back| - 1];
      assert all[|all| - 1] == back[|back| - 1];
      LinksToFollowConcat(digest, resolve, base, visited, front, back[..|back| - 1]);
    } else {
      assert front + back == front;
    }
  }

  /** A URL is followed exactly when some href on the page leads to it and is followed: mailto
      links never are, and a link is dropped exactly when its key is already visited. */
  lemma {:induction false} LinksToFollowMembership(digest: string -> string, resolve: (string, string) -> string,
                                                   base: string, hrefs: seq<string>, visited: set<string>,
                                                   link: string)
    ensures link in LinksToFollow(digest, resolve, base, hrefs, visited) <==>
              exists j :: 0 <= j < |hrefs| && Followed(digest, resolve, base, visited, hrefs[j])
                          && LinkTarget(resolve, base, hrefs[j]) == link
    decreases |hrefs|
  {
    if hrefs != [] {
      var n := |hrefs| - 1;
      var front := hrefs[..n];
      LinksToFollowMembership(digest, resolve, base, front, visited, link);
      if exists j :: 0 <= j < |hrefs| && Followed(digest, resolve, base, visited, hrefs[j])
                     && LinkTarget(resolve, base, hrefs[j]) == link {
        var j :| 0 <= j < |hrefs| && Followed(digest, resolve, base, visited, hrefs[j])
                 && LinkTarget(resolve, base, hrefs[j]) == link;
        if j < n {
          assert front[j] == hrefs[j];
        }
      }
      if exists j :: 0 <= j < n && Followed(digest, resolve, base, visited, front[j])
                     && LinkTarget(resolve, base, front[j]) == link {
        var j :| 0 <= j < n && Followed(digest, resolve, base, visited, front[j])
                 && LinkTarget(resolve, base, front[j]) == link;
        assert hrefs[j] == front[j];
      }
    }
  }

  /** Every followed link has an unvisited key; no mailto href and no visited key gets through. */
  lemma FollowedLinksAreUnvisited(digest: string -> string, resolve: (string, string) -> string,
                                  base: string, hrefs: seq<string>, visited: set<string>)
    ensures forall link :: link in LinksToFollow(digest, resolve, base, hrefs, visited) ==> digest(link) !in visited
  {
    forall link | link in LinksToFollow(digest, resolve, base, hrefs, visited)
      ensures digest(link) !in visited
    {
      LinksToFollowMembership(digest, resolve, base, hrefs, visited, link);
    }
  }

  /** The page's own key is added only after the scan, so an https self-link is followed
      unless the page's key was visited before. */
  lemma SelfLinkIsFollowedUnlessVisited(digest: string -> string, resolve: (string, string) -> string,
                                        base: string, hrefs: seq<string>, visited: set<string>)
    requires base in hrefs && StartsWith(base, HttpsScheme)
    ensures base in LinksToFollow(digest, resolve, base, hrefs, visited) <==> digest(base) !in visited
  {
    var j :| 0 <= j < |hrefs| && hrefs[j] == base;
    assert base[0] == base[..|HttpsScheme|][0] == 'h';
    assert !StartsWith(base, MailtoScheme);
    LinksToFollowMembership(digest, resolve, base, hrefs, visited, base);
  }

  /** The HEAD probes issued for a list of links, one per link, in order. */
  function ProbeRequests(links: seq<string>): (r: seq<SpiderOutput>)
  {
    seq(|links|, j requires 0 <= j < |links| => Follow(Request(links[j], Head, ParseHeaders)))
  }

  /** The item emitted for a fetched page fetched at `timestamp`. */
  function PageItem(digest: string -> string, response: Response, timestamp: string): ScraperItem
  {
    ScraperItem(digest(response.url), response.text, Metadata(response.title, response.url, timestamp))
  }

  /** The spider object. `digest` is the URL digest that gives page keys (an MD5 hex digest
      of the UTF-8 URL), `resolve` joins a relative reference to a base URL, and
      `visitedUrls` holds the keys of the pages already seen. */
  class HelpdeskSpider {
    const digest: string -> string
    const resolve: (string, string) -> string
    var visitedUrls: set<string>

    /** The visited set starts as the key set of the checkpoint file when it exists and is
        empty otherwise. */
    constructor (digest: string -> string, resolve: (string, string) -> string,
                 checkpointFile: Option<map<string, ScraperItem>>)
      ensures this.digest == digest && this.resolve == resolve
      ensures checkpointFile.Some? ==> visitedUrls == checkpointFile.value.Keys
      ensures checkpointFile.None? ==> visitedUrls == {}
    {
      this.digest := digest;
      this.resolve := resolve;
      if checkpointFile.Some? {
        visitedUrls := checkpointFile.value.Keys;
      } else {
        visitedUrls := {};
      }
    }

    /** The key of a URL; it depends on the URL and the digest only. It is the key of the item
        emitted for any page fetched from that URL, so the spider's visited set and the
        pipeline's buffer use the same keys. */
    function GetKeyFromUrl(url: string): (r: string)
      ensures forall response: Response, timestamp: string ::
                response.url == url ==> PageItem(digest, response, timestamp).key == r
    {
      digest(url)
    }

    /** Scans the hrefs in order and collects the links to follow, yields the page's item,
        marks the page's key visited, then yields one HEAD probe per collected link. */
    method Parse(response: Response, timestamp: string) returns (out: seq<SpiderOutput>)
      modifies this
      ensures visitedUrls == old(visitedUrls) + {digest(response.url)}
      ensures out == [Emit(PageItem(digest, response, timestamp))]
                   + ProbeRequests(LinksToFollow(digest, resolve, response.url, response.hrefs, old(visitedUrls)))
      ensures |out| >= 1 && out[0].Emit? && out[0].item.key == digest(response.url)
      ensures out[0].item.metadata.url == response.url
      ensures forall j :: 1 <= j < |out| ==>
                out[j].Follow? && out[j].request.httpMethod == Head && out[j].request.callback == ParseHeaders
    {
      var baseUrl := response.url;
      var linksToFollow: seq<string> := [];
      var i := 0;
      while i < |response.hrefs|
        invariant 0 <= i <= |response.hrefs|
        invariant linksToFollow == LinksToFollow(digest, resolve, baseUrl, response.hrefs[..i], visitedUrls)
      {
        var link := response.hrefs[i];
        assert response.hrefs[..i + 1][..i] == response.hrefs[..i];
        i := i + 1;
        if StartsWith(link, MailtoScheme) {
          continue;
        }
        if !StartsWith(link, HttpsScheme) {
          link := resolve(baseUrl, link);
        }
        if GetKeyFromUrl(link) in visitedUrls {
          continue;
        }
        linksToFollow := linksToFollow + [link];
      }
      assert response.hrefs[..i] == response.hrefs;

      var metadata := Metadata(response.title, response.url, timestamp);
      var key := GetKeyFromUrl(response.url);
      out := [Emit(ScraperItem(key, response.text, metadata))];

      visitedUrls := visitedUrls + {key};

      var j := 0;
      while j < |linksToFollow|
        invariant 0 <= j <= |linksToFollow|
        invariant out == [Emit(ScraperItem(key, response.text, metadata))] + ProbeRequests(linksToFollow[..j])
      {
        out := out + [Follow(Request(linksToFollow[j], Head, ParseHeaders))];
        j := j + 1;
      }
      assert linksToFollow[..j] == linksToFollow;
    }
  }
}
