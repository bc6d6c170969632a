/** What the pipeline sees of the web: HTTP replies, parsed HTML pages, URL parsing,
    and the network itself as an object that answers requests and remembers them. */
module Web {
  import opened Basics

  /** The response headers the code reads (`hr.headers.get(...)`); an absent header is None. */
  datatype Headers = Headers(
    contentType: Option<string>,
    contentLength: Option<string>,
    etag: Option<string>,
    lastModified: Option<string>)

  /** An `<img>` tag as BeautifulSoup gives it: `img.get("src") or ""`, `img.get("alt") or ""`. */
  datatype ImgTag = ImgTag(src: string, alt: string)

  /** A parsed HTML page: its `<img>` tags and the `href` of every `<a href=...>`, in document order. */
  datatype Page = Page(images: seq<ImgTag>, hrefs: seq<string>)

  /** The answer to one request: a response, or the exception `requests` raised
      (timeout, DNS or TLS failure) with its message. `page` is the parse of the body. */
  datatype Reply =
    | Answered(status: int, headers: Headers, content: Bytes, page: Page)
    | Raised(message: string)

  datatype Request = Head(url: string) | Get(url: string)

  /** `urljoin`, `urlparse(...).netloc` and `urlparse(...).path`, which the model takes as given. */
  datatype UrlOps = UrlOps(
    join: (string, string) -> string,
    netloc: string -> string,
    path: string -> string)

  /** The network. `server(req, n)` is the reply to `req` when it is the n-th request made,
      so a resource may answer differently from one request to the next; `log` lists the
      requests made so far. */
  class Network {
    const server: (Request, nat) -> Reply
    var log: seq<Request>

    constructor (server: (Request, nat) -> Reply)
      ensures this.server == server && log == []
    {
      this.server := server;
      log := [];
    }

    method Send(req: Request) returns (reply: Reply)
      modifies this
      ensures log == old(log) + [req]
      ensures reply == server(req, |old(log)|)
    {
      reply := server(req, |log|);
      log := log + [req];
    }
  }
}
