/** The HTTP server's request and response objects, as far as the servlet uses them. */
module Http {
  import opened Common

  /**
   * A request: its full `path`, the `path_info` the file server resolves,
   * its CGI meta-variables, the query component of its URI and its body.
   */
  datatype Request = Request(
    path: string,
    pathInfo: string,
    metaVars: map<string, string>,
    query: Option<string>,
    body: Option<string>)

  /**
   * How the file server's `service` ends: it served the file, it raised
   * PartialContent or NotModified, or it raised anything else (a missing
   * file among them).
   */
  datatype FileOutcome = Served | PartialContent | NotModified | FileError

  /** The parts of a response the servlet writes. */
  datatype ResponseState = ResponseState(
    status: int,
    header: map<string, string>,
    cookies: seq<string>,
    body: Option<string>)

  class Response {
    var status: int
    var header: map<string, string>
    var cookies: seq<string>
    var body: Option<string>

    function State(): ResponseState
      reads this
    {
      ResponseState(status, header, cookies, body)
    }
  }
}
