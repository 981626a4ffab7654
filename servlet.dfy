/**
 * `DispatchServlet`: serve a request from the file tree when possible,
 * otherwise run the application handler behind the serialization gate and
 * write its translated output into the response, or end in NotFound.
 */
module Servlet {
  import opened Common
  import opened Http
  import opened StaticPath
  import opened CgiEnv
  import opened Translator
  import opened Gate

  /** How `service` ends: normally, or by raising NotFound with this message. */
  datatype ServiceOutcome = Handled | NotFound(message: string)

  /** The message of the NotFound raised for an unmatched request path. */
  function NotFoundMessage(path: string): (m: string)
    ensures |m| == |path| + 13 && m[0] == '`'
    ensures m[1..|path| + 1] == path && m[|path| + 1..] == "' not found."
  {
    "`" + path + "' not found."
  }

  /** The private copy `handle_file` hands to the file server: only its `path_info` differs. */
  function StaticRequest(req: Request): (copy: Request)
    ensures copy.pathInfo == RewritePath(req.path) && '+' !in copy.pathInfo
    ensures copy.path == req.path && copy.metaVars == req.metaVars
    ensures copy.query == req.query && copy.body == req.body
  {
    req.(pathInfo := RewritePath(req.path))
  }

  /**
   * The response after `handle_file`: PartialContent and NotModified set
   * their status. `set_error` is reduced to that status; the content type
   * and error page it also writes are not represented.
   */
  function AfterStaticAttempt(file: FileOutcome, before: ResponseState): (after: ResponseState)
    ensures after.header == before.header && after.cookies == before.cookies && after.body == before.body
    ensures file == PartialContent ==> after.status == 206
    ensures file == NotModified ==> after.status == 304
    ensures file == Served || file == FileError ==> after == before
  {
    match file
    case PartialContent => before.(status := 206)
    case NotModified => before.(status := 304)
    case _ => before
  }

  /** The handler input `create_cgi` builds. */
  function CgiFor(req: Request, origin: Option<string>): (cgi: Cgi)
    ensures cgi.env == EnvTable(req.metaVars, req.query, origin)
    ensures cgi.stdin == (if req.body.Some? then req.body.value else "")
  {
    Cgi(EnvTable(req.metaVars, req.query, origin), req.body.GetOr(""))
  }

  /**
   * The response after `handle_dispatch`: a status set by `assign_status`
   * stays even when a later step raises; cookies, headers and body are only
   * written when nothing raised.
   */
  function AfterDispatch(t: Translation, before: ResponseState): ResponseState {
    var withStatus := if t.status.Some? then before.(status := t.status.value) else before;
    match t
    case Aborted(_) => withStatus
    case Translated(_, cookies, header, body) =>
      withStatus.(cookies := before.cookies + cookies, header := before.header + header, body := body)
  }

  /**
   * What `handle_dispatch` leaves in the response: the status when one was
   * assigned, even if a later step raised; and only on success the cookies
   * appended, every translated header written over the old ones and the
   * body replaced.
   */
  lemma {:induction false} AfterDispatchEffect(t: Translation, before: ResponseState)
    ensures var after := AfterDispatch(t, before);
            && after.status == (if t.status.Some? then t.status.value else before.status)
            && (t.Aborted? ==> after.header == before.header && after.cookies == before.cookies && after.body == before.body)
            && (t.Translated? ==>
                  && after.cookies == before.cookies + t.cookies
                  && after.body == t.body
                  && after.header.Keys == before.header.Keys + t.header.Keys
                  && (forall k :: k in t.header ==> after.header[k] == t.header[k])
                  && (forall k :: k in before.header && k !in t.header ==> after.header[k] == before.header[k]))
  {
  }

  class DispatchServlet {
    /** `RAILS_ENV` */
    const railsEnv: string
    /** Whether `REQUEST_MUTEX` is held. */
    var locked: bool
    /** Every gate event and handler invocation so far. */
    ghost var gateLog: seq<GateEvent>

    predicate Production() {
      railsEnv == "production"
    }

    /** Every past event was in order, and replaying them gives the mutex's actual state. */
    ghost predicate InSync()
      reads this
    {
      Run(!Production(), false, gateLog) == Some(locked)
    }

    /** Between requests the gate is free and every past event was in order. */
    ghost predicate Valid()
      reads this
    {
      !locked && InSync()
    }

    constructor (railsEnv: string)
      ensures this.railsEnv == railsEnv && Valid() && gateLog == []
    {
      this.railsEnv := railsEnv;
      locked := false;
      gateLog := [];
    }

    /**
     * `service(req, res)` with the file server, the application handler and
     * the header parser as parameters.
     */
    method Service(req: Request, res: Response, fileServer: Request -> FileOutcome,
                   handler: Cgi -> Option<string>, parse: string -> Option<HeaderMap>)
      returns (outcome: ServiceOutcome)
      requires Valid()
      modifies this, res
      ensures Valid()
      ensures var file := fileServer(StaticRequest(req));
              var staticHit := file != FileError;
              && gateLog == old(gateLog) + RequestEvents(!Production(), staticHit)
              && (staticHit ==> outcome == Handled && res.State() == AfterStaticAttempt(file, old(res.State())))
              && (!staticHit ==>
                    var t := TranslateOutput(handler(CgiFor(req, None)), parse);
                    && outcome == (if t.Translated? then Handled else NotFound(NotFoundMessage(req.path)))
                    && res.State() == AfterDispatch(t, old(res.State())))
    {
      var staticHit := HandleFile(req, res, fileServer);
      if staticHit {
        outcome := Handled;
      } else {
        if !Production() {
          Lock();
        }
        var dispatched := HandleDispatch(req, res, None, handler, parse);
        if dispatched {
          outcome := Handled;
        } else {
          outcome := NotFound(NotFoundMessage(req.path));
        }
      }
      ghost var beforeRelease := gateLog;
      assert locked == (!staticHit && !Production());
      // the `ensure` clause
      if !Production() && locked {
        Unlock();
      }
      assert staticHit ==> gateLog == old(gateLog);
      assert !staticHit && Production() ==> gateLog == old(gateLog) + [Invoke];
      assert !staticHit && !Production() ==> beforeRelease == old(gateLog) + [Acquire] + [Invoke];
      assert !staticHit && !Production() ==> gateLog == beforeRelease + [Release];
      SerializedMissEvents(old(gateLog));
      RequestLeavesGateFree(!Production(), staticHit, old(gateLog));
    }

    /** `REQUEST_MUTEX.lock`: the mutex is free and becomes held. */
    method Lock()
      requires InSync() && !locked && !Production()
      modifies this`locked, this`gateLog
      ensures locked && gateLog == old(gateLog) + [Acquire] && InSync()
    {
      locked := true;
      gateLog := gateLog + [Acquire];
      RunAppend(!Production(), false, old(gateLog), [Acquire]);
    }

    /** `REQUEST_MUTEX.unlock`: the mutex is held and becomes free. */
    method Unlock()
      requires InSync() && locked
      modifies this`locked, this`gateLog
      ensures !locked && gateLog == old(gateLog) + [Release] && InSync()
    {
      locked := false;
      gateLog := gateLog + [Release];
      RunAppend(!Production(), false, old(gateLog), [Release]);
    }

    /** `handle_file(req, res)`: true when the static attempt answered the request. */
    method HandleFile(req: Request, res: Response, fileServer: Request -> FileOutcome)
      returns (staticHit: bool)
      modifies res
      ensures var file := fileServer(StaticRequest(req));
              && staticHit == (file != FileError)
              && res.State() == AfterStaticAttempt(file, old(res.State()))
    {
      var copy := req;
      var path := copy.path;
      if path != "/" && HtmlPattern(path) {
        path := path + ".html";
      }
      path := ReplacePlus(path);
      copy := copy.(pathInfo := path);
      var file := fileServer(copy);
      match file {
        case Served =>
          staticHit := true;
        case PartialContent =>
          res.status := 206;
          staticHit := true;
        case NotModified =>
          res.status := 304;
          staticHit := true;
        case FileError =>
          staticHit := false;
      }
    }

    /**
     * `handle_dispatch(req, res, origin)`: run the handler on the request's
     * environment and translate what it wrote; false when anything raised.
     */
    method HandleDispatch(req: Request, res: Response, origin: Option<string>,
                          handler: Cgi -> Option<string>, parse: string -> Option<HeaderMap>)
      returns (dispatched: bool)
      requires InSync() && (!Production() ==> locked)
      modifies this`gateLog, res
      ensures gateLog == old(gateLog) + [Invoke] && InSync()
      ensures var t := TranslateOutput(handler(CgiFor(req, origin)), parse);
              && dispatched == t.Translated?
              && res.State() == AfterDispatch(t, old(res.State()))
    {
      var cgi := CreateCgi(req, origin);
      gateLog := gateLog + [Invoke];
      RunAppend(!Production(), false, old(gateLog), [Invoke]);
      assert InSync();
      var output := handler(cgi);
      dispatched := WriteOutput(res, output, parse);
    }

    /**
     * Lines 93-98 of `handle_dispatch`: translate what the handler wrote
     * (None when it raised) into the response; false when a step raised.
     */
    method WriteOutput(res: Response, output: Option<string>, parse: string -> Option<HeaderMap>)
      returns (written: bool)
      modifies res
      ensures var t := TranslateOutput(output, parse);
              && written == t.Translated?
              && res.State() == AfterDispatch(t, old(res.State()))
    {
      ghost var t := TranslateOutput(output, parse);
      if output.None? {
        assert t == Aborted(None);
        return false;
      }
      var extracted := ExtractHeaderAndBody(output.value, parse);
      if extracted.None? {
        assert t == Aborted(None);
        return false;
      }
      var (header, body) := extracted.value;
      ghost var status := StatusCode(header);
      header := AssignStatus(res, header);
      if "set-cookie" !in header {
        // `res.cookies.concat(nil)` raises
        assert t == Aborted(status);
        return false;
      }
      assert t == Translated(status, header["set-cookie"], JoinHeaders(header - {"set-cookie"}), body);
      res.cookies := res.cookies + header["set-cookie"];
      header := header - {"set-cookie"};
      ApplyHeaders(res, header);
      res.body := body;
      written := true;
    }

    /** `create_cgi(req, origin)` */
    method CreateCgi(req: Request, origin: Option<string>) returns (cgi: Cgi)
      ensures cgi == CgiFor(req, origin)
    {
      var env := CreateEnvTable(req, origin);
      var stdin := if req.body.Some? then req.body.value else "";
      cgi := Cgi(env, stdin);
    }

    /** `create_env_table(req, origin)`: clone the meta-variables, then edit the clone. */
    method CreateEnvTable(req: Request, origin: Option<string>) returns (env: Env)
      ensures env == EnvTable(req.metaVars, req.query, origin)
    {
      env := map k | k in req.metaVars :: Some(req.metaVars[k]);
      env := env - {"SCRIPT_NAME"};
      env := env["QUERY_STRING" := req.query];
      if origin.Some? {
        env := env["REQUEST_URI" := origin];
      }
    }

    /** `assign_status(res, header)`, returning the header map after its `delete`. */
    method AssignStatus(res: Response, header: HeaderMap) returns (rest: HeaderMap)
      modifies res`status
      ensures StatusCode(header).Some? ==> res.status == StatusCode(header).value && rest == header - {"status"}
      ensures StatusCode(header).None? ==> res.status == old(res.status) && rest == header
    {
      rest := header;
      var code := StatusCode(header);
      if code.Some? {
        res.status := code.value;
        rest := rest - {"status"};
      }
    }

    /** `header.each { |key, val| res[key] = val.join(", ") }` */
    method ApplyHeaders(res: Response, header: HeaderMap)
      modifies res`header
      ensures res.header == old(res.header) + JoinHeaders(header)
    {
      var pending := header.Keys;
      assert header - pending == map[];
      while pending != {}
        invariant pending <= header.Keys
        invariant res.header == old(res.header) + JoinHeaders(header - pending)
        decreases pending
      {
        var key :| key in pending;
        WriteOneHeader(old(res.header), header, pending, key);
        res.header := res.header[key := Join(header[key], ", ")];
        pending := pending - {key};
      }
      assert header - pending == header;
    }
  }
}
