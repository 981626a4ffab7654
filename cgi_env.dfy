/**
 * The environment handed to the application handler: the CGI
 * meta-variables of RFC 3875, section 4.1, rebuilt from the request.
 */
module CgiEnv {
  import opened Common

  /** `req.meta_vars`: meta-variable name to value. */
  type MetaVars = map<string, string>

  /** The handler's environment; a value may be nil (`QUERY_STRING` of a request without a query). */
  type Env = map<string, Option<string>>

  /** What the handler is given: its environment table and its standard input. */
  datatype Cgi = Cgi(env: Env, stdin: string)

  /**
   * The environment built from meta-variables `meta`, the request URI's
   * query component `query` and the optional re-dispatch origin `origin`.
   */
  function EnvTable(meta: MetaVars, query: Option<string>, origin: Option<string>): (env: Env)
    ensures "SCRIPT_NAME" !in env
    ensures "QUERY_STRING" in env && env["QUERY_STRING"] == query
    ensures origin.Some? ==> "REQUEST_URI" in env && env["REQUEST_URI"] == origin
    ensures forall k :: k in meta && k != "SCRIPT_NAME" && k != "QUERY_STRING" && !(k == "REQUEST_URI" && origin.Some?)
                        ==> k in env && env[k] == Some(meta[k])
    ensures forall k :: k in env ==> k in meta || k == "QUERY_STRING" || k == "REQUEST_URI"
    ensures "REQUEST_URI" in env ==> "REQUEST_URI" in meta || origin.Some?
  {
    var keys := (meta.Keys - {"SCRIPT_NAME"}) + {"QUERY_STRING"} + (if origin.Some? then {"REQUEST_URI"} else {});
    map k | k in keys ::
      if k == "QUERY_STRING" then query
      else if k == "REQUEST_URI" && origin.Some? then origin
      else Some(meta[k])
  }
}
