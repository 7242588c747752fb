/** The CGI environment the bridge hands to `git http-backend`, built from
    the request metadata (src/lib.rs, lines 25-41 and the `header` helper at
    lines 111-114), and the choice of request-body filter (line 52). */
module CgiEnv {
  import opened Wrappers
  import RustStr

  /** The request metadata the mapper reads. `methodText` is the debug
      rendering of the request method and `remoteAddr` the text of the peer
      address; both come formatted from the hosting framework. `headers` is
      the framework's header lookup: a name maps to its values in arrival
      order, and a name it does not know is absent. */
  datatype Request = Request(
    methodText: string,
    path: string,
    query: Option<string>,
    remoteAddr: string,
    headers: map<string, seq<string>>)

  /** Variable name to value. */
  type Env = map<string, string>

  /** The seven variables the bridge always sets. */
  const RequiredVars: set<string> :=
    {"REQUEST_METHOD", "GIT_PROJECT_ROOT", "PATH_INFO", "REMOTE_USER",
     "REMOTE_ADDR", "QUERY_STRING", "CONTENT_TYPE"}

  predicate StartsWithSlash(s: string) { |s| > 0 && s[0] == '/' }

  /** The `header` helper: the first value of header `name`, or the empty
      string when the header is missing or has no value. */
  function Header(req: Request, name: string): (v: string)
    ensures name in req.headers && |req.headers[name]| > 0 ==> v == req.headers[name][0]
    ensures name !in req.headers || |req.headers[name]| == 0 ==> v == ""
  {
    var values := if name in req.headers then req.headers[name] else [];
    if |values| > 0 then values[0] else ""
  }

  /** `PATH_INFO`: the request path with a `/` put in front unless it already
      starts with one. The result always starts with `/`, and it is the path
      itself exactly when the path already did. */
  function PathInfo(path: string): (p: string)
    ensures StartsWithSlash(p)
    ensures p == path || p == "/" + path
    ensures p == path <==> StartsWithSlash(path)
  {
    if StartsWithSlash(path) then path else "/" + path
  }

  /** Normalising an already normalised path changes nothing. */
  lemma PathInfoIdempotent(path: string)
    ensures PathInfo(PathInfo(path)) == PathInfo(path)
  {
  }

  /** Two paths give the same `PATH_INFO` exactly when they are equal or one
      is the other, which lacks a leading `/`, with a `/` put in front. */
  lemma PathInfoSameIff(p1: string, p2: string)
    ensures PathInfo(p1) == PathInfo(p2) <==>
      (p1 == p2 || (p2 == "/" + p1 && !StartsWithSlash(p1)) || (p1 == "/" + p2 && !StartsWithSlash(p2)))
  {
    if PathInfo(p1) == PathInfo(p2) && !StartsWithSlash(p1) && !StartsWithSlash(p2) {
      assert p1 == PathInfo(p1)[1..] == PathInfo(p2)[1..] == p2;
    }
  }

  /** What a well-formed environment holds whatever the request: all seven
      variables, no user identity and a `PATH_INFO` starting with `/`. */
  predicate WellFormedEnv(env: Env)
  {
    && env.Keys == RequiredVars
    && env["REMOTE_USER"] == ""
    && StartsWithSlash(env["PATH_INFO"])
    && forall i :: 0 <= i < |env["REQUEST_METHOD"]| ==> !RustStr.IsAsciiLower(env["REQUEST_METHOD"][i])
  }

  /** The environment of `Serve::doit`. `root` is the configured project
      root. */
  function BuildEnv(root: string, req: Request): (env: Env)
    ensures WellFormedEnv(env)
    ensures RustStr.EqIgnoreAsciiCase(env["REQUEST_METHOD"], req.methodText)
    ensures env["GIT_PROJECT_ROOT"] == root
    ensures env["REMOTE_ADDR"] == req.remoteAddr
    ensures env["PATH_INFO"] == req.path <==> StartsWithSlash(req.path)
    ensures env["PATH_INFO"] != req.path ==> env["PATH_INFO"] == "/" + req.path
    ensures env["QUERY_STRING"] == req.query.UnwrapOr("")
    ensures env["CONTENT_TYPE"] == Header(req, "Content-Type")
  {
    map[
      "REQUEST_METHOD" := RustStr.ToAsciiUppercase(req.methodText),
      "GIT_PROJECT_ROOT" := root,
      "PATH_INFO" := PathInfo(req.path),
      "REMOTE_USER" := "",
      "REMOTE_ADDR" := req.remoteAddr,
      "QUERY_STRING" := req.query.UnwrapOr(""),
      "CONTENT_TYPE" := Header(req, "Content-Type")]
  }

  /** Absent query string and `Content-Type` header both fall back to the
      empty string. */
  lemma EnvFallbacks(root: string, req: Request)
    requires req.query.None?
    requires "Content-Type" !in req.headers
    ensures BuildEnv(root, req)["QUERY_STRING"] == ""
    ensures BuildEnv(root, req)["CONTENT_TYPE"] == ""
  {
  }

  /** Only the first `Content-Type` value reaches the environment; later ones
      are ignored. */
  lemma ContentTypeFirstOnly(root: string, req: Request, first: string, more: seq<string>)
    requires "Content-Type" in req.headers && req.headers["Content-Type"] == [first] + more
    ensures BuildEnv(root, req)["CONTENT_TYPE"] == first
  {
  }

  /** The environment depends on the headers only through the first
      `Content-Type` value. */
  lemma EnvIgnoresOtherHeaders(root: string, req: Request, headers': map<string, seq<string>>)
    requires Header(req, "Content-Type") == Header(req.(headers := headers'), "Content-Type")
    ensures BuildEnv(root, req) == BuildEnv(root, req.(headers := headers'))
  {
  }

  /** How the request body reaches the backend's standard input. */
  datatype BodyFilter = Gunzip | Verbatim

  /** The body is gunzipped exactly when the first `Content-Encoding` value
      is the exact text `gzip`. */
  function StdinFilter(req: Request): (f: BodyFilter)
    ensures f == Gunzip <==>
      "Content-Encoding" in req.headers && |req.headers["Content-Encoding"]| > 0
      && req.headers["Content-Encoding"][0] == "gzip"
  {
    if Header(req, "Content-Encoding") == "gzip" then Gunzip else Verbatim
  }

  /** A `gzip` that is not the first `Content-Encoding` value, or differs in
      case, leaves the body as it is. */
  lemma GzipMustBeFirstAndExact(req: Request)
    requires "Content-Encoding" in req.headers
    requires req.headers["Content-Encoding"] == ["identity", "gzip"]
      || req.headers["Content-Encoding"] == ["GZIP"]
    ensures StdinFilter(req) == Verbatim
  {
  }
}
