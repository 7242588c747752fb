/** `Serve::doit` (src/lib.rs, lines 20-115) with the process left out: the
    command the bridge spawns, and the response it builds from the lines the
    backend prints. */
module Bridge {
  import opened Wrappers
  import CgiEnv
  import CgiResponse

  /** The backend invocation: program, arguments, the variables set on it and
      how the request body is fed to its standard input. */
  datatype Command = Command(
    program: string,
    args: seq<string>,
    env: CgiEnv.Env,
    stdin: CgiEnv.BodyFilter)

  /** Lines 21-41 and 52: `git http-backend` with the CGI environment; the
      body is gunzipped exactly when the first `Content-Encoding` value is
      `gzip`. */
  function CommandFor(root: string, req: CgiEnv.Request): (c: Command)
    ensures c.program == "git" && c.args == ["http-backend"]
    ensures c.env == CgiEnv.BuildEnv(root, req)
    ensures CgiEnv.WellFormedEnv(c.env)
    ensures c.env["PATH_INFO"] == CgiEnv.PathInfo(req.path)
    ensures c.env["GIT_PROJECT_ROOT"] == root
    ensures c.stdin == CgiEnv.Gunzip <==> CgiEnv.Header(req, "Content-Encoding") == "gzip"
  {
    Command("git", ["http-backend"], CgiEnv.BuildEnv(root, req), CgiEnv.StdinFilter(req))
  }

  /** The response handed back to the hosting framework. `body` is what the
      caller reads after the header block. */
  datatype Response = Response(
    status: CgiResponse.StatusLine,
    headers: CgiResponse.HeaderMap,
    body: seq<string>)

  /** Lines 64-108: read the header block of the backend's output, take the
      status out of it and leave the remaining lines as the body. A panic in
      the header loop is the failure. */
  function Respond(output: seq<string>): (r: Result<Response, CgiResponse.Panic>)
    ensures r.Success? <==> CgiResponse.FieldsOf(CgiResponse.Split(output).head).Success?
    ensures r.Success? ==> "Status" !in r.value.headers
    ensures r.Success? ==> r.value.status.reason == "Ok"
    ensures r.Success? ==> r.value.body == CgiResponse.Split(output).body
    ensures r.Failure? ==>
      && r.error.line < |CgiResponse.Split(output).head|
      && CgiResponse.ParseLine(output[r.error.line]) == Failure(r.error.kind)
      && forall j :: 0 <= j < r.error.line ==> CgiResponse.ParseLine(output[j]).Success?
  {
    match CgiResponse.ParseHeaderBlock(output)
    case Failure(p) => Failure(p)
    case Success(block) =>
      var e := CgiResponse.ExtractStatus(block.headers);
      Success(Response(e.status, e.headers, block.body))
  }

  /** `Respond` with the status read by the intended `splitn(2, ' ')`: the
      same outcome, headers and body, and a status whose code is the first
      space-delimited token of `Status`. */
  function RespondIntended(output: seq<string>): (r: Result<Response, CgiResponse.Panic>)
    ensures r.Success? <==> Respond(output).Success?
    ensures r.Failure? ==> r == Respond(output)
    ensures r.Success? ==> r.value.headers == Respond(output).value.headers
    ensures r.Success? ==> r.value.body == Respond(output).value.body
    ensures r.Success? ==>
      r.value.status == CgiResponse.ExtractStatusIntended(CgiResponse.ParseHeaderBlock(output).value.headers).status
  {
    match CgiResponse.ParseHeaderBlock(output)
    case Failure(p) => Failure(p)
    case Success(block) =>
      var e := CgiResponse.ExtractStatusIntended(block.headers);
      Success(Response(e.status, e.headers, block.body))
  }

  /** Every header line other than `Status` is forwarded: the response
      headers are the grouped header lines without `Status`. */
  lemma RespondForwardsHeaders(output: seq<string>, fs: seq<CgiResponse.Field>)
    requires CgiResponse.FieldsOf(CgiResponse.Split(output).head) == Success(fs)
    ensures Respond(output).Success?
    ensures Respond(output).value.headers == CgiResponse.Group(fs) - {"Status"}
  {
  }

  /** Grouping two fields of one name and a `Status` field keeps both values
      of the name in order. */
  lemma GroupTwoAndStatus(name: string, v1: string, v2: string, status: string)
    requires name != "Status"
    ensures CgiResponse.Group([CgiResponse.Field(name, v1), CgiResponse.Field(name, v2), CgiResponse.Field("Status", status)])
      == map[name := [v1, v2], "Status" := [status]]
  {
    var fs := [CgiResponse.Field(name, v1), CgiResponse.Field(name, v2), CgiResponse.Field("Status", status)];
    assert CgiResponse.Names(fs) == {name, "Status"} by {
      assert fs[0] in fs && fs[2] in fs;
    }
    assert fs[..2][..1] == [fs[0]] && [fs[0]][..0] == [] && fs[..2] == [fs[0], fs[1]];
    assert CgiResponse.ValuesFor([fs[0]], name) == [v1];
    assert CgiResponse.ValuesFor(fs[..2], name) == [v1, v2];
    assert CgiResponse.ValuesFor(fs, name) == [v1, v2];
    assert CgiResponse.ValuesFor(fs, "Status") == [status];
  }

  /** An output of two lines for one header name, a `Status` line whose
      value holds a space (`404 Not Found`, say), a blank line and one body
      line: both values are kept in order, `Status` is removed, the status is
      200 `Ok`, and the body is exactly the line after the blank one. */
  lemma RespondExample(name: string, v1: string, v2: string, status: string, body: string)
    requires ':' !in name && name != "Status"
    requires ' ' in status
    ensures Respond([name + ": " + v1, name + ": " + v2, "Status: " + status, "", body])
      == Success(Response(CgiResponse.StatusLine(200, "Ok"), map[name := [v1, v2]], [body]))
  {
    var lines := [name + ": " + v1, name + ": " + v2, "Status: " + status, "", body];
    var g := map[name := [v1, v2], "Status" := [status]];
    ExampleBlock(name, v1, v2, status, body);
    ExampleStatus(name, v1, v2, status);
    RespondFromBlock(lines, CgiResponse.HeaderBlock(g, [body]));
  }

  /** The response is the block's status, its headers without `Status` and
      its body. */
  lemma RespondFromBlock(output: seq<string>, block: CgiResponse.HeaderBlock)
    requires CgiResponse.ParseHeaderBlock(output) == Success(block)
    ensures Respond(output) == Success(Response(
      CgiResponse.ExtractStatus(block.headers).status,
      CgiResponse.ExtractStatus(block.headers).headers,
      block.body))
  {
  }

  /** The header block of the example output. */
  lemma ExampleBlock(name: string, v1: string, v2: string, status: string, body: string)
    requires ':' !in name && name != "Status"
    ensures CgiResponse.ParseHeaderBlock([name + ": " + v1, name + ": " + v2, "Status: " + status, "", body])
      == Success(CgiResponse.HeaderBlock(map[name := [v1, v2], "Status" := [status]], [body]))
  {
    var lines := [name + ": " + v1, name + ": " + v2, "Status: " + status, "", body];
    var fs := [CgiResponse.Field(name, v1), CgiResponse.Field(name, v2), CgiResponse.Field("Status", status)];
    var g := map[name := [v1, v2], "Status" := [status]];
    assert CgiResponse.RenderAll(fs) + [""] + [body] == lines by {
      ExampleRendering(name, v1, v2, status, body);
    }
    assert CgiResponse.Group(fs) == g by {
      GroupTwoAndStatus(name, v1, v2, status);
    }
    assert forall j :: 0 <= j < |fs| ==> ':' !in fs[j].name;
    BlockOfRendering(lines, fs, g, [body]);
  }

  /** An output that renders `fs`, a blank line and `body` reads to the
      grouped fields and that body. */
  lemma BlockOfRendering(lines: seq<string>, fs: seq<CgiResponse.Field>, g: CgiResponse.HeaderMap, body: seq<string>)
    requires forall j :: 0 <= j < |fs| ==> ':' !in fs[j].name
    requires CgiResponse.RenderAll(fs) + [""] + body == lines
    requires CgiResponse.Group(fs) == g
    ensures CgiResponse.ParseHeaderBlock(lines) == Success(CgiResponse.HeaderBlock(g, body))
  {
    CgiResponse.HeaderBlockRoundTrip(fs, body);
  }

  /** The status of the example header map. */
  lemma ExampleStatus(name: string, v1: string, v2: string, status: string)
    requires name != "Status"
    requires ' ' in status
    ensures CgiResponse.ExtractStatus(map[name := [v1, v2], "Status" := [status]])
      == CgiResponse.Extracted(CgiResponse.StatusLine(200, "Ok"), map[name := [v1, v2]])
  {
    var g := map[name := [v1, v2], "Status" := [status]];
    CgiResponse.StatusWithReasonIsDefault(g);
    DropStatus(name, [v1, v2], [status]);
  }

  /** Taking `Status` out of a two-name map leaves the other name alone. */
  lemma DropStatus(name: string, vs: seq<string>, ss: seq<string>)
    requires name != "Status"
    ensures map[name := vs, "Status" := ss] - {"Status"} == map[name := vs]
  {
    var forwarded := map[name := vs, "Status" := ss] - {"Status"};
    assert forwarded.Keys == {name};
    assert forwarded[name] == vs;
  }

  /** The example output is the rendering of its three fields, a blank line
      and the body line. */
  lemma ExampleRendering(name: string, v1: string, v2: string, status: string, body: string)
    ensures CgiResponse.RenderAll([CgiResponse.Field(name, v1), CgiResponse.Field(name, v2), CgiResponse.Field("Status", status)]) + [""] + [body]
      == [name + ": " + v1, name + ": " + v2, "Status: " + status, "", body]
  {
    var rendered := CgiResponse.RenderAll([CgiResponse.Field(name, v1), CgiResponse.Field(name, v2), CgiResponse.Field("Status", status)]);
    assert "Status" + ": " == "Status: ";
    assert rendered == [name + ": " + v1, name + ": " + v2, "Status: " + status];
  }

  /** A header line without a colon aborts the response at that line. */
  lemma RespondPanicsOnMissingColon(head: seq<string>, bad: string, rest: seq<string>)
    requires forall j :: 0 <= j < |head| ==> !CgiResponse.IsSeparator(head[j])
    requires forall j :: 0 <= j < |head| ==> CgiResponse.ParseLine(head[j]).Success?
    requires ':' !in bad && bad != "" && bad != "\r"
    ensures Respond(head + [bad] + rest) == Failure(CgiResponse.Panic(|head|, CgiResponse.NoColon))
  {
    var output := head + [bad] + rest;
    var h := CgiResponse.Split(output).head;
    assert forall j :: 0 <= j <= |head| ==> !CgiResponse.IsSeparator(output[j]);
    assert |head| < |h|;
    var prefix := head + [bad];
    assert h[..|head| + 1] == prefix;
    assert prefix[..|head|] == head;
    assert CgiResponse.FieldsOf(head).Success?;
    assert CgiResponse.FieldsOf(prefix) == Failure(CgiResponse.Panic(|head|, CgiResponse.NoColon));
    CgiResponse.FieldsFailurePersists(h, |head| + 1);
  }
}
