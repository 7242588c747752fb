# git http-backend bridge: CGI translation model

A Dafny model of the protocol translation inside `Serve::doit` of
`conduit-git-http-backend`, the handler that puts `git http-backend` behind
a conduit web application. The handler does two pure jobs around a child
process, and both are modelled here:

- **Request side.** It turns the request metadata into the CGI environment
  of `git http-backend`. That is seven variables: `REQUEST_METHOD`,
  `GIT_PROJECT_ROOT`, `PATH_INFO`, `REMOTE_USER`, `REMOTE_ADDR`,
  `QUERY_STRING` and `CONTENT_TYPE`. It also chooses whether the request
  body is gunzipped on its way to the child.
- **Response side.** It reads the child's output line by line, up to the
  first blank line (`""` or `"\r"`).
  - Every line before that is a `name: value` header. Headers are grouped
    by name, with values in arrival order.
  - The `Status` pseudo-header is taken out of the map and becomes the
    status line.
  - Everything after the blank line is the body.

Modules:

- `Wrappers`: `Option` and `Result`.
- `RustStr`: the Rust string operations the code relies on, with standard
  library semantics. These are `splitn`, `to_ascii_uppercase` and
  `u32::from_str`. `Find` is the search for the separator inside `splitn`.
  It returns a character index; std's `str::find`, which the code does not
  call, would return a byte index.
- `CgiEnv`: the environment mapper, the `header` helper and the body filter
  choice.
- `CgiResponse`: parsing one header line, the header loop, and status
  extraction.
  - The loop is modelled twice. `ReadHeaders` follows the code's loop.
    `Grouped` is a declarative reading: split at the first separator, parse
    every line, then group. `ParseHeaderBlock` proves the two equal on every
    output.
- `Bridge`: the command spawned and the response assembled from the output
  lines.

The model follows the code as written. Where a plain reading of the
protocol expects something else, the model keeps what the code does:

- A `Status: 404 Not Found` line gives status 200 with reason `Ok`, not
  404. The split at line 86 is `splitn(1, ' ')`. It never splits, so the
  whole value `404 Not Found` is parsed as a number, and that parse fails.
  The reason is always `Ok`. See "## Findings".
- A header line without a colon is not skipped and is not reported as an
  error. `parts.next().unwrap()` at line 75 panics. The same goes for a
  value that is empty, or whose first character is not a one-byte UTF-8
  character: `&value[1..]` at line 76 panics. A panic is modelled as a
  `Failure(Panic(line, kind))` result.
- The character after the colon is dropped, whatever one-byte character it is. The name is not
  trimmed. Later colons stay in the value.

## Model

| member | source | states |
|---|---|---|
| RustStr.Find | src/lib.rs:73 | the separator search inside `splitn`: absent exactly when the string lacks the character, otherwise a character index holding it with none before it |
| RustStr.SplitN | src/lib.rs:73 | `splitn(n, sep)`: at most `n` pieces (at least one when `n > 0`) that join back to the input; no piece but the last holds a separator; the last holds one only when all `n` pieces are used |
| RustStr.FirstSeparatorUnique | src/lib.rs:73 | a string cuts at its first separator in only one way, so the name/value split of a header line is determined |
| RustStr.SplitsIntoUnique | src/lib.rs:73 | at most one piece sequence meets the `splitn` contract, so the contract determines the split |
| RustStr.SplitNIsTheSplit | src/lib.rs:86 | any piece sequence meeting the `splitn` contract is what `SplitN` returns |
| RustStr.SplitOnceIsWhole | src/lib.rs:86 | `splitn(1, sep)` returns the whole string as its only piece |
| RustStr.SplitTwoAtFirst | src/lib.rs:73 | `splitn(2, sep)` on `a + sep + b`, where `a` has no separator, gives exactly `[a, b]` |
| RustStr.ToAsciiUppercase | src/lib.rs:27 | the result has no ASCII lower-case letter and equals the input ignoring ASCII case |
| RustStr.UppercaseUnique | src/lib.rs:27 | any string meeting that contract is the upper-cased input, so the contract determines the function |
| RustStr.UppercaseIdempotent | src/lib.rs:27 | upper-casing an already upper-cased method name changes nothing |
| RustStr.ParseU32 | src/lib.rs:88 | the parse succeeds exactly when the text after an optional `+` is one or more ASCII digits whose value fits in 32 bits, and it then yields that value; leading zeros are allowed |
| RustStr.ParseSignedOrPadded | src/lib.rs:88 | a `+` sign or a leading zero in front of the decimal spelling of a 32-bit value still parses to that value |
| RustStr.ParseDecimal | src/lib.rs:88 | the decimal spelling of every 32-bit value parses back to that value |
| RustStr.ParseRejectsSpace | src/lib.rs:88 | a string holding a space never parses as a number |
| CgiEnv.Header | src/lib.rs:111-114 | the first value of the named header, or the empty string when the header is missing or has no value |
| CgiEnv.PathInfo | src/lib.rs:30-37 | the result starts with `/`; it is the path itself exactly when the path starts with `/`, and `/` + path otherwise |
| CgiEnv.PathInfoIdempotent | src/lib.rs:30-37 | normalising a normalised path changes nothing |
| CgiEnv.PathInfoSameIff | src/lib.rs:30-37 | two paths give the same `PATH_INFO` exactly when they are equal or one is the slash-less other with `/` put in front |
| CgiEnv.BuildEnv | src/lib.rs:25-41 | exactly the seven variables; `REMOTE_USER` empty; the method upper-cased, matching the request method ignoring case; root, address, query (or empty) and first `Content-Type` (or empty) passed through; `PATH_INFO` as above |
| CgiEnv.EnvFallbacks | src/lib.rs:40-41 | a missing query string and a missing `Content-Type` both become the empty string |
| CgiEnv.ContentTypeFirstOnly | src/lib.rs:41 | with several `Content-Type` values, only the first reaches the environment |
| CgiEnv.EnvIgnoresOtherHeaders | src/lib.rs:25-41 | the environment depends on the headers only through the first `Content-Type` value |
| CgiEnv.StdinFilter | src/lib.rs:52-57 | the body is gunzipped exactly when the first `Content-Encoding` value is the exact text `gzip` |
| CgiEnv.GzipMustBeFirstAndExact | src/lib.rs:52 | the values `identity` then `gzip`, and the single value `GZIP`, both leave the body as it is |
| CgiResponse.ParseLine | src/lib.rs:73-76 | panics with `NoColon` exactly when the line has no colon; on success the line is the name, a colon, one single-byte character and the value, and the name has no colon |
| CgiResponse.ParseLineIff | src/lib.rs:73-76 | a line parses to a field exactly when it frames that field in this way, in both directions |
| CgiResponse.ParseRendered | src/lib.rs:73-76 | a `name: value` line, with no colon in the name, parses back to its field whatever the value holds |
| CgiResponse.FirstSeparator | src/lib.rs:67-71 | the loop stops at the first line that is empty or a lone `\r`: no earlier line is one, and the one at the index is one |
| CgiResponse.Split | src/lib.rs:67-71 | the output is the header lines, then the separator if there is one, then the body; header lines hold no separator; without a separator the body is empty |
| CgiResponse.FieldsOf | src/lib.rs:67-81 | either every header line parses, one field per line in order, or the result is the first line that panics, with its kind |
| CgiResponse.ValuesFor | src/lib.rs:77-80 | the values stored under a name are empty exactly when no field has that name |
| CgiResponse.Group | src/lib.rs:66-81 | the map's names are exactly the fields' names, and each holds at least one value |
| CgiResponse.Push | src/lib.rs:77-80 | `entry(name).or_insert(Vec::new()).push(value)` appends to that name's values, creates the name if it is new, and leaves other names alone |
| CgiResponse.ReadHeaders | src/lib.rs:67-81 | the loop resumed at line `i` with the map built so far: on success the map only gains names and the body is a suffix of the remaining lines; a panic is at a non-separator line at or after `i` that panics on its own |
| CgiResponse.ParseHeaderBlock | src/lib.rs:66-81 | the code's loop, started from an empty map, agrees on every output with the declarative reading (split, parse, group) |
| CgiResponse.GroupSnoc | src/lib.rs:77-80 | pushing one more field onto the grouped map gives the grouping of the longer sequence |
| CgiResponse.FieldsFailurePersists | src/lib.rs:74-76 | a panic in a prefix of the header lines is the outcome of all of them |
| CgiResponse.ReadHeadersFrom | src/lib.rs:66-81 | the loop, resumed at any header line with the grouping of the lines before it, ends where the declarative reading does |
| CgiResponse.BodyDoesNotReachHeaders | src/lib.rs:67-71 | lines after the separator never affect the headers or the panic, and become exactly the body |
| CgiResponse.SplitAtSeparator | src/lib.rs:69-71 | separator-free header lines, a separator and a body split exactly there |
| CgiResponse.FieldsOfAllParse | src/lib.rs:67-81 | header lines that each parse to the matching field read to exactly those fields |
| CgiResponse.HeaderBlockRoundTrip | src/lib.rs:66-81 | rendering fields as `name: value`, then a blank line and a body, and reading the result gives the grouped fields and exactly that body |
| CgiResponse.ValuesForAppend | src/lib.rs:77-80 | values from earlier lines come before values from later ones |
| CgiResponse.FieldStoredInOrder | src/lib.rs:77-80 | each header line's value is stored under its name, at the position given by the earlier lines with that name |
| CgiResponse.GroupCount | src/lib.rs:66-81 | the grouped map stores exactly one value per header line |
| CgiResponse.StoredValueCount | src/lib.rs:66-81 | on a successful read, the header map's names are the header lines' names, and it stores as many values as there were header lines |
| CgiResponse.StatusValue | src/lib.rs:84-85 | the first `Status` value, or `""` when `Status` is missing or has no value |
| CgiResponse.StatusOf | src/lib.rs:86-93 | the code is what the whole value parses to as a 32-bit number, or 200 when it does not parse; the reason is always `Ok`. `Nth`, the `i`-th `parts.next()`, is present exactly when the split has more than `i` pieces |
| CgiResponse.ExtractStatus | src/lib.rs:83-94 | `Status` is removed and every other header is kept unchanged; the reason is always `Ok`; the code is the parse of the whole first `Status` value, or 200 when that value is missing or does not parse |
| CgiResponse.StatusAbsentIsDefault | src/lib.rs:84-88 | without a `Status` header the status is 200 `Ok` |
| CgiResponse.StatusBareCode | src/lib.rs:86-88 | a first `Status` value that is a bare decimal 32-bit code gives that code, with reason `Ok` |
| CgiResponse.StatusSignedOrPadded | src/lib.rs:86-88 | a first `Status` value of `+` or `0` followed by a decimal 32-bit code gives that code |
| CgiResponse.StatusWithReasonIsDefault | src/lib.rs:86-92 | a first `Status` value holding a space gives 200 `Ok` |
| CgiResponse.NotFoundBecomesOk | src/lib.rs:86-92 | `Status: 404 Not Found` gives 200 `Ok` |
| CgiResponse.StatusOfIntended | src/lib.rs:86-93 | with `splitn(2, ' ')`: the code is the parse of the text before the first space, or 200; the reason is `Not Found` exactly when the text after the first space is `Not Found`, and `Ok` otherwise |
| CgiResponse.ExtractStatusIntended | src/lib.rs:83-94 | with `splitn(2, ' ')`: `Status` is removed and every other header is kept; the code is the parse of the text before the first space of the first `Status` value, or 200; the reason is `Not Found` exactly when the text after the first space is `Not Found`, and `Ok` otherwise |
| CgiResponse.IntendedBareCode | src/lib.rs:86-92 | with `splitn(2, ' ')`, a bare code gives that code with `Ok` |
| CgiResponse.IntendedSignedNotFound | src/lib.rs:86-92 | with `splitn(2, ' ')`, `+<code> Not Found` gives that code with `Not Found` |
| CgiResponse.IntendedStatusReadsCode | src/lib.rs:86-92 | with `splitn(2, ' ')`, `<code> <reason>` gives that code, and the reason `Not Found` is kept |
| Bridge.CommandFor | src/lib.rs:21-52 | runs `git http-backend` with exactly the environment `BuildEnv` builds, so every variable's value carries over from its contract; the body is gunzipped exactly when the first `Content-Encoding` is `gzip` |
| Bridge.Respond | src/lib.rs:64-109 | succeeds exactly when every header line parses; then `Status` is absent from the headers, the reason is `Ok`, and the body is the lines after the separator; a failure names the first header line that panics, every line before it parsing |
| Bridge.RespondIntended | src/lib.rs:83-94 | with the intended status split: the same outcome, headers and body as `Respond`, and the status `ExtractStatusIntended` derives from the header block |
| Bridge.RespondForwardsHeaders | src/lib.rs:83-107 | the response headers are the grouped header lines without `Status` |
| Bridge.RespondFromBlock | src/lib.rs:83-108 | the response is the block's extracted status, its remaining headers and its body |
| Bridge.RespondExample | src/lib.rs:66-108 | two lines for one name, `Status: <value with a space>`, a blank line and a body line give both values in order, no `Status`, 200 `Ok`, and that body line |
| Bridge.RespondPanicsOnMissingColon | src/lib.rs:73-75 | after header lines that parse, a non-blank line without a colon makes the response fail at that line with `NoColon` |

## Left out

- Spawning the process, the pipes and stderr inheritance (lines 42-45) are
  I/O. A spawn failure returns an I/O error there, and that error is not
  modelled.
- Copying the request body into the child (lines 53-56) is I/O.
  Decompression by `GzDecoder` is not modelled either. Only the choice
  between gunzipped and verbatim input is modelled (`StdinFilter`).
- `BufRead::lines` (line 67) is abstracted. The output is given as a
  sequence of lines: line framing is left out, including the stripping of
  both `\n` and `\r\n` terminators. A line that still ends in `\r` after
  that (a lone `\r` line) is what the separator test at line 69 sees. An I/O
  error or invalid UTF-8 while reading a line (`line?` at line 68) returns
  an error there. This model does not produce that error.
- The body is modelled as the remaining lines, not as the byte stream that
  `ProcessAndBuffer` (lines 96-104) hands on. The `Child` handle is moved
  into the body; its lifetime is not modelled.
- `format!("{:?}", req.method())` and `remote_addr().to_string()` come from
  the hosting framework. They are parameters (`methodText`, `remoteAddr`).
  The project root is a string parameter, not a `PathBuf`.
- The framework's header lookup `req.headers().find(name)` is foreign. It
  is modelled as an exact-key map from names to values in arrival order,
  which does not fold case.
- The child inherits the parent's environment besides the seven variables.
  That is process state and is not modelled. A NUL byte in a variable makes
  `Command::spawn` fail; that is not modelled either.
- The `conduit::Handler` wrapper (lines 118-123) only converts the error
  type, and is not modelled.
- CgiResponse.ExtractStatus: the code is a mathematical integer bounded by
  `U32_MAX`, on the assumption that conduit's status code is a `u32`. The
  framework's type is not part of this model.

## Findings

| source | as written | input that shows it | evidently intended | confidence | as-written member | corrected member |
|---|---|---|---|---|---|---|
| src/lib.rs:86 | `line.splitn(1, ' ')` never splits. The whole `Status` value is parsed as the code, and the second `parts.next()` is always `None`. | `Status: 404 Not Found` gives 200 `Ok` | `splitn(2, ' ')`, giving 404 with reason `Not Found` | high; not executed | CgiResponse.NotFoundBecomesOk | CgiResponse.IntendedStatusReadsCode |

`Bridge.Respond` and `CgiResponse.ExtractStatus` model the code as
written. `Bridge.RespondIntended` is the same response with the corrected
status split, built on `CgiResponse.ExtractStatusIntended`.
