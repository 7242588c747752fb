/** The CGI response side of `Serve::doit` (src/lib.rs, lines 64-94 and 108):
    the backend's output, already split into lines, is read up to and
    including the first blank line; every line before it is a `name: value`
    header; the `Status` pseudo-header is then taken out of the header map
    and turned into the status line, and the unread lines are the body. */
module CgiResponse {
  import opened Wrappers
  import RustStr

  /** Header name to its values in arrival order (a `HashMap<String, Vec<String>>`). */
  type HeaderMap = map<string, seq<string>>

  /** One parsed header line. */
  datatype Field = Field(name: string, value: string)

  /** The two ways the header loop panics. */
  datatype PanicKind =
    | NoColon          // `parts.next().unwrap()` on a line holding no `:`
    | SliceOutOfRange  // `&value[1..]` when byte 1 of the value is not a char boundary

  /** A panic while reading header line number `line` (counted from 0). */
  datatype Panic = Panic(line: nat, kind: PanicKind)

  /** The line that ends the header block: empty, or a lone carriage return. */
  predicate IsSeparator(line: string) { line == "" || line == "\r" }

  /** A character UTF-8 encodes in one byte, so that byte 1 of a string
      starting with it is a char boundary. */
  predicate IsSingleByte(c: char) { c as int < 0x80 }

  // ---------------------------------------------------------------------------
  // One header line

  /** `line` is `f.name`, a colon, one single-byte character and `f.value`,
      and `f.name` holds no colon. */
  predicate Frames(line: string, f: Field)
  {
    && ':' !in f.name
    && |line| == |f.name| + 2 + |f.value|
    && line[..|f.name|] == f.name
    && line[|f.name|] == ':'
    && IsSingleByte(line[|f.name| + 1])
    && line[|f.name| + 2..] == f.value
  }

  /** Lines 73-76: split at the first colon, keep the name untrimmed and drop
      the first character of the value. */
  function ParseLine(line: string): (r: Result<Field, PanicKind>)
    ensures r == Failure(NoColon) <==> ':' !in line
    ensures r.Success? ==> Frames(line, r.value)
  {
    var parts := RustStr.SplitN(line, 2, ':');
    if |parts| < 2 then Failure(NoColon)
    else
      assert line == parts[0] + [':'] + parts[1];
      var value := parts[1];
      if |value| == 0 || !IsSingleByte(value[0]) then Failure(SliceOutOfRange)
      else
        assert line[|parts[0]| + 2..] == value[1..];
        Success(Field(parts[0], value[1..]))
  }

  /** A line parses to `f` exactly when it frames `f`: the name is the text
      before the first colon and the value everything after the character
      following it, further colons included. */
  lemma ParseLineIff(line: string, f: Field)
    ensures ParseLine(line) == Success(f) <==> Frames(line, f)
  {
    if Frames(line, f) {
      var rest := line[|f.name| + 1..];
      assert line == f.name + [':'] + rest;
      RustStr.SplitTwoAtFirst(f.name, rest, ':');
      assert rest[1..] == f.value;
    }
  }

  /** The conventional `name: value` rendering of a field. */
  function Render(f: Field): string
  {
    f.name + ": " + f.value
  }

  /** Rendering a field whose name holds no colon and parsing it back gives
      the field back, whatever colons its value holds. */
  lemma ParseRendered(f: Field)
    requires ':' !in f.name
    ensures ParseLine(Render(f)) == Success(f)
  {
    var line := Render(f);
    assert line[..|f.name|] == f.name;
    assert line[|f.name| + 2..] == f.value;
    ParseLineIff(line, f);
  }

  // ---------------------------------------------------------------------------
  // Where the header block ends

  /** Index of the first separator line, or `|lines|` when there is none. */
  function FirstSeparator(lines: seq<string>): (k: nat)
    ensures k <= |lines|
    ensures forall j :: 0 <= j < k ==> !IsSeparator(lines[j])
    ensures k < |lines| ==> IsSeparator(lines[k])
  {
    if |lines| == 0 || IsSeparator(lines[0]) then 0
    else 1 + FirstSeparator(lines[1..])
  }

  /** The output cut at its first separator line: the header lines before
      it, the separator itself when there is one, and the body after it. */
  datatype Sections = Sections(head: seq<string>, separator: Option<string>, body: seq<string>)

  /** The lines the header loop consumes and the ones it leaves for the body.
      The head holds no separator, the three parts put back together are the
      whole output, and without a separator the body is empty. */
  function Split(lines: seq<string>): (s: Sections)
    ensures forall j :: 0 <= j < |s.head| ==> !IsSeparator(s.head[j])
    ensures s.separator.Some? ==> IsSeparator(s.separator.value)
    ensures s.separator.None? ==> s.body == []
    ensures lines == s.head + (if s.separator.Some? then [s.separator.value] else []) + s.body
  {
    var k := FirstSeparator(lines);
    if k < |lines| then
      assert lines == lines[..k] + [lines[k]] + lines[k + 1..];
      Sections(lines[..k], Some(lines[k]), lines[k + 1..])
    else Sections(lines, None, [])
  }

  // ---------------------------------------------------------------------------
  // Declarative reading of the header block

  /** Every header line parsed on its own; the first line that does not
      parse decides the panic. */
  function FieldsOf(head: seq<string>): (r: Result<seq<Field>, Panic>)
    ensures r.Success? ==>
      && |r.value| == |head|
      && forall j :: 0 <= j < |head| ==> ParseLine(head[j]) == Success(r.value[j])
    ensures r.Failure? ==>
      && r.error.line < |head|
      && ParseLine(head[r.error.line]) == Failure(r.error.kind)
      && forall j :: 0 <= j < r.error.line ==> ParseLine(head[j]).Success?
  {
    if |head| == 0 then Success([])
    else
      var init := head[..|head| - 1];
      match FieldsOf(init)
      case Failure(p) =>
        FieldsStepPanicked(head, init, p);
        Failure(p)
      case Success(fs) =>
        match ParseLine(head[|head| - 1])
        case Failure(kind) =>
          FieldsStepParsed(head, init, fs);
          Failure(Panic(|head| - 1, kind))
        case Success(f) =>
          FieldsStepExtended(head, init, fs, f);
          Success(fs + [f])
  }

  /** The lines before the last that parse on their own still parse when
      the last is added. */
  lemma FieldsStepParsed(head: seq<string>, init: seq<string>, fs: seq<Field>)
    requires |head| > 0 && init == head[..|head| - 1] && |fs| == |init|
    requires forall j :: 0 <= j < |fs| ==> ParseLine(init[j]) == Success(fs[j])
    ensures forall j :: 0 <= j < |fs| ==> ParseLine(head[j]) == Success(fs[j])
  {
    assert forall j :: 0 <= j < |fs| ==> init[j] == head[j];
  }

  /** The fields of the lines before the last, extended by the field of the
      last line, are the fields of every line. */
  lemma FieldsStepExtended(head: seq<string>, init: seq<string>, fs: seq<Field>, f: Field)
    requires |head| > 0 && init == head[..|head| - 1] && |fs| == |init|
    requires forall j :: 0 <= j < |fs| ==> ParseLine(init[j]) == Success(fs[j])
    requires ParseLine(head[|head| - 1]) == Success(f)
    ensures forall j :: 0 <= j < |head| ==> ParseLine(head[j]) == Success((fs + [f])[j])
  {
    FieldsStepParsed(head, init, fs);
    assert forall j :: 0 <= j < |fs| ==> (fs + [f])[j] == fs[j];
  }

  /** A panic among the lines before the last stays the first panic. */
  lemma FieldsStepPanicked(head: seq<string>, init: seq<string>, p: Panic)
    requires |head| > 0 && init == head[..|head| - 1] && p.line < |init|
    requires ParseLine(init[p.line]) == Failure(p.kind)
    requires forall j :: 0 <= j < p.line ==> ParseLine(init[j]).Success?
    ensures ParseLine(head[p.line]) == Failure(p.kind)
    ensures forall j :: 0 <= j < p.line ==> ParseLine(head[j]).Success?
  {
    assert forall j :: 0 <= j <= p.line ==> init[j] == head[j];
  }

  /** The values of the fields named `name`, in arrival order. */
  function ValuesFor(fs: seq<Field>, name: string): (vs: seq<string>)
    ensures |vs| <= |fs|
    ensures vs == [] <==> forall j :: 0 <= j < |fs| ==> fs[j].name != name
  {
    if |fs| == 0 then []
    else
      var last := fs[|fs| - 1];
      ValuesFor(fs[..|fs| - 1], name) + (if last.name == name then [last.value] else [])
  }

  /** The names that occur in `fs`. */
  function Names(fs: seq<Field>): set<string>
  {
    set f | f in fs :: f.name
  }

  /** The multi-value header map of a field sequence: each name that occurs
      maps to its values in arrival order. */
  function Group(fs: seq<Field>): (m: HeaderMap)
    ensures m.Keys == Names(fs)
    ensures forall n :: n in m ==> |m[n]| > 0
  {
    map n | n in Names(fs) :: ValuesFor(fs, n)
  }

  /** What reading the header block yields. */
  datatype HeaderBlock = HeaderBlock(headers: HeaderMap, body: seq<string>)

  /** The header block as the declarative reading defines it. */
  function Grouped(lines: seq<string>): Result<HeaderBlock, Panic>
  {
    var s := Split(lines);
    match FieldsOf(s.head)
    case Failure(p) => Failure(p)
    case Success(fs) => Success(HeaderBlock(Group(fs), s.body))
  }

  // ---------------------------------------------------------------------------
  // The header loop

  /** `headers.entry(name).or_insert(Vec::new()).push(value)`. */
  function Push(m: HeaderMap, f: Field): (m': HeaderMap)
    ensures m'.Keys == m.Keys + {f.name}
    ensures f.name in m ==> m'[f.name] == m[f.name] + [f.value]
    ensures f.name !in m ==> m'[f.name] == [f.value]
    ensures forall n :: n in m && n != f.name ==> m'[n] == m[n]
  {
    m[f.name := (if f.name in m then m[f.name] else []) + [f.value]]
  }

  /** The loop of lines 67-81 from line `i` on, with `acc` the map built so
      far. A separator stops it and leaves the rest as the body; running out
      of lines leaves an empty body. */
  function ReadHeaders(lines: seq<string>, i: nat, acc: HeaderMap): (r: Result<HeaderBlock, Panic>)
    requires i <= |lines|
    ensures r.Success? ==> acc.Keys <= r.value.headers.Keys
    ensures r.Success? ==> |r.value.body| <= |lines| - i && r.value.body == lines[|lines| - |r.value.body|..]
    ensures r.Failure? ==>
      && i <= r.error.line < |lines|
      && !IsSeparator(lines[r.error.line])
      && ParseLine(lines[r.error.line]) == Failure(r.error.kind)
    decreases |lines| - i
  {
    if i == |lines| then Success(HeaderBlock(acc, []))
    else if IsSeparator(lines[i]) then Success(HeaderBlock(acc, lines[i + 1..]))
    else match ParseLine(lines[i])
      case Failure(kind) => Failure(Panic(i, kind))
      case Success(f) => ReadHeaders(lines, i + 1, Push(acc, f))
  }

  /** Reading the header block from an empty map, as the source does. It
      agrees with the declarative reading on every output. */
  function ParseHeaderBlock(lines: seq<string>): (r: Result<HeaderBlock, Panic>)
    ensures r == Grouped(lines)
  {
    assert lines[..0] == [];
    ReadHeadersFrom(lines, 0, []);
    ReadHeaders(lines, 0, map[])
  }

  /** Pushing one more field onto the grouped map groups the longer
      sequence. */
  lemma GroupSnoc(fs: seq<Field>, f: Field)
    ensures Push(Group(fs), f) == Group(fs + [f])
  {
    var lhs := Push(Group(fs), f);
    var rhs := Group(fs + [f]);
    NamesSnoc(fs, f);
    forall n | n in rhs
      ensures lhs[n] == rhs[n]
    {
      ValuesForSnoc(fs, f, n);
      if n !in Names(fs) {
        ValuesForAbsent(fs, n);
      }
    }
  }

  /** One more field adds its name. */
  lemma NamesSnoc(fs: seq<Field>, f: Field)
    ensures Names(fs + [f]) == Names(fs) + {f.name}
  {
    var fs' := fs + [f];
    forall n | n in Names(fs')
      ensures n in Names(fs) + {f.name}
    {
      var g :| g in fs' && g.name == n;
      if g != f {
        assert g in fs;
      }
    }
    assert fs'[|fs|] == f;
    forall n | n in Names(fs)
      ensures n in Names(fs')
    {
      var g :| g in fs && g.name == n;
      assert g in fs';
    }
  }

  /** One more field adds its value under its own name and nothing under
      any other. */
  lemma ValuesForSnoc(fs: seq<Field>, f: Field, n: string)
    ensures ValuesFor(fs + [f], n) == ValuesFor(fs, n) + (if f.name == n then [f.value] else [])
  {
    assert (fs + [f])[..|fs|] == fs;
  }

  /** A name that does not occur has no values. */
  lemma ValuesForAbsent(fs: seq<Field>, n: string)
    requires n !in Names(fs)
    ensures ValuesFor(fs, n) == []
  {
    forall j | 0 <= j < |fs|
      ensures fs[j].name != n
    {
      assert fs[j] in fs;
    }
  }

  /** A line that panics decides the outcome of every longer prefix. */
  lemma {:induction false} FieldsFailurePersists(head: seq<string>, n: nat)
    requires n <= |head|
    requires FieldsOf(head[..n]).Failure?
    ensures FieldsOf(head) == FieldsOf(head[..n])
    decreases |head|
  {
    if n < |head| {
      var init := head[..|head| - 1];
      assert init[..n] == head[..n];
      FieldsFailurePersists(init, n);
    } else {
      assert head[..n] == head;
    }
  }

  /** The loop, started at line `i` with the grouped fields of the lines
      before it, ends where the declarative reading does. */
  lemma {:induction false} ReadHeadersFrom(lines: seq<string>, i: nat, fs: seq<Field>)
    requires i <= FirstSeparator(lines)
    requires FieldsOf(lines[..i]) == Success(fs)
    ensures ReadHeaders(lines, i, Group(fs)) == Grouped(lines)
    decreases |lines| - i
  {
    if i == FirstSeparator(lines) {
      ReadHeadersAtSeparator(lines, fs);
    } else {
      FieldsOfPrefixStep(lines, i, fs);
      match ParseLine(lines[i])
      case Failure(kind) =>
        ReadHeadersPanics(lines, i, kind, Group(fs));
      case Success(f) =>
        assert ReadHeaders(lines, i, Group(fs)) == ReadHeaders(lines, i + 1, Group(fs + [f])) by {
          GroupSnoc(fs, f);
        }
        ReadHeadersFrom(lines, i + 1, fs + [f]);
    }
  }

  /** At the first separator, or at the end of the output, the loop stops
      with the map of the lines before it. */
  lemma ReadHeadersAtSeparator(lines: seq<string>, fs: seq<Field>)
    requires FieldsOf(lines[..FirstSeparator(lines)]) == Success(fs)
    ensures ReadHeaders(lines, FirstSeparator(lines), Group(fs)) == Grouped(lines)
  {
    HeadIsPrefix(lines);
  }

  /** A header line that panics ends the loop and the declarative reading
      with the same panic. */
  lemma ReadHeadersPanics(lines: seq<string>, i: nat, kind: PanicKind, m: HeaderMap)
    requires i < FirstSeparator(lines)
    requires ParseLine(lines[i]) == Failure(kind)
    requires FieldsOf(lines[..i + 1]) == Failure(Panic(i, kind))
    ensures ReadHeaders(lines, i, m) == Grouped(lines)
  {
    var k := FirstSeparator(lines);
    HeadIsPrefix(lines);
    assert lines[..k][..i + 1] == lines[..i + 1];
    FieldsFailurePersists(lines[..k], i + 1);
  }

  /** The head of the split is the prefix before the first separator. */
  lemma HeadIsPrefix(lines: seq<string>)
    ensures Split(lines).head == lines[..FirstSeparator(lines)]
  {
  }

  /** Reading one more line of a prefix whose fields are `fs`. */
  lemma FieldsOfPrefixStep(lines: seq<string>, i: nat, fs: seq<Field>)
    requires i < |lines| && FieldsOf(lines[..i]) == Success(fs)
    ensures ParseLine(lines[i]).Failure? ==>
      FieldsOf(lines[..i + 1]) == Failure(Panic(i, ParseLine(lines[i]).error))
    ensures ParseLine(lines[i]).Success? ==>
      FieldsOf(lines[..i + 1]) == Success(fs + [ParseLine(lines[i]).value])
  {
    var prefix := lines[..i + 1];
    assert prefix[..i] == lines[..i] && prefix[i] == lines[i];
  }

  // ---------------------------------------------------------------------------
  // Properties of the header block

  /** Nothing after the separator reaches the header map: two outputs that
      agree up to and including the separator read to the same headers or
      the same panic, and each keeps exactly its own remaining lines as body. */
  lemma BodyDoesNotReachHeaders(head: seq<string>, sep: string, b1: seq<string>, b2: seq<string>)
    requires forall j :: 0 <= j < |head| ==> !IsSeparator(head[j])
    requires IsSeparator(sep)
    ensures ParseHeaderBlock(head + [sep] + b1).Success? ==>
      ParseHeaderBlock(head + [sep] + b1).value.body == b1
    ensures ParseHeaderBlock(head + [sep] + b1).Success? <==>
      ParseHeaderBlock(head + [sep] + b2).Success?
    ensures ParseHeaderBlock(head + [sep] + b1).Success? ==>
      ParseHeaderBlock(head + [sep] + b1).value.headers == ParseHeaderBlock(head + [sep] + b2).value.headers
    ensures ParseHeaderBlock(head + [sep] + b1).Failure? ==>
      ParseHeaderBlock(head + [sep] + b1) == ParseHeaderBlock(head + [sep] + b2)
  {
    SplitAtSeparator(head, sep, b1);
    SplitAtSeparator(head, sep, b2);
  }

  /** An output made of separator-free header lines, a separator and a body
      splits exactly there. */
  lemma SplitAtSeparator(head: seq<string>, sep: string, body: seq<string>)
    requires forall j :: 0 <= j < |head| ==> !IsSeparator(head[j])
    requires IsSeparator(sep)
    ensures Split(head + [sep] + body) == Sections(head, Some(sep), body)
  {
    var lines := head + [sep] + body;
    var s := Split(lines);
    assert lines[|head|] == sep;
    assert FirstSeparator(lines) == |head|;
    assert lines[..|head|] == head;
    assert lines[|head| + 1..] == body;
  }

  /** Each field rendered as `name: value`. */
  function RenderAll(fs: seq<Field>): (lines: seq<string>)
    ensures |lines| == |fs|
    ensures forall j :: 0 <= j < |fs| ==> lines[j] == Render(fs[j])
  {
    seq(|fs|, j requires 0 <= j < |fs| => Render(fs[j]))
  }

  /** A header whose lines before the last parse to `fs`, and whose last line
      parses to `f`, parses to `fs + [f]`. */
  lemma FieldsOfSnoc(head: seq<string>, fs: seq<Field>, f: Field)
    requires |head| > 0
    requires FieldsOf(head[..|head| - 1]) == Success(fs)
    requires ParseLine(head[|head| - 1]) == Success(f)
    ensures FieldsOf(head) == Success(fs + [f])
  {
  }

  /** Header lines that each parse to the corresponding field read to those
      fields. */
  lemma {:induction false} FieldsOfAllParse(head: seq<string>, fs: seq<Field>)
    requires |head| == |fs|
    requires forall j :: 0 <= j < |head| ==> ParseLine(head[j]) == Success(fs[j])
    ensures FieldsOf(head) == Success(fs)
    decreases |head|
  {
    if |head| > 0 {
      var n := |head|;
      var init := fs[..n - 1];
      assert FieldsOf(head[..n - 1]) == Success(init) by {
        FieldsOfAllParse(head[..n - 1], init);
      }
      FieldsOfSnoc(head, init, fs[n - 1]);
      assert init + [fs[n - 1]] == fs;
    }
  }

  /** Round trip: rendering a header block, a blank line and a body, then
      reading it, gives back the grouped headers and exactly that body. */
  lemma HeaderBlockRoundTrip(fs: seq<Field>, body: seq<string>)
    requires forall j :: 0 <= j < |fs| ==> ':' !in fs[j].name
    ensures ParseHeaderBlock(RenderAll(fs) + [""] + body) == Success(HeaderBlock(Group(fs), body))
  {
    var head := RenderAll(fs);
    forall j | 0 <= j < |head|
      ensures !IsSeparator(head[j])
    {
      assert head[j][|fs[j].name|] == ':';
    }
    SplitAtSeparator(head, "", body);
    forall j | 0 <= j < |fs|
      ensures ParseLine(head[j]) == Success(fs[j])
    {
      ParseRendered(fs[j]);
    }
    FieldsOfAllParse(head, fs);
  }

  /** Values from earlier fields come before values from later ones. */
  lemma {:induction false} ValuesForAppend(fs1: seq<Field>, fs2: seq<Field>, name: string)
    ensures ValuesFor(fs1 + fs2, name) == ValuesFor(fs1, name) + ValuesFor(fs2, name)
    decreases |fs2|
  {
    if |fs2| == 0 {
      assert fs1 + fs2 == fs1;
    } else {
      var init2 := fs2[..|fs2| - 1];
      var last := fs2[|fs2| - 1];
      var tail := if last.name == name then [last.value] else [];
      assert (fs1 + fs2)[..|fs1 + fs2| - 1] == fs1 + init2;
      assert (fs1 + fs2)[|fs1 + fs2| - 1] == last;
      assert ValuesFor(fs1 + fs2, name) == ValuesFor(fs1 + init2, name) + tail;
      assert ValuesFor(fs2, name) == ValuesFor(init2, name) + tail;
      ValuesForAppend(fs1, init2, name);
    }
  }

  /** Field `j` is stored under its name at the position given by the number
      of earlier fields with the same name: repeated names keep arrival
      order. */
  lemma FieldStoredInOrder(fs: seq<Field>, j: nat)
    requires j < |fs|
    ensures fs[j].name in Group(fs)
    ensures |ValuesFor(fs[..j], fs[j].name)| < |Group(fs)[fs[j].name]|
    ensures Group(fs)[fs[j].name][|ValuesFor(fs[..j], fs[j].name)|] == fs[j].value
  {
    var n := fs[j].name;
    assert fs[j] in fs;
    assert fs == fs[..j] + [fs[j]] + fs[j + 1..];
    ValuesForAppend(fs[..j] + [fs[j]], fs[j + 1..], n);
    ValuesForAppend(fs[..j], [fs[j]], n);
    assert ValuesFor([fs[j]], n) == [fs[j].value] by {
      assert [fs[j]][..0] == [];
    }
  }

  // ---------------------------------------------------------------------------
  // Counting stored values

  /** The names of `fs` in order of first arrival, each once. */
  function NameOrder(fs: seq<Field>): (ns: seq<string>)
    ensures forall i, j :: 0 <= i < j < |ns| ==> ns[i] != ns[j]
    ensures forall n :: n in ns <==> n in Names(fs)
  {
    if |fs| == 0 then []
    else
      var init := fs[..|fs| - 1];
      var last := fs[|fs| - 1];
      assert fs == init + [last];
      var ns := NameOrder(init);
      if last.name in ns then ns else ns + [last.name]
  }

  /** The number of values `m` stores under the names `ns`. */
  function CountValues(m: HeaderMap, ns: seq<string>): nat
    requires forall n :: n in ns ==> n in m
  {
    if |ns| == 0 then 0
    else CountValues(m, ns[..|ns| - 1]) + |m[ns[|ns| - 1]]|
  }

  /** Maps that agree on `ns` store as many values under them. */
  lemma {:induction false} CountValuesAgree(m1: HeaderMap, m2: HeaderMap, ns: seq<string>)
    requires forall n :: n in ns ==> n in m1 && n in m2 && m1[n] == m2[n]
    ensures CountValues(m1, ns) == CountValues(m2, ns)
    decreases |ns|
  {
    if |ns| > 0 {
      CountValuesAgree(m1, m2, ns[..|ns| - 1]);
    }
  }

  /** Pushing a value under a name listed once in `ns` adds one to the
      count. */
  lemma {:induction false} CountValuesPush(m: HeaderMap, ns: seq<string>, f: Field)
    requires forall n :: n in ns ==> n in m
    requires forall i, j :: 0 <= i < j < |ns| ==> ns[i] != ns[j]
    requires f.name in ns
    ensures CountValues(Push(m, f), ns) == CountValues(m, ns) + 1
    decreases |ns|
  {
    var init := ns[..|ns| - 1];
    if ns[|ns| - 1] == f.name {
      assert f.name !in init by {
        forall i | 0 <= i < |init|
          ensures init[i] != f.name
        {
          assert ns[i] != ns[|ns| - 1];
        }
      }
      CountValuesAgree(Push(m, f), m, init);
    } else {
      assert f.name in init by {
        var i :| 0 <= i < |ns| && ns[i] == f.name;
        assert init[i] == f.name;
      }
      CountValuesPush(m, init, f);
    }
  }

  /** The grouped map stores exactly one value per field. */
  lemma {:induction false} GroupCount(fs: seq<Field>)
    ensures forall n :: n in NameOrder(fs) ==> n in Group(fs)
    ensures CountValues(Group(fs), NameOrder(fs)) == |fs|
    decreases |fs|
  {
    if |fs| > 0 {
      var init := fs[..|fs| - 1];
      var f := fs[|fs| - 1];
      assert fs == init + [f];
      GroupCount(init);
      GroupCountStep(init, f);
    }
  }

  /** One more field adds one stored value. */
  lemma GroupCountStep(init: seq<Field>, f: Field)
    requires forall n :: n in NameOrder(init) ==> n in Group(init)
    requires CountValues(Group(init), NameOrder(init)) == |init|
    ensures forall n :: n in NameOrder(init + [f]) ==> n in Group(init + [f])
    ensures CountValues(Group(init + [f]), NameOrder(init + [f])) == |init| + 1
  {
    var ns := NameOrder(init);
    NameOrderSnoc(init, f);
    GroupSnoc(init, f);
    if f.name in ns {
      CountValuesPush(Group(init), ns, f);
    } else {
      CountValuesPushNew(Group(init), ns, f);
    }
  }

  /** One more field lists its name last unless it is already listed. */
  lemma NameOrderSnoc(fs: seq<Field>, f: Field)
    ensures NameOrder(fs + [f]) ==
      if f.name in NameOrder(fs) then NameOrder(fs) else NameOrder(fs) + [f.name]
  {
    assert (fs + [f])[..|fs|] == fs;
  }

  /** Pushing a value under a name the map lacks, and listing that name
      last, adds one to the count. */
  lemma CountValuesPushNew(m: HeaderMap, ns: seq<string>, f: Field)
    requires forall n :: n in ns ==> n in m
    requires f.name !in m
    ensures forall n :: n in ns + [f.name] ==> n in Push(m, f)
    ensures CountValues(Push(m, f), ns + [f.name]) == CountValues(m, ns) + 1
  {
    var ns' := ns + [f.name];
    assert ns'[..|ns|] == ns;
    CountValuesAgree(Push(m, f), m, ns);
  }

  /** The header map the loop builds stores as many values, over all names,
      as there were header lines, and its names are the names of those
      lines. */
  lemma StoredValueCount(lines: seq<string>, fs: seq<Field>)
    requires FieldsOf(Split(lines).head) == Success(fs)
    ensures ParseHeaderBlock(lines).Success?
    ensures ParseHeaderBlock(lines).value.headers.Keys == Names(fs)
    ensures forall n :: n in NameOrder(fs) ==> n in ParseHeaderBlock(lines).value.headers
    ensures CountValues(ParseHeaderBlock(lines).value.headers, NameOrder(fs)) == |Split(lines).head|
  {
    GroupCount(fs);
  }

  // ---------------------------------------------------------------------------
  // The Status pseudo-header

  /** The status line of the response: a code and a reason phrase. */
  datatype StatusLine = StatusLine(code: nat, reason: string)

  /** The code used when `Status` is missing or is not a number. */
  const DefaultCode: nat := 200

  /** The status line together with the headers left to forward. */
  datatype Extracted = Extracted(status: StatusLine, headers: HeaderMap)

  /** Lines 84-85: the first `Status` value, or the empty string when
      `Status` is missing or holds no value. */
  function StatusValue(headers: HeaderMap): (v: string)
    ensures "Status" in headers && |headers["Status"]| > 0 ==> v == headers["Status"][0]
    ensures "Status" !in headers || |headers["Status"]| == 0 ==> v == ""
  {
    if "Status" in headers && |headers["Status"]| > 0 then headers["Status"][0] else ""
  }

  /** Piece `i` of a split, as the `i`-th call to `next()` returns it. */
  function Nth(pieces: seq<string>, i: nat): (r: Option<string>)
    ensures r.Some? <==> i < |pieces|
  {
    if i < |pieces| then Some(pieces[i]) else None
  }

  /** The status lines 83-94 produce from the first `Status` value. */
  function StatusOf(value: string): (st: StatusLine)
    ensures st.code == RustStr.ParseU32(value).UnwrapOr(DefaultCode)
    ensures st.reason == "Ok"
  {
    RustStr.SplitOnceIsWhole(value, ' ');
    var parts := RustStr.SplitN(value, 1, ' ');
    var code := RustStr.ParseU32(Nth(parts, 0).UnwrapOr("")).UnwrapOr(DefaultCode);
    var reason := if Nth(parts, 1) == Some("Not Found") then "Not Found" else "Ok";
    StatusLine(code, reason)
  }

  /** Lines 83-94: take `Status` out of the map and derive the status line.
      The split is `splitn(1, ' ')`, which never splits, so the whole value
      is parsed as a number and the reason is always `Ok`. Every other
      header is forwarded untouched. */
  function ExtractStatus(headers: HeaderMap): (e: Extracted)
    ensures "Status" !in e.headers
    ensures forall n :: n != "Status" ==> (n in e.headers <==> n in headers)
    ensures forall n :: n in e.headers ==> e.headers[n] == headers[n]
    ensures e.status.reason == "Ok"
    ensures e.status.code == RustStr.ParseU32(StatusValue(headers)).UnwrapOr(DefaultCode)
  {
    Extracted(StatusOf(StatusValue(headers)), headers - {"Status"})
  }

  /** Without a `Status` header the code is 200. */
  lemma StatusAbsentIsDefault(headers: HeaderMap)
    requires "Status" !in headers
    ensures ExtractStatus(headers).status == StatusLine(DefaultCode, "Ok")
  {
  }

  /** A bare decimal code in the first `Status` value is the status code. */
  lemma StatusBareCode(headers: HeaderMap, n: nat)
    requires n <= RustStr.U32_MAX
    requires "Status" in headers && |headers["Status"]| > 0
    requires headers["Status"][0] == RustStr.Decimal(n)
    ensures ExtractStatus(headers).status == StatusLine(n, "Ok")
  {
    RustStr.ParseDecimal(n);
  }

  /** A `+` sign or a leading zero in front of the code is accepted, as
      Rust's integer parsing accepts them: `+404` and `0404` both give 404. */
  lemma StatusSignedOrPadded(headers: HeaderMap, n: nat)
    requires n <= RustStr.U32_MAX
    requires "Status" in headers && |headers["Status"]| > 0
    requires headers["Status"][0] == "+" + RustStr.Decimal(n) || headers["Status"][0] == "0" + RustStr.Decimal(n)
    ensures ExtractStatus(headers).status == StatusLine(n, "Ok")
  {
    RustStr.ParseSignedOrPadded(n);
  }

  /** A first `Status` value holding a space, as `404 Not Found` does, gives
      the default code, whatever number it starts with. */
  lemma StatusWithReasonIsDefault(headers: HeaderMap)
    requires "Status" in headers && |headers["Status"]| > 0
    requires ' ' in headers["Status"][0]
    ensures ExtractStatus(headers).status == StatusLine(DefaultCode, "Ok")
  {
    RustStr.ParseRejectsSpace(headers["Status"][0]);
  }

  /** The concrete input: `Status: 404 Not Found` yields `200 Ok`. */
  lemma NotFoundBecomesOk()
    ensures ExtractStatus(map["Status" := ["404 Not Found"]]).status == StatusLine(200, "Ok")
  {
    var headers := map["Status" := ["404 Not Found"]];
    assert headers["Status"][0][3] == ' ';
    StatusWithReasonIsDefault(headers);
  }

  /** The status line with the split the code evidently means,
      `splitn(2, ' ')`: the code is the first space-delimited token and the
      reason `Not Found` is recognised. */
  function StatusOfIntended(value: string): (st: StatusLine)
    ensures st.code == RustStr.ParseU32(BeforeSpace(value)).UnwrapOr(DefaultCode)
    ensures st.reason == (if AfterSpace(value) == Some("Not Found") then "Not Found" else "Ok")
  {
    var parts := RustStr.SplitN(value, 2, ' ');
    var code := RustStr.ParseU32(Nth(parts, 0).UnwrapOr("")).UnwrapOr(DefaultCode);
    var reason := if Nth(parts, 1) == Some("Not Found") then "Not Found" else "Ok";
    StatusLine(code, reason)
  }

  /** The text before the first space of `v`, or all of `v` without one. */
  function BeforeSpace(v: string): string
  {
    match RustStr.Find(v, ' ')
    case None => v
    case Some(i) => v[..i]
  }

  /** The text after the first space of `v`, if it has one. */
  function AfterSpace(v: string): Option<string>
  {
    match RustStr.Find(v, ' ')
    case None => None
    case Some(i) => Some(v[i + 1..])
  }

  /** `ExtractStatus` with the intended split: the code is the parse of the
      text before the first space, or 200, and the reason is `Not Found`
      exactly when the text after the first space is `Not Found`. */
  function ExtractStatusIntended(headers: HeaderMap): (e: Extracted)
    ensures "Status" !in e.headers
    ensures forall n :: n != "Status" ==> (n in e.headers <==> n in headers)
    ensures forall n :: n in e.headers ==> e.headers[n] == headers[n]
    ensures e.status.code == RustStr.ParseU32(BeforeSpace(StatusValue(headers))).UnwrapOr(DefaultCode)
    ensures e.status.reason ==
      (if AfterSpace(StatusValue(headers)) == Some("Not Found") then "Not Found" else "Ok")
  {
    Extracted(StatusOfIntended(StatusValue(headers)), headers - {"Status"})
  }

  /** With the intended split, `<code> <reason>` yields that code, and the
      reason `Not Found` is kept. */
  lemma IntendedStatusReadsCode(headers: HeaderMap, n: nat, reason: string)
    requires n <= RustStr.U32_MAX
    requires "Status" in headers && |headers["Status"]| > 0
    requires headers["Status"][0] == RustStr.Decimal(n) + " " + reason
    ensures ExtractStatusIntended(headers).status.code == n
    ensures ExtractStatusIntended(headers).status.reason == (if reason == "Not Found" then "Not Found" else "Ok")
  {
    var d := RustStr.Decimal(n);
    RustStr.DecimalHasNoSpace(n);
    RustStr.SplitTwoAtFirst(d, reason, ' ');
    RustStr.ParseDecimal(n);
  }

  /** With the intended split, a bare code is read with reason `Ok`. */
  lemma IntendedBareCode(headers: HeaderMap, n: nat)
    requires n <= RustStr.U32_MAX
    requires "Status" in headers && |headers["Status"]| > 0
    requires headers["Status"][0] == RustStr.Decimal(n)
    ensures ExtractStatusIntended(headers).status == StatusLine(n, "Ok")
  {
    RustStr.DecimalHasNoSpace(n);
    RustStr.ParseDecimal(n);
  }

  /** With the intended split, `+<code> Not Found` is read as that code with
      reason `Not Found`. */
  lemma IntendedSignedNotFound(headers: HeaderMap, n: nat)
    requires n <= RustStr.U32_MAX
    requires "Status" in headers && |headers["Status"]| > 0
    requires headers["Status"][0] == "+" + RustStr.Decimal(n) + " Not Found"
    ensures ExtractStatusIntended(headers).status == StatusLine(n, "Not Found")
  {
    var d := RustStr.Decimal(n);
    var v := headers["Status"][0];
    RustStr.DecimalHasNoSpace(n);
    RustStr.ParseSignedOrPadded(n);
    assert v == ("+" + d) + [' '] + "Not Found";
    RustStr.FindIsFirst(v, ' ', |d| + 1);
    assert v[..|d| + 1] == "+" + d;
    assert v[|d| + 2..] == "Not Found";
  }
}
