/** The few Rust `str` operations the bridge relies on, with the semantics of
    Rust's standard library: `splitn`, `to_ascii_uppercase` and
    `str::parse::<u32>`. `Find` is the search for a separator that `splitn`
    performs; it counts characters, where std's `str::find` counts bytes. */
module RustStr {
  import opened Wrappers

  /** Largest value of Rust's `u32`. */
  const U32_MAX: nat := 0xFFFF_FFFF

  // ---------------------------------------------------------------------------
  // Searching and splitting

  /** Character index of the first `c` in `s`, or `None` when `s` has none.
      This is the search `splitn` makes for its separator; unlike std's
      `str::find` it counts characters, not UTF-8 bytes. */
  function Find(s: string, c: char): (r: Option<nat>)
    ensures r.None? <==> c !in s
    ensures r.Some? ==> r.value < |s| && s[r.value] == c && c !in s[..r.value]
  {
    if |s| == 0 then None
    else if s[0] == c then Some(0)
    else match Find(s[1..], c)
      case None => None
      case Some(i) =>
        assert s[..i + 1] == [s[0]] + s[1..][..i];
        Some(i + 1)
  }

  /** The pieces glued back together with one `sep` between neighbours. */
  function Join(pieces: seq<string>, sep: char): string
  {
    if |pieces| == 0 then ""
    else if |pieces| == 1 then pieces[0]
    else pieces[0] + [sep] + Join(pieces[1..], sep)
  }

  /** Gluing a piece in front of at least one other adds one separator. */
  lemma JoinCons(p: string, rest: seq<string>, sep: char)
    requires |rest| >= 1
    ensures Join([p] + rest, sep) == p + [sep] + Join(rest, sep)
  {
    assert ([p] + rest)[1..] == rest;
  }

  /** `Find` stops at the first separator: any `k` holding `c` with no `c`
      before it is the index `Find` reports. */
  lemma FindIsFirst(s: string, c: char, k: nat)
    requires k < |s| && s[k] == c && c !in s[..k]
    ensures Find(s, c) == Some(k)
  {
  }

  /** What `s.splitn(n, sep)` returns, stated without computing it: at most
      `n` pieces (at least one when `n > 0`) that join back to `s`, no piece
      but the last holding a separator, and the last holding one only when
      all `n` pieces are used up. Exactly one sequence meets it
      (`SplitsIntoUnique`). */
  predicate SplitsInto(s: string, n: nat, sep: char, pieces: seq<string>)
  {
    && |pieces| <= n
    && (n > 0 ==> |pieces| >= 1 && Join(pieces, sep) == s)
    && (forall i :: 0 <= i < |pieces| - 1 ==> sep !in pieces[i])
    && (0 < |pieces| < n ==> sep !in pieces[|pieces| - 1])
  }

  /** Rust's `s.splitn(n, sep)`: split at the first `n - 1` occurrences of
      `sep`, the last piece holding the unsplit remainder. */
  function SplitN(s: string, n: nat, sep: char): (pieces: seq<string>)
    ensures SplitsInto(s, n, sep, pieces)
    decreases n
  {
    if n == 0 then []
    else if n == 1 then [s]
    else match Find(s, sep)
      case None => [s]
      case Some(i) =>
        var rest := SplitN(s[i + 1..], n - 1, sep);
        SplitStep(s, i, rest, n, sep);
        [s[..i]] + rest
  }

  /** One step of `SplitN`: cutting at the first separator and splitting the
      rest keeps the contract. */
  lemma SplitStep(s: string, i: nat, rest: seq<string>, n: nat, sep: char)
    requires n >= 2 && i < |s| && s[i] == sep && sep !in s[..i]
    requires SplitsInto(s[i + 1..], n - 1, sep, rest)
    ensures SplitsInto(s, n, sep, [s[..i]] + rest)
  {
    var pieces := [s[..i]] + rest;
    JoinCons(s[..i], rest, sep);
    assert s == s[..i] + [sep] + s[i + 1..];
    assert forall j :: 1 <= j < |pieces| ==> pieces[j] == rest[j - 1];
  }

  /** With room for two or more pieces, `s` is cut exactly when it holds a
      separator. */
  lemma SplitsIntoCount(s: string, n: nat, sep: char, pieces: seq<string>)
    requires n >= 2 && SplitsInto(s, n, sep, pieces)
    ensures |pieces| == 1 <==> sep !in s
  {
    if |pieces| >= 2 {
      JoinCons(pieces[0], pieces[1..], sep);
      assert pieces == [pieces[0]] + pieces[1..];
      assert s[|pieces[0]|] == sep;
    }
  }

  /** Dropping the first of two or more pieces leaves the split of the rest
      with one piece fewer. */
  lemma SplitsIntoTail(s: string, n: nat, sep: char, pieces: seq<string>)
    requires n >= 2 && |pieces| >= 2 && SplitsInto(s, n, sep, pieces)
    ensures s == pieces[0] + [sep] + Join(pieces[1..], sep)
    ensures SplitsInto(Join(pieces[1..], sep), n - 1, sep, pieces[1..])
  {
    JoinCons(pieces[0], pieces[1..], sep);
    assert pieces == [pieces[0]] + pieces[1..];
    assert forall i :: 0 <= i < |pieces| - 1 ==> pieces[1..][i] == pieces[i + 1];
  }

  /** `SplitsInto` determines the pieces: two sequences that both meet it
      are equal. */
  lemma {:induction false} SplitsIntoUnique(s: string, n: nat, sep: char, p: seq<string>, q: seq<string>)
    requires SplitsInto(s, n, sep, p) && SplitsInto(s, n, sep, q)
    ensures p == q
    decreases n
  {
    if n == 1 {
      assert p[0] == Join(p, sep) == s == Join(q, sep) == q[0];
    } else if n >= 2 {
      SplitsIntoCount(s, n, sep, p);
      SplitsIntoCount(s, n, sep, q);
      if sep !in s {
        assert p[0] == Join(p, sep) == s == Join(q, sep) == q[0];
      } else {
        SplitsIntoTail(s, n, sep, p);
        SplitsIntoTail(s, n, sep, q);
        FirstSeparatorUnique(p[0], Join(p[1..], sep), q[0], Join(q[1..], sep), sep);
        SplitsIntoUnique(Join(p[1..], sep), n - 1, sep, p[1..], q[1..]);
        assert p == [p[0]] + p[1..] && q == [q[0]] + q[1..];
      }
    }
  }

  /** `SplitN` is the one sequence `SplitsInto` allows. */
  lemma SplitNIsTheSplit(s: string, n: nat, sep: char, pieces: seq<string>)
    requires SplitsInto(s, n, sep, pieces)
    ensures SplitN(s, n, sep) == pieces
  {
    SplitsIntoUnique(s, n, sep, SplitN(s, n, sep), pieces);
  }

  /** A piece and its separator are found again at the same place: when
      `a + [sep] + b == a' + [sep] + b'` and neither `a` nor `a'` holds `sep`,
      the two splits agree. */
  lemma FirstSeparatorUnique(a: string, b: string, a': string, b': string, sep: char)
    requires sep !in a && sep !in a'
    requires a + [sep] + b == a' + [sep] + b'
    ensures a == a' && b == b'
  {
    var s := a + [sep] + b;
    assert s[..|a|] == a && s[|a|] == sep;
    assert s[..|a'|] == a' && s[|a'|] == sep;
    FindIsFirst(s, sep, |a|);
    FindIsFirst(s, sep, |a'|);
    assert b == s[|a| + 1..] == b';
  }

  /** `splitn(1, sep)` never splits: its only piece is the whole string. */
  lemma SplitOnceIsWhole(s: string, sep: char)
    ensures SplitN(s, 1, sep) == [s]
  {
  }

  /** `splitn(2, sep)` on a string of the form `a + [sep] + b` with no `sep`
      in `a` cuts exactly there. */
  lemma SplitTwoAtFirst(a: string, b: string, sep: char)
    requires sep !in a
    ensures SplitN(a + [sep] + b, 2, sep) == [a, b]
  {
    var s := a + [sep] + b;
    assert s[..|a|] == a && s[|a|] == sep && s[|a| + 1..] == b;
    FindIsFirst(s, sep, |a|);
  }

  // ---------------------------------------------------------------------------
  // ASCII case

  predicate IsAsciiLower(c: char) { 'a' <= c <= 'z' }

  predicate IsAsciiUpper(c: char) { 'A' <= c <= 'Z' }

  /** Rust's `char::to_ascii_lowercase`. */
  function LowerChar(c: char): char
  {
    if IsAsciiUpper(c) then (c as int + 32) as char else c
  }

  /** Rust's `char::to_ascii_uppercase`. */
  function UpperChar(c: char): char
  {
    if IsAsciiLower(c) then (c as int - 32) as char else c
  }

  /** Rust's `str::eq_ignore_ascii_case`. */
  predicate EqIgnoreAsciiCase(s: string, t: string)
  {
    |s| == |t| && forall i :: 0 <= i < |s| ==> LowerChar(s[i]) == LowerChar(t[i])
  }

  /** Rust's `str::to_ascii_uppercase`. The result is the only string that
      holds no ASCII lower-case letter and equals `s` ignoring ASCII case. */
  function ToAsciiUppercase(s: string): (r: string)
    ensures forall i :: 0 <= i < |r| ==> !IsAsciiLower(r[i])
    ensures EqIgnoreAsciiCase(r, s)
  {
    seq(|s|, i requires 0 <= i < |s| => UpperChar(s[i]))
  }

  /** No other string meets the contract of `ToAsciiUppercase`. */
  lemma UppercaseUnique(s: string, r: string)
    requires forall i :: 0 <= i < |r| ==> !IsAsciiLower(r[i])
    requires EqIgnoreAsciiCase(r, s)
    ensures r == ToAsciiUppercase(s)
  {
    var u := ToAsciiUppercase(s);
    forall i | 0 <= i < |r|
      ensures r[i] == u[i]
    {
      assert LowerChar(r[i]) == LowerChar(s[i]) == LowerChar(u[i]);
    }
  }

  /** Upper-casing twice is upper-casing once. */
  lemma UppercaseIdempotent(s: string)
    ensures ToAsciiUppercase(ToAsciiUppercase(s)) == ToAsciiUppercase(s)
  {
  }

  // ---------------------------------------------------------------------------
  // Decimal numbers

  predicate IsDigit(c: char) { '0' <= c <= '9' }

  predicate AllDigits(s: string)
  {
    forall i :: 0 <= i < |s| ==> IsDigit(s[i])
  }

  function DigitValue(c: char): nat
    requires IsDigit(c)
  {
    c as int - '0' as int
  }

  function DigitChar(d: nat): char
    requires d < 10
  {
    ('0' as int + d) as char
  }

  /** The number a string of ASCII digits denotes, most significant first. */
  function DigitsValue(ds: string): nat
    requires AllDigits(ds)
  {
    if |ds| == 0 then 0
    else DigitsValue(ds[..|ds| - 1]) * 10 + DigitValue(ds[|ds| - 1])
  }

  /** The digits part of a number: `s` without one leading `+`. */
  function Unsigned(s: string): string
  {
    if |s| > 0 && s[0] == '+' then s[1..] else s
  }

  /** Rust's `u32::from_str`: an optional leading `+`, then one or more ASCII
      digits whose value fits in 32 bits; anything else fails. Leading zeros
      are allowed. */
  function ParseU32(s: string): (r: Option<nat>)
    ensures r.Some? <==>
      |Unsigned(s)| > 0 && AllDigits(Unsigned(s)) && DigitsValue(Unsigned(s)) <= U32_MAX
    ensures r.Some? ==> AllDigits(Unsigned(s)) && r.value == DigitsValue(Unsigned(s))
    ensures r.Some? ==> r.value <= U32_MAX
    ensures r.Some? ==> |s| > 0 && (IsDigit(s[0]) || s[0] == '+')
    ensures r.Some? ==> forall i :: 0 < i < |s| ==> IsDigit(s[i])
  {
    var digits := if |s| > 0 && s[0] == '+' then s[1..] else s;
    if |digits| > 0 && AllDigits(digits) && DigitsValue(digits) <= U32_MAX
    then
      assert forall i :: 0 < i < |s| ==> s[i] == digits[i - (|s| - |digits|)];
      Some(DigitsValue(digits))
    else None
  }

  /** A leading zero does not change the value of a digit string. */
  lemma {:induction false} LeadingZero(ds: string)
    requires AllDigits(ds)
    ensures AllDigits("0" + ds) && DigitsValue("0" + ds) == DigitsValue(ds)
    decreases |ds|
  {
    var zs := "0" + ds;
    if |ds| > 0 {
      assert zs[..|zs| - 1] == "0" + ds[..|ds| - 1];
      assert zs[|zs| - 1] == ds[|ds| - 1];
      LeadingZero(ds[..|ds| - 1]);
    }
  }

  /** A `+` sign or a leading zero in front of the decimal spelling of a
      32-bit value still parses to that value. */
  lemma ParseSignedOrPadded(n: nat)
    requires n <= U32_MAX
    ensures ParseU32("+" + Decimal(n)) == Some(n)
    ensures ParseU32("0" + Decimal(n)) == Some(n)
  {
    DecimalValue(n);
    LeadingZero(Decimal(n));
    assert Unsigned("+" + Decimal(n)) == Decimal(n);
  }

  /** Rust's `u32::to_string`: the shortest decimal spelling of `n`. */
  function Decimal(n: nat): (s: string)
    ensures |s| > 0 && AllDigits(s)
    ensures n > 0 ==> s[0] != '0'
  {
    if n < 10 then [DigitChar(n)] else Decimal(n / 10) + [DigitChar(n % 10)]
  }

  /** The digits of `Decimal(n)` denote `n`. */
  lemma {:induction false} DecimalValue(n: nat)
    ensures DigitsValue(Decimal(n)) == n
  {
    var s := Decimal(n);
    if n >= 10 {
      assert s[..|s| - 1] == Decimal(n / 10);
      DecimalValue(n / 10);
    }
  }

  /** Parsing the decimal spelling of a 32-bit value gives the value back. */
  lemma ParseDecimal(n: nat)
    requires n <= U32_MAX
    ensures ParseU32(Decimal(n)) == Some(n)
  {
    DecimalValue(n);
  }

  /** A decimal spelling holds no space. */
  lemma DecimalHasNoSpace(n: nat)
    ensures ' ' !in Decimal(n)
  {
    var d := Decimal(n);
    forall i | 0 <= i < |d|
      ensures d[i] != ' '
    {
      assert IsDigit(d[i]);
    }
  }

  /** A string holding a space is never a number. */
  lemma ParseRejectsSpace(s: string)
    requires ' ' in s
    ensures ParseU32(s) == None
  {
  }
}
