/** The resume rule of the file backends, and the identity texts that label partial files. */
module Resume {
  import opened Wrappers
  import opened Seqs

  function SizeOf<T>(file: Option<seq<T>>): nat
  {
    if file.Some? then |file.value| else 0
  }

  /** What sending `source` onto a file leaves in it: an equal size counts as done, a smaller
      file is continued from its size, anything else is overwritten. */
  function ResumeOutcome<T>(file: Option<seq<T>>, source: seq<T>): seq<T>
  {
    var size := SizeOf(file);
    if size == |source| && |source| > 0 then file.value
    else if 0 < size < |source| then file.value + source[size..]
    else source
  }

  /** The rule delivers the source exactly when the leftover is absent, longer than the source,
      or a prefix of it. */
  lemma ResumeExact<T>(file: Option<seq<T>>, source: seq<T>)
    ensures ResumeOutcome(file, source) == source
      <==> file.None? || |file.value| > |source| || file.value <= source
  {
    if file.Some? && 0 < |file.value| < |source| {
      var out := file.value + source[|file.value|..];
      if out == source {
        assert out[..|file.value|] == file.value;
      }
    }
  }

  // ----- Identity texts ------------------------------------------------------------------------

  /** Scanning from outside (or inside) a string literal, the first closing brace outside any
      literal is the last character of `t`. */
  predicate ClosesAtEnd(t: string, inside: bool)
  {
    && t != ""
    && if inside then
         if t[0] == '\\' then |t| > 1 && ClosesAtEnd(t[2..], true)
         else ClosesAtEnd(t[1..], t[0] != '"')
       else
         if t[0] == '}' then |t| == 1
         else ClosesAtEnd(t[1..], t[0] == '"')
  }

  /** The text of a flat JSON object, as `json.dumps` writes an identity. */
  predicate IdentityText(t: string)
  {
    ClosesAtEnd(t, false)
  }

  /** A torn identity is never an identity. */
  lemma {:induction false} ClosingIsUnique(a: string, b: string, inside: bool)
    requires ClosesAtEnd(a, inside) && ClosesAtEnd(b, inside) && a <= b
    ensures a == b
    decreases |a|
  {
    if inside && a[0] == '\\' {
      ClosingIsUnique(a[2..], b[2..], true);
    } else if inside || a[0] != '}' {
      ClosingIsUnique(a[1..], b[1..], if inside then a[0] != '"' else a[0] == '"');
    }
  }

  /** The inside of a JSON string literal: quotes only after a backslash. */
  predicate QuotedBody(s: string)
  {
    s == "" ||
    if s[0] == '\\' then |s| > 1 && QuotedBody(s[2..])
    else s[0] != '"' && QuotedBody(s[1..])
  }

  lemma {:induction false} SkipPlain(s: string, rest: string)
    requires forall k :: 0 <= k < |s| ==> s[k] != '"' && s[k] != '}'
    ensures ClosesAtEnd(s + rest, false) == ClosesAtEnd(rest, false)
  {
    if s == "" {
      assert s + rest == rest;
    } else {
      SkipPlain(s[1..], rest);
      assert (s + rest)[1..] == s[1..] + rest;
      if rest == "" { assert s[1..] + rest == s[1..]; }
    }
  }

  lemma {:induction false} SkipBody(s: string, rest: string)
    requires QuotedBody(s)
    ensures ClosesAtEnd(s + rest, true) == ClosesAtEnd(rest, true)
    decreases |s|
  {
    if s == "" {
      assert s + rest == rest;
    } else {
      var k := if s[0] == '\\' then 2 else 1;
      SkipBody(s[k..], rest);
      assert (s + rest)[k..] == s[k..] + rest;
    }
  }

  datatype Token = Plain(s: string) | Literal(body: string)

  function Render(tokens: seq<Token>): string
  {
    if tokens == [] then "" else RenderToken(tokens[0]) + Render(tokens[1..])
  }

  function RenderToken(token: Token): string
  {
    match token
    case Plain(s) => s
    case Literal(b) => "\"" + b + "\""
  }

  predicate WellQuoted(token: Token)
  {
    match token
    case Plain(s) => forall k :: 0 <= k < |s| ==> s[k] != '"' && s[k] != '}'
    case Literal(b) => QuotedBody(b)
  }

  lemma {:induction false} RenderedCloses(tokens: seq<Token>)
    requires forall k :: 0 <= k < |tokens| ==> WellQuoted(tokens[k])
    ensures ClosesAtEnd(Render(tokens) + "}", false)
  {
    if tokens == [] {
      assert "" + "}" == "}";
    } else {
      var rest := Render(tokens[1..]) + "}";
      RenderedCloses(tokens[1..]);
      assert WellQuoted(tokens[0]);
      match tokens[0]
      case Plain(s) =>
        SkipPlain(s, rest);
        assert Render(tokens) + "}" == s + rest;
      case Literal(b) =>
        SkipBody(b, "\"" + rest);
        var t := "\"" + (b + ("\"" + rest));
        assert t[1..] == b + ("\"" + rest);
        assert ("\"" + rest)[1..] == rest;
        assert Render(tokens) + "}" == t;
    }
  }

  // ----- What `json.dumps` writes --------------------------------------------------------------

  function Digit(n: nat): (c: char)
    requires n < 16
    ensures c as int == if n < 10 then 48 + n else 87 + n
  {
    "0123456789abcdef"[n]
  }

  function Digits(n: nat): string
  {
    if n < 10 then [Digit(n)] else Digits(n / 10) + [Digit(n % 10)]
  }

  function Decimal(n: int): string
  {
    if n < 0 then "-" + Digits(-n) else Digits(n)
  }

  function Hex4(n: nat): (h: string)
    requires n < 0x1_0000
    ensures forall k :: 0 <= k < |h| ==> h[k] != '"' && h[k] != '\\'
  {
    [Digit(n / 0x1000), Digit(n / 0x100 % 0x10), Digit(n / 0x10 % 0x10), Digit(n % 0x10)]
  }

  /** The letter that stands for a character after a backslash, if it has one. */
  function ShortEscape(c: char): Option<char>
  {
    var v := c as int;
    if c == '"' || c == '\\' then Some(c)
    else if c == '\n' then Some('n')
    else if c == '\r' then Some('r')
    else if c == '\t' then Some('t')
    else if v == 0x08 then Some('b')
    else if v == 0x0C then Some('f')
    else None
  }

  function Unicode(n: nat): string
    requires n < 0x1_0000
  {
    "\\" + (['u'] + Hex4(n))
  }

  /** The escape of one character: ASCII only, with a surrogate pair beyond the basic plane. */
  function EscapeChar(c: char): string
  {
    var v := c as int;
    if ShortEscape(c).Some? then "\\" + ([ShortEscape(c).value] + "")
    else if 0x20 <= v <= 0x7E then [c]
    else if v < 0x1_0000 then Unicode(v)
    else Surrogates(v - 0x1_0000)
  }

  function Surrogates(n: nat): string
    requires n < 0x10_0000
  {
    Unicode(0xD800 + n / 0x400) + Unicode(0xDC00 + n % 0x400)
  }

  function Escape(s: string): string
  {
    if s == "" then "" else EscapeChar(s[0]) + Escape(s[1..])
  }

  lemma {:induction false} QuotedAppend(a: string, b: string)
    requires QuotedBody(a) && QuotedBody(b)
    ensures QuotedBody(a + b)
    decreases |a|
  {
    if a == "" {
      assert a + b == b;
    } else {
      var k := if a[0] == '\\' then 2 else 1;
      QuotedAppend(a[k..], b);
      assert (a + b)[k..] == a[k..] + b;
    }
  }

  lemma {:induction false} PlainBody(s: string)
    requires forall k :: 0 <= k < |s| ==> s[k] != '"' && s[k] != '\\'
    ensures QuotedBody(s)
  {
    if s != "" { PlainBody(s[1..]); }
  }

  /** A backslash with the character after it, and then plain text. */
  lemma EscapeSequence(c: char, rest: string)
    requires forall k :: 0 <= k < |rest| ==> rest[k] != '"' && rest[k] != '\\'
    ensures QuotedBody("\\" + ([c] + rest))
  {
    PlainBody(rest);
    assert ("\\" + ([c] + rest))[2..] == rest;
  }

  lemma UnicodeIsQuoted(n: nat)
    requires n < 0x1_0000
    ensures QuotedBody(Unicode(n))
  {
    EscapeSequence('u', Hex4(n));
  }

  lemma SurrogatesAreQuoted(n: nat)
    requires n < 0x10_0000
    ensures QuotedBody(Surrogates(n))
  {
    UnicodeIsQuoted(0xD800 + n / 0x400);
    UnicodeIsQuoted(0xDC00 + n % 0x400);
    QuotedAppend(Unicode(0xD800 + n / 0x400), Unicode(0xDC00 + n % 0x400));
  }

  lemma EscapeCharIsQuoted(c: char)
    ensures QuotedBody(EscapeChar(c))
  {
    var v := c as int;
    if ShortEscape(c).Some? {
      EscapeSequence(ShortEscape(c).value, "");
    } else if 0x20 <= v <= 0x7E {
      PlainBody([c]);
    } else if v < 0x1_0000 {
      UnicodeIsQuoted(v);
    } else {
      SurrogatesAreQuoted(v - 0x1_0000);
    }
  }

  /** An escaped path stays inside its literal, whatever it contains. */
  lemma {:induction false} EscapeIsQuoted(s: string)
    ensures QuotedBody(Escape(s))
  {
    if s != "" {
      EscapeCharIsQuoted(s[0]);
      EscapeIsQuoted(s[1..]);
      QuotedAppend(EscapeChar(s[0]), Escape(s[1..]));
    }
  }

  predicate Number(s: string) { forall k :: 0 <= k < |s| ==> s[k] in "-0123456789" }

  lemma {:induction false} DigitsAreNumber(n: nat)
    ensures Number(Digits(n))
  {
    if n >= 10 { DigitsAreNumber(n / 10); }
  }

  lemma DecimalIsNumber(n: int)
    ensures Number(Decimal(n))
  {
    DigitsAreNumber(if n < 0 then -n else n);
  }

  datatype Clock = Mtime | MtimeNs

  function ClockName(clock: Clock): string
  {
    if clock.Mtime? then "mtime" else "mtime_ns"
  }

  /** The identity of a source: `{"<clock>": <mtime>, "path": "<path>", "size": <size>}`, keys
      sorted. */
  function Identity(clock: Clock, mtime: int, path: string, size: nat): string
  {
    Render(IdentityTokens(clock, mtime, path, size)) + "}"
  }

  function IdentityTokens(clock: Clock, mtime: int, path: string, size: nat): seq<Token>
  {
    [Plain("{"), Literal(ClockName(clock)), Plain(": " + Decimal(mtime) + ", "), Literal("path"), Plain(": "),
     Literal(Escape(path)), Plain(", "), Literal("size"), Plain(": " + Decimal(size))]
  }

  lemma NumberIsPlain(before: string, n: string, after: string)
    requires Number(n) && WellQuoted(Plain(before)) && WellQuoted(Plain(after))
    ensures WellQuoted(Plain(before + n + after))
  {
  }

  lemma FixedPlain()
    ensures WellQuoted(Plain("{")) && WellQuoted(Plain(": ")) && WellQuoted(Plain(", ")) && WellQuoted(Plain(""))
  {
  }

  lemma FixedLiterals(clock: Clock)
    ensures WellQuoted(Literal(ClockName(clock))) && WellQuoted(Literal("path")) && WellQuoted(Literal("size"))
  {
    PlainBody(ClockName(clock));
    PlainBody("path");
    PlainBody("size");
  }

  lemma WellQuotedTokens(t0: Token, t1: Token, t2: Token, t3: Token, t4: Token, t5: Token, t6: Token, t7: Token, t8: Token)
    requires WellQuoted(t0) && WellQuoted(t1) && WellQuoted(t2) && WellQuoted(t3) && WellQuoted(t4)
    requires WellQuoted(t5) && WellQuoted(t6) && WellQuoted(t7) && WellQuoted(t8)
    ensures ClosesAtEnd(Render([t0, t1, t2, t3, t4, t5, t6, t7, t8]) + "}", false)
  {
    RenderedCloses([t0, t1, t2, t3, t4, t5, t6, t7, t8]);
  }

  /** The label of every source is an identity text, whatever its path contains. */
  lemma IdentityIsText(clock: Clock, mtime: int, path: string, size: nat)
    ensures IdentityText(Identity(clock, mtime, path, size))
  {
    FixedPlain();
    FixedLiterals(clock);
    EscapeIsQuoted(path);
    DecimalIsNumber(mtime);
    DecimalIsNumber(size);
    NumberIsPlain(": ", Decimal(mtime), ", ");
    NumberIsPlain(": ", Decimal(size), "");
    Whole(": " + Decimal(size));
    WellQuotedTokens(Plain("{"), Literal(ClockName(clock)), Plain(": " + Decimal(mtime) + ", "), Literal("path"), Plain(": "),
                     Literal(Escape(path)), Plain(", "), Literal("size"), Plain(": " + Decimal(size)));
  }

  // ----- Where the clock stands in an identity -------------------------------------------------

  function BeforeClock(clock: Clock): string
  {
    "{\"" + ClockName(clock) + "\": "
  }

  function AfterClock(path: string, size: nat): string
  {
    ", " + Render([Literal("path"), Plain(": "), Literal(Escape(path)), Plain(", "), Literal("size"), Plain(": " + Decimal(size))]) + "}"
  }

  lemma RenderFirst(t: Token, rest: seq<Token>)
    ensures Render([t] + rest) == RenderToken(t) + Render(rest)
  {
    assert ([t] + rest)[1..] == rest;
  }

  lemma RenderThree(a: Token, b: Token, c: Token, rest: seq<Token>)
    ensures Render([a, b, c] + rest) == RenderToken(a) + (RenderToken(b) + (RenderToken(c) + Render(rest)))
  {
    RenderFirst(c, rest);
    RenderFirst(b, [c] + rest);
    RenderFirst(a, [b] + ([c] + rest));
    assert [a, b, c] + rest == [a] + ([b] + ([c] + rest));
  }

  lemma IdentityShape(clock: Clock, mtime: int, path: string, size: nat)
    ensures Identity(clock, mtime, path, size) == BeforeClock(clock) + Decimal(mtime) + AfterClock(path, size)
  {
    var rest := [Literal("path"), Plain(": "), Literal(Escape(path)), Plain(", "), Literal("size"), Plain(": " + Decimal(size))];
    var time := Plain(": " + Decimal(mtime) + ", ");
    RenderThree(Plain("{"), Literal(ClockName(clock)), time, rest);
    assert IdentityTokens(clock, mtime, path, size) == [Plain("{"), Literal(ClockName(clock)), time] + rest;
    Regroup(ClockName(clock), Decimal(mtime), Render(rest));
  }

  lemma Regroup(name: string, number: string, rest: string)
    ensures ("{" + (("\"" + name + "\"") + ((": " + number + ", ") + rest))) + "}"
         == ("{\"" + name + "\": ") + number + (", " + rest + "}")
  {
  }
}
