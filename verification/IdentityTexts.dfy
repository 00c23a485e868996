/** Different sources have different labels: nothing of an identity is lost in its text. */
module IdentityTexts {
  import opened Wrappers
  import opened Seqs
  import opened Resume

  // ----- Numbers -------------------------------------------------------------------------------

  lemma {:induction false} DigitsInjective(m: nat, n: nat)
    requires Digits(m) == Digits(n)
    ensures m == n
  {
    DigitsSplit(m);
    DigitsSplit(n);
    assert Digits(m)[|Digits(m)| - 1] == Digits(n)[|Digits(n)| - 1];
    if m >= 10 && n >= 10 {
      DigitsInjective(m / 10, n / 10);
    }
  }

  lemma DigitsSplit(n: nat)
    ensures Digits(n) != "" && Digits(n)[|Digits(n)| - 1] == Digit(n % 10)
    ensures |Digits(n)| == 1 <==> n < 10
    ensures n >= 10 ==> Digits(n)[..|Digits(n)| - 1] == Digits(n / 10)
  {
    DigitsNotEmpty(n / 10);
  }

  lemma DigitsNotEmpty(n: nat)
    ensures Digits(n) != ""
  {
  }

  lemma {:induction false} DigitsHead(n: nat)
    ensures Digits(n) != "" && Digits(n)[0] != '-'
  {
    if n >= 10 {
      DigitsHead(n / 10);
    }
  }

  /** The decimal text of a number determines it. */
  lemma DecimalInjective(m: int, n: int)
    ensures Decimal(m) == Decimal(n) <==> m == n
  {
    var a, b := if m < 0 then -m else m, if n < 0 then -n else n;
    DigitsHead(a);
    DigitsHead(b);
    if Decimal(m) == Decimal(n) {
      SignsAgree(m, n);
      TakeAppend("-", Digits(a));
      TakeAppend("-", Digits(b));
      assert Digits(a) == Digits(b);
      DigitsInjective(a, b);
    }
  }

  lemma SignsAgree(m: int, n: int)
    requires Decimal(m) == Decimal(n)
    ensures m < 0 <==> n < 0
  {
    DigitsHead(if m < 0 then -m else m);
    DigitsHead(if n < 0 then -n else n);
    assert Decimal(m)[0] == '-' <==> m < 0;
    assert Decimal(n)[0] == '-' <==> n < 0;
  }

  predicate NumberChar(c: char) { c in "-0123456789" }

  lemma OtherNumber(a: string, b: string, x: string, y: string)
    requires Number(a) && Number(b) && x != "" && !NumberChar(x[0]) && |a| < |b|
    ensures a + x != b + y
  {
    assert (a + x)[|a|] == x[0] && (b + y)[|a|] == b[|a|];
  }

  /** A number ends where something else begins. */
  lemma NumberEnds(a: string, b: string, x: string, y: string)
    requires Number(a) && Number(b) && x != "" && y != "" && !NumberChar(x[0]) && !NumberChar(y[0])
    requires a + x == b + y
    ensures a == b && x == y
  {
    if |a| < |b| { OtherNumber(a, b, x, y); }
    if |b| < |a| { OtherNumber(b, a, y, x); }
    TakeAppend(a, x);
    TakeAppend(b, y);
  }

  // ----- Escaped texts -------------------------------------------------------------------------

  /** The inside of a literal ends at the first quote that closes it. */
  lemma {:induction false} QuotedEnds(a: string, b: string, x: string, y: string)
    requires QuotedBody(a) && QuotedBody(b) && a + ("\"" + x) == b + ("\"" + y)
    ensures a == b && x == y
    decreases |a|
  {
    var s, t := a + ("\"" + x), b + ("\"" + y);
    assert s[0] == (if a == "" then '"' else a[0]) && t[0] == (if b == "" then '"' else b[0]);
    if a == "" {
      Whole("\"" + x);
      Whole("\"" + y);
      TakeAppend("\"", x);
      TakeAppend("\"", y);
    } else {
      var k := if a[0] == '\\' then 2 else 1;
      DropAppend(a, "\"" + x, k);
      DropAppend(b, "\"" + y, k);
      QuotedEnds(a[k..], b[k..], x, y);
      SameStart(a, b, "\"" + x, "\"" + y, k);
    }
  }

  lemma SameStart(a: string, b: string, x: string, y: string, k: nat)
    requires k <= |a| && k <= |b| && a + x == b + y && a[k..] == b[k..]
    ensures a == b
  {
    assert (a + x)[..k] == a[..k] && (b + y)[..k] == b[..k];
    Cut(a, k);
    Cut(b, k);
  }

  lemma HexInjective(m: nat, n: nat)
    requires m < 0x1_0000 && n < 0x1_0000 && Hex4(m) == Hex4(n)
    ensures m == n
  {
    assert Hex4(m)[0] == Hex4(n)[0] && Hex4(m)[1] == Hex4(n)[1] && Hex4(m)[2] == Hex4(n)[2] && Hex4(m)[3] == Hex4(n)[3];
    SixteenDigits(m);
    SixteenDigits(n);
  }

  lemma SixteenDigits(n: nat)
    ensures n == ((n / 0x1000 * 0x10 + n / 0x100 % 0x10) * 0x10 + n / 0x10 % 0x10) * 0x10 + n % 0x10
  {
    OneDigit(n, 0x10);
    OneDigit(n, 0x100);
    assert n / 0x10 == n / 0x100 * 0x10 + n / 0x10 % 0x10;
    assert n / 0x100 == n / 0x1000 * 0x10 + n / 0x100 % 0x10;
  }

  lemma OneDigit(n: nat, d: nat)
    requires d == 0x10 || d == 0x100
    ensures n / (d * 0x10) == n / d / 0x10
  {
  }

  lemma UnicodePrefix(m: nat, n: nat, x: string, y: string)
    requires m < 0x1_0000 && n < 0x1_0000 && Unicode(m) + x == Unicode(n) + y
    ensures m == n && x == y
  {
    var s, t := Unicode(m), Unicode(n);
    assert |s| == 6 == |t|;
    assert (s + x)[..6] == s && (t + y)[..6] == t && (s + x)[6..] == x && (t + y)[6..] == y;
    assert s[2..] == Hex4(m) && t[2..] == Hex4(n);
    HexInjective(m, n);
  }

  datatype Kind = Short | Itself | OneUnit | TwoUnits

  function KindOf(c: char): Kind
  {
    var v := c as int;
    if ShortEscape(c).Some? then Short
    else if 0x20 <= v <= 0x7E then Itself
    else if v < 0x1_0000 then OneUnit
    else TwoUnits
  }

  /** The first UTF-16 unit of a character. */
  function FirstUnit(c: char): nat
  {
    if c as int < 0x1_0000 then c as int else 0xD800 + (c as int - 0x1_0000) / 0x400
  }

  function SecondUnit(c: char): nat
    requires c as int >= 0x1_0000
  {
    0xDC00 + (c as int - 0x1_0000) % 0x400
  }

  lemma UnitsDetermine(c: char, d: char)
    requires FirstUnit(c) == FirstUnit(d)
    ensures c as int >= 0x1_0000 <==> d as int >= 0x1_0000
    ensures c as int < 0x1_0000 ==> c == d
    ensures c as int >= 0x1_0000 && SecondUnit(c) == SecondUnit(d) ==> c == d
  {
  }

  /** What follows the escape of a character, and how the escape begins. */
  lemma EscapeShape(c: char, x: string) returns (rest: string)
    ensures match KindOf(c)
            case Short => EscapeChar(c) + x == "\\" + ([ShortEscape(c).value] + x) && rest == x
            case Itself => EscapeChar(c) + x == [c] + x && rest == x && c != '\\'
            case OneUnit => EscapeChar(c) + x == Unicode(FirstUnit(c)) + rest && rest == x
            case TwoUnits => EscapeChar(c) + x == Unicode(FirstUnit(c)) + rest && rest == Unicode(SecondUnit(c)) + x
  {
    rest := x;
    match KindOf(c)
    case Short =>
      var l := [ShortEscape(c).value];
      Whole(l);
      Assoc("\\", l, x);
    case TwoUnits =>
      rest := Unicode(SecondUnit(c)) + x;
      Assoc(Unicode(FirstUnit(c)), Unicode(SecondUnit(c)), x);
    case _ =>
  }

  lemma StartsWithU(n: nat, rest: string)
    requires n < 0x1_0000
    ensures var s := Unicode(n) + rest; |s| >= 2 && s[0] == '\\' && s[1] == 'u'
  {
  }

  lemma ShortLetters(c: char, d: char)
    requires ShortEscape(c).Some? && ShortEscape(d).Some? && ShortEscape(c) == ShortEscape(d)
    ensures c == d
  {
  }

  /** Whether the escape is a unit, a letter, or the character itself. */
  lemma KindsApart(c: char, s: string, x: string)
    requires s == EscapeChar(c) + x
    ensures s != "" && (KindOf(c).Itself? <==> s[0] != '\\')
    ensures !KindOf(c).Itself? ==> |s| >= 2 && (KindOf(c).Short? <==> s[1] != 'u')
    ensures KindOf(c).Itself? ==> s[0] == c
    ensures KindOf(c).Short? ==> s[1] == ShortEscape(c).value
  {
    var rest := EscapeShape(c, x);
    if KindOf(c).OneUnit? || KindOf(c).TwoUnits? {
      StartsWithU(FirstUnit(c), rest);
    }
  }

  /** No escape is the beginning of another one. */
  lemma EscapePrefix(c: char, d: char, x: string, y: string)
    requires EscapeChar(c) + x == EscapeChar(d) + y
    ensures c == d && x == y
  {
    var s := EscapeChar(c) + x;
    KindsApart(c, s, x);
    KindsApart(d, s, y);
    if KindOf(c).Short? {
      ShortLetters(c, d);
    } else if !KindOf(c).Itself? {
      var p := EscapeShape(c, x);
      var q := EscapeShape(d, y);
      UnicodePrefix(FirstUnit(c), FirstUnit(d), p, q);
      UnitsDetermine(c, d);
      if KindOf(c).TwoUnits? {
        UnicodePrefix(SecondUnit(c), SecondUnit(d), x, y);
      }
    }
    TakeAppend(EscapeChar(c), x);
    TakeAppend(EscapeChar(d), y);
  }

  lemma EscapeNotEmpty(c: char)
    ensures EscapeChar(c) != ""
  {
    KindsApart(c, EscapeChar(c) + "", "");
  }

  /** The escaped form of a path determines it. */
  lemma {:induction false} EscapeInjective(s: string, t: string)
    ensures Escape(s) == Escape(t) <==> s == t
  {
    if s != "" { EscapeNotEmpty(s[0]); }
    if t != "" { EscapeNotEmpty(t[0]); }
    if s != "" && t != "" && Escape(s) == Escape(t) {
      EscapePrefix(s[0], t[0], Escape(s[1..]), Escape(t[1..]));
      EscapeInjective(s[1..], t[1..]);
      HeadTail(s);
      HeadTail(t);
    }
  }

  // ----- Identities ----------------------------------------------------------------------------

  /** What follows the path in an identity. */
  function AfterPath(size: nat): string
  {
    ", \"size\": " + (Decimal(size) + "}")
  }

  lemma AfterClockShape(path: string, size: nat)
    ensures AfterClock(path, size) == ", \"path\": \"" + (Escape(path) + ("\"" + AfterPath(size)))
  {
    var last := [Plain(", "), Literal("size"), Plain(": " + Decimal(size))];
    RenderThree(Plain(", "), Literal("size"), Plain(": " + Decimal(size)), []);
    RenderThree(Literal("path"), Plain(": "), Literal(Escape(path)), last);
    assert last + [] == last;
    assert [Literal("path"), Plain(": "), Literal(Escape(path)), Plain(", "), Literal("size"), Plain(": " + Decimal(size))]
        == [Literal("path"), Plain(": "), Literal(Escape(path))] + last;
    Glue(Escape(path), Decimal(size));
  }

  lemma Glue(e: string, n: string)
    ensures ", " + (("\"" + "path" + "\"") + (": " + (("\"" + e + "\"") + (", " + (("\"" + "size" + "\"") + ((": " + n) + "")))))) + "}"
         == ", \"path\": \"" + (e + ("\"" + (", \"size\": " + (n + "}"))))
  {
  }

  lemma AfterClockInjective(path: string, size: nat, path': string, size': nat)
    requires AfterClock(path, size) == AfterClock(path', size')
    ensures path == path' && size == size'
  {
    AfterClockShape(path, size);
    AfterClockShape(path', size');
    TakeAppend(", \"path\": \"", Escape(path) + ("\"" + AfterPath(size)));
    TakeAppend(", \"path\": \"", Escape(path') + ("\"" + AfterPath(size')));
    EscapeIsQuoted(path);
    EscapeIsQuoted(path');
    QuotedEnds(Escape(path), Escape(path'), AfterPath(size), AfterPath(size'));
    EscapeInjective(path, path');
    TakeAppend(", \"size\": ", Decimal(size) + "}");
    TakeAppend(", \"size\": ", Decimal(size') + "}");
    DecimalIsNumber(size);
    DecimalIsNumber(size');
    NumberEnds(Decimal(size), Decimal(size'), "}", "}");
    DecimalInjective(size, size');
  }

  lemma AfterClockHead(path: string, size: nat)
    ensures AfterClock(path, size) != "" && !NumberChar(AfterClock(path, size)[0])
  {
    AfterClockShape(path, size);
  }

  lemma ClocksApart(clock: Clock, rest: string)
    ensures var s := BeforeClock(clock) + rest; |s| > 7 && (s[7] == '"' <==> clock.Mtime?)
  {
  }

  /** Two identities are the same text exactly if they are of the same clock, time, path and size:
      no two versions of a source share a label. */
  lemma IdentityDetermines(clock: Clock, mtime: int, path: string, size: nat, clock': Clock, mtime': int, path': string, size': nat)
    ensures Identity(clock, mtime, path, size) == Identity(clock', mtime', path', size')
       <==> clock == clock' && mtime == mtime' && path == path' && size == size'
  {
    IdentityShape(clock, mtime, path, size);
    IdentityShape(clock', mtime', path', size');
    var x, y := Decimal(mtime) + AfterClock(path, size), Decimal(mtime') + AfterClock(path', size');
    Assoc(BeforeClock(clock), Decimal(mtime), AfterClock(path, size));
    Assoc(BeforeClock(clock'), Decimal(mtime'), AfterClock(path', size'));
    if Identity(clock, mtime, path, size) == Identity(clock', mtime', path', size') {
      ClocksApart(clock, x);
      ClocksApart(clock', y);
      TakeAppend(BeforeClock(clock), x);
      TakeAppend(BeforeClock(clock'), y);
      AfterClockHead(path, size);
      AfterClockHead(path', size');
      DecimalIsNumber(mtime);
      DecimalIsNumber(mtime');
      NumberEnds(Decimal(mtime), Decimal(mtime'), AfterClock(path, size), AfterClock(path', size'));
      DecimalInjective(mtime, mtime');
      AfterClockInjective(path, size, path', size');
    }
  }

  /** The content that a label stands for, when every version of a source has one. */
  ghost function ContentOf<T>(version: (Clock, int, string, nat) -> seq<T>, text: string): seq<T>
  {
    if exists c, m, p, n: nat :: Identity(c, m, p, n) == text then
      var c, m, p, n: nat :| Identity(c, m, p, n) == text;
      version(c, m, p, n)
    else []
  }

  /** So whatever the versions of the sources contain, contents can be read off the labels: that
      they are a function of the label excludes no change of a file that its time or size shows. */
  lemma ContentsByLabel<T>(version: (Clock, int, string, nat) -> seq<T>, clock: Clock, mtime: int, path: string, size: nat)
    ensures ContentOf(version, Identity(clock, mtime, path, size)) == version(clock, mtime, path, size)
  {
    forall c, m, p, n: nat | Identity(c, m, p, n) == Identity(clock, mtime, path, size)
      ensures version(c, m, p, n) == version(clock, mtime, path, size)
    {
      IdentityDetermines(c, m, p, n, clock, mtime, path, size);
    }
  }

  /** An identity as it reads. */
  lemma IdentityReads(clock: Clock, mtime: int, path: string, size: nat)
    ensures Identity(clock, mtime, path, size)
         == (if clock.Mtime? then "{\"mtime\": " else "{\"mtime_ns\": ") + Decimal(mtime)
            + (", \"path\": \"" + (Escape(path) + ("\"" + (", \"size\": " + (Decimal(size) + "}")))))
  {
    IdentityShape(clock, mtime, path, size);
    AfterClockShape(path, size);
    ClockReads(clock);
  }

  lemma ClockReads(clock: Clock)
    ensures BeforeClock(clock) == if clock.Mtime? then "{\"mtime\": " else "{\"mtime_ns\": "
  {
  }

  /** The number that a text of decimal digits denotes. */
  function Value(digits: string): int
  {
    if digits == "" then 0 else 10 * Value(digits[..|digits| - 1]) + (digits[|digits| - 1] as int - '0' as int)
  }

  lemma {:induction false} DigitsDenote(n: nat)
    ensures Value(Digits(n)) == n
  {
    DigitsSplit(n);
    if n >= 10 {
      DigitsDenote(n / 10);
    } else {
      assert Digits(n)[..0] == "";
    }
  }
}
