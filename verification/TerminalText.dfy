/** The terminal sanitizer: escape sequences and control characters go, line drawing characters
    of the alternate charset are translated, line ends become LF. */
module TerminalText {
  import opened Lines
  import opened Seqs

  const ESC := 0x1b as char

  function LineDrawing(c: char): char
  {
    match c
    case 'j' => '\U{2518}' case 'k' => '\U{2510}' case 'l' => '\U{250C}' case 'm' => '\U{2514}'
    case 'n' => '\U{253C}' case 'q' => '\U{2500}' case 't' => '\U{251C}' case 'u' => '\U{2524}'
    case 'v' => '\U{2534}' case 'w' => '\U{252C}' case 'x' => '\U{2502}' case 'o' => '\U{2588}'
    case 's' => '\U{00B7}' case 'a' => '\U{2592}' case 'f' => '\U{00B0}' case 'g' => '\U{00B1}'
    case 'h' => '\U{240B}' case 'i' => '\U{240C}' case '`' => '\U{25C6}'
    case _ => c
  }

  /** How far a control sequence introduced by ESC [ reaches: through its final byte. */
  function CsiEnd(t: string, i: nat): (j: nat)
    requires i <= |t|
    ensures i <= j <= |t|
    decreases |t| - i
  {
    if i == |t| then i
    else if '@' <= t[i] <= '~' then i + 1
    else CsiEnd(t, i + 1)
  }

  /** How far a string introduced by ESC P, X, ^ or _ reaches: through ESC \. */
  function StringEnd(t: string, i: nat): (j: nat)
    requires i <= |t|
    ensures i <= j <= |t|
    decreases |t| - i
  {
    if i == |t| then i
    else if t[i] == ESC && i + 1 < |t| && t[i + 1] == '\\' then i + 2
    else StringEnd(t, i + 1)
  }

  function AtMost(i: nat, n: nat): nat { if i < n then i else n }

  /** What is read at `i`: the next index, the charset from there on, and the output. */
  function Read(t: string, i: nat, alt: bool): (r: (nat, bool, string))
    requires i < |t|
    ensures i < r.0 <= |t| && |r.2| <= 1
  {
    var c := t[i];
    if c == ESC && i + 1 < |t| then
      var next := t[i + 1];
      if next == '[' then (CsiEnd(t, i + 2), alt, "")
      else if next == '(' || next == ')' then
        (AtMost(i + 3, |t|),
         if i + 2 < |t| && t[i + 2] == '0' then true else if i + 2 < |t| && t[i + 2] == 'B' then false else alt, "")
      else if next == 'P' || next == 'X' || next == '^' || next == '_' then (StringEnd(t, i + 2), alt, "")
      else if '@' <= next <= '_' then (i + 2, alt, "")
      else (i + 1, alt, "")
    else if c == 0x0e as char || c == 0x0f as char then (i + 1, c == 0x0e as char, "")
    else if c < ' ' && c != '\n' && c != '\t' then (i + 1, alt, "")
    else (i + 1, alt, [if alt then LineDrawing(c) else c])
  }

  function Scan(t: string, i: nat, alt: bool): string
    requires i <= |t|
    decreases |t| - i
  {
    if i == |t| then "" else
      var (next, charset, out) := Read(t, i, alt);
      out + Scan(t, next, charset)
  }

  function Sanitized(text: string): string
  {
    Scan(Normalized(text), 0, false)
  }

  /** One round of the program's loop: moves the index and the charset, and emits `piece`. */
  method ReadAt(t: string, start: nat, charset: bool) returns (i: nat, alt: bool, piece: string)
    requires start < |t|
    ensures (i, alt, piece) == Read(t, start, charset)
  {
    i, alt, piece := start, charset, "";
    var n := |t|;
    var c := t[i];
    if c == ESC && i + 1 < n {
      var next := t[i + 1];
      if next == '[' {
        i := i + 2;
        while i < n && !('@' <= t[i] <= '~')
          invariant start + 2 <= i <= n && CsiEnd(t, i) == CsiEnd(t, start + 2)
        {
          i := i + 1;
        }
        i := AtMost(i + 1, n);
        return;
      }
      if next == '(' || next == ')' {
        if i + 2 < n {
          if t[i + 2] == '0' {
            alt := true;
          } else if t[i + 2] == 'B' {
            alt := false;
          }
        }
        i := AtMost(i + 3, n);
        return;
      }
      if next == 'P' || next == 'X' || next == '^' || next == '_' {
        i := i + 2;
        while i < n
          invariant start + 2 <= i <= n && StringEnd(t, i) == StringEnd(t, start + 2)
        {
          if t[i] == ESC && i + 1 < n && t[i + 1] == '\\' {
            i := i + 2;
            return;
          }
          i := i + 1;
        }
        return;
      }
      if '@' <= next <= '_' {
        i := i + 2;
        return;
      }
      i := i + 1;
      return;
    }
    if c == 0x0e as char || c == 0x0f as char {
      alt := c == 0x0e as char;
      i := i + 1;
      return;
    }
    if c < ' ' && c != '\n' && c != '\t' {
      i := i + 1;
      return;
    }
    piece := [if alt then LineDrawing(c) else c];
    i := i + 1;
  }

  lemma ScanOnce(t: string, i: nat, alt: bool)
    requires i < |t|
    ensures var (next, charset, out) := Read(t, i, alt); Scan(t, i, alt) == out + Scan(t, next, charset)
  {
  }

  method Sanitize(text: string) returns (out: string)
    ensures out == Sanitized(text)
  {
    if text == "" {
      assert Normalized("") == "";
      return "";
    }
    var t := Normalized(text);
    out := "";
    var alt := false;
    var i := 0;
    while i < |t|
      invariant 0 <= i <= |t|
      invariant out + Scan(t, i, alt) == Scan(t, 0, false)
    {
      ghost var before, at, charset := out, i, alt;
      var piece;
      i, alt, piece := ReadAt(t, i, alt);
      out := out + piece;
      ScanOnce(t, at, charset);
      Assoc(before, piece, Scan(t, i, alt));
    }
  }

  // ----- What the result promises --------------------------------------------------------------

  predicate Printable(t: string)
  {
    forall k :: 0 <= k < |t| ==> t[k] >= ' ' || t[k] == '\n' || t[k] == '\t'
  }

  lemma ReadIsPrintable(t: string, i: nat, alt: bool)
    requires i < |t|
    ensures Printable(Read(t, i, alt).2)
  {
    assert LineDrawing(t[i]) == t[i] || LineDrawing(t[i]) >= '\U{00B0}';
  }

  lemma {:induction false} ScanIsPrintable(t: string, i: nat, alt: bool)
    requires i <= |t|
    ensures Printable(Scan(t, i, alt)) && |Scan(t, i, alt)| <= |t| - i
    decreases |t| - i
  {
    if i < |t| {
      var (next, charset, out) := Read(t, i, alt);
      ReadIsPrintable(t, i, alt);
      ScanIsPrintable(t, next, charset);
    }
  }

  lemma {:induction false} NormalizedIsShorter(t: string)
    ensures |Normalized(t)| <= |t|
    decreases |t|
  {
    if t != "" {
      NormalizedHead(t);
      NormalizedIsShorter(if Terminator(t) == 0 then t[1..] else t[Terminator(t)..]);
    }
  }

  lemma {:induction false} PrintableIsNormal(t: string)
    requires Printable(t)
    ensures Normalized(t) == t
  {
    if t != "" {
      NormalizedHead(t);
      PrintableIsNormal(t[1..]);
      assert t == [t[0]] + t[1..];
    }
  }

  lemma {:induction false} PrintableIsKept(t: string, i: nat)
    requires Printable(t) && i <= |t|
    ensures Scan(t, i, false) == t[i..]
    decreases |t| - i
  {
    if i < |t| {
      PrintableIsKept(t, i + 1);
      assert t[i] != ESC;
      assert t[i..] == [t[i]] + t[i + 1..];
    }
  }

  /** Only printable characters, line feeds and tabs come out, never more than went in, and
      sanitizing again changes nothing. */
  lemma SanitizedIsStable(text: string)
    ensures Printable(Sanitized(text)) && |Sanitized(text)| <= |text|
    ensures Sanitized(Sanitized(text)) == Sanitized(text)
  {
    var t := Normalized(text);
    ScanIsPrintable(t, 0, false);
    NormalizedIsShorter(text);
    PrintableIsNormal(Sanitized(text));
    PrintableIsKept(Sanitized(text), 0);
  }

  // ----- What becomes of each kind of sequence -------------------------------------------------

  lemma {:induction false} CsiShift(a: string, x: string, i: nat)
    requires i <= |x|
    ensures CsiEnd(a + x, |a| + i) == |a| + CsiEnd(x, i)
    decreases |x| - i
  {
    if i < |x| {
      CsiShift(a, x, i + 1);
      assert (a + x)[|a| + i] == x[i];
    }
  }

  lemma {:induction false} StringShift(a: string, x: string, i: nat)
    requires i <= |x|
    ensures StringEnd(a + x, |a| + i) == |a| + StringEnd(x, i)
    decreases |x| - i
  {
    if i < |x| {
      StringShift(a, x, i + 1);
      assert (a + x)[|a| + i] == x[i];
      assert i + 1 < |x| ==> (a + x)[|a| + i + 1] == x[i + 1];
    }
  }

  lemma ReadShift(a: string, x: string, i: nat, alt: bool)
    requires i < |x|
    ensures var r := Read(x, i, alt); Read(a + x, |a| + i, alt) == (|a| + r.0, r.1, r.2)
  {
    var t := a + x;
    assert t[|a| + i] == x[i];
    assert i + 1 < |x| ==> t[|a| + i + 1] == x[i + 1];
    assert i + 2 < |x| ==> t[|a| + i + 2] == x[i + 2];
    if i + 2 <= |x| {
      CsiShift(a, x, i + 2);
      StringShift(a, x, i + 2);
    }
  }

  lemma {:induction false} ScanShift(a: string, x: string, i: nat, alt: bool)
    requires i <= |x|
    ensures Scan(a + x, |a| + i, alt) == Scan(x, i, alt)
    decreases |x| - i
  {
    if i < |x| {
      ReadShift(a, x, i, alt);
      var (next, charset, _) := Read(x, i, alt);
      ScanOnce(x, i, alt);
      ScanOnce(a + x, |a| + i, alt);
      ScanShift(a, x, next, charset);
    }
  }

  /** A first part that is read in one round leaves the rest to be read on its own. */
  lemma ReadThenRest(a: string, x: string, alt: bool, charset: bool, out: string)
    requires a != "" && Read(a + x, 0, alt) == (|a|, charset, out)
    ensures Scan(a + x, 0, alt) == out + Scan(x, 0, charset)
  {
    ScanShift(a, x, 0, charset);
  }

  function Drawn(t: string): string
  {
    seq(|t|, k requires 0 <= k < |t| => LineDrawing(t[k]))
  }

  /** Text is copied, or translated in the alternate charset. */
  lemma {:induction false} TextIsCopied(a: string, x: string, alt: bool)
    requires Printable(a)
    ensures Scan(a + x, 0, alt) == (if alt then Drawn(a) else a) + Scan(x, 0, alt)
  {
    if a == "" {
      assert "" + x == x;
    } else {
      var c, rest := a[0], a[1..];
      TextIsCopied(rest, x, alt);
      assert a == [c] + rest && a + x == [c] + (rest + x);
      var out := [if alt then LineDrawing(c) else c];
      ReadThenRest([c], rest + x, alt, alt, out);
      assert Drawn(a) == [LineDrawing(c)] + Drawn(rest);
      Assoc(out, if alt then Drawn(rest) else rest, Scan(x, 0, alt));
    }
  }

  predicate CsiFinal(c: char) { '@' <= c <= '~' }

  lemma {:induction false} CsiEndAt(t: string, i: nat, n: nat)
    requires i <= n < |t| && CsiFinal(t[n]) && forall k :: i <= k < n ==> !CsiFinal(t[k])
    ensures CsiEnd(t, i) == n + 1
    decreases n - i
  {
    if i < n { CsiEndAt(t, i + 1, n); }
  }

  lemma {:induction false} CsiNoEnd(t: string, i: nat)
    requires i <= |t| && forall k :: i <= k < |t| ==> !CsiFinal(t[k])
    ensures CsiEnd(t, i) == |t|
    decreases |t| - i
  {
    if i < |t| { CsiNoEnd(t, i + 1); }
  }

  /** A control sequence goes with its parameters and its final character. */
  lemma CsiIsDropped(params: string, final: char, x: string, alt: bool)
    requires CsiFinal(final) && forall k :: 0 <= k < |params| ==> !CsiFinal(params[k])
    ensures Scan([ESC] + "[" + params + [final] + x, 0, alt) == Scan(x, 0, alt)
  {
    var a := [ESC] + "[" + params + [final];
    var t := a + x;
    forall k | 2 <= k < |a| - 1 ensures !CsiFinal(t[k]) { assert t[k] == params[k - 2]; }
    assert t[0] == ESC && t[1] == '[' && t[|a| - 1] == final;
    CsiEndAt(t, 2, |a| - 1);
    ReadThenRest(a, x, alt, alt, "");
  }

  /** So does one that is never ended, with all that follows. */
  lemma OpenCsiIsDropped(params: string, alt: bool)
    requires forall k :: 0 <= k < |params| ==> !CsiFinal(params[k])
    ensures Scan([ESC] + "[" + params, 0, alt) == ""
  {
    var t := [ESC] + "[" + params;
    forall k | 2 <= k < |t| ensures !CsiFinal(t[k]) { assert t[k] == params[k - 2]; }
    CsiNoEnd(t, 2);
  }

  predicate OpensString(c: char) { c in "PX^_" }

  /** The text holds no ESC \\. */
  predicate Unterminated(body: string)
  {
    forall k :: 0 <= k < |body| - 1 ==> !(body[k] == ESC && body[k + 1] == '\\')
  }

  lemma {:induction false} StringEndAt(t: string, i: nat, n: nat)
    requires i <= n < |t| - 1 && t[n] == ESC && t[n + 1] == '\\'
    requires forall k :: i <= k < n ==> !(t[k] == ESC && t[k + 1] == '\\')
    ensures StringEnd(t, i) == n + 2
    decreases n - i
  {
    if i < n { StringEndAt(t, i + 1, n); }
  }

  lemma {:induction false} StringNoEnd(t: string, i: nat)
    requires i <= |t| && forall k :: i <= k < |t| - 1 ==> !(t[k] == ESC && t[k + 1] == '\\')
    ensures StringEnd(t, i) == |t|
    decreases |t| - i
  {
    if i < |t| { StringNoEnd(t, i + 1); }
  }

  /** A string sequence goes through its terminator. */
  lemma StringIsDropped(opener: char, body: string, x: string, alt: bool)
    requires OpensString(opener) && Unterminated(body)
    ensures Scan([ESC, opener] + body + [ESC, '\\'] + x, 0, alt) == Scan(x, 0, alt)
  {
    var a := [ESC, opener] + body + [ESC, '\\'];
    var t := a + x;
    var n := 2 + |body|;
    assert t[0] == ESC && t[1] == opener && t[n] == ESC && t[n + 1] == '\\';
    forall k | 2 <= k < n ensures !(t[k] == ESC && t[k + 1] == '\\') {
      assert t[k] == body[k - 2] && (k + 1 < n ==> t[k + 1] == body[k - 1]);
    }
    StringEndAt(t, 2, n);
    ReadThenRest(a, x, alt, alt, "");
  }

  lemma OpenStringIsDropped(opener: char, body: string, alt: bool)
    requires OpensString(opener) && Unterminated(body)
    ensures Scan([ESC, opener] + body, 0, alt) == ""
  {
    var t := [ESC, opener] + body;
    forall k | 2 <= k < |t| - 1 ensures !(t[k] == ESC && t[k + 1] == '\\') {
      assert t[k] == body[k - 2] && t[k + 1] == body[k - 1];
    }
    StringNoEnd(t, 2);
  }

  /** ESC with any other character of its range goes with that character; with a character out of
      range, and at the end, it goes alone. */
  lemma EscapeIsDropped(c: char, x: string, alt: bool)
    requires c != '[' && !OpensString(c) && c != '(' && c != ')'
    ensures '@' <= c <= '_' ==> Scan([ESC, c] + x, 0, alt) == Scan(x, 0, alt)
    ensures !('@' <= c <= '_') ==> Scan([ESC, c] + x, 0, alt) == Scan([c] + x, 0, alt)
    ensures Scan([ESC], 0, alt) == ""
  {
    if '@' <= c <= '_' {
      ReadThenRest([ESC, c], x, alt, alt, "");
    } else {
      assert [ESC, c] + x == [ESC] + ([c] + x);
      ReadThenRest([ESC], [c] + x, alt, alt, "");
    }
    assert Read([ESC], 0, alt) == (1, alt, "");
  }

  /** The charset is switched by ESC ( 0 and ESC ( B, or the same with a closing parenthesis; any
      other designation goes and changes nothing. */
  lemma CharsetIsSwitched(paren: char, c: char, x: string, alt: bool)
    requires paren == '(' || paren == ')'
    ensures Scan([ESC, paren, c] + x, 0, alt) == Scan(x, 0, c == '0' || (c != 'B' && alt))
  {
    ReadThenRest([ESC, paren, c], x, alt, c == '0' || (c != 'B' && alt), "");
  }

  /** The control characters 14 and 15 switch it, too; all others but LF and TAB go. */
  lemma ControlIsDropped(c: char, x: string, alt: bool)
    requires c < ' ' && c != ESC && c != '\n' && c != '\t'
    ensures Scan([c] + x, 0, alt) == Scan(x, 0, c == 0x0e as char || (c != 0x0f as char && alt))
  {
    ReadThenRest([c], x, alt, c == 0x0e as char || (c != 0x0f as char && alt), "");
  }

  /** What the alternate charset translates. */
  lemma DrawnCharacters(c: char)
    ensures LineDrawing(c) != c <==> c in "jklmnqtuvwxosafghi`"
    ensures LineDrawing(c) != c ==> LineDrawing(c) as int >= 0xB0
  {
  }

  /** The two lines, the corners, the tees and the cross. */
  lemma LinesByTheirSides()
    ensures LineDrawing('q') == '\U{2500}' && LineDrawing('x') == '\U{2502}'
    ensures LineDrawing('l') == '\U{250C}' && LineDrawing('k') == '\U{2510}'
    ensures LineDrawing('m') == '\U{2514}' && LineDrawing('j') == '\U{2518}'
    ensures LineDrawing('t') == '\U{251C}' && LineDrawing('u') == '\U{2524}'
    ensures LineDrawing('w') == '\U{252C}' && LineDrawing('v') == '\U{2534}' && LineDrawing('n') == '\U{253C}'
  {
  }

  /** No two characters are drawn alike. */
  lemma DrawnApart(c: char, d: char)
    requires LineDrawing(c) != c && LineDrawing(d) != d && LineDrawing(c) == LineDrawing(d)
    ensures c == d
  {
  }

  lemma {:induction false} NoCrIsNormal(t: string)
    requires '\r' !in t
    ensures Normalized(t) == t
  {
    if t != "" {
      NormalizedHead(t);
      HeadTail(t);
      assert forall c :: c in t[1..] ==> c in t;
      NoCrIsNormal(t[1..]);
    }
  }

  lemma PrintableAlone(a: string, alt: bool)
    requires Printable(a)
    ensures Scan(a, 0, alt) == if alt then Drawn(a) else a
  {
    TextIsCopied(a, "", alt);
    Whole(a);
    Whole(Drawn(a));
    assert a + "" == a;
  }

  /** A control sequence between two texts leaves the texts. */
  lemma SanitizedAroundCsi(a: string, params: string, final: char, b: string)
    requires Printable(a) && Printable(b) && CsiFinal(final)
    requires forall k :: 0 <= k < |params| ==> !CsiFinal(params[k]) && params[k] != '\r'
    ensures Sanitized(a + ([ESC] + "[" + params + [final] + b)) == a + b
  {
    var t := [ESC] + "[" + params + [final] + b;
    NoCrIsNormal(a + t);
    TextIsCopied(a, t, false);
    CsiIsDropped(params, final, b, false);
    PrintableAlone(b, false);
  }

  lemma SanitizedAroundString(a: string, opener: char, body: string, b: string)
    requires Printable(a) && Printable(b) && OpensString(opener) && Unterminated(body) && '\r' !in body
    ensures Sanitized(a + ([ESC, opener] + body + [ESC, '\\'] + b)) == a + b
  {
    var t := [ESC, opener] + body + [ESC, '\\'] + b;
    NoCrIsNormal(a + t);
    TextIsCopied(a, t, false);
    StringIsDropped(opener, body, b, false);
    PrintableAlone(b, false);
  }

  lemma SanitizedAroundEscape(a: string, c: char, b: string)
    requires Printable(a) && Printable(b) && '@' <= c <= '_' && c != '[' && !OpensString(c)
    ensures Sanitized(a + ([ESC, c] + b)) == a + b
  {
    var t := [ESC, c] + b;
    NoCrIsNormal(a + t);
    TextIsCopied(a, t, false);
    EscapeIsDropped(c, b, false);
    PrintableAlone(b, false);
  }

  /** Between a switch to the alternate charset and the switch back, characters are translated, and
      not before or after. */
  lemma SanitizedCharsets(a: string, b: string, c: string)
    requires Printable(a) && Printable(b) && Printable(c)
    ensures Sanitized(a + ([ESC, '(', '0'] + (b + ([ESC, '(', 'B'] + c)))) == a + (Drawn(b) + c)
  {
    var tail := [ESC, '(', 'B'] + c;
    var middle := [ESC, '(', '0'] + (b + tail);
    NoCrIsNormal(a + middle);
    TextIsCopied(a, middle, false);
    CharsetIsSwitched('(', '0', b + tail, false);
    TextIsCopied(b, tail, true);
    CharsetIsSwitched('(', 'B', c, true);
    PrintableAlone(c, false);
  }
}
