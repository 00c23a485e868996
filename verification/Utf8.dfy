/** UTF-8 as RFC 3629 defines it, and the strict decoder the transfer code relies on.
    Text is a sequence of Unicode scalar values (Dafny's `char`). */
module Utf8 {
  import opened Seqs

  type byte = b: int | 0 <= b < 256

  // ----- Section 3 of RFC 3629: the encoding ---------------------------------------------------

  function EncodeChar(c: char): (e: seq<byte>)
  {
    var v := c as int;
    if v < 0x80 then [v]
    else if v < 0x800 then [0xC0 + v / 64, 0x80 + v % 64]
    else if v < 0x1_0000 then [0xE0 + v / 4096, 0x80 + v / 64 % 64, 0x80 + v % 64]
    else [0xF0 + v / 262144, 0x80 + v / 4096 % 64, 0x80 + v / 64 % 64, 0x80 + v % 64]
  }

  function Encode(t: string): seq<byte>
  {
    if t == "" then [] else EncodeChar(t[0]) + Encode(t[1..])
  }

  // ----- Section 4 of RFC 3629: the grammar ----------------------------------------------------

  predicate Tail(b: byte) { 0x80 <= b <= 0xBF }

  /** One of the alternatives UTF8-1 .. UTF8-4. */
  predicate Utf8Char(s: seq<byte>)
  {
    || (|s| == 1 && s[0] <= 0x7F)
    || (|s| == 2 && 0xC2 <= s[0] <= 0xDF && Tail(s[1]))
    || (|s| == 3 && Tail(s[2]) &&
        (|| (s[0] == 0xE0 && 0xA0 <= s[1] <= 0xBF)
         || (0xE1 <= s[0] <= 0xEC && Tail(s[1]))
         || (s[0] == 0xED && 0x80 <= s[1] <= 0x9F)
         || (0xEE <= s[0] <= 0xEF && Tail(s[1]))))
    || (|s| == 4 && Tail(s[2]) && Tail(s[3]) &&
        (|| (s[0] == 0xF0 && 0x90 <= s[1] <= 0xBF)
         || (0xF1 <= s[0] <= 0xF3 && Tail(s[1]))
         || (s[0] == 0xF4 && 0x80 <= s[1] <= 0x8F)))
  }

  /** UTF8-octets = *( UTF8-char ) */
  ghost predicate Utf8Octets(d: seq<byte>)
  {
    d == [] || exists n :: 1 <= n <= |d| && Utf8Char(d[..n]) && Utf8Octets(d[n..])
  }

  // ----- The strict decoder --------------------------------------------------------------------

  datatype Piece = Char(c: char, width: nat) | Bad(width: nat)

  /** May `b1` follow the lead byte `b0`? */
  predicate SecondOk(b0: byte, b1: byte)
  {
    && Tail(b1)
    && (b0 == 0xE0 ==> 0xA0 <= b1)
    && (b0 == 0xED ==> b1 <= 0x9F)
    && (b0 == 0xF0 ==> 0x90 <= b1)
    && (b0 == 0xF4 ==> b1 <= 0x8F)
  }

  /** The next code point, or the number of bytes the decoder blames: as many as could
      still start a code point, and at least one. */
  function Next(d: seq<byte>): (p: Piece)
    requires d != []
    ensures 1 <= p.width <= |d| && p.width <= 4
  {
    var b0 := d[0];
    if b0 < 0x80 then Char(b0 as char, 1)
    else if b0 < 0xC2 || b0 > 0xF4 then Bad(1)
    else if |d| < 2 || !SecondOk(b0, d[1]) then Bad(1)
    else if b0 < 0xE0 then Char(Join(0, 0, b0 - 0xC0, d[1] - 0x80) as char, 2)
    else if |d| < 3 || !Tail(d[2]) then Bad(2)
    else if b0 < 0xF0 then Char(Join(0, b0 - 0xE0, d[1] - 0x80, d[2] - 0x80) as char, 3)
    else if |d| < 4 || !Tail(d[3]) then Bad(3)
    else Char(Join(b0 - 0xF0, d[1] - 0x80, d[2] - 0x80, d[3] - 0x80) as char, 4)
  }

  /** The scalar value with the given groups of six bits. */
  function Join(x3: int, x2: int, x1: int, x0: int): int
  {
    x3 * 262144 + x2 * 4096 + x1 * 64 + x0
  }

  /** `Error(start, end)` carries the `start` and `end` of the decoder's exception. */
  datatype Decoded = Text(text: string) | Error(start: nat, end: nat)

  function Prepend(t: string, n: nat, r: Decoded): Decoded
  {
    match r
    case Text(u) => Text(t + u)
    case Error(start, end) => Error(n + start, n + end)
  }

  function Decode(d: seq<byte>): (r: Decoded)
  {
    if d == [] then Text("")
    else match Next(d)
      case Bad(w) => Error(0, w)
      case Char(c, w) => Prepend([c], w, Decode(d[w..]))
  }

  // ----- Decoder against grammar and encoder ---------------------------------------------------

  lemma NextMatchesGrammar(d: seq<byte>)
    requires d != []
    ensures Next(d).Char? ==> Utf8Char(d[..Next(d).width])
    ensures forall n :: 1 <= n <= |d| && Utf8Char(d[..n]) ==> Next(d).Char? && Next(d).width == n
  {
  }

  lemma JoinDigits(x3: int, x2: int, x1: int, x0: int)
    requires 0 <= x3 && 0 <= x2 < 64 && 0 <= x1 < 64 && 0 <= x0 < 64
    ensures var v := Join(x3, x2, x1, x0);
            v % 64 == x0 && v / 64 % 64 == x1 && v / 4096 % 64 == x2 && v / 262144 == x3
  {
    LastDigit((x3 * 64 + x2) * 64 + x1, x0);
    LastDigit(x3 * 64 + x2, x1);
    LastDigit(x3, x2);
    var v := Join(x3, x2, x1, x0);
    assert v == ((x3 * 64 + x2) * 64 + x1) * 64 + x0;
    DivideTwice(v, 64);
    DivideTwice(v, 4096);
  }

  lemma LastDigit(high: int, low: int)
    requires 0 <= low < 64
    ensures (high * 64 + low) / 64 == high && (high * 64 + low) % 64 == low
  {
  }

  lemma DivideTwice(v: int, d: int)
    requires 0 <= v && (d == 64 || d == 4096)
    ensures v / (d * 64) == v / d / 64
  {
  }

  lemma TwoEncoded(c: char, x1: int, x0: int)
    requires 2 <= x1 < 32 && 0 <= x0 < 64 && c as int == Join(0, 0, x1, x0)
    ensures EncodeChar(c) == [0xC0 + x1, 0x80 + x0]
  {
    JoinDigits(0, 0, x1, x0);
  }

  lemma ThreeEncoded(c: char, x2: int, x1: int, x0: int)
    requires 0 <= x2 < 16 && 0 <= x1 < 64 && 0 <= x0 < 64 && c as int == Join(0, x2, x1, x0)
    requires 0x800 <= c as int
    ensures EncodeChar(c) == [0xE0 + x2, 0x80 + x1, 0x80 + x0]
  {
    JoinDigits(0, x2, x1, x0);
  }

  lemma FourEncoded(c: char, x3: int, x2: int, x1: int, x0: int)
    requires 0 <= x3 < 5 && 0 <= x2 < 64 && 0 <= x1 < 64 && 0 <= x0 < 64 && c as int == Join(x3, x2, x1, x0)
    requires 0x1_0000 <= c as int
    ensures EncodeChar(c) == [0xF0 + x3, 0x80 + x2, 0x80 + x1, 0x80 + x0]
  {
    JoinDigits(x3, x2, x1, x0);
  }

  lemma NextIsEncoded(d: seq<byte>)
    requires d != [] && Next(d).Char?
    ensures EncodeChar(Next(d).c) == d[..Next(d).width]
  {
    var p := Next(d);
    if p.width == 2 {
      TwoEncoded(p.c, d[0] - 0xC0, d[1] - 0x80);
    } else if p.width == 3 {
      ThreeEncoded(p.c, d[0] - 0xE0, d[1] - 0x80, d[2] - 0x80);
    } else if p.width == 4 {
      FourEncoded(p.c, d[0] - 0xF0, d[1] - 0x80, d[2] - 0x80, d[3] - 0x80);
    }
  }

  lemma DigitsJoin(v: int)
    requires 0 <= v
    ensures v == Join(v / 262144, v / 4096 % 64, v / 64 % 64, v % 64)
  {
    assert v / 4096 == v / 262144 * 64 + v / 4096 % 64;
    assert v / 64 == v / 4096 * 64 + v / 64 % 64;
  }

  lemma NextOfTwo(c: char, x1: int, x0: int, d: seq<byte>)
    requires 0 <= x1 && 0 <= x0 < 64 && c as int == Join(0, 0, x1, x0) && 0x80 <= c as int < 0x800
    requires |d| >= 2 && d[0] == 0xC0 + x1 && d[1] == 0x80 + x0
    ensures Next(d) == Char(c, 2)
  {
  }

  lemma NextOfThree(c: char, x2: int, x1: int, x0: int, d: seq<byte>)
    requires 0 <= x2 && 0 <= x1 < 64 && 0 <= x0 < 64
    requires c as int == Join(0, x2, x1, x0) && 0x800 <= c as int < 0x1_0000
    requires |d| >= 3 && d[0] == 0xE0 + x2 && d[1] == 0x80 + x1 && d[2] == 0x80 + x0
    ensures Next(d) == Char(c, 3)
  {
  }

  lemma NextOfFour(c: char, x3: int, x2: int, x1: int, x0: int, d: seq<byte>)
    requires 0 <= x3 && 0 <= x2 < 64 && 0 <= x1 < 64 && 0 <= x0 < 64
    requires c as int == Join(x3, x2, x1, x0) && 0x1_0000 <= c as int
    requires |d| >= 4 && d[0] == 0xF0 + x3 && d[1] == 0x80 + x2 && d[2] == 0x80 + x1 && d[3] == 0x80 + x0
    ensures Next(d) == Char(c, 4)
  {
  }

  lemma NextOfEncoded(c: char, rest: seq<byte>)
    ensures Next(EncodeChar(c) + rest) == Char(c, |EncodeChar(c)|)
  {
    var v := c as int;
    DigitsJoin(v);
    var d := EncodeChar(c) + rest;
    if v < 0x80 {
    } else if v < 0x800 {
      NextOfTwo(c, v / 64, v % 64, d);
    } else if v < 0x1_0000 {
      NextOfThree(c, v / 4096, v / 64 % 64, v % 64, d);
    } else {
      NextOfFour(c, v / 262144, v / 4096 % 64, v / 64 % 64, v % 64, d);
    }
  }

  /** The decoder accepts exactly the octet strings of the RFC 3629 grammar. */
  lemma {:induction false} DecodesExactlyTheGrammar(d: seq<byte>)
    ensures Decode(d).Text? <==> Utf8Octets(d)
    decreases |d|
  {
    if d != [] {
      NextMatchesGrammar(d);
      var w := Next(d).width;
      DecodesExactlyTheGrammar(d[w..]);
      if Next(d).Char? && Decode(d).Text? {
        assert Utf8Char(d[..w]) && Utf8Octets(d[w..]);
      }
    }
  }

  /** Decoding and encoding are inverse: `t` is the text of `d` exactly when `d` encodes `t`. */
  lemma {:induction false} DecodeInvertsEncode(d: seq<byte>, t: string)
    ensures Decode(d) == Text(t) <==> Encode(t) == d
  {
    if Decode(d) == Text(t) { EncodeDecoded(d); }
    DecodeEncoded(t);
  }

  lemma {:induction false} EncodeDecoded(d: seq<byte>)
    requires Decode(d).Text?
    ensures Encode(Decode(d).text) == d
    decreases |d|
  {
    if d != [] {
      var p := Next(d);
      var rest := d[p.width..];
      NextIsEncoded(d);
      EncodeDecoded(rest);
      var t := [p.c] + Decode(rest).text;
      assert t[0] == p.c && t[1..] == Decode(rest).text;
      assert Encode(t) == EncodeChar(p.c) + Encode(t[1..]);
      assert d == d[..p.width] + rest;
    }
  }

  lemma {:induction false} DecodeEncoded(t: string)
    ensures Decode(Encode(t)) == Text(t)
  {
    if t != "" {
      var rest := Encode(t[1..]);
      NextOfEncoded(t[0], rest);
      DecodeEncoded(t[1..]);
      assert Encode(t)[|EncodeChar(t[0])|..] == rest;
      assert [t[0]] + t[1..] == t;
    }
  }

  lemma {:induction false} EncodeAppend(a: string, b: string)
    ensures Encode(a + b) == Encode(a) + Encode(b)
  {
    if a == "" {
      assert a + b == b;
    } else {
      var head, rest := EncodeChar(a[0]), a[1..];
      EncodeAppend(rest, b);
      DropAppend(a, b, 1);
      Assoc(head, Encode(rest), Encode(b));
    }
  }

  // ----- Decoding piece by piece ---------------------------------------------------------------

  lemma NextAppend(a: seq<byte>, b: seq<byte>)
    requires a != [] && Next(a).Char?
    ensures Next(a + b) == Next(a)
  {
  }

  lemma PrependTwice(s: string, m: nat, t: string, n: nat, r: Decoded)
    ensures Prepend(s, m, Prepend(t, n, r)) == Prepend(s + t, m + n, r)
  {
    if r.Text? { assert s + (t + r.text) == (s + t) + r.text; }
  }

  /** A valid prefix is decoded on its own, whatever follows it. */
  lemma {:induction false} DecodeAppend(a: seq<byte>, b: seq<byte>)
    requires Decode(a).Text?
    ensures Decode(a + b) == Prepend(Decode(a).text, |a|, Decode(b))
    decreases |a|
  {
    if a == [] {
      assert a + b == b;
      if Decode(b).Text? { assert "" + Decode(b).text == Decode(b).text; }
    } else {
      var p := Next(a);
      var rest := a[p.width..];
      NextAppend(a, b);
      DecodeAppend(rest, b);
      DropAppend(a, b, p.width);
      assert Decode(a + b) == Prepend([p.c], p.width, Decode(rest + b));
      assert Decode(a) == Prepend([p.c], p.width, Decode(rest));
      PrependTwice([p.c], p.width, Decode(rest).text, |rest|, Decode(b));
    }
  }

  lemma OneAlone(d: seq<byte>)
    requires d != [] && Next(d).Char?
    ensures var p := Next(d); Decode(d[..p.width]) == Text([p.c])
  {
    var p := Next(d);
    var one := d[..p.width];
    assert forall k :: 0 <= k < p.width ==> one[k] == d[k];
    assert Next(one) == p;
    assert one[p.width..] == [];
    assert [p.c] + "" == [p.c];
  }

  /** The extent of an error: everything before `start` is valid text, and `start..end` is the
      piece that the decoder blames when it sees the rest of the input alone. */
  lemma {:induction false} ErrorExtent(d: seq<byte>)
    requires Decode(d).Error?
    ensures var e := Decode(d);
            && e.start < e.end <= |d|
            && Decode(d[..e.start]).Text?
            && Next(d[e.start..]) == Bad(e.end - e.start)
    decreases |d|
  {
    var p := Next(d);
    if p.Char? {
      var rest := d[p.width..];
      ErrorExtent(rest);
      var s := Decode(rest).start;
      SliceOfDrop(d, p.width, s);
      OneAlone(d);
      DecodeAppend(d[..p.width], rest[..s]);
    } else {
      Whole(d);
      assert d[..0] == [];
    }
  }
}
