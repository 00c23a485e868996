/** A retry of an upload in the other mode. The identity of a partial file leaves the mode out, so
    what one mode has left behind is continued with the payload of the other. */
module ModeChange {
  import opened Wrappers
  import opened Utf8
  import opened Lines
  import opened Resume
  import opened Seqs

  const CR: byte := 13

  function Ascii(t: string): seq<byte>
  {
    Encode(OnePass(t, "\n"))
  }

  lemma EncodeHead(c: char, rest: string)
    ensures Encode([c] + rest) == EncodeChar(c) + Encode(rest)
  {
    assert ([c] + rest)[1..] == rest;
  }

  lemma AsciiHead(t: string)
    requires t != ""
    ensures t[0] == '\r' ==> Ascii(t) == EncodeChar('\n') + Ascii(t[Terminator(t)..])
    ensures t[0] != '\r' ==> Ascii(t) == EncodeChar(t[0]) + Ascii(t[1..])
  {
    EncodeHead(if t[0] == '\r' then '\n' else t[0], OnePass(t[if t[0] == '\r' then Terminator(t) else 1..], "\n"));
  }

  lemma CrAlone(c: char)
    ensures CR in EncodeChar(c) <==> c == '\r'
    ensures |EncodeChar(c)| >= 1 && EncodeChar('\n') == [10]
  {
  }

  lemma {:induction false} AsciiHasNoCr(t: string)
    ensures CR !in Ascii(t)
    decreases |t|
  {
    if t != "" {
      AsciiHead(t);
      CrAlone(t[0]);
      AsciiHasNoCr(t[if t[0] == '\r' then Terminator(t) else 1..]);
    }
  }

  lemma EncodeDrop(t: string, k: nat)
    requires k <= |t|
    ensures |Encode(t)| >= k + |Encode(t[k..])|
  {
    if k > 0 {
      CrAlone(t[0]);
      EncodeDrop(t[1..], k - 1);
      assert t[1..][k - 1..] == t[k..];
    }
  }

  lemma {:induction false} AsciiIsNoLonger(t: string)
    ensures |Ascii(t)| <= |Encode(t)|
    decreases |t|
  {
    if t != "" {
      AsciiHead(t);
      var k := if t[0] == '\r' then Terminator(t) else 1;
      AsciiIsNoLonger(t[k..]);
      if t[0] == '\r' { EncodeDrop(t, k); }
    }
  }

  /** Up to the first CR the two payloads are the same. */
  lemma {:induction false} SameUpToCr(t: string, n: nat)
    requires n <= |Encode(t)| && CR !in Encode(t)[..n]
    ensures n <= |Ascii(t)| && Ascii(t)[..n] == Encode(t)[..n]
    decreases |t|
  {
    if n > 0 {
      var e := EncodeChar(t[0]);
      CrAlone(t[0]);
      AsciiHead(t);
      assert Encode(t)[0] == e[0];
      FirstOfPrefix(Encode(t), n);
      if n > |e| {
        SplitPrefix(e, Encode(t[1..]), n);
        SameUpToCr(t[1..], n - |e|);
        SplitPrefix(e, Ascii(t[1..]), n);
      } else {
        ShortPrefix(e, Encode(t[1..]), n);
        ShortPrefix(e, Ascii(t[1..]), n);
      }
    }
  }

  lemma FirstOfPrefix(s: seq<byte>, n: nat)
    requires 0 < n <= |s|
    ensures s[0] in s[..n]
  {
    assert s[..n][0] == s[0];
  }

  lemma SplitPrefix(a: seq<byte>, b: seq<byte>, n: nat)
    requires |a| <= n <= |a| + |b|
    ensures (a + b)[..n] == a + b[..n - |a|]
  {
  }

  lemma ShortPrefix(a: seq<byte>, b: seq<byte>, n: nat)
    requires n <= |a|
    ensures (a + b)[..n] == a[..n]
  {
  }

  lemma PrefixByTake(a: seq<byte>, b: seq<byte>)
    ensures a <= b <==> |a| <= |b| && b[..|a|] == a
  {
  }

  /** The text behind the bytes and their payload. */
  lemma PayloadText(b: seq<byte>, a: seq<byte>) returns (t: string)
    requires BytesForRemote(b) == Ok(a)
    ensures Encode(t) == b && Ascii(t) == a
  {
    LocalAsOnePass(b, "\n");
    EncodeDecoded(b);
    t := Decode(b).text;
  }

  /** Whether a beginning of one payload is a beginning of the other. */
  lemma PrefixUpToCr(b: seq<byte>, a: seq<byte>, n: nat)
    requires BytesForRemote(b) == Ok(a)
    ensures |a| <= |b|
    ensures n <= |b| ==> (b[..n] <= a <==> CR !in b[..n])
    ensures n <= |a| ==> (a[..n] <= b <==> CR !in b[..n])
  {
    var t := PayloadText(b, a);
    AsciiIsNoLonger(t);
    AsciiHasNoCr(t);
    if n <= |b| {
      PrefixByTake(b[..n], a);
      if CR !in b[..n] { SameUpToCr(t, n); }
    }
    if n <= |a| {
      PrefixByTake(a[..n], b);
    }
  }

  /** An ASCII retry over what a binary attempt has left of the file `b` delivers its ASCII
      payload `a` exactly when no CR is left, or more than the whole payload. */
  lemma AsciiAfterBinary(b: seq<byte>, a: seq<byte>, n: nat)
    requires BytesForRemote(b) == Ok(a) && n <= |b|
    ensures ResumeOutcome(Some(b[..n]), a) == a <==> CR !in b[..n] || n > |a|
  {
    ResumeExact(Some(b[..n]), a);
    PrefixUpToCr(b, a, n);
  }

  /** A binary retry over what an ASCII attempt has left delivers the file exactly when there is
      no CR in as much of the file. */
  lemma BinaryAfterAscii(b: seq<byte>, a: seq<byte>, n: nat)
    requires BytesForRemote(b) == Ok(a) && n <= |a|
    ensures n <= |b| && (ResumeOutcome(Some(a[..n]), b) == b <==> CR !in b[..n])
  {
    ResumeExact(Some(a[..n]), b);
    PrefixUpToCr(b, a, n);
  }
}
