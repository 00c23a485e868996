/** Line-ending conversion of a whole text, and what the two directions promise. */
module Lines {
  import opened Wrappers
  import opened Utf8

  /** Python's `str.replace`: leftmost, non-overlapping. */
  function Replace(s: string, old_: string, new_: string): string
    requires old_ != ""
  {
    if |s| < |old_| then s
    else if s[..|old_|] == old_ then new_ + Replace(s[|old_|..], old_, new_)
    else [s[0]] + Replace(s[1..], old_, new_)
  }

  function Normalized(t: string): string
  {
    Replace(Replace(t, "\r\n", "\n"), "\r", "\n")
  }

  /** Every line terminator of `t` becomes `newline`. */
  function Converted(t: string, newline: string): string
  {
    Replace(Normalized(t), "\n", newline)
  }

  function BytesForRemote(d: seq<byte>): Result<seq<byte>>
  {
    match Decode(d)
    case Text(t) => Ok(Encode(Normalized(t)))
    case Error(_, _) => Err
  }

  function BytesForLocal(d: seq<byte>, linesep: string): Result<seq<byte>>
  {
    match Decode(d)
    case Text(t) => Ok(Encode(Converted(t, linesep)))
    case Error(_, _) => Err
  }

  // ----- One pass instead of three replacements ------------------------------------------------

  /** How many characters the line terminator at the head of `t` takes; 0 if there is none. */
  function Terminator(t: string): (n: nat)
    ensures n <= |t| && n <= 2
  {
    if t == "" then 0
    else if t[0] == '\r' then (if |t| > 1 && t[1] == '\n' then 2 else 1)
    else if t[0] == '\n' then 1
    else 0
  }

  function OnePass(t: string, newline: string): string
  {
    if t == "" then ""
    else if Terminator(t) == 0 then [t[0]] + OnePass(t[1..], newline)
    else newline + OnePass(t[Terminator(t)..], newline)
  }

  lemma ReplaceHead(c: char, t: string, old_: char, new_: string)
    ensures Replace([c] + t, [old_], new_) == (if c == old_ then new_ else [c]) + Replace(t, [old_], new_)
  {
    assert ([c] + t)[..1] == [c];
    assert ([c] + t)[1..] == t;
  }

  lemma NormalizedHead(t: string)
    requires t != ""
    ensures Normalized(t) == (if Terminator(t) == 0 then [t[0]] + Normalized(t[1..])
                              else "\n" + Normalized(t[Terminator(t)..]))
  {
    var rest := if Terminator(t) == 2 then t[2..] else t[1..];
    var c := if Terminator(t) == 2 then '\n' else t[0];
    assert Replace(t, "\r\n", "\n") == [c] + Replace(rest, "\r\n", "\n") by {
      if |t| >= 2 {
        assert t[..2] == [t[0], t[1]];
      } else {
        assert t == [t[0]] && rest == "";
      }
    }
    ReplaceHead(c, Replace(rest, "\r\n", "\n"), '\r', "\n");
  }

  lemma {:induction false} OnePassConverts(t: string, newline: string)
    ensures OnePass(t, newline) == Converted(t, newline)
    decreases |t|
  {
    if t != "" {
      NormalizedHead(t);
      var n := Terminator(t);
      var rest := if n == 0 then t[1..] else t[n..];
      ReplaceHead(if n == 0 then t[0] else '\n', Normalized(rest), '\n', newline);
      OnePassConverts(rest, newline);
    }
  }

  lemma {:induction false} NormalizedIsOnePass(t: string)
    ensures Normalized(t) == OnePass(t, "\n")
    decreases |t|
  {
    if t != "" {
      NormalizedHead(t);
      NormalizedIsOnePass(if Terminator(t) == 0 then t[1..] else t[Terminator(t)..]);
    }
  }

  /** Conversion works on two parts separately unless a CRLF would be torn between them. */
  lemma {:induction false} OnePassAppend(a: string, b: string, newline: string)
    requires !(a != "" && a[|a| - 1] == '\r' && b != "" && b[0] == '\n')
    ensures OnePass(a + b, newline) == OnePass(a, newline) + OnePass(b, newline)
    decreases |a|
  {
    if a == "" {
      assert a + b == b;
    } else {
      var n := Terminator(a);
      assert Terminator(a + b) == n;
      var k := if n == 0 then 1 else n;
      assert (a + b)[k..] == a[k..] + b;
      OnePassAppend(a[k..], b, newline);
    }
  }

  lemma ConvertedAppend(a: string, b: string, newline: string)
    requires !(a != "" && a[|a| - 1] == '\r' && b != "" && b[0] == '\n')
    ensures Converted(a + b, newline) == Converted(a, newline) + Converted(b, newline)
  {
    OnePassConverts(a + b, newline);
    OnePassConverts(a, newline);
    OnePassConverts(b, newline);
    OnePassAppend(a, b, newline);
  }

  // ----- Round trips ---------------------------------------------------------------------------

  predicate LineSeparator(s: string) { s == "\n" || s == "\r\n" }

  /** Converting once more forgets the first separator. */
  lemma {:induction false} ConvertTwice(t: string, first: string, second: string)
    requires LineSeparator(first)
    ensures OnePass(OnePass(t, first), second) == OnePass(t, second)
    decreases |t|
  {
    if t != "" {
      var n := Terminator(t);
      var rest := if n == 0 then t[1..] else t[n..];
      var head := if n == 0 then [t[0]] else first;
      ConvertTwice(rest, first, second);
      OnePassAppend(head, OnePass(rest, first), second);
      assert OnePass("", second) == "";
      assert head[1..] == if head == "\r\n" then "\n" else "";
    }
  }

  function Then(r: Result<seq<byte>>, f: seq<byte> -> Result<seq<byte>>): Result<seq<byte>>
  {
    match r
    case Ok(d) => f(d)
    case Err => Err
  }

  lemma LocalAsOnePass(d: seq<byte>, linesep: string)
    ensures Decode(d).Text? ==> BytesForLocal(d, linesep) == Ok(Encode(OnePass(Decode(d).text, linesep)))
    ensures BytesForRemote(d) == BytesForLocal(d, "\n")
  {
    if Decode(d).Text? {
      OnePassConverts(Decode(d).text, linesep);
      OnePassConverts(Decode(d).text, "\n");
      NormalizedIsOnePass(Decode(d).text);
    }
  }

  lemma LocalAfterLocal(d: seq<byte>, first: string, second: string)
    requires LineSeparator(first)
    ensures Then(BytesForLocal(d, first), x => BytesForLocal(x, second)) == BytesForLocal(d, second)
  {
    if Decode(d).Text? {
      var t := Decode(d).text;
      LocalAsOnePass(d, first);
      LocalAsOnePass(d, second);
      DecodeEncoded(OnePass(t, first));
      LocalAsOnePass(Encode(OnePass(t, first)), second);
      ConvertTwice(t, first, second);
    }
  }

  /** Sending a downloaded file back, or fetching an uploaded one, loses nothing more than the
      first conversion did, and converting twice the same way changes nothing. Invalid UTF-8
      stays refused. */
  lemma RoundTrips(d: seq<byte>, linesep: string)
    requires LineSeparator(linesep)
    ensures Then(BytesForLocal(d, linesep), x => BytesForRemote(x)) == BytesForRemote(d)
    ensures Then(BytesForRemote(d), x => BytesForLocal(x, linesep)) == BytesForLocal(d, linesep)
    ensures Then(BytesForLocal(d, linesep), x => BytesForLocal(x, linesep)) == BytesForLocal(d, linesep)
    ensures Then(BytesForRemote(d), x => BytesForRemote(x)) == BytesForRemote(d)
  {
    LocalAfterLocal(d, linesep, "\n");
    LocalAfterLocal(d, "\n", linesep);
    LocalAfterLocal(d, linesep, linesep);
    LocalAfterLocal(d, "\n", "\n");
    forall x: seq<byte> ensures BytesForRemote(x) == BytesForLocal(x, "\n") {
      LocalAsOnePass(x, "\n");
    }
  }
}
