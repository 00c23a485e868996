/** The chunked conversion: it carries an unfinished code point and a held-back CR from one read
    to the next, and writes what the whole-file conversion would. */
module Stream {
  import opened Wrappers
  import opened Utf8
  import opened Lines
  import opened Seqs

  // ----- The code point cut by a read boundary -------------------------------------------------

  /** Is `tail` a lead byte with no more continuation bytes than its bit pattern announces?
      The masks are written as quotients: b & 0xE0 == 0xC0 is b / 32 == 6, and so on. */
  predicate IsUtf8Prefix(tail: seq<byte>)
  {
    && tail != []
    && (|| tail[0] / 128 == 0
        || (var needed := if tail[0] / 32 == 6 then 1
                          else if tail[0] / 16 == 14 then 2
                          else if tail[0] / 8 == 30 then 3
                          else -1;
            && needed >= 0
            && |tail| <= needed + 1
            && forall k :: 1 <= k < |tail| ==> tail[k] / 64 == 2))
  }

  /** Every beginning of the bytes of a character is one, and so is all of them. */
  lemma BeginningsArePrefixes(c: char, n: nat)
    requires 1 <= n <= |EncodeChar(c)|
    ensures IsUtf8Prefix(EncodeChar(c)[..n])
  {
  }

  /** The text of `d` and the bytes to put in front of the next chunk. */
  function CarrySplit(d: seq<byte>): Result<(string, seq<byte>)>
  {
    match Decode(d)
    case Text(t) => Ok((t, []))
    case Error(start, end) =>
      ErrorExtent(d);
      var tail := d[start..];
      if !IsUtf8Prefix(tail) || end != |d| then Err
      else Ok((Decode(d[..start]).text, tail))
  }

  /** Bytes that may be carried: on their own they are refused, but with more bytes they may
      start a code point. The five lead bytes that never start one (C0, C1, F5, F6, F7) are
      among them and are refused one chunk later. */
  ghost predicate Carriable(c: seq<byte>)
  {
    && 1 <= |c| <= 3
    && 0xC0 <= c[0]
    && Next(c) == Bad(|c|)
  }

  lemma NextAfterCarry(c: seq<byte>, more: seq<byte>)
    requires Carriable(c)
    ensures Next(c + more).Char? ==> Next(c + more).c >= 0x80 as char
  {
  }

  lemma BadForGood(tail: seq<byte>, more: seq<byte>)
    requires tail != [] && Next(tail).Bad?
    requires !IsUtf8Prefix(tail) || Next(tail).width != |tail|
    ensures Next(tail + more) == Next(tail)
  {
  }

  lemma CarriedIsCarriable(tail: seq<byte>)
    requires tail != [] && Next(tail) == Bad(|tail|) && IsUtf8Prefix(tail)
    ensures Carriable(tail)
  {
  }

  /** How an accepted split divides `d`: finished text, then at most three carried bytes. */
  lemma CarrySplitParts(d: seq<byte>) returns (good: seq<byte>)
    requires CarrySplit(d).Ok?
    ensures var (t, c) := CarrySplit(d).value;
            d == good + c && Decode(good) == Text(t) && (c == [] || Carriable(c))
  {
    if Decode(d).Text? {
      good := d;
      Whole(d);
    } else {
      ErrorExtent(d);
      var start := Decode(d).start;
      good := d[..start];
      Cut(d, start);
      CarriedIsCarriable(d[start..]);
    }
  }

  /** The text of an accepted split stands, whatever follows. */
  lemma CarrySplitGoesOn(d: seq<byte>, more: seq<byte>)
    requires CarrySplit(d).Ok?
    ensures var (t, c) := CarrySplit(d).value;
            |c| <= |d| && Decode(d + more) == Prepend(t, |d| - |c|, Decode(c + more))
  {
    var (t, c) := CarrySplit(d).value;
    var good := CarrySplitParts(d);
    Assoc(good, c, more);
    DecodeAppend(good, c + more);
  }

  /** A refused split dooms every continuation. */
  lemma CarrySplitRefuses(d: seq<byte>, more: seq<byte>)
    requires CarrySplit(d).Err?
    ensures Decode(d + more).Error?
  {
    ErrorExtent(d);
    var start := Decode(d).start;
    var good, tail := d[..start], d[start..];
    Cut(d, start);
    Assoc(good, tail, more);
    DecodeAppend(good, tail + more);
    BadForGood(tail, more);
    assert Decode(tail + more).Error?;
  }

  // ----- The line terminator cut by a read boundary --------------------------------------------

  predicate EndsWithCr(t: string) { t != "" && t[|t| - 1] == '\r' }

  /** `t` without the CR that a later LF may still join. */
  function Settled(t: string): string
  {
    if EndsWithCr(t) then t[..|t| - 1] else t
  }

  /** What is left to write when `flushed` has been written and `rest` has been read. */
  ghost function Outcome(flushed: string, rest: string, newline: string): string
  {
    flushed + OnePass(Settled(rest), newline)
  }

  lemma AfterCr(rest: string, newline: string)
    ensures OnePass("\r" + rest, newline)
         == newline + OnePass(if rest != "" && rest[0] == '\n' then rest[1..] else rest, newline)
  {
    var t := "\r" + rest;
    TakeAppend("\r", rest);
    if rest != "" && rest[0] == '\n' {
      assert t[2..] == rest[1..];
    }
  }

  lemma FlushStart(text: string, newline: string, pendingCr: bool)
    ensures var whole := OnePass((if pendingCr then "\r" else "") + Settled(text), newline);
            var lf := pendingCr && text != "" && text[0] == '\n';
            && Outcome(if pendingCr then newline else "", if lf then text[1..] else text, newline) == whole
            && (lf ==> EndsWithCr(text) == EndsWithCr(text[1..]))
  {
    if pendingCr {
      AfterCr(Settled(text), newline);
      if text != "" && text[0] == '\n' {
        assert Settled(text)[1..] == Settled(text[1..]);
      }
    } else {
      Whole(Settled(text));
      Whole(OnePass(Settled(text), newline));
    }
  }

  lemma SettledStep(rest: string, newline: string)
    requires rest != "" && rest != "\r"
    ensures var n := Terminator(rest);
            OnePass(Settled(rest), newline)
            == (if n == 0 then [rest[0]] else newline) + OnePass(Settled(rest[if n == 0 then 1 else n..]), newline)
  {
    var k := if Terminator(rest) == 0 then 1 else Terminator(rest);
    assert Terminator(Settled(rest)) == Terminator(rest);
    assert Settled(rest)[k..] == Settled(rest[k..]);
  }

  lemma JoinFirst(a: string, b: string, c: string)
    ensures a + (b + c) == (a + b) + c
  {
  }

  lemma FlushStep(flushed: string, t: string, index: nat, newline: string)
    requires index < |t|
    ensures var now := Outcome(flushed, t[index..], newline);
            if t[index] == '\r' then
              if index + 1 == |t| then Outcome(flushed, t[index + 1..], newline) == now
              else if t[index + 1] == '\n' then Outcome(flushed + newline, t[index + 2..], newline) == now
              else Outcome(flushed + newline, t[index + 1..], newline) == now
            else if t[index] == '\n' then Outcome(flushed + newline, t[index + 1..], newline) == now
            else Outcome(flushed + [t[index]], t[index + 1..], newline) == now
  {
    var rest := t[index..];
    assert rest[1..] == t[index + 1..];
    if rest == "\r" {
      assert Settled(rest) == "" == Settled(t[index + 1..]);
    } else {
      SettledStep(rest, newline);
      if t[index] == '\r' && t[index + 1] == '\n' {
        assert rest[2..] == t[index + 2..];
      }
      JoinFirst(flushed, if Terminator(rest) == 0 then [t[index]] else newline,
                OnePass(Settled(rest[if Terminator(rest) == 0 then 1 else Terminator(rest)..]), newline));
    }
  }

  /** Converts `text`, which follows a held-back CR if `pendingCr`, and holds back a CR at its
      end. With no text at all a pending CR is let go as a line end of its own. */
  method FlushNormalizedLines(text: string, newline: string, pendingCr: bool)
    returns (flushed: string, pending: bool)
    ensures pending == EndsWithCr(text)
    ensures flushed == OnePass((if pendingCr then "\r" else "") + Settled(text), newline)
  {
    var t := text;
    flushed := "";
    pending := false;
    FlushStart(text, newline, pendingCr);
    if pendingCr {
      if text != "" && text[0] == '\n' {
        flushed := newline;
        t := t[1..];
      } else {
        flushed := newline;
      }
    }
    ghost var goal := Outcome(flushed, t, newline);
    var index := 0;
    assert t[0..] == t;
    while index < |t|
      invariant 0 <= index <= |t|
      invariant pending == (index == |t| && EndsWithCr(t))
      invariant Outcome(flushed, t[index..], newline) == goal
    {
      var c := t[index];
      FlushStep(flushed, t, index, newline);
      if c == '\r' {
        if index + 1 < |t| {
          if t[index + 1] == '\n' {
            flushed := flushed + newline;
            index := index + 2;
          } else {
            flushed := flushed + newline;
            index := index + 1;
          }
        } else {
          pending := true;
          index := index + 1;
        }
      } else if c == '\n' {
        flushed := flushed + newline;
        index := index + 1;
      } else {
        flushed := flushed + [c];
        index := index + 1;
      }
    }
    assert t[index..] == "";
  }

  // ----- The whole loop ------------------------------------------------------------------------

  function Concat(chunks: seq<seq<byte>>): seq<byte>
  {
    if chunks == [] then [] else Concat(chunks[..|chunks| - 1]) + chunks[|chunks| - 1]
  }

  lemma {:induction false} ConcatSplit(chunks: seq<seq<byte>>, i: nat)
    requires i < |chunks|
    ensures exists rest :: Concat(chunks) == Concat(chunks[..i]) + chunks[i] + rest
  {
    var init := chunks[..|chunks| - 1];
    if i == |init| {
      assert Concat(chunks) == Concat(chunks[..i]) + chunks[i] + [];
    } else {
      ConcatSplit(init, i);
      assert init[..i] == chunks[..i];
      var rest :| Concat(init) == Concat(chunks[..i]) + chunks[i] + rest;
      assert Concat(chunks) == Concat(chunks[..i]) + chunks[i] + (rest + chunks[|init|]);
    }
  }

  /** Reads a file in pieces of any sizes. */
  method ReadChunks(file: seq<byte>) returns (chunks: seq<seq<byte>>)
    ensures Concat(chunks) == file
    ensures forall k :: 0 <= k < |chunks| ==> chunks[k] != []
  {
    chunks := [];
    var position := 0;
    while position < |file|
      invariant position <= |file| && Concat(chunks) == file[..position]
      invariant forall k :: 0 <= k < |chunks| ==> chunks[k] != []
    {
      var n :| 1 <= n <= |file| - position;
      assert (chunks + [file[position..position + n]])[..|chunks|] == chunks;
      chunks := chunks + [file[position..position + n]];
      position := position + n;
    }
  }

  /** The bytes read so far are `good`, which decode to `text`, and then the bytes carried. */
  ghost predicate ReadSoFar(seen: seq<byte>, good: seq<byte>, carry: seq<byte>, text: string)
  {
    && seen == good + carry
    && (carry == [] || Carriable(carry))
    && Decode(good) == Text(text)
  }

  /** All of `text` is converted and written, but for a held-back CR. A CR at its end may have
      been let go only while bytes are carried: then the next character is not an LF. */
  ghost predicate WrittenSoFar(text: string, carry: seq<byte>, pendingCr: bool, dest: seq<byte>, newline: string)
  {
    && (pendingCr ==> EndsWithCr(text))
    && (EndsWithCr(text) ==> pendingCr || carry != [])
    && dest == Encode(OnePass(if pendingCr then Settled(text) else text, newline))
  }

  lemma ReadStep(seen: seq<byte>, good: seq<byte>, carry: seq<byte>, text: string,
                 chunk: seq<byte>, t: string, carry': seq<byte>) returns (good': seq<byte>)
    requires ReadSoFar(seen, good, carry, text)
    requires chunk != [] && CarrySplit(carry + chunk) == Ok((t, carry'))
    ensures ReadSoFar(seen + chunk, good', carry', text + t)
    ensures carry != [] && t != "" ==> t[0] >= 0x80 as char
    ensures t == "" ==> carry' != []
  {
    var data := carry + chunk;
    var part := CarrySplitParts(data);
    FirstCharacter(carry, chunk, part, t);
    assert t == "" ==> part == [];
    DecodeAppend(good, part);
    Assoc(good, carry, chunk);
    Assoc(good, part, carry');
    good' := good + part;
  }

  lemma FirstCharacter(carry: seq<byte>, chunk: seq<byte>, part: seq<byte>, t: string)
    requires carry == [] || Carriable(carry)
    requires Decode(part) == Text(t) && part <= carry + chunk
    ensures carry != [] && t != "" ==> t[0] >= 0x80 as char
  {
    if carry != [] && t != "" {
      assert part[0] == carry[0];
    }
  }

  lemma SettledJoin(text: string, pendingCr: bool, t: string)
    requires pendingCr ==> EndsWithCr(text)
    requires EndsWithCr(text) && !pendingCr ==> t == "" || t[0] != '\n'
    ensures var base := if pendingCr then Settled(text) else text;
            var more := (if pendingCr then "\r" else "") + Settled(t);
            && base + more == (if EndsWithCr(t) then Settled(text + t) else text + t)
            && !(EndsWithCr(base) && more != "" && more[0] == '\n')
  {
    var base := if pendingCr then Settled(text) else text;
    var more := (if pendingCr then "\r" else "") + Settled(t);
    if pendingCr {
      Assoc(base, "\r", Settled(t));
      assert text == base + "\r";
    } else {
      assert more == Settled(t);
    }
    assert text + Settled(t) == if EndsWithCr(t) then Settled(text + t) else text + t;
  }

  lemma WriteStep(text: string, carry: seq<byte>, pendingCr: bool, dest: seq<byte>, newline: string,
                  t: string, carry': seq<byte>)
    requires WrittenSoFar(text, carry, pendingCr, dest, newline)
    requires carry != [] && t != "" ==> t[0] >= 0x80 as char
    requires t == "" ==> carry' != []
    ensures WrittenSoFar(text + t, carry', EndsWithCr(t),
                         dest + Encode(OnePass((if pendingCr then "\r" else "") + Settled(t), newline)), newline)
  {
    var base := if pendingCr then Settled(text) else text;
    var more := (if pendingCr then "\r" else "") + Settled(t);
    SettledJoin(text, pendingCr, t);
    OnePassAppend(base, more, newline);
    EncodeAppend(OnePass(base, newline), OnePass(more, newline));
  }

  /** A chunk that cannot be split dooms the whole file, whatever follows. */
  lemma RefusedChunk(seen: seq<byte>, good: seq<byte>, carry: seq<byte>, text: string, chunk: seq<byte>, rest: seq<byte>)
    requires ReadSoFar(seen, good, carry, text)
    requires CarrySplit(carry + chunk).Err?
    ensures Decode(seen + chunk + rest).Error?
  {
    CarrySplitRefuses(carry + chunk, rest);
    DecodeAppend(good, carry + chunk + rest);
    Assoc(good, carry, chunk);
    Assoc(good, carry + chunk, rest);
  }

  lemma AtEnd(seen: seq<byte>, good: seq<byte>, carry: seq<byte>, text: string, pendingCr: bool, dest: seq<byte>, newline: string)
    requires ReadSoFar(seen, good, carry, text)
    requires WrittenSoFar(text, carry, pendingCr, dest, newline)
    ensures carry != [] ==> Decode(seen).Error?
    ensures carry == [] ==>
      BytesForLocal(seen, newline) == Ok(dest + if pendingCr then Encode(newline) else [])
  {
    DecodeAppend(good, carry);
    Whole(good);
    Whole(dest);
    if carry == [] && pendingCr {
      LastCr(text, newline);
      EncodeAppend(OnePass(Settled(text), newline), newline);
    }
    LocalAsOnePass(seen, newline);
  }

  lemma LastCr(text: string, newline: string)
    requires EndsWithCr(text)
    ensures OnePass(text, newline) == OnePass(Settled(text), newline) + newline
  {
    OnePassAppend(Settled(text), "\r", newline);
    Cut(text, |text| - 1);
    assert text[|text| - 1..] == "\r";
    Whole(newline);
  }

  /** The streamed conversion. `chunks` are what the successive reads return, cut anywhere; it
      succeeds exactly when the file is valid UTF-8, and then it writes what the whole-file
      conversion would. */
  method StreamUtf8Lines(chunks: seq<seq<byte>>, newline: string) returns (ok: bool, dest: seq<byte>)
    requires forall k :: 0 <= k < |chunks| ==> chunks[k] != []
    ensures ok <==> Utf8Octets(Concat(chunks))
    ensures ok ==> BytesForLocal(Concat(chunks), newline) == Ok(dest)
  {
    var carry: seq<byte> := [];
    var pendingCr := false;
    dest := [];
    DecodesExactlyTheGrammar(Concat(chunks));
    ghost var done, good := "", [];
    var i := 0;
    while i < |chunks|
      invariant 0 <= i <= |chunks|
      invariant |carry| <= 3
      invariant ReadSoFar(Concat(chunks[..i]), good, carry, done)
      invariant WrittenSoFar(done, carry, pendingCr, dest, newline)
    {
      var chunk := chunks[i];
      TakeOneMore(chunks, i);
      var split := CarrySplit(carry + chunk);
      if split.Err? {
        ConcatSplit(chunks, i);
        ghost var rest :| Concat(chunks) == Concat(chunks[..i]) + chunk + rest;
        RefusedChunk(Concat(chunks[..i]), good, carry, done, chunk, rest);
        return false, dest;
      }
      var (text, carried) := split.value;
      good := ReadStep(Concat(chunks[..i]), good, carry, done, chunk, text, carried);
      WriteStep(done, carry, pendingCr, dest, newline, text, carried);
      var flushed, pending := FlushNormalizedLines(text, newline, pendingCr);
      dest := dest + Encode(flushed);
      carry, pendingCr, done := carried, pending, done + text;
      i := i + 1;
    }
    Whole(chunks);
    AtEnd(Concat(chunks), good, carry, done, pendingCr, dest, newline);
    if carry != [] {
      return false, dest;
    }
    Whole(dest);
    if pendingCr {
      dest := dest + Encode(newline);
    }
    return true, dest;
  }
}
