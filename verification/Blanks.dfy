/** Python's `str.strip()`. */
module Blanks {
  import opened Seqs

  predicate IsSpace(c: char)
  {
    var v := c as int;
    || 9 <= v <= 13 || 28 <= v <= 32 || v == 0x85 || v == 0xA0 || v == 0x1680
    || 0x2000 <= v <= 0x200A || v == 0x2028 || v == 0x2029 || v == 0x202F || v == 0x205F || v == 0x3000
  }

  function Strip(s: string): string
    decreases |s|
  {
    if s != "" && IsSpace(s[0]) then Strip(s[1..])
    else if s != "" && IsSpace(s[|s| - 1]) then Strip(s[..|s| - 1])
    else s
  }

  lemma {:induction false} StripTwice(s: string)
    ensures Strip(Strip(s)) == Strip(s)
    decreases |s|
  {
    if s != "" && IsSpace(s[0]) { StripTwice(s[1..]); }
    else if s != "" && IsSpace(s[|s| - 1]) { StripTwice(s[..|s| - 1]); }
  }

  /** A text that neither starts nor ends with a blank is its own strip. */
  lemma StripPlain(s: string)
    requires s != "" ==> !IsSpace(s[0]) && !IsSpace(s[|s| - 1])
    ensures Strip(s) == s
  {
  }

  lemma {:induction false} StripEnds(s: string)
    ensures var r := Strip(s);
            && |r| <= |s|
            && (r != "" ==> !IsSpace(r[0]) && !IsSpace(r[|r| - 1]))
            && (s != "" && !IsSpace(s[0]) ==> r != "" && r[0] == s[0])
            && (s != "" && IsSpace(s[|s| - 1]) ==> |r| < |s|)
    decreases |s|
  {
    if s != "" && IsSpace(s[0]) { StripEnds(s[1..]); }
    else if s != "" && IsSpace(s[|s| - 1]) { StripEnds(s[..|s| - 1]); }
  }

  predicate AllBlank(s: string)
  {
    forall k :: 0 <= k < |s| ==> IsSpace(s[k])
  }

  lemma BlankFront(c: char, before: string, middle: string, after: string)
    requires IsSpace(c) && AllBlank(before)
    ensures [c] + (before + middle + after) == ([c] + before) + middle + after && AllBlank([c] + before)
  {
  }

  lemma BlankBack(c: char, before: string, middle: string, after: string)
    requires IsSpace(c) && AllBlank(after)
    ensures (before + middle + after) + [c] == before + middle + (after + [c]) && AllBlank(after + [c])
  {
  }

  /** Nothing but blanks goes, and all of them at either end. */
  lemma {:induction false} StripExactly(s: string) returns (before: string, after: string)
    ensures s == before + Strip(s) + after && AllBlank(before) && AllBlank(after)
    ensures Strip(s) != "" ==> !IsSpace(Strip(s)[0]) && !IsSpace(Strip(s)[|Strip(s)| - 1])
    decreases |s|
  {
    before, after := "", "";
    if s != "" && IsSpace(s[0]) {
      before, after := StripExactly(s[1..]);
      BlankFront(s[0], before, Strip(s), after);
      before := [s[0]] + before;
      HeadTail(s);
    } else if s != "" && IsSpace(s[|s| - 1]) {
      var n := |s| - 1;
      before, after := StripExactly(s[..n]);
      BlankBack(s[n], before, Strip(s), after);
      after := after + [s[n]];
      TakeOneMore(s, n);
      Whole(s);
    }
  }

  /** All blanks around a text go. */
  lemma {:induction false} StripBetween(before: string, middle: string, after: string)
    requires AllBlank(before) && AllBlank(after)
    requires middle != "" && !IsSpace(middle[0]) && !IsSpace(middle[|middle| - 1])
    ensures Strip(before + middle + after) == middle
    decreases |before| + |after|
  {
    var s := before + middle + after;
    if before != "" {
      assert s[1..] == before[1..] + middle + after;
      StripBetween(before[1..], middle, after);
    } else if after != "" {
      var n := |after| - 1;
      assert s[0] == middle[0] && s[|s| - 1] == after[n] && s[..|s| - 1] == before + middle + after[..n];
      StripBetween(before, middle, after[..n]);
    } else {
      assert s == middle;
      StripPlain(middle);
    }
  }

  lemma {:induction false} StripBlank(s: string)
    requires AllBlank(s)
    ensures Strip(s) == ""
  {
    if s != "" { StripBlank(s[1..]); }
  }
}
