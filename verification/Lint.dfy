/** The lint matcher: positions by binary search over line starts, patterns in order by greedy
    leftmost search, and counts of occurrences. */
module Lint {
  import opened Wrappers
  import opened Seqs

  // ----- Lines and columns ---------------------------------------------------------------------

  function Newlines(t: string): nat
  {
    if t == "" then 0 else Newlines(t[..|t| - 1]) + if t[|t| - 1] == '\n' then 1 else 0
  }

  /** Where the line of `offset` starts. */
  function LineStart(t: string, offset: nat): (s: nat)
    requires offset <= |t|
    ensures s <= offset
  {
    if offset == 0 || t[offset - 1] == '\n' then offset else LineStart(t, offset - 1)
  }

  /** The 1-based line and column of an offset in the text. */
  function Place(t: string, offset: nat): (nat, nat)
    requires offset <= |t|
  {
    (1 + Newlines(t[..offset]), offset - LineStart(t, offset) + 1)
  }

  function Clamped(offset: int, length: nat): nat
  {
    if offset < 0 then 0 else if offset > length then length else offset
  }

  /** The offsets are 0 and the ends of all newlines of the first `n` characters. */
  ghost predicate IndexOf(offsets: seq<nat>, t: string, n: nat)
    requires n <= |t|
  {
    && offsets != [] && offsets[0] == 0
    && |offsets| == 1 + Newlines(t[..n])
    && (forall k :: 0 <= k < |offsets| ==> offsets[k] <= n)
    && (forall k :: 0 <= k < |offsets| ==> Newlines(t[..offsets[k]]) == k && LineStart(t, offsets[k]) == offsets[k])
    && (forall j, k :: 0 <= j < k < |offsets| ==> offsets[j] < offsets[k])
  }

  lemma {:induction false} NewlinesGrow(t: string, a: nat, b: nat)
    requires a <= b <= |t|
    ensures Newlines(t[..a]) <= Newlines(t[..b])
    decreases b - a
  {
    if a < b {
      NewlinesGrow(t, a, b - 1);
      assert t[..b][..b - 1] == t[..b - 1];
    }
  }

  /** The line start is the only line start with as many newlines before it. */
  lemma {:induction false} LineStartUnique(t: string, start: nat, offset: nat)
    requires start <= offset <= |t| && LineStart(t, start) == start
    requires Newlines(t[..start]) == Newlines(t[..offset])
    ensures LineStart(t, offset) == start
    decreases offset - start
  {
    if start < offset {
      assert t[..offset][..offset - 1] == t[..offset - 1];
      NewlinesGrow(t, start, offset - 1);
      LineStartUnique(t, start, offset - 1);
    }
  }

  class LineIndex {
    ghost const text: string
    var offsets: seq<nat>
    var length: nat

    ghost predicate Valid()
      reads this
    {
      length == |text| && IndexOf(offsets, text, |text|)
    }

    constructor (t: string)
      ensures Valid() && text == t
    {
      text := t;
      var starts: seq<nat> := [0];
      var i := 0;
      while i < |t|
        invariant 0 <= i <= |t| && IndexOf(starts, t, i)
      {
        assert t[..i + 1][..i] == t[..i];
        if t[i] == '\n' {
          starts := starts + [i + 1];
        }
        i := i + 1;
      }
      assert t[..|t|] == t;
      offsets := starts;
      length := |t|;
    }

    /** The last line that starts at or before the offset. */
    method LineOf(o: nat) returns (low: nat)
      requires Valid() && o <= length
      ensures low < |offsets| && offsets[low] <= o && (low + 1 < |offsets| ==> o < offsets[low + 1])
    {
      var high := |offsets| - 1;
      low := 0;
      while low < high
        invariant 0 <= low <= high < |offsets|
        invariant offsets[low] <= o
        invariant high + 1 < |offsets| ==> o < offsets[high + 1]
      {
        var mid := (low + high + 1) / 2;
        if offsets[mid] <= o {
          low := mid;
        } else {
          high := mid - 1;
        }
      }
    }

    /** The 1-based line and column of an offset, which is first moved into the text. */
    method Position(offset: int) returns (line: nat, column: nat)
      requires Valid()
      ensures (line, column) == Place(text, if offset < 0 then 0 else if offset <= |text| then offset else |text|)
    {
      var o := Clamped(offset, length);
      var low := LineOf(o);
      NewlinesBefore(offsets, text, low, o);
      LineStartUnique(text, offsets[low], o);
      line, column := low + 1, o - offsets[low] + 1;
    }
  }

  lemma NewlinesBefore(offsets: seq<nat>, t: string, low: nat, o: nat)
    requires IndexOf(offsets, t, |t|) && low < |offsets| && o <= |t|
    requires offsets[low] <= o && (low + 1 < |offsets| ==> o < offsets[low + 1])
    ensures Newlines(t[..o]) == low
  {
    NewlinesGrow(t, offsets[low], o);
    assert t[..|t|] == t;
    if low + 1 < |offsets| {
      var end := offsets[low + 1];
      NewlinesGrow(t, o, end - 1);
      assert t[..end][..end - 1] == t[..end - 1];
    } else {
      NewlinesGrow(t, o, |t|);
    }
  }

  lemma {:induction false} NewlinesCount(t: string)
    ensures Newlines(t) == multiset(t)['\n']
  {
    if t != "" {
      var n := |t| - 1;
      NewlinesCount(t[..n]);
      assert t == t[..n] + [t[n]];
    }
  }

  lemma {:induction false} LineStartExactly(t: string, offset: nat)
    requires offset <= |t|
    ensures var s := LineStart(t, offset);
            && (s == 0 || t[s - 1] == '\n')
            && (forall k :: s <= k < offset ==> t[k] != '\n')
  {
    if offset > 0 && t[offset - 1] != '\n' {
      LineStartExactly(t, offset - 1);
    }
  }

  /** A place is what an editor shows: as many newlines stand before it as its line says, and its
      line starts, without a newline in between, as many characters before it as its column says. */
  lemma PlaceExactly(t: string, offset: nat)
    requires offset <= |t|
    ensures var (line, column) := Place(t, offset);
            && line == 1 + multiset(t[..offset])['\n']
            && 1 <= column <= offset + 1
            && var start := offset - (column - 1);
            && (start == 0 || t[start - 1] == '\n')
            && (forall k :: start <= k < offset ==> t[k] != '\n')
  {
    NewlinesCount(t[..offset]);
    LineStartExactly(t, offset);
  }

  // ----- Patterns in order ---------------------------------------------------------------------

  predicate At(t: string, value: string, p: nat)
  {
    p + |value| <= |t| && t[p..p + |value|] == value
  }

  /** Python's `str.find` from `start` on. */
  function Find(t: string, value: string, start: nat): (r: Option<nat>)
    ensures r.Some? ==> start <= r.value && At(t, value, r.value)
    ensures forall p :: start <= p < (if r.Some? then r.value else |t| + 1) ==> !At(t, value, p)
    decreases |t| - start
  {
    if start + |value| > |t| then None
    else if At(t, value, start) then Some(start)
    else Find(t, value, start + 1)
  }

  /** The values stand at these positions, in order and without overlap, from `cursor` on. */
  ghost predicate Placement(t: string, values: seq<string>, cursor: nat, ps: seq<nat>)
  {
    && |ps| == |values|
    && (forall k :: 0 <= k < |ps| ==> At(t, values[k], ps[k]))
    && (forall k :: 0 <= k < |ps| ==> cursor <= ps[k])
    && (forall j, k :: 0 <= j < k < |ps| ==> ps[j] + |values[j]| <= ps[k])
  }

  ghost predicate Placeable(t: string, values: seq<string>)
  {
    exists ps :: Placement(t, values, 0, ps)
  }

  /** The positions the greedy search takes for the first values, as many as it can place. */
  function Greedy(t: string, values: seq<string>): (g: seq<nat>)
    ensures |g| <= |values| && forall k :: 0 <= k < |g| ==> g[k] <= |t|
  {
    if values == [] then []
    else
      var n := |values| - 1;
      var before := Greedy(t, values[..n]);
      if |before| < n then before
      else
        var found := Find(t, values[n], Cursor(values[..n], before));
        if found.None? then before else before + [found.value]
  }

  function Cursor(values: seq<string>, ps: seq<nat>): nat
    requires |ps| <= |values|
  {
    if ps == [] then 0 else ps[|ps| - 1] + |values[|ps| - 1]|
  }

  lemma PlacementExtends(t: string, values: seq<string>, ps: seq<nat>, value: string, p: nat)
    requires Placement(t, values, 0, ps) && At(t, value, p) && Cursor(values, ps) <= p
    ensures Placement(t, values + [value], 0, ps + [p])
  {
    assert forall j, k :: 0 <= j < k < |ps| ==> ps[j] + |values[j]| <= ps[k];
    assert forall j :: 0 <= j < |ps| ==> ps[j] + |values[j]| <= Cursor(values, ps);
  }

  lemma PlacementShrinks(t: string, values: seq<string>, ps: seq<nat>)
    requires Placement(t, values, 0, ps) && values != []
    ensures var n := |values| - 1;
            Placement(t, values[..n], 0, ps[..n]) && At(t, values[n], ps[n]) && Cursor(values[..n], ps[..n]) <= ps[n]
  {
  }

  /** The greedy positions are a placement of the values they cover. */
  lemma {:induction false} GreedyPlaces(t: string, values: seq<string>)
    ensures Placement(t, values[..|Greedy(t, values)|], 0, Greedy(t, values))
  {
    if values != [] {
      var n := |values| - 1;
      var init := values[..n];
      var g := Greedy(t, init);
      GreedyPlaces(t, init);
      assert init[..|g|] == values[..|g|];
      if |Greedy(t, values)| > |g| {
        assert init[..n] == init && values[..n + 1] == values == init + [values[n]];
        PlacementExtends(t, init, g, values[n], Greedy(t, values)[n]);
      }
    }
  }

  /** If the values can be placed, the search places them all, and no placement puts the last
      one before where the search puts it. */
  lemma {:induction false} GreedyStaysAhead(t: string, values: seq<string>, ps: seq<nat>)
    requires Placement(t, values, 0, ps)
    ensures |Greedy(t, values)| == |values|
    ensures Cursor(values, Greedy(t, values)) <= Cursor(values, ps)
    ensures values != [] ==> Greedy(t, values)[|values| - 1] <= ps[|values| - 1]
  {
    if values != [] {
      var n := |values| - 1;
      PlacementShrinks(t, values, ps);
      GreedyStaysAhead(t, values[..n], ps[..n]);
    }
  }

  /** The search finds every value exactly when the values can be placed in order at all. */
  lemma GreedyIsComplete(t: string, values: seq<string>)
    ensures |Greedy(t, values)| == |values| <==> Placeable(t, values)
  {
    if |Greedy(t, values)| == |values| {
      GreedyPlaces(t, values);
      assert values[..|values|] == values;
    }
    if ps :| Placement(t, values, 0, ps) {
      GreedyStaysAhead(t, values, ps);
    }
  }

  lemma {:induction false} GreedyPrefix(t: string, values: seq<string>, n: nat)
    requires n <= |values|
    ensures Greedy(t, values[..n]) == if |Greedy(t, values)| < n then Greedy(t, values) else Greedy(t, values)[..n]
  {
    if n < |values| {
      var m := |values| - 1;
      GreedyPrefix(t, values[..m], n);
      assert values[..m][..n] == values[..n];
    } else {
      assert values[..n] == values;
    }
  }

  lemma GreedyNext(t: string, values: seq<string>, k: nat)
    requires k < |values| && |Greedy(t, values[..k])| == k
    ensures var g := Greedy(t, values[..k]);
            var found := Find(t, values[k], Cursor(values[..k], g));
            && Greedy(t, values[..k + 1]) == (if found.Some? then g + [found.value] else g)
            && (found.Some? ==> Cursor(values[..k + 1], g + [found.value]) == found.value + |values[k]|)
            && (found.None? ==> Greedy(t, values) == g)
  {
    assert values[..k + 1][..k] == values[..k];
    GreedyPrefix(t, values, k);
    GreedyPrefix(t, values, k + 1);
  }

  /** Which first patterns can be placed is read off the greedy search. */
  lemma PrefixesPlaceable(t: string, values: seq<string>)
    ensures forall n :: 0 <= n <= |values| ==> (Placeable(t, values[..n]) <==> n <= |Greedy(t, values)|)
  {
    forall n | 0 <= n <= |values| ensures Placeable(t, values[..n]) <==> n <= |Greedy(t, values)| {
      GreedyIsComplete(t, values[..n]);
      GreedyPrefix(t, values, n);
    }
  }

  /** The last of the greedy positions, as the rule reports it. */
  function LastPlace(t: string, g: seq<nat>): Option<(nat, nat)>
    requires forall k :: 0 <= k < |g| ==> g[k] <= |t|
  {
    if g == [] then None else Some(Place(t, g[|g| - 1]))
  }

  /** What is reported as the place of the last pattern found: with the most first patterns placed
      that can be, the earliest at which the last of them can stand. */
  lemma LastPlaceExactly(t: string, values: seq<string>) returns (n: nat, ps: seq<nat>)
    ensures n <= |values| && Placeable(t, values[..n])
    ensures n < |values| ==> !Placeable(t, values[..n + 1])
    ensures Placement(t, values[..n], 0, ps) && forall k :: 0 <= k < |ps| ==> ps[k] <= |t|
    ensures LastPlace(t, Greedy(t, values)) == if n == 0 then None else Some(Place(t, ps[n - 1]))
    ensures n > 0 ==> forall qs :: Placement(t, values[..n], 0, qs) ==> ps[n - 1] <= qs[n - 1]
  {
    ps := Greedy(t, values);
    n := |ps|;
    FirstUnplaceable(t, values);
    GreedyCovers(t, values);
    if n > 0 {
      EarliestLast(t, values[..n]);
    }
  }

  lemma GreedyCovers(t: string, values: seq<string>)
    ensures var g := Greedy(t, values);
            && Placement(t, values[..|g|], 0, g) && Placeable(t, values[..|g|]) && Greedy(t, values[..|g|]) == g
  {
    var g := Greedy(t, values);
    GreedyPlaces(t, values);
    GreedyPrefix(t, values, |g|);
    if |g| == |values| {
      Whole(values);
    }
    Whole(g);
  }

  lemma EarliestLast(t: string, values: seq<string>)
    requires values != [] && |Greedy(t, values)| == |values|
    ensures forall qs :: Placement(t, values, 0, qs) ==> Greedy(t, values)[|values| - 1] <= qs[|values| - 1]
  {
    forall qs | Placement(t, values, 0, qs) ensures Greedy(t, values)[|values| - 1] <= qs[|values| - 1] {
      GreedyStaysAhead(t, values, qs);
    }
  }

  lemma FirstUnplaceable(t: string, values: seq<string>)
    ensures var n := |Greedy(t, values)|; n < |values| ==> !Placeable(t, values[..n + 1])
  {
    PrefixesPlaceable(t, values);
  }

  /** The search of the rule: how many patterns it places, where the last one is, and whether the
      first one it cannot place occurs anywhere. */
  method PlaceInOrder(t: string, index: LineIndex, values: seq<string>)
    returns (placed: nat, last: Option<(nat, nat)>, missing: bool)
    requires index.Valid() && index.text == t
    ensures placed == |Greedy(t, values)| <= |values| && last == LastPlace(t, Greedy(t, values))
    ensures missing <==> placed < |values| && Find(t, values[placed], 0).None?
  {
    var cursor := 0;
    last, missing := None, false;
    ghost var g: seq<nat> := [];
    placed := 0;
    while placed < |values|
      invariant 0 <= placed <= |values| && !missing
      invariant g == Greedy(t, values[..placed]) && |g| == placed
      invariant cursor == Cursor(values[..placed], g) && last == LastPlace(t, g)
    {
      GreedyNext(t, values, placed);
      var found := Find(t, values[placed], cursor);
      if found.None? {
        missing := Find(t, values[placed], 0).None?;
        return;
      }
      var line, column := index.Position(found.value);
      last := Some((line, column));
      cursor := found.value + |values[placed]|;
      g := g + [found.value];
      placed := placed + 1;
    }
    assert values[..placed] == values;
  }

  /** The rule on ordered patterns: reports Some(place) for a violation, where place is the
      position of the last pattern found, if any was. With `requireAll` it stays silent exactly
      when the patterns can be placed; without, also when the first one that cannot be placed
      after the others occurs nowhere in the text. */
  method OrderedPatterns(t: string, index: LineIndex, values: seq<string>, requireAll: bool)
    returns (violation: Option<Option<(nat, nat)>>)
    requires index.Valid() && index.text == t
    ensures requireAll ==> (violation.None? <==> Placeable(t, values))
    ensures !requireAll ==> (violation.Some? <==>
              exists n :: 0 <= n < |values| && Placeable(t, values[..n]) && !Placeable(t, values[..n + 1])
                       && Find(t, values[n], 0).Some?)
    ensures violation.Some? ==> violation.value == LastPlace(t, Greedy(t, values))
  {
    PrefixesPlaceable(t, values);
    assert values[..|values|] == values;
    assert forall n :: 0 <= n < |values| && Placeable(t, values[..n]) && !Placeable(t, values[..n + 1]) ==>
      n == |Greedy(t, values)|;
    var placed, last, missing := PlaceInOrder(t, index, values);
    if placed < |values| {
      assert Placeable(t, values[..placed]) && !Placeable(t, values[..placed + 1]);
    }
    if placed < |values| && (requireAll || !missing) {
      return Some(last);
    }
    return None;
  }

  // ----- Counts --------------------------------------------------------------------------------

  /** Python's `str.count` of a non-empty value, from `start` on. */
  function CountFrom(t: string, value: string, start: nat): nat
    requires value != ""
    decreases |t| - start
  {
    var found := Find(t, value, start);
    if found.None? then 0 else 1 + CountFrom(t, value, found.value + |value|)
  }

  function Copies(value: string, n: nat): seq<string>
  {
    seq(n, _ => value)
  }

  lemma CopiesFrom(t: string, value: string, start: nat, next: nat, n: nat, p: nat, ps: seq<nat>)
    requires start <= p && At(t, value, p) && p + |value| <= next
    requires Placement(t, Copies(value, n), next, ps)
    ensures Placement(t, Copies(value, n + 1), start, [p] + ps)
  {
    var copies, rest := Copies(value, n + 1), Copies(value, n);
    forall k | 0 <= k < n + 1 ensures At(t, copies[k], ([p] + ps)[k]) && start <= ([p] + ps)[k] {
      if k > 0 { assert ([p] + ps)[k] == ps[k - 1] && rest[k - 1] == value; }
    }
  }

  lemma CopiesAfter(t: string, value: string, start: nat, next: nat, n: nat, ps: seq<nat>)
    requires Placement(t, Copies(value, n + 1), start, ps) && next <= ps[0] + |value|
    ensures Placement(t, Copies(value, n), next, ps[1..])
  {
    var copies, rest := Copies(value, n + 1), Copies(value, n);
    forall k | 0 <= k < n ensures At(t, rest[k], ps[1..][k]) && next <= ps[1..][k] {
      assert ps[1..][k] == ps[k + 1] && copies[k + 1] == value && copies[0] == value;
      assert ps[0] + |copies[0]| <= ps[k + 1];
    }
    forall j, k | 0 <= j < k < n ensures ps[1..][j] + |rest[j]| <= ps[1..][k] {
      assert ps[j + 1] + |copies[j + 1]| <= ps[k + 1];
    }
  }

  lemma {:induction false} CountPlaces(t: string, value: string, start: nat, n: nat) returns (ps: seq<nat>)
    requires value != "" && n <= CountFrom(t, value, start)
    ensures Placement(t, Copies(value, n), start, ps)
    decreases n
  {
    if n == 0 {
      ps := [];
    } else {
      var p := Find(t, value, start).value;
      ps := CountPlaces(t, value, p + |value|, n - 1);
      CopiesFrom(t, value, start, p + |value|, n - 1, p, ps);
      ps := [p] + ps;
    }
  }

  lemma FirstCopy(t: string, value: string, start: nat, n: nat, ps: seq<nat>) returns (next: nat)
    requires value != "" && n > 0 && Placement(t, Copies(value, n), start, ps)
    ensures CountFrom(t, value, start) == 1 + CountFrom(t, value, next)
    ensures next <= ps[0] + |value|
  {
    assert At(t, Copies(value, n)[0], ps[0]);
    next := Find(t, value, start).value + |value|;
  }

  lemma {:induction false} CountBounds(t: string, value: string, start: nat, n: nat, ps: seq<nat>)
    requires value != "" && Placement(t, Copies(value, n), start, ps)
    ensures n <= CountFrom(t, value, start)
    decreases n
  {
    if n > 0 {
      var next := FirstCopy(t, value, start, n, ps);
      CopiesAfter(t, value, start, next, n - 1, ps);
      CountBounds(t, value, next, n - 1, ps[1..]);
    }
  }

  /** It is the largest number of occurrences that do not overlap. */
  lemma CountIsMost(t: string, value: string, start: nat, n: nat)
    requires value != ""
    ensures n <= CountFrom(t, value, start) <==> exists ps :: Placement(t, Copies(value, n), start, ps)
  {
    if n <= CountFrom(t, value, start) {
      var ps := CountPlaces(t, value, start, n);
    }
    if ps :| Placement(t, Copies(value, n), start, ps) {
      CountBounds(t, value, start, n, ps);
    }
  }

  /** `n` occurrences of the value fit into the text without overlap. */
  ghost predicate Fits(t: string, value: string, n: nat)
  {
    exists ps :: Placement(t, Copies(value, n), 0, ps)
  }

  /** The rule on counts: reports a text into which the least number of occurrences does not fit,
      or one more than the largest number does. An empty value occurs nowhere. */
  method Count(t: string, values: seq<string>, minCount: Option<nat>, maxCount: Option<nat>) returns (violation: bool)
    ensures var least := if minCount.Some? then minCount.value else 1;
            if values == [] || values[0] == "" then violation <==> least > 0
            else violation <==>
              !Fits(t, values[0], least) || (maxCount.Some? && Fits(t, values[0], maxCount.value + 1))
  {
    var value := if values == [] then "" else values[0];
    var occurrences := if value != "" then CountFrom(t, value, 0) else 0;
    var least := if minCount.Some? then minCount.value else 1;
    violation := occurrences < least || (maxCount.Some? && occurrences > maxCount.value);
    if value != "" {
      CountIsMost(t, value, 0, least);
      if maxCount.Some? {
        CountIsMost(t, value, 0, maxCount.value + 1);
      }
    }
  }
}
