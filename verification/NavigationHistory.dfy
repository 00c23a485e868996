/** The navigation history of a profile: most recent first, each directory once, bounded. */
module NavigationHistory {
  import opened Seqs

  const MAX_HISTORY := 100

  function StripSlashes(p: string): string
  {
    if p != "" && p[|p| - 1] == '/' then StripSlashes(p[..|p| - 1]) else p
  }

  function Normalize(p: string): string
  {
    if StripSlashes(p) == "" then "/" else StripSlashes(p)
  }

  lemma {:induction false} NormalizeTwice(p: string)
    ensures Normalize(Normalize(p)) == Normalize(p)
    decreases |p|
  {
    if p != "" && p[|p| - 1] == '/' {
      NormalizeTwice(p[..|p| - 1]);
    }
  }

  /** Only slashes at the end go, all of them, and the root stays. */
  lemma {:induction false} NormalizeExactly(p: string) returns (slashes: string)
    ensures forall k :: 0 <= k < |slashes| ==> slashes[k] == '/'
    ensures if Normalize(p) == "/" then p == slashes
            else p == Normalize(p) + slashes && Normalize(p) != "" && Normalize(p)[|Normalize(p)| - 1] != '/'
    decreases |p|
  {
    slashes := "";
    if p != "" && p[|p| - 1] == '/' {
      slashes := NormalizeExactly(p[..|p| - 1]);
      slashes := slashes + "/";
    }
  }

  datatype Entry = Entry(path: string, lastVisited: int)

  function Without(h: seq<Entry>, path: string): (r: seq<Entry>)
    ensures |r| <= |h|
  {
    if h == [] then []
    else (if h[0].path == path then [] else [h[0]]) + Without(h[1..], path)
  }

  function FirstItems(h: seq<Entry>, n: nat): seq<Entry>
  {
    if |h| <= n then h else h[..n]
  }

  /** All visits, each path once, at the place of its latest visit, latest visits first. */
  function LatestFirst(visits: seq<Entry>): seq<Entry>
  {
    if visits == [] then []
    else
      var v := visits[|visits| - 1];
      [v] + Without(LatestFirst(visits[..|visits| - 1]), v.path)
  }

  // ----- What that list is ---------------------------------------------------------------------

  /** Visit `i` is the latest one of its path. */
  predicate IsLatest(visits: seq<Entry>, i: nat)
    requires i < |visits|
  {
    forall j :: i < j < |visits| ==> visits[j].path != visits[i].path
  }

  /** The visits numbered `at`, which are exactly the latest visits of their paths, latest first. */
  ghost predicate ListsLatest(visits: seq<Entry>, h: seq<Entry>, at: seq<nat>)
  {
    && |at| == |h|
    && (forall k :: 0 <= k < |at| ==> at[k] < |visits| && IsLatest(visits, at[k]) && h[k] == visits[at[k]])
    && Descending(at)
    && (forall i :: 0 <= i < |visits| && IsLatest(visits, i) ==> i in at)
  }

  ghost predicate Descending(s: seq<nat>)
  {
    forall j, k :: 0 <= j < k < |s| ==> s[k] < s[j]
  }

  lemma DescendingTail(s: seq<nat>)
    requires Descending(s) && s != []
    ensures Descending(s[1..]) && s[0] !in s[1..] && forall i :: i in s[1..] ==> i < s[0]
  {
  }

  lemma DescendingFront(i: nat, s: seq<nat>)
    requires Descending(s) && forall k :: k in s ==> k < i
    ensures Descending([i] + s)
  {
    forall k | 0 <= k < |s| ensures s[k] < i { assert s[k] in s; }
  }

  /** The numbers of visits to other directories. */
  ghost function Pick(visits: seq<Entry>, at: seq<nat>, path: string): seq<nat>
    requires forall k :: 0 <= k < |at| ==> at[k] < |visits|
  {
    if at == [] then []
    else (if visits[at[0]].path == path then [] else [at[0]]) + Pick(visits, at[1..], path)
  }

  lemma {:induction false} PickMembers(visits: seq<Entry>, at: seq<nat>, path: string)
    requires forall k :: 0 <= k < |at| ==> at[k] < |visits|
    ensures forall i :: i in Pick(visits, at, path) <==> i in at && visits[i].path != path
  {
    if at != [] {
      HeadTail(at);
      PickMembers(visits, at[1..], path);
    }
  }

  lemma {:induction false} PickDescends(visits: seq<Entry>, at: seq<nat>, path: string)
    requires Descending(at) && forall k :: 0 <= k < |at| ==> at[k] < |visits|
    ensures Descending(Pick(visits, at, path))
  {
    if at != [] {
      DescendingTail(at);
      PickMembers(visits, at[1..], path);
      PickDescends(visits, at[1..], path);
      DescendingFront(at[0], Pick(visits, at[1..], path));
    }
  }

  lemma {:induction false} PickIsWithout(visits: seq<Entry>, h: seq<Entry>, at: seq<nat>, path: string)
    requires |at| == |h| && forall k :: 0 <= k < |at| ==> at[k] < |visits| && h[k] == visits[at[k]]
    ensures var js := Pick(visits, at, path);
            && |js| == |Without(h, path)|
            && forall k :: 0 <= k < |js| ==> js[k] < |visits| && Without(h, path)[k] == visits[js[k]]
  {
    if h != [] {
      PickIsWithout(visits, h[1..], at[1..], path);
    }
  }

  lemma LatestInLonger(visits: seq<Entry>, n: nat, i: nat)
    requires |visits| == n + 1 && i < n
    ensures IsLatest(visits, i) <==> IsLatest(visits[..n], i) && visits[i].path != visits[n].path
  {
    var init := visits[..n];
    if IsLatest(init, i) && visits[i].path != visits[n].path {
      forall j | i < j < |visits| ensures visits[j].path != visits[i].path {
        if j < n { assert init[j].path != init[i].path; }
      }
    }
    if IsLatest(visits, i) {
      forall j | i < j < n ensures init[j].path != init[i].path {
        assert visits[j].path != visits[i].path;
      }
    }
  }

  /** Exactly the latest visit of every path, in the order of those visits, latest first. */
  lemma {:induction false} LatestFirstMeaning(visits: seq<Entry>) returns (at: seq<nat>)
    ensures ListsLatest(visits, LatestFirst(visits), at)
  {
    if visits == [] {
      at := [];
    } else {
      var n := |visits| - 1;
      var init := visits[..n];
      var before := LatestFirstMeaning(init);
      var js := Pick(init, before, visits[n].path);
      PickMembers(init, before, visits[n].path);
      PickDescends(init, before, visits[n].path);
      PickIsWithout(init, LatestFirst(init), before, visits[n].path);
      KeptAreLatest(visits, LatestFirst(init), before, Without(LatestFirst(init), visits[n].path), js);
      LatestInFront(visits, Without(LatestFirst(init), visits[n].path), js);
      at := [n] + js;
    }
  }

  lemma KeptAreLatest(visits: seq<Entry>, g: seq<Entry>, before: seq<nat>, h: seq<Entry>, js: seq<nat>)
    requires visits != [] && ListsLatest(visits[..|visits| - 1], g, before) && |js| == |h|
    requires forall k :: 0 <= k < |js| ==> js[k] < |visits| - 1 && h[k] == visits[..|visits| - 1][js[k]]
    requires forall i :: i in js <==> i in before && visits[..|visits| - 1][i].path != visits[|visits| - 1].path
    ensures forall k :: 0 <= k < |js| ==> IsLatest(visits, js[k]) && h[k] == visits[js[k]]
    ensures forall i :: 0 <= i < |visits| - 1 && IsLatest(visits, i) ==> i in js
  {
    var n := |visits| - 1;
    forall k | 0 <= k < |js| ensures IsLatest(visits, js[k]) && h[k] == visits[js[k]] {
      assert js[k] in js;
      LatestInLonger(visits, n, js[k]);
    }
    forall i | 0 <= i < n && IsLatest(visits, i) ensures i in js {
      LatestInLonger(visits, n, i);
    }
  }

  lemma LatestInFront(visits: seq<Entry>, h: seq<Entry>, js: seq<nat>)
    requires visits != [] && |js| == |h|
    requires forall k :: 0 <= k < |js| ==> js[k] < |visits| - 1 && IsLatest(visits, js[k]) && h[k] == visits[js[k]]
    requires Descending(js)
    requires forall i :: 0 <= i < |visits| - 1 && IsLatest(visits, i) ==> i in js
    ensures ListsLatest(visits, [visits[|visits| - 1]] + h, [|visits| - 1] + js)
  {
    var n := |visits| - 1;
    var at, g := [n] + js, [visits[n]] + h;
    forall k | 0 <= k < |at| ensures at[k] < |visits| && IsLatest(visits, at[k]) && g[k] == visits[at[k]] {
      if k > 0 { assert at[k] == js[k - 1] && g[k] == h[k - 1]; }
    }
    forall i | i in js ensures i < n {
      var k :| 0 <= k < |js| && js[k] == i;
    }
    DescendingFront(n, js);
    forall i | 0 <= i < |visits| && IsLatest(visits, i) ensures i in at {
      if i < n { assert i in js; }
    }
  }

  // ----- The store -----------------------------------------------------------------------------

  ghost predicate DistinctPaths(h: seq<Entry>)
  {
    forall j, k :: 0 <= j < k < |h| ==> h[j].path != h[k].path
  }

  lemma {:induction false} WithoutMembers(h: seq<Entry>, path: string)
    ensures forall e :: e in Without(h, path) <==> e in h && e.path != path
  {
    if h != [] {
      WithoutMembers(h[1..], path);
      assert h == [h[0]] + h[1..];
    }
  }

  lemma {:induction false} WithoutDistinct(h: seq<Entry>, path: string)
    requires DistinctPaths(h)
    ensures DistinctPaths(Without(h, path))
  {
    if h != [] {
      var rest := Without(h[1..], path);
      WithoutDistinct(h[1..], path);
      WithoutMembers(h[1..], path);
      forall k | 0 <= k < |rest| ensures rest[k].path != h[0].path {
        assert rest[k] in h[1..];
      }
    }
  }

  lemma {:induction false} WithoutAbsent(h: seq<Entry>, path: string)
    requires forall k :: 0 <= k < |h| ==> h[k].path != path
    ensures Without(h, path) == h
  {
    if h != [] {
      WithoutAbsent(h[1..], path);
      assert h == [h[0]] + h[1..];
    }
  }

  lemma {:induction false} LatestAreDistinct(visits: seq<Entry>)
    ensures DistinctPaths(LatestFirst(visits))
  {
    if visits != [] {
      var n := |visits| - 1;
      var before := LatestFirst(visits[..n]);
      var rest := Without(before, visits[n].path);
      LatestAreDistinct(visits[..n]);
      WithoutMembers(before, visits[n].path);
      WithoutDistinct(before, visits[n].path);
      forall k | 0 <= k < |rest| ensures rest[k].path != visits[n].path {
        assert rest[k] in rest;
      }
    }
  }

  lemma WithoutHead(e: Entry, tail: seq<Entry>, path: string)
    ensures Without([e] + tail, path) == (if e.path == path then [] else [e]) + Without(tail, path)
  {
    TakeAppend([e], tail);
  }

  /** Cutting a list of distinct paths short before taking one out loses nothing that shows. */
  lemma {:induction false} CutBeforeOrAfter(h: seq<Entry>, path: string, n: nat)
    requires DistinctPaths(h) && n >= 1
    ensures FirstItems(Without(FirstItems(h, n), path), n - 1) == FirstItems(Without(h, path), n - 1)
    decreases |h|
  {
    if |h| > n {
      var e, tail := h[0], h[1..];
      var cut := FirstItems(tail, n - 1);
      HeadTail(h);
      PutFirst(e, tail, n);
      WithoutHead(e, tail, path);
      WithoutHead(e, cut, path);
      if e.path == path {
        WithoutAbsent(tail, path);
        WithoutAbsent(cut, path);
        Whole(tail);
        Whole(cut);
      } else if n > 1 {
        CutBeforeOrAfter(tail, path, n - 1);
        PutFirst(e, Without(cut, path), n - 1);
        PutFirst(e, Without(tail, path), n - 1);
      }
    }
  }

  lemma PutFirst(e: Entry, h: seq<Entry>, n: nat)
    requires n >= 1
    ensures FirstItems([e] + h, n) == [e] + FirstItems(h, n - 1)
  {
  }

  class Store {
    var history: seq<Entry>
    ghost var visits: seq<Entry>  // every visit since the history was last cleared

    /** Truncating after every visit has lost nothing: the list is what one truncation of the
        whole visit log would leave. */
    ghost predicate Valid()
      reads this
    {
      && history == FirstItems(LatestFirst(visits), MAX_HISTORY)
      && forall k :: 0 <= k < |history| ==> Normalize(history[k].path) == history[k].path
    }

    constructor ()
      ensures Valid() && visits == []
    {
      history, visits := [], [];
    }

    lemma OthersStep(entries: seq<Entry>, i: nat, target: string)
      requires Valid() && i < |history|
      ensures var kept := if Normalize(history[i].path) != target then [history[i]] else [];
              (entries + kept) + Without(history[i + 1..], target) == entries + Without(history[i..], target)
    {
      SliceOfDrop(history, i, 1);
      var kept := if Normalize(history[i].path) != target then [history[i]] else [];
      Assoc(entries, kept, Without(history[i + 1..], target));
    }

    /** The entries of other directories. */
    method Others(target: string) returns (entries: seq<Entry>)
      requires Valid()
      ensures entries == Without(history, target)
    {
      entries := [];
      var i := 0;
      Whole(history);
      Whole(Without(history, target));
      while i < |history|
        invariant 0 <= i <= |history|
        invariant entries + Without(history[i..], target) == Without(history, target)
      {
        OthersStep(entries, i, target);
        Whole(entries);
        if Normalize(history[i].path) != target {
          entries := entries + [history[i]];
        }
        i := i + 1;
      }
      Whole(entries);
    }

    method RecordVisit(path: string, now: int)
      requires Valid()
      modifies this
      ensures Valid() && visits == old(visits) + [Entry(Normalize(path), now)]
      ensures history != [] && history[0] == Entry(Normalize(path), now) && |history| <= MAX_HISTORY
      ensures history <= LatestFirst(visits) && (history == LatestFirst(visits) || |history| == 100)
    {
      var target := Normalize(path);
      var entries := Others(target);
      NormalizeTwice(path);
      WithoutMembers(history, target);
      LatestAreDistinct(visits);
      CutBeforeOrAfter(LatestFirst(visits), target, MAX_HISTORY);
      ghost var v := Entry(target, now);
      PutFirst(v, entries, MAX_HISTORY);
      PutFirst(v, Without(LatestFirst(visits), target), MAX_HISTORY);
      assert (visits + [v])[..|visits|] == visits;
      visits := visits + [v];
      history := FirstItems([Entry(target, now)] + entries, MAX_HISTORY);
      assert forall k :: 0 < k < |history| ==> history[k] in entries;
    }

    method ClearHistory()
      requires Valid()
      modifies this
      ensures Valid() && visits == [] && history == []
    {
      history, visits := [], [];
    }
  }
}
