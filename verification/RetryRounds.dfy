/** A queue of directory creations and file transfers, run, cancelled and retried any number of
    times: the order in which it is made survives, and no finished item is run again. */
module RetryRounds {
  import opened TransferQueue

  predicate FileOpsOnly(items: seq<Item>)
  {
    forall k :: 0 <= k < |items| ==> IsMkdir(items[k]) || IsTransfer(items[k])
  }

  predicate MkdirsFirst(items: seq<Item>)
  {
    forall a, b :: 0 <= a < b < |items| && IsTransfer(items[a]) ==> IsTransfer(items[b])
  }

  predicate Distinct(items: seq<Item>)
  {
    forall a, b :: 0 <= a < b < |items| ==> items[a].id != items[b].id
  }

  ghost function Ids(items: seq<Item>): set<nat>
  {
    set k | 0 <= k < |items| :: items[k].id
  }

  // ----- The order a new queue is given --------------------------------------------------------

  function Select(items: seq<Item>, transfers: bool): seq<Item>
  {
    if items == [] then []
    else (if (if transfers then IsTransfer(items[0]) else IsMkdir(items[0])) then [items[0]] else [])
         + Select(items[1..], transfers)
  }

  function Normalize(items: seq<Item>): seq<Item>
  {
    if items != [] && FileOpsOnly(items) then
      var mkdirs, transfers := Select(items, false), Select(items, true);
      if mkdirs != [] && transfers != [] then mkdirs + transfers else items
    else items
  }

  lemma {:induction false} SelectKind(items: seq<Item>, transfers: bool)
    ensures forall k :: 0 <= k < |Select(items, transfers)| ==>
              if transfers then IsTransfer(Select(items, transfers)[k]) else IsMkdir(Select(items, transfers)[k])
  {
    if items != [] {
      SelectKind(items[1..], transfers);
    }
  }

  lemma {:induction false} SelectConserves(items: seq<Item>)
    requires FileOpsOnly(items)
    ensures multiset(Select(items, false)) + multiset(Select(items, true)) == multiset(items)
  {
    if items != [] {
      var rest := items[1..];
      SelectConserves(rest);
      assert items == [items[0]] + rest;
      assert IsMkdir(items[0]) != IsTransfer(items[0]);
    }
  }

  lemma {:induction false} SelectNone(items: seq<Item>, transfers: bool)
    requires FileOpsOnly(items) && Select(items, transfers) == []
    ensures forall k :: 0 <= k < |items| ==> IsTransfer(items[k]) == !transfers
  {
    if items != [] {
      assert Select(items[1..], transfers) == [];
      SelectNone(items[1..], transfers);
      assert IsMkdir(items[0]) || IsTransfer(items[0]);
      forall k | 0 <= k < |items| ensures IsTransfer(items[k]) == !transfers {
        if k > 0 { assert items[k] == items[1..][k - 1]; }
      }
    }
  }

  lemma {:induction false} SelectJoin(a: seq<Item>, b: seq<Item>, transfers: bool)
    ensures Select(a + b, transfers) == Select(a, transfers) + Select(b, transfers)
  {
    if a == [] {
      assert a + b == b;
    } else {
      SelectJoin(a[1..], b, transfers);
      assert (a + b)[1..] == a[1..] + b && (a + b)[0] == a[0];
      var head := if (if transfers then IsTransfer(a[0]) else IsMkdir(a[0])) then [a[0]] else [];
      assert head + (Select(a[1..], transfers) + Select(b, transfers))
          == (head + Select(a[1..], transfers)) + Select(b, transfers);
    }
  }

  lemma {:induction false} SelectAll(items: seq<Item>, transfers: bool)
    requires forall k :: 0 <= k < |items| ==> IsTransfer(items[k]) == transfers && IsMkdir(items[k]) == !transfers
    ensures Select(items, transfers) == items && Select(items, !transfers) == []
  {
    if items != [] {
      SelectAll(items[1..], transfers);
      assert items == [items[0]] + items[1..];
    }
  }

  lemma SelectsApart(items: seq<Item>)
    ensures MkdirsFirst(Select(items, false) + Select(items, true))
  {
    SelectKind(items, false);
    SelectKind(items, true);
  }

  lemma SelectAgain(items: seq<Item>, transfers: bool)
    ensures Select(Select(items, false) + Select(items, true), transfers) == Select(items, transfers)
  {
    SelectKind(items, false);
    SelectKind(items, true);
    SelectAll(Select(items, false), false);
    SelectAll(Select(items, true), true);
    SelectJoin(Select(items, false), Select(items, true), transfers);
  }

  /** The same items, every directory before every transfer, and each kind in its old order. */
  lemma NormalizeOrders(items: seq<Item>)
    requires FileOpsOnly(items)
    ensures MkdirsFirst(Normalize(items)) && multiset(Normalize(items)) == multiset(items)
    ensures Select(Normalize(items), false) == Select(items, false)
    ensures Select(Normalize(items), true) == Select(items, true)
  {
    SelectsApart(items);
    SelectAgain(items, false);
    SelectAgain(items, true);
    SelectConserves(items);
    if Select(items, false) == [] {
      SelectNone(items, false);
    } else if Select(items, true) == [] {
      SelectNone(items, true);
    }
  }

  predicate Ascending(s: seq<nat>)
  {
    forall j, k :: 0 <= j < k < |s| ==> s[j] < s[k]
  }

  predicate OfKind(item: Item, transfers: bool)
  {
    if transfers then IsTransfer(item) else IsMkdir(item)
  }

  /** `chosen` is what stands at the places `at` of `items`, which are all those of a kind. */
  ghost predicate Chosen(items: seq<Item>, transfers: bool, chosen: seq<Item>, at: seq<nat>)
  {
    && |at| == |chosen| && Ascending(at)
    && (forall k :: 0 <= k < |at| ==> at[k] < |items| && chosen[k] == items[at[k]])
    && (forall i :: 0 <= i < |items| && OfKind(items[i], transfers) ==> i in at)
  }

  function Moved(at: seq<nat>): (moved: seq<nat>)
    ensures |moved| == |at| && forall k :: 0 <= k < |at| ==> moved[k] == at[k] + 1
  {
    seq(|at|, k requires 0 <= k < |at| => at[k] + 1)
  }

  lemma MovedMembers(at: seq<nat>, i: nat)
    requires i in at
    ensures i + 1 in Moved(at)
  {
    var k :| 0 <= k < |at| && at[k] == i;
    assert Moved(at)[k] == i + 1;
  }

  lemma OneMoreChosen(item: Item, rest: seq<Item>, transfers: bool, chosen: seq<Item>, at: seq<nat>)
    requires Chosen(rest, transfers, chosen, at)
    ensures var here := OfKind(item, transfers);
            Chosen([item] + rest, transfers, (if here then [item] else []) + chosen, (if here then [0] else []) + Moved(at))
  {
    var items := [item] + rest;
    var places := (if OfKind(item, transfers) then [0] else []) + Moved(at);
    forall i: nat | i < |items| && OfKind(items[i], transfers) ensures i in places {
      if i > 0 {
        assert rest[i - 1] == items[i];
        MovedMembers(at, i - 1);
      }
    }
  }

  /** A selection is what stands at exactly the places of its kind, in their order. */
  lemma {:induction false} SelectPlaces(items: seq<Item>, transfers: bool) returns (at: seq<nat>)
    ensures Chosen(items, transfers, Select(items, transfers), at)
  {
    at := [];
    if items != [] {
      at := SelectPlaces(items[1..], transfers);
      OneMoreChosen(items[0], items[1..], transfers, Select(items[1..], transfers), at);
      at := (if OfKind(items[0], transfers) then [0] else []) + Moved(at);
      assert items == [items[0]] + items[1..];
    }
  }

  /** Whatever it is given, a new queue holds just that; and anything but directories and
      transfers among it keeps it in the order it was given in. */
  lemma NormalizeKeeps(items: seq<Item>)
    ensures multiset(Normalize(items)) == multiset(items)
    ensures (exists k :: 0 <= k < |items| && items[k].op in {Delete, DeleteLocal, OtherOp}) ==> Normalize(items) == items
    ensures (forall k :: 0 <= k < |items| ==> items[k].op in {MkdirRemote, MkdirLocal, Upload, Download}) ==>
              FileOpsOnly(items) && MkdirsFirst(Normalize(items))
  {
    if FileOpsOnly(items) {
      NormalizeOrders(items);
    }
  }

  // ----- One run -------------------------------------------------------------------------------

  ghost predicate WithoutEnqueue(run: seq<Queue>)
  {
    run != [] && forall k :: 0 <= k < |run| ==> run[k].items == run[0].items
  }

  /** The failures so far are in the order of the queue as far as kinds go. */
  ghost predicate FailedInOrder(q: Queue)
  {
    && (forall k :: 0 <= k < |q.failed| ==> q.failed[k].0 < q.next <= |q.items|)
    && (forall a, b :: 0 <= a < b < |q.failed| && IsTransfer(q.items[q.failed[a].0]) ==> IsTransfer(q.items[q.failed[b].0]))
  }

  lemma FailedWereStarted(q: Queue)
    requires EachOnce(q.running, q.completed, q.failed, q.next)
    ensures forall k :: 0 <= k < |q.failed| ==> q.failed[k].0 < q.next
    ensures forall k :: 0 <= k < |q.completed| ==> q.completed[k] < q.next
  {
    forall k | 0 <= k < |q.failed| ensures q.failed[k].0 < q.next {
      assert FailedIndices(q.failed)[k] == q.failed[k].0;
      assert Places(q.running, q.completed, q.failed, q.failed[k].0) >= 1;
    }
    forall k | 0 <= k < |q.completed| ensures q.completed[k] < q.next {
      assert Places(q.running, q.completed, q.failed, q.completed[k]) >= 1;
    }
  }

  lemma FinishKeepsOrder(q: Queue, i: nat, o: Outcome)
    requires FailedInOrder(q) && MkdirsFirst(q.items)
    requires i < q.next <= |q.items| && (IsTransfer(q.items[i]) || i + 1 == q.next)
    ensures FailedInOrder(Finished(q, i, o))
  {
  }

  lemma StepKeepsOrder(limit: nat, q: Queue, q': Queue)
    requires Inv(limit, q) && Internal(limit, q, q')
    requires MkdirsFirst(q.items) && FailedInOrder(q)
    ensures FailedInOrder(q')
  {
    match q.phase
    case Single(i) =>
      var o :| q' == Finished(q, i, o).(phase := if o == Error(CANCELLED) then Leaving else Top);
      FinishKeepsOrder(q, i, o);
    case Draining(first) =>
      if q.running != {} {
        var i, o :| i in q.running && q' == Finished(q, i, o).(cancel := q.cancel || o == Error(CANCELLED));
        FinishKeepsOrder(q, i, o);
      }
    case _ =>
  }

  lemma {:induction false} RunKeepsOrder(limit: nat, run: seq<Queue>, k: nat)
    requires limit >= 1 && IsRun(limit, run) && WithoutEnqueue(run) && k < |run|
    requires MkdirsFirst(run[0].items)
    ensures FailedInOrder(run[k])
  {
    if k > 0 {
      RunKeepsOrder(limit, run, k - 1);
      EveryInterleavingIsSafe(limit, run, k - 1);
      assert Linked(limit, run, k - 1);
      if Internal(limit, run[k - 1], run[k]) {
        StepKeepsOrder(limit, run[k - 1], run[k]);
      }
    }
  }

  // ----- The next run --------------------------------------------------------------------------

  function Restored(q: Queue): (r: seq<Item>)
    requires forall k :: 0 <= k < |q.failed| ==> q.failed[k].0 < |q.items|
  {
    seq(|q.failed|, k requires 0 <= k < |q.failed| => q.items[q.failed[k].0])
  }

  /** The queue after `retry_failed` and `start`. */
  function Retry(q: Queue): Queue
    requires forall k :: 0 <= k < |q.failed| ==> q.failed[k].0 < |q.items|
  {
    var items := Restored(q) + q.pending;
    Queue(items, items, 0, {}, [], [], false, false, Top)
  }

  ghost function CompletedIds(q: Queue): set<nat>
    requires forall k :: 0 <= k < |q.completed| ==> q.completed[k] < |q.items|
  {
    set k | 0 <= k < |q.completed| :: q.items[q.completed[k]].id
  }

  lemma CountedTwice<T>(s: seq<T>, a: nat, b: nat)
    requires a < b < |s|
    ensures s[a] == s[b] ==> multiset(s)[s[a]] >= 2
  {
    assert s == s[..b] + [s[b]] + s[b + 1..];
    assert s[..b][a] == s[a];
  }

  lemma RestoredIndexOnce(q: Queue, a: nat, b: nat)
    requires EachOnce(q.running, q.completed, q.failed, q.next) && a < b < |q.failed|
    ensures q.failed[a].0 != q.failed[b].0
  {
    CountedTwice(FailedIndices(q.failed), a, b);
    assert Places(q.running, q.completed, q.failed, q.failed[a].0) <= 1;
  }

  lemma CompletedNotFailed(q: Queue, a: nat, b: nat)
    requires EachOnce(q.running, q.completed, q.failed, q.next) && a < |q.completed| && b < |q.failed|
    ensures q.completed[a] != q.failed[b].0
  {
    assert FailedIndices(q.failed)[b] in multiset(FailedIndices(q.failed));
    assert Places(q.running, q.completed, q.failed, q.completed[a]) <= 1;
  }

  lemma RetryKeepsQueue(q: Queue, limit: nat)
    requires limit >= 1 && Inv(limit, q) && q.running == {}
    requires FailedInOrder(q) && FileOpsOnly(q.items) && MkdirsFirst(q.items) && Distinct(q.items)
    ensures var r := Retry(q).items;
            && FileOpsOnly(r) && MkdirsFirst(r) && Distinct(r)
  {
    var r := Retry(q).items;
    var n := |q.failed|;
    forall a, b | 0 <= a < b < n ensures q.failed[a].0 != q.failed[b].0 {
      RestoredIndexOnce(q, a, b);
    }
    assert forall k :: 0 <= k < |r| ==>
      r[k] == q.items[if k < n then q.failed[k].0 else q.next + (k - n)];
  }

  lemma RetryAt(q: Queue)
    requires q.next <= |q.items| && q.pending == q.items[q.next..]
    requires forall k :: 0 <= k < |q.failed| ==> q.failed[k].0 < |q.items|
    ensures var r := Retry(q).items;
            && |r| == |q.failed| + |q.items| - q.next
            && forall k :: 0 <= k < |r| ==>
                 r[k] == q.items[if k < |q.failed| then q.failed[k].0 else q.next + (k - |q.failed|)]
  {
  }

  /** Where an item of the run is found after the run. */
  lemma RetryCovers(q: Queue, limit: nat, i: nat)
    requires limit >= 1 && Inv(limit, q) && q.running == {} && i < |q.items|
    requires forall k :: 0 <= k < |q.failed| ==> q.failed[k].0 < |q.items|
    requires forall k :: 0 <= k < |q.completed| ==> q.completed[k] < q.next
    ensures q.items[i].id in CompletedIds(q) + Ids(Retry(q).items)
  {
    RetryAt(q);
    var r := Retry(q).items;
    if i < q.next {
      assert Places(q.running, q.completed, q.failed, i) == 1;
      if i in FailedIndices(q.failed) {
        var k :| 0 <= k < |q.failed| && FailedIndices(q.failed)[k] == i;
        assert r[k] == q.items[i];
      }
    } else {
      assert r[|q.failed| + (i - q.next)] == q.items[i];
    }
  }

  lemma RetrySeparates(q: Queue, limit: nat, a: nat, b: nat)
    requires limit >= 1 && Inv(limit, q) && q.running == {} && Distinct(q.items)
    requires forall k :: 0 <= k < |q.failed| ==> q.failed[k].0 < |q.items|
    requires forall k :: 0 <= k < |q.completed| ==> q.completed[k] < q.next
    requires a < |q.completed| && b < |Retry(q).items|
    ensures q.items[q.completed[a]].id != Retry(q).items[b].id
  {
    RetryAt(q);
    if b < |q.failed| { CompletedNotFailed(q, a, b); }
  }

  /** Each item of the run either completed or is in the next run, and never both. */
  lemma RetryConserves(q: Queue, limit: nat)
    requires limit >= 1 && Inv(limit, q) && q.running == {} && Distinct(q.items)
    requires forall k :: 0 <= k < |q.failed| ==> q.failed[k].0 < |q.items|
    requires forall k :: 0 <= k < |q.completed| ==> q.completed[k] < q.next
    ensures CompletedIds(q) + Ids(Retry(q).items) == Ids(q.items)
    ensures CompletedIds(q) !! Ids(Retry(q).items)
  {
    RetryAt(q);
    forall i: nat | i < |q.items| ensures q.items[i].id in CompletedIds(q) + Ids(Retry(q).items) {
      RetryCovers(q, limit, i);
    }
    forall a: nat, b: nat | a < |q.completed| && b < |Retry(q).items|
      ensures q.items[q.completed[a]].id != Retry(q).items[b].id
    {
      RetrySeparates(q, limit, a, b);
    }
  }

  // ----- Any number of rounds ------------------------------------------------------------------

  ghost function Last(run: seq<Queue>): Queue
    requires run != []
  {
    run[|run| - 1]
  }

  /** One complete run without enqueueing, under any cancels and any failures. */
  ghost predicate IsRound(limit: nat, run: seq<Queue>)
  {
    && limit >= 1 && IsRun(limit, run) && WithoutEnqueue(run)
    && Last(run).phase.Done?
    && (forall k :: 0 <= k < |Last(run).failed| ==> Last(run).failed[k].0 < |Last(run).items|)
    && (forall k :: 0 <= k < |Last(run).completed| ==> Last(run).completed[k] < |Last(run).items|)
  }

  /** Rounds of a queue: each but the first starts from what `retry_failed` makes of the last. */
  ghost predicate IsSession(limit: nat, original: seq<Item>, rounds: seq<seq<Queue>>)
  {
    && (forall n :: 0 <= n < |rounds| ==> IsRound(limit, rounds[n]))
    && (rounds != [] ==> rounds[0][0].items == Normalize(original))
    && (forall n :: 0 < n < |rounds| ==> rounds[n][0] == Retry(Last(rounds[n - 1])))
  }

  ghost function DoneBefore(limit: nat, rounds: seq<seq<Queue>>, n: nat): set<nat>
    requires n <= |rounds| && forall m :: 0 <= m < |rounds| ==> IsRound(limit, rounds[m])
  {
    if n == 0 then {} else DoneBefore(limit, rounds, n - 1) + CompletedIds(Last(rounds[n - 1]))
  }

  lemma MultisetIds(a: seq<Item>, b: seq<Item>)
    requires multiset(a) == multiset(b)
    ensures Ids(a) <= Ids(b)
  {
    forall k | 0 <= k < |a| ensures a[k].id in Ids(b) {
      assert a[k] in multiset(b);
    }
  }

  lemma {:induction false} DistinctOnce(a: seq<Item>, x: Item)
    requires Distinct(a)
    ensures multiset(a)[x] <= 1
  {
    if a != [] {
      DistinctOnce(a[1..], x);
      assert a == [a[0]] + a[1..];
      assert a[0] !in a[1..];
    }
  }

  lemma MultisetDistinct(a: seq<Item>, b: seq<Item>)
    requires multiset(a) == multiset(b) && Distinct(a)
    ensures Distinct(b)
  {
    forall i, j | 0 <= i < j < |b| ensures b[i].id != b[j].id {
      CountedTwice(b, i, j);
      DistinctOnce(a, b[i]);
      assert b[i] in multiset(a) && b[j] in multiset(a);
      var k :| 0 <= k < |a| && a[k] == b[i];
      var l :| 0 <= l < |a| && a[l] == b[j];
      assert k < l || l < k;
    }
  }

  /** Before every round: the directories still to be made come first, the queue holds exactly
      what was asked for and has not completed, and nothing that completed is in it. */
  lemma {:induction false} NoItemRunsAfterItCompleted(limit: nat, original: seq<Item>, rounds: seq<seq<Queue>>, n: nat)
    requires FileOpsOnly(original) && Distinct(original)
    requires IsSession(limit, original, rounds) && n < |rounds|
    ensures var items := rounds[n][0].items;
            && FileOpsOnly(items) && MkdirsFirst(items) && Distinct(items)
            && Ids(items) !! DoneBefore(limit, rounds, n)
            && Ids(items) + DoneBefore(limit, rounds, n) == Ids(original)
  {
    if n == 0 {
      NormalizeOrders(original);
      MultisetIds(original, Normalize(original));
      MultisetIds(Normalize(original), original);
      MultisetDistinct(original, Normalize(original));
      FileOpsKept(original, Normalize(original));
    } else {
      NoItemRunsAfterItCompleted(limit, original, rounds, n - 1);
      assert IsRound(limit, rounds[n - 1]);
      RoundToRound(limit, rounds[n - 1]);
    }
  }

  /** What one round hands to the next. */
  lemma RoundToRound(limit: nat, run: seq<Queue>)
    requires IsRound(limit, run)
    requires FileOpsOnly(run[0].items) && MkdirsFirst(run[0].items) && Distinct(run[0].items)
    ensures var q, items := Last(run), Retry(Last(run)).items;
            && FileOpsOnly(items) && MkdirsFirst(items) && Distinct(items)
            && CompletedIds(q) + Ids(items) == Ids(run[0].items) && CompletedIds(q) !! Ids(items)
  {
    var q := Last(run);
    RunKeepsOrder(limit, run, |run| - 1);
    EveryInterleavingIsSafe(limit, run, |run| - 1);
    FailedWereStarted(q);
    RetryKeepsQueue(q, limit);
    RetryConserves(q, limit);
  }

  lemma FileOpsKept(a: seq<Item>, b: seq<Item>)
    requires multiset(a) == multiset(b) && FileOpsOnly(a)
    ensures FileOpsOnly(b)
  {
    forall k | 0 <= k < |b| ensures IsMkdir(b[k]) || IsTransfer(b[k]) {
      assert b[k] in multiset(a);
    }
  }
}
