/** The transfer queue as a transition system: the scheduling loop, its workers finishing in any
    order, and other threads that enqueue, cancel or stop at any moment. */
module TransferQueue {
  datatype Op = MkdirRemote | MkdirLocal | Upload | Download | Delete | DeleteLocal | OtherOp

  /** `id` stands for the object's identity; equality of items does not look at it. */
  datatype Item = Item(id: nat, op: Op, src: string, dst: string)

  predicate IsTransfer(item: Item) { item.op.Upload? || item.op.Download? }
  predicate IsMkdir(item: Item) { item.op.MkdirRemote? || item.op.MkdirLocal? }
  predicate IsDelete(item: Item) { item.op.Delete? || item.op.DeleteLocal? }

  predicate SameFields(a: Item, b: Item)
  {
    a.op == b.op && a.src == b.src && a.dst == b.dst
  }

  /** Python's `list.remove`, and no change if there is nothing to remove. */
  function RemoveFirst(s: seq<Item>, item: Item): seq<Item>
  {
    if s == [] then []
    else if SameFields(s[0], item) then s[1..]
    else [s[0]] + RemoveFirst(s[1..], item)
  }

  /** The first item of the same operation, source and destination goes. */
  lemma {:induction false} RemoveFirstAt(s: seq<Item>, item: Item, k: nat)
    requires k < |s| && s[k] == item.(id := s[k].id)
    requires forall j :: 0 <= j < k ==> s[j] != item.(id := s[j].id)
    ensures RemoveFirst(s, item) == s[..k] + s[k + 1..]
  {
    if k > 0 {
      var rest := s[1..];
      RemoveFirstAt(rest, item, k - 1);
      assert s[..k] == [s[0]] + rest[..k - 1] && s[k + 1..] == rest[k..];
    }
  }

  /** And none if there is no such item. */
  lemma {:induction false} RemoveFirstNone(s: seq<Item>, item: Item)
    requires forall j :: 0 <= j < |s| ==> s[j] != item.(id := s[j].id)
    ensures RemoveFirst(s, item) == s
  {
    if s != [] {
      RemoveFirstNone(s[1..], item);
      assert s == [s[0]] + s[1..];
    }
  }

  const CANCELLED := "cancelled"

  /** `Filling` and `Draining` know the index of the first item of their batch. */
  datatype Phase =
    | Top
    | Single(i: nat)
    | Filling(first: nat)
    | Draining(first: nat)
    | Leaving
    | Done

  datatype Outcome = Fine | Error(message: string)

  /** Items are named by their index in `items`. `completed` and `failed` list every item that
      has ended in this run, in the order in which they ended. */
  datatype Queue = Queue(
    items: seq<Item>, pending: seq<Item>,
    next: nat, running: set<nat>, completed: seq<nat>, failed: seq<(nat, string)>,
    cancel: bool, stop: bool, phase: Phase)

  function Started(q: Queue): Queue
    requires q.next < |q.items|
  {
    q.(next := q.next + 1, running := q.running + {q.next}, pending := RemoveFirst(q.pending, q.items[q.next]))
  }

  function Finished(q: Queue, i: nat, o: Outcome): Queue
  {
    match o
    case Fine => q.(running := q.running - {i}, completed := q.completed + [i])
    case Error(e) => q.(running := q.running - {i}, failed := q.failed + [(i, e)])
  }

  /** How many items the batch that starts at `first` may take. */
  function BatchLimit(limit: nat, items: seq<Item>, first: nat): nat
    requires first <= |items|
  {
    if first > 0 && IsDelete(items[first - 1]) then 1 else limit
  }

  // ----- Steps ---------------------------------------------------------------------------------

  /** One step of the loop or of a worker. */
  ghost predicate Internal(limit: nat, q: Queue, q': Queue)
  {
    match q.phase
    case Top =>
      if q.next >= |q.items| || q.cancel then q' == q.(phase := Leaving)
      else if !IsTransfer(q.items[q.next]) then q' == Started(q).(phase := Single(q.next))
      else q' == q.(phase := Filling(q.next))
    case Single(i) =>
      exists o :: q' == Finished(q, i, o).(phase := if o == Error(CANCELLED) then Leaving else Top)
    case Filling(first) =>
      if && q.next < |q.items| && first <= |q.items| && q.next - first < BatchLimit(limit, q.items, first)
         && !q.stop && IsTransfer(q.items[q.next])
      then q' == Started(q)
      else q' == q.(phase := Draining(first))
    case Draining(first) =>
      if q.running == {} then q' == q.(phase := if q.cancel then Leaving else Top)
      else exists i, o :: i in q.running && q' == Finished(q, i, o).(cancel := q.cancel || o == Error(CANCELLED))
    case Leaving => q' == q.(phase := Done)
    case Done => false
  }

  lemma SingleEnds(limit: nat, q: Queue, o: Outcome)
    requires q.phase.Single?
    ensures Internal(limit, q, Finished(q, q.phase.i, o).(phase := if o == Error(CANCELLED) then Leaving else Top))
  {
  }

  lemma DrainEnds(limit: nat, q: Queue, i: nat, o: Outcome)
    requires q.phase.Draining? && i in q.running
    ensures Internal(limit, q, Finished(q, i, o).(cancel := q.cancel || o == Error(CANCELLED)))
  {
  }

  function Enqueued(q: Queue, additions: seq<Item>): Queue
  {
    q.(items := q.items + additions, pending := q.pending + additions)
  }

  /** One step of another thread. `cancel_all` sets the two flags one after the other. `enqueue`
      looks at the flags before it appends, but they may be set in between: what it appends can
      land at any time. */
  ghost predicate External(q: Queue, q': Queue)
  {
    || (exists additions :: q' == Enqueued(q, additions))
    || q' == q.(cancel := true)
    || q' == q.(stop := true)
  }

  ghost predicate Initial(q: Queue)
  {
    q.pending == q.items && q.next == 0 && q.running == {} && q.completed == [] && q.failed == [] && q.phase == Top
  }

  // ----- What every interleaving keeps ---------------------------------------------------------

  function FailedIndices(failed: seq<(nat, string)>): (s: seq<nat>)
    ensures |s| == |failed| && forall k :: 0 <= k < |s| ==> s[k] == failed[k].0
  {
    seq(|failed|, k requires 0 <= k < |failed| => failed[k].0)
  }

  /** In how many of the three places item `i` stands. */
  ghost function Places(running: set<nat>, completed: seq<nat>, failed: seq<(nat, string)>, i: nat): nat
  {
    (if i in running then 1 else 0) + multiset(completed)[i] + multiset(FailedIndices(failed))[i]
  }

  /** Each started item is running, has completed or has failed, once; no other item is. */
  ghost predicate EachOnce(running: set<nat>, completed: seq<nat>, failed: seq<(nat, string)>, next: nat)
  {
    forall i: nat :: Places(running, completed, failed, i) == if i < next then 1 else 0
  }

  ghost predicate BatchOk(limit: nat, q: Queue, first: nat)
  {
    && first <= q.next <= |q.items| && first < |q.items|
    && q.next - first <= BatchLimit(limit, q.items, first)
    && IsTransfer(q.items[first])
    && (forall i :: i in q.running ==> first <= i < q.next)
    && (forall i :: first <= i < q.next ==> IsTransfer(q.items[i]))
  }

  ghost predicate PhaseOk(limit: nat, q: Queue)
  {
    match q.phase
    case Single(i) => q.running == {i} && i + 1 == q.next <= |q.items| && !IsTransfer(q.items[i])
    case Filling(first) => BatchOk(limit, q, first)
    case Draining(first) => BatchOk(limit, q, first) && (q.next == first ==> q.stop)
    case _ => q.running == {}
  }

  ghost predicate Inv(limit: nat, q: Queue)
  {
    && q.next <= |q.items|
    && q.pending == q.items[q.next..]
    && EachOnce(q.running, q.completed, q.failed, q.next)
    && PhaseOk(limit, q)
  }

  lemma FinishKeepsEachOnce(q: Queue, i: nat, o: Outcome)
    requires i in q.running && EachOnce(q.running, q.completed, q.failed, q.next)
    ensures var q' := Finished(q, i, o); EachOnce(q'.running, q'.completed, q'.failed, q'.next)
  {
    var q' := Finished(q, i, o);
    if o.Error? {
      assert FailedIndices(q'.failed) == FailedIndices(q.failed) + [i];
    }
    forall j: nat
      ensures Places(q'.running, q'.completed, q'.failed, j) == Places(q.running, q.completed, q.failed, j)
    {
    }
  }

  lemma StartKeepsEachOnce(q: Queue)
    requires q.next < |q.items| && q.pending == q.items[q.next..]
    requires EachOnce(q.running, q.completed, q.failed, q.next)
    ensures var q' := Started(q);
            q'.pending == q.items[q.next + 1..] && EachOnce(q'.running, q'.completed, q'.failed, q'.next)
  {
    var q' := Started(q);
    assert q.pending[0] == q.items[q.next];
    forall j: nat
      ensures Places(q'.running, q'.completed, q'.failed, j)
           == Places(q.running, q.completed, q.failed, j) + if j == q.next then 1 else 0
    {
      assert Places(q.running, q.completed, q.failed, q.next) == 0;
    }
  }

  lemma FillingKeepsInv(limit: nat, q: Queue, q': Queue)
    requires limit >= 1 && Inv(limit, q) && q.phase.Filling? && Internal(limit, q, q')
    ensures Inv(limit, q')
  {
    if q' != q.(phase := Draining(q.phase.first)) {
      StartKeepsEachOnce(q);
    }
  }

  lemma DrainingKeepsInv(limit: nat, q: Queue, q': Queue)
    requires limit >= 1 && Inv(limit, q) && q.phase.Draining? && Internal(limit, q, q')
    ensures Inv(limit, q')
  {
    if q.running != {} {
      var i, o :| i in q.running && q' == Finished(q, i, o).(cancel := q.cancel || o == Error(CANCELLED));
      FinishKeepsEachOnce(q, i, o);
    }
  }

  lemma InternalKeepsInv(limit: nat, q: Queue, q': Queue)
    requires limit >= 1 && Inv(limit, q) && Internal(limit, q, q')
    ensures Inv(limit, q')
  {
    match q.phase
    case Top =>
      if q.next < |q.items| { StartKeepsEachOnce(q); }
    case Filling(_) =>
      FillingKeepsInv(limit, q, q');
    case Single(i) =>
      var o :| q' == Finished(q, i, o).(phase := if o == Error(CANCELLED) then Leaving else Top);
      FinishKeepsEachOnce(q, i, o);
    case Draining(_) =>
      DrainingKeepsInv(limit, q, q');
    case _ =>
  }

  lemma ExternalKeepsInv(limit: nat, q: Queue, q': Queue)
    requires Inv(limit, q) && External(q, q')
    ensures Inv(limit, q')
  {
  }

  // ----- Safety of every run -------------------------------------------------------------------

  ghost predicate Linked(limit: nat, run: seq<Queue>, k: nat)
    requires k + 1 < |run|
  {
    Internal(limit, run[k], run[k + 1]) || External(run[k], run[k + 1])
  }

  ghost predicate IsRun(limit: nat, run: seq<Queue>)
  {
    && run != [] && Initial(run[0])
    && forall k {:trigger Linked(limit, run, k)} :: 0 <= k < |run| - 1 ==> Linked(limit, run, k)
  }

  lemma ExtendRun(limit: nat, run: seq<Queue>, q: Queue)
    requires IsRun(limit, run) && (Internal(limit, run[|run| - 1], q) || External(run[|run| - 1], q))
    ensures IsRun(limit, run + [q])
  {
    var longer := run + [q];
    forall k | 0 <= k < |longer| - 1 ensures Linked(limit, longer, k) {
      if k < |run| - 1 {
        assert Linked(limit, run, k);
      }
    }
  }

  predicate HasEnded(q: Queue, i: nat)
  {
    i in q.completed || i in FailedIndices(q.failed)
  }

  /** What a subscriber may rely on at any moment. */
  ghost predicate Safe(limit: nat, q: Queue)
  {
    && q.next <= |q.items| && q.pending == q.items[q.next..]
    && EachOnce(q.running, q.completed, q.failed, q.next)
    && |q.running| <= limit
    && (q.phase.Done? ==> q.running == {})
    // Anything but a transfer runs alone, and after everything before it has ended.
    && (forall i :: i in q.running ==> i < |q.items|)
    && (forall i :: i in q.running && !IsTransfer(q.items[i]) ==>
          q.running == {i} && forall j :: 0 <= j < i ==> HasEnded(q, j))
    // So does the first transfer after a delete.
    && (forall i :: i in q.running && i > 0 && IsDelete(q.items[i - 1]) ==>
          q.running == {i} && forall j :: 0 <= j < i ==> HasEnded(q, j))
  }

  lemma {:induction false} IntervalSize(s: set<nat>, lo: nat, hi: nat)
    requires lo <= hi && forall i :: i in s ==> lo <= i < hi
    ensures |s| <= hi - lo
    decreases hi - lo
  {
    if lo == hi {
      assert s == {};
    } else {
      IntervalSize(s - {hi - 1}, lo, hi - 1);
      assert s <= (s - {hi - 1}) + {hi - 1};
    }
  }

  lemma AllBeforeEnded(q: Queue, first: nat)
    requires EachOnce(q.running, q.completed, q.failed, q.next) && first <= q.next
    requires forall i :: i in q.running ==> first <= i
    ensures forall j :: 0 <= j < first ==> HasEnded(q, j)
  {
    forall j: nat | j < first ensures HasEnded(q, j) {
      assert Places(q.running, q.completed, q.failed, j) == 1;
    }
  }

  lemma OnlyStartedRun(q: Queue)
    requires EachOnce(q.running, q.completed, q.failed, q.next)
    ensures forall i :: i in q.running ==> i < q.next
  {
    forall i | i in q.running ensures i < q.next {
      assert Places(q.running, q.completed, q.failed, i) >= 1;
    }
  }

  lemma InvIsSafe(limit: nat, q: Queue)
    requires limit >= 1 && Inv(limit, q)
    ensures Safe(limit, q)
  {
    OnlyStartedRun(q);
    match q.phase
    case Filling(first) =>
      BatchIsSafe(limit, q, first);
    case Draining(first) =>
      BatchIsSafe(limit, q, first);
    case Single(i) =>
      AllBeforeEnded(q, i);
    case _ =>
  }

  lemma BatchIsSafe(limit: nat, q: Queue, first: nat)
    requires limit >= 1 && Inv(limit, q) && BatchOk(limit, q, first)
    ensures |q.running| <= limit
    ensures forall i :: i in q.running ==> IsTransfer(q.items[i])
    ensures forall i :: i in q.running && i > 0 && IsDelete(q.items[i - 1]) ==>
              q.running == {i} && forall j :: 0 <= j < i ==> HasEnded(q, j)
  {
    IntervalSize(q.running, first, q.next);
    AllBeforeEnded(q, first);
  }

  /** In every interleaving of the loop, its workers, enqueueing, cancelling and stopping. */
  lemma {:induction false} EveryInterleavingIsSafe(limit: nat, run: seq<Queue>, k: nat)
    requires limit >= 1 && IsRun(limit, run) && k < |run|
    ensures Inv(limit, run[k]) && Safe(limit, run[k])
  {
    if k > 0 {
      EveryInterleavingIsSafe(limit, run, k - 1);
      assert Linked(limit, run, k - 1);
      if Internal(limit, run[k - 1], run[k]) {
        InternalKeepsInv(limit, run[k - 1], run[k]);
      } else {
        ExternalKeepsInv(limit, run[k - 1], run[k]);
      }
    }
    InvIsSafe(limit, run[k]);
  }

  lemma InternalGoesOn(limit: nat, q: Queue, q': Queue)
    requires Internal(limit, q, q')
    ensures q.completed <= q'.completed && q.failed <= q'.failed
    ensures q.items == q'.items && q.next <= q'.next
  {
  }

  lemma ExternalGoesOn(q: Queue, q': Queue)
    requires External(q, q')
    ensures q.completed == q'.completed && q.failed == q'.failed
    ensures q.items <= q'.items && q.next == q'.next
    ensures q.next <= |q.items| ==> Measure(q') <= Measure(q) + 5 * (|q'.items| - |q.items|)
  {
  }

  /** Nothing that has ended is ever taken back, and items stay in their places. */
  lemma {:induction false} EndedForGood(limit: nat, run: seq<Queue>, j: nat, k: nat)
    requires limit >= 1 && IsRun(limit, run) && j <= k < |run|
    ensures run[j].completed <= run[k].completed && run[j].failed <= run[k].failed
    ensures run[j].items <= run[k].items && run[j].next <= run[k].next
  {
    if j < k {
      EndedForGood(limit, run, j, k - 1);
      assert Linked(limit, run, k - 1);
      if Internal(limit, run[k - 1], run[k]) {
        InternalGoesOn(limit, run[k - 1], run[k]);
      } else {
        ExternalGoesOn(run[k - 1], run[k]);
      }
    }
  }

  // ----- Progress ------------------------------------------------------------------------------

  function Measure(q: Queue): nat
  {
    var left := if q.next <= |q.items| then |q.items| - q.next else 0;
    match q.phase
    case Top => 5 * left + 4
    case Single(_) => 5 * left + 6
    case Filling(first) => 5 * left + 3 + (if q.next > first then 3 else 0) + |q.running|
    case Draining(first) => 5 * left + 2 + (if q.next > first then 3 else 0) + |q.running|
    case Leaving => 1
    case Done => 0
  }

  /** The loop is about to go round again after a batch that took nothing. */
  predicate EmptyRound(q: Queue)
  {
    q.phase == Draining(q.next) && q.running == {} && !q.cancel
  }

  lemma FillingProgress(limit: nat, q: Queue, q': Queue)
    requires limit >= 1 && Inv(limit, q) && Internal(limit, q, q') && q.phase.Filling?
    ensures Measure(q') < Measure(q)
  {
    if q' != q.(phase := Draining(q.phase.first)) {
      OnlyStartedRun(q);
      assert |q.running + {q.next}| == |q.running| + 1;
    }
  }

  lemma FinishProgress(q: Queue, i: nat, o: Outcome, cancel: bool)
    requires i in q.running && q.phase.Draining?
    ensures Measure(Finished(q, i, o).(cancel := cancel)) < Measure(q)
  {
    assert |q.running - {i}| == |q.running| - 1;
  }

  lemma DrainingProgress(limit: nat, q: Queue, q': Queue)
    requires limit >= 1 && Inv(limit, q) && Internal(limit, q, q') && q.phase.Draining?
    ensures Measure(q') < Measure(q) <==> !EmptyRound(q)
  {
    if q.running != {} {
      var i, o :| i in q.running && q' == Finished(q, i, o).(cancel := q.cancel || o == Error(CANCELLED));
      FinishProgress(q, i, o, q.cancel || o == Error(CANCELLED));
    }
  }

  /** A step makes progress exactly when it does not close an empty round. */
  lemma StepMakesProgress(limit: nat, q: Queue, q': Queue)
    requires limit >= 1 && Inv(limit, q) && Internal(limit, q, q')
    ensures Measure(q') < Measure(q) <==> !EmptyRound(q)
  {
    match q.phase
    case Filling(_) => FillingProgress(limit, q, q');
    case Draining(_) => DrainingProgress(limit, q, q');
    case _ =>
  }

  lemma NeverStuck(limit: nat, q: Queue)
    requires Inv(limit, q) && !q.phase.Done?
    ensures exists q' :: Internal(limit, q, q')
  {
    match q.phase
    case Top =>
      if q.next >= |q.items| || q.cancel { assert Internal(limit, q, q.(phase := Leaving)); }
      else if !IsTransfer(q.items[q.next]) { assert Internal(limit, q, Started(q).(phase := Single(q.next))); }
      else { assert Internal(limit, q, q.(phase := Filling(q.next))); }
    case Single(i) =>
      assert Internal(limit, q, Finished(q, i, Fine).(phase := Top)) by {
        assert Finished(q, i, Fine).(phase := Top)
            == Finished(q, i, Fine).(phase := if Fine == Error(CANCELLED) then Leaving else Top);
      }
    case Filling(first) =>
      if && q.next < |q.items| && q.next - first < BatchLimit(limit, q.items, first)
         && !q.stop && IsTransfer(q.items[q.next]) {
        assert Internal(limit, q, Started(q));
      } else {
        assert Internal(limit, q, q.(phase := Draining(first)));
      }
    case Draining(first) =>
      if q.running == {} { assert Internal(limit, q, q.(phase := if q.cancel then Leaving else Top)); }
      else {
        var i :| i in q.running;
        assert Internal(limit, q, Finished(q, i, Fine).(cancel := q.cancel || Fine == Error(CANCELLED)));
      }
    case Leaving =>
      assert Internal(limit, q, q.(phase := Done));
  }

  ghost function InternalSteps(limit: nat, run: seq<Queue>, k: nat): nat
    requires k < |run|
  {
    if k == 0 then 0
    else InternalSteps(limit, run, k - 1) + if Internal(limit, run[k - 1], run[k]) then 1 else 0
  }

  predicate TransferLeft(q: Queue)
  {
    exists t :: q.next <= t < |q.items| && IsTransfer(q.items[t])
  }

  /** No stop without a cancel while a transfer is still to come. */
  predicate Unstalled(q: Queue)
  {
    q.stop ==> q.cancel || !TransferLeft(q)
  }

  lemma EmptyRoundIsStalled(limit: nat, q: Queue)
    requires Inv(limit, q) && EmptyRound(q)
    ensures q.next < |q.items| && IsTransfer(q.items[q.next]) && q.stop && !Unstalled(q)
  {
    assert IsTransfer(q.items[q.next]);
  }

  lemma UnstalledProgress(limit: nat, q: Queue, q': Queue)
    requires limit >= 1 && Inv(limit, q) && Internal(limit, q, q') && Unstalled(q)
    ensures Measure(q') < Measure(q)
  {
    StepMakesProgress(limit, q, q');
    if EmptyRound(q) {
      EmptyRoundIsStalled(limit, q);
    }
  }

  lemma StepCost(limit: nat, run: seq<Queue>, k: nat)
    requires limit >= 1 && IsRun(limit, run) && k + 1 < |run| && Unstalled(run[k])
    ensures |run[k].items| <= |run[k + 1].items|
    ensures (if Internal(limit, run[k], run[k + 1]) then 1 else 0) + Measure(run[k + 1])
         <= Measure(run[k]) + 5 * (|run[k + 1].items| - |run[k].items|)
  {
    EveryInterleavingIsSafe(limit, run, k);
    assert Linked(limit, run, k);
    if Internal(limit, run[k], run[k + 1]) {
      UnstalledProgress(limit, run[k], run[k + 1]);
      InternalGoesOn(limit, run[k], run[k + 1]);
    } else {
      ExternalGoesOn(run[k], run[k + 1]);
    }
  }

  /** As long as there is no stop without a cancel while a transfer is to come, the loop takes a
      bounded number of steps for the items it has and those enqueued since; with `NeverStuck`,
      it ends. */
  lemma {:induction false} LoopTerminates(limit: nat, run: seq<Queue>, j: nat, k: nat)
    requires limit >= 1 && IsRun(limit, run) && j <= k < |run|
    requires forall m :: j <= m < k ==> Unstalled(run[m])
    ensures |run[j].items| <= |run[k].items|
    ensures InternalSteps(limit, run, k) - InternalSteps(limit, run, j) + Measure(run[k])
         <= Measure(run[j]) + 5 * (|run[k].items| - |run[j].items|)
  {
    if j < k {
      LoopTerminates(limit, run, j, k - 1);
      StepCost(limit, run, k - 1);
    }
  }

  /** A queue stopped with no transfer left, and nothing enqueued since, ends: its other items
      are still run. */
  lemma StoppedQueueEnds(limit: nat, run: seq<Queue>, j: nat, k: nat)
    requires limit >= 1 && IsRun(limit, run) && j <= k < |run|
    requires !TransferLeft(run[j]) && run[k].items == run[j].items
    ensures InternalSteps(limit, run, k) - InternalSteps(limit, run, j) + Measure(run[k]) <= Measure(run[j])
  {
    forall m | j <= m < k ensures Unstalled(run[m]) {
      EndedForGood(limit, run, j, m);
      EndedForGood(limit, run, m, k);
      assert run[m].items == run[j].items;
    }
    LoopTerminates(limit, run, j, k);
  }

  /** Stopped and not cancelled, with the transfer `t` still to come. */
  ghost predicate Stalled(q: Queue, t: nat)
  {
    && q.stop && !q.cancel && q.next <= t < |q.items| && IsTransfer(q.items[t])
    && match q.phase
       case Top => true
       case Single(i) => true
       case Filling(first) => first == q.next
       case Draining(first) => first == q.next && q.running == {}
       case _ => false
  }

  lemma StallGoesOn(limit: nat, q: Queue, q': Queue, t: nat)
    requires limit >= 1 && Inv(limit, q) && Stalled(q, t) && !q'.cancel
    requires Internal(limit, q, q') || External(q, q')
    requires !(q.phase.Single? && q'.phase.Leaving?)
    ensures Stalled(q', t)
  {
  }

  /** The loop of a queue stopped at the top of a round with a transfer left never leaves, unless
      it is cancelled or an item that runs alone reports that it was: between them,
      `StoppedQueueEnds` and this lemma say when a stop ends the loop. */
  lemma {:induction false} StopNeverLeaves(limit: nat, run: seq<Queue>, j: nat, k: nat, t: nat)
    requires limit >= 1 && IsRun(limit, run) && j <= k < |run|
    requires run[j].phase.Top? && run[j].stop && run[j].next <= t < |run[j].items| && IsTransfer(run[j].items[t])
    requires forall m :: j <= m <= k ==> !run[m].cancel
    requires forall m :: j <= m < k ==> !(run[m].phase.Single? && run[m + 1].phase.Leaving?)
    ensures Stalled(run[k], t)
  {
    if j < k {
      StopNeverLeaves(limit, run, j, k - 1, t);
      EveryInterleavingIsSafe(limit, run, k - 1);
      assert Linked(limit, run, k - 1);
      StallGoesOn(limit, run[k - 1], run[k], t);
    }
  }

  /** A stop that is not a cancel does not end the loop while a transfer is next: the round that
      follows takes nothing and comes back to the state it started from. */
  lemma StopSpins(limit: nat, q: Queue, q1: Queue, q2: Queue, q3: Queue)
    requires limit >= 1 && Inv(limit, q) && q.phase.Top?
    requires q.stop && !q.cancel && q.next < |q.items| && IsTransfer(q.items[q.next])
    requires Internal(limit, q, q1) && Internal(limit, q1, q2) && Internal(limit, q2, q3)
    ensures q3 == q && EmptyRound(q2)
  {
  }

  /** What is enqueued once the loop has made its last check is accepted but stays pending. */
  lemma {:induction false} LateItemsStayPending(limit: nat, run: seq<Queue>, j: nat, k: nat)
    requires limit >= 1 && IsRun(limit, run) && j <= k < |run|
    requires run[j].phase.Leaving? || run[j].phase.Done?
    ensures (run[k].phase.Leaving? || run[k].phase.Done?) && run[k].next == run[j].next
  {
    if j < k {
      LateItemsStayPending(limit, run, j, k - 1);
      assert Linked(limit, run, k - 1);
    }
  }

  /** No item has reported that it was cancelled. */
  predicate NoCancelReport(q: Queue)
  {
    forall k :: 0 <= k < |q.failed| ==> q.failed[k].1 != "cancelled"
  }

  /** The step that leaves the loop, if nothing was cancelled: the last look at the queue. */
  lemma LeavingStep(limit: nat, q: Queue, q': Queue)
    requires Internal(limit, q, q') || External(q, q')
    requires !q.phase.Leaving? && q'.phase.Leaving? && !q'.cancel && NoCancelReport(q')
    ensures q.phase.Top? && q.next >= |q.items| && q'.next == q.next
  {
    if q.phase.Single? {
      SingleLeaves(limit, q, q');
    }
  }

  lemma SingleLeaves(limit: nat, q: Queue, q': Queue)
    requires q.phase.Single? && q'.phase.Leaving? && Internal(limit, q, q')
    ensures !NoCancelReport(q')
  {
    var o :| q' == Finished(q, q.phase.i, o).(phase := if o == Error(CANCELLED) then Leaving else Top);
    assert q'.failed[|q'.failed| - 1].1 == CANCELLED;
  }

  lemma EndedAreStarted(limit: nat, q: Queue)
    requires Inv(limit, q) && q.running == {}
    ensures forall i :: 0 <= i < |q.items| ==> (HasEnded(q, i) <==> i < q.next)
  {
    forall i: nat | i < |q.items| ensures HasEnded(q, i) <==> i < q.next {
      assert Places(q.running, q.completed, q.failed, i) == if i < q.next then 1 else 0;
    }
  }

  /** Of a run that has left its loop and was not cancelled: there is a last look, in state `j`,
      and the items that have ended are exactly those in the queue then, whether they were given at
      the start or enqueued on the way. */
  lemma {:induction false} EndedByLastLook(limit: nat, run: seq<Queue>, k: nat) returns (j: nat)
    requires limit >= 1 && IsRun(limit, run) && k < |run|
    requires run[k].phase.Leaving? || run[k].phase.Done?
    requires !run[k].cancel && NoCancelReport(run[k])
    ensures j < k && run[j].phase.Top? && run[j + 1].phase.Leaving?
    ensures run[k].next == run[j].next == |run[j].items| <= |run[k].items|
    ensures forall i :: 0 <= i < |run[k].items| ==> (HasEnded(run[k], i) <==> i < |run[j].items|)
  {
    j := LastLook(limit, run, k);
    EndedForGood(limit, run, j, k);
    EveryInterleavingIsSafe(limit, run, j);
    EveryInterleavingIsSafe(limit, run, k);
    EndedAreStarted(limit, run[k]);
  }

  lemma {:induction false} LastLook(limit: nat, run: seq<Queue>, k: nat) returns (j: nat)
    requires limit >= 1 && IsRun(limit, run) && k < |run|
    requires run[k].phase.Leaving? || run[k].phase.Done?
    requires !run[k].cancel && NoCancelReport(run[k])
    ensures j < k && run[j].phase.Top? && run[j + 1].phase.Leaving?
    ensures run[k].next == run[j].next >= |run[j].items|
  {
    assert Linked(limit, run, k - 1);
    var q, q' := run[k - 1], run[k];
    if q.phase.Leaving? || q.phase.Done? {
      StaysUncancelled(limit, q, q');
      j := LastLook(limit, run, k - 1);
      LateItemsStayPending(limit, run, k - 1, k);
    } else {
      LeavingStep(limit, q, q');
      j := k - 1;
    }
  }

  lemma StaysUncancelled(limit: nat, q: Queue, q': Queue)
    requires Internal(limit, q, q') || External(q, q')
    requires (q.phase.Leaving? || q.phase.Done?) && !q'.cancel && NoCancelReport(q')
    ensures !q.cancel && NoCancelReport(q)
  {
  }

  /** What a report of a cancelled item has done by then: a transfer has cancelled the queue, and
      any other item has ended the loop. */
  ghost predicate ReportsHeeded(q: Queue)
  {
    forall k :: 0 <= k < |q.failed| && q.failed[k].1 == "cancelled" && q.failed[k].0 < |q.items| ==>
      if IsTransfer(q.items[q.failed[k].0]) then q.cancel else q.phase.Leaving? || q.phase.Done?
  }

  lemma FinishHeeds(q: Queue, i: nat, o: Outcome, phase: Phase, cancel: bool)
    requires ReportsHeeded(q) && i < |q.items|
    requires (q.cancel ==> cancel) && !q.phase.Leaving? && !q.phase.Done?
    requires o == Error("cancelled") ==> if IsTransfer(q.items[i]) then cancel else phase.Leaving?
    ensures ReportsHeeded(Finished(q, i, o).(phase := phase, cancel := cancel))
  {
  }

  lemma SingleHeeds(limit: nat, q: Queue, q': Queue)
    requires Inv(limit, q) && Internal(limit, q, q') && ReportsHeeded(q) && q.phase.Single?
    ensures ReportsHeeded(q')
  {
    var o :| q' == Finished(q, q.phase.i, o).(phase := if o == Error(CANCELLED) then Leaving else Top);
    FinishHeeds(q, q.phase.i, o, q'.phase, q.cancel);
  }

  lemma DrainingHeeds(limit: nat, q: Queue, q': Queue)
    requires Inv(limit, q) && Internal(limit, q, q') && ReportsHeeded(q) && q.phase.Draining? && q.running != {}
    ensures ReportsHeeded(q')
  {
    var i, o :| i in q.running && q' == Finished(q, i, o).(cancel := q.cancel || o == Error(CANCELLED));
    assert IsTransfer(q.items[i]);
    FinishHeeds(q, i, o, q.phase, q'.cancel);
  }

  lemma StepHeedsReports(limit: nat, q: Queue, q': Queue)
    requires Inv(limit, q) && Internal(limit, q, q') && ReportsHeeded(q)
    ensures ReportsHeeded(q')
  {
    if q.phase.Single? {
      SingleHeeds(limit, q, q');
    } else if q.phase.Draining? && q.running != {} {
      DrainingHeeds(limit, q, q');
    } else {
      assert q'.failed == q.failed && q'.items == q.items && q'.cancel == q.cancel;
    }
  }

  lemma OutsideHeedsReports(q: Queue, q': Queue)
    requires External(q, q') && ReportsHeeded(q) && forall k :: 0 <= k < |q.failed| ==> q.failed[k].0 < |q.items|
    ensures ReportsHeeded(q')
  {
  }

  lemma FailedAreItems(limit: nat, q: Queue)
    requires Inv(limit, q)
    ensures forall k :: 0 <= k < |q.failed| ==> q.failed[k].0 < |q.items|
  {
    forall k | 0 <= k < |q.failed| ensures q.failed[k].0 < |q.items| {
      assert FailedIndices(q.failed)[k] == q.failed[k].0;
      assert Places(q.running, q.completed, q.failed, q.failed[k].0) >= 1;
    }
  }

  /** In every run, at any moment. */
  lemma {:induction false} CancelledItemsAreHeeded(limit: nat, run: seq<Queue>, k: nat)
    requires limit >= 1 && IsRun(limit, run) && k < |run|
    ensures ReportsHeeded(run[k])
  {
    if k > 0 {
      CancelledItemsAreHeeded(limit, run, k - 1);
      EveryInterleavingIsSafe(limit, run, k - 1);
      assert Linked(limit, run, k - 1);
      if Internal(limit, run[k - 1], run[k]) {
        StepHeedsReports(limit, run[k - 1], run[k]);
      } else {
        FailedAreItems(limit, run[k - 1]);
        OutsideHeedsReports(run[k - 1], run[k]);
      }
    }
  }

  lemma CancelledStep(limit: nat, q: Queue, q': Queue)
    requires Internal(limit, q, q') || External(q, q')
    requires q.cancel && q.stop
    ensures q'.cancel && q'.stop && q'.next == q.next
  {
  }

  /** Once `cancel_all` has set its two flags, no further item is ever started. */
  lemma {:induction false} CancelledStartsNothing(limit: nat, run: seq<Queue>, j: nat, k: nat)
    requires IsRun(limit, run) && j <= k < |run| && run[j].cancel && run[j].stop
    ensures run[k].cancel && run[k].stop && run[k].next == run[j].next
  {
    if j < k {
      CancelledStartsNothing(limit, run, j, k - 1);
      assert Linked(limit, run, k - 1);
      CancelledStep(limit, run[k - 1], run[k]);
    }
  }
}
