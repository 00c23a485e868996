/** The controller object itself: its methods, and its scheduling loop with other threads acting
    between any two of its steps. Every execution is a run of the transition system, so what
    holds of runs holds of it. */
module TransferController {
  import opened TransferQueue
  import opened RetryRounds

  /** The last `n` elements, which is what a bounded deque keeps. */
  function LastOf<T>(s: seq<T>, n: nat): seq<T>
  {
    if |s| <= n then s else s[|s| - n..]
  }

  /** It is the end of the whole, and all of it if it fits. */
  lemma LastOfMeans<T>(s: seq<T>, n: nat)
    ensures |LastOf(s, n)| <= n && (|s| <= n ==> LastOf(s, n) == s) && (|s| > n ==> |LastOf(s, n)| == n)
    ensures LastOf(s, n) == s[|s| - |LastOf(s, n)|..]
  {
  }

  lemma NewestLast<T>(s: seq<T>, x: T, n: nat)
    requires n >= 1
    ensures var r := LastOf(s + [x], n); r != [] && r[|r| - 1] == x && |r| <= n
  {
  }

  function Clamp(limit: int): nat
  {
    var wanted := if limit == 0 then 1 else limit;
    if wanted > 10 then 10 else if wanted < 1 then 1 else wanted
  }

  ghost predicate FailedReflect(failed: seq<(Item, string)>, indices: seq<(nat, string)>, items: seq<Item>)
  {
    && |failed| == |indices|
    && forall k :: 0 <= k < |failed| ==> indices[k].0 < |items| && failed[k] == (items[indices[k].0], indices[k].1)
  }

  ghost predicate EverReflects(ever: seq<Item>, indices: seq<nat>, items: seq<Item>)
  {
    && |ever| == |indices|
    && forall k :: 0 <= k < |ever| ==> indices[k] < |items| && ever[k] == items[indices[k]]
  }

  lemma ReflectMore(failed: seq<(Item, string)>, bad: seq<(nat, string)>, ever: seq<Item>, good: seq<nat>,
                    items: seq<Item>, additions: seq<Item>)
    requires FailedReflect(failed, bad, items) && EverReflects(ever, good, items)
    ensures FailedReflect(failed, bad, items + additions) && EverReflects(ever, good, items + additions)
  {
  }

  lemma ReflectEnd(failed: seq<(Item, string)>, bad: seq<(nat, string)>, ever: seq<Item>, good: seq<nat>,
                   items: seq<Item>, i: nat, e: string)
    requires FailedReflect(failed, bad, items) && EverReflects(ever, good, items) && i < |items|
    ensures FailedReflect(failed + [(items[i], e)], bad + [(i, e)], items)
    ensures EverReflects(ever + [items[i]], good + [i], items)
  {
  }

  /** All that other threads change: more items behind the others, and the two flags. */
  predicate OnlyOutside(a: Queue, b: Queue)
  {
    && b == a.(items := b.items, pending := b.pending, cancel := b.cancel, stop := b.stop)
    && a.items <= b.items
    && (a.cancel ==> b.cancel) && (a.stop ==> b.stop)
  }

  /** The items of an earlier state are still there. */
  lemma GivenItems(limit: nat, run: seq<Queue>, j: nat)
    requires limit >= 1 && IsRun(limit, run) && j < |run|
    ensures Safe(limit, run[|run| - 1]) && |run[j].items| <= |run[|run| - 1].items|
  {
    EveryInterleavingIsSafe(limit, run, |run| - 1);
    EndedForGood(limit, run, j, |run| - 1);
  }

  /** In state `j` the loop found nothing more to do; the items that have ended in the last state
      are exactly those that were in the queue then. */
  ghost predicate LastLookAt(run: seq<Queue>, j: nat)
    requires j + 1 < |run|
  {
    var q := run[|run| - 1];
    && run[j].phase.Top? && run[j].next == |run[j].items| <= |q.items|
    && forall i :: 0 <= i < |q.items| ==> (HasEnded(q, i) <==> i < |run[j].items|)
  }

  lemma LastLookExists(limit: nat, run: seq<Queue>)
    requires limit >= 1 && IsRun(limit, run) && run[|run| - 1].phase.Done?
    requires !run[|run| - 1].cancel && NoCancelReport(run[|run| - 1])
    ensures exists j :: 0 <= j < |run| - 1 && LastLookAt(run, j)
  {
    var j := EndedByLastLook(limit, run, |run| - 1);
    assert LastLookAt(run, j);
  }

  lemma SameReports(failed: seq<(Item, string)>, indices: seq<(nat, string)>, items: seq<Item>)
    requires FailedReflect(failed, indices, items) && forall k :: 0 <= k < |failed| ==> failed[k].1 != CANCELLED
    ensures forall k :: 0 <= k < |indices| ==> indices[k].1 != CANCELLED
  {
    forall k | 0 <= k < |indices| ensures indices[k].1 != CANCELLED {
      assert failed[k].1 != CANCELLED;
    }
  }

  lemma RunningIsItem(limit: nat, run: seq<Queue>, i: nat)
    requires limit >= 1 && IsRun(limit, run) && i in run[|run| - 1].running
    ensures i < |run[|run| - 1].items|
  {
    EveryInterleavingIsSafe(limit, run, |run| - 1);
  }

  class Controller {
    var items: seq<Item>
    var pending: seq<Item>
    var failed: seq<(Item, string)>
    var completed: seq<Item>
    var cancel: bool
    var stop: bool
    var done: bool
    var alive: bool
    const parallelLimit: nat
    const historyLimit: nat

    ghost var ever: seq<Item>    // what has completed in this run
    ghost var before: seq<Item>  // what completed in earlier runs
    ghost var q: Queue
    ghost var run: seq<Queue>
    var quota: nat               // how many more items other threads will enqueue

    ghost predicate Reflects()
      reads this`items, this`pending, this`failed, this`completed, this`cancel, this`stop, this`ever, this`before, this`q
    {
      && items == q.items && pending == q.pending && cancel == q.cancel && stop == q.stop
      && FailedReflect(failed, q.failed, items) && EverReflects(ever, q.completed, items)
      && completed == LastOf(before + ever, historyLimit)
    }

    ghost predicate Valid()
      reads this`items, this`pending, this`failed, this`completed, this`cancel, this`stop, this`ever, this`before, this`q, this`done, this`run
    {
      && parallelLimit >= 1 && historyLimit >= 1
      && IsRun(parallelLimit, run) && run[|run| - 1] == q
      && Reflects()
      && done == q.phase.Done?
    }

    /** Somebody cancelled the queue, or an item reported that it had been cancelled. */
    predicate Cancelled()
      reads this`cancel, this`failed
    {
      cancel || exists k :: 0 <= k < |failed| && failed[k].1 == "cancelled"
    }

    ghost function Effort(): nat
      reads this`q, this`quota
    {
      Measure(q) + 5 * quota
    }

    constructor (wanted: seq<Item>, limit: int, history: int)
      ensures Valid() && Initial(q) && !cancel && !stop && !alive
      ensures items == Normalize(wanted) && failed == [] && completed == []
      ensures multiset(items) == multiset(wanted)
      ensures (exists k :: 0 <= k < |wanted| && wanted[k].op in {Delete, DeleteLocal, OtherOp}) ==> items == wanted
      ensures (forall k :: 0 <= k < |wanted| ==> wanted[k].op in {MkdirRemote, MkdirLocal, Upload, Download}) ==>
                MkdirsFirst(items)
      ensures 1 <= parallelLimit <= 10
      ensures if limit == 0 then parallelLimit == 1
              else parallelLimit == limit || limit < parallelLimit == 1 || parallelLimit == 10 < limit
      ensures 1 <= historyLimit && (historyLimit == history || history < historyLimit == 1)
    {
      NormalizeKeeps(wanted);
      var normalized := Normalize(wanted);
      items, pending, failed, completed := normalized, normalized, [], [];
      cancel, stop, done, alive := false, false, false, false;
      parallelLimit := Clamp(limit);
      historyLimit := if history < 1 then 1 else history;
      ever, before := [], [];
      q := Queue(normalized, normalized, 0, {}, [], [], false, false, Top);
      run := [q];
    }

    // ----- Called by other threads -------------------------------------------------------------

    /** Records an external step that has been taken on the fields. */
    ghost method Outside(q': Queue)
      requires IsRun(parallelLimit, run) && run[|run| - 1] == q
      requires External(q, q')
      modifies this`q, this`run
      ensures q == q' && run == old(run) + [q'] && IsRun(parallelLimit, run)
    {
      ExtendRun(parallelLimit, run, q');
      q, run := q', run + [q'];
    }

    method MayEnqueue() returns (allowed: bool)
      ensures allowed <==> !cancel && !stop && !done && alive
    {
      if cancel || stop {
        return false;
      }
      allowed := !done && alive;
    }

    method Append(additions: seq<Item>)
      requires Valid()
      modifies this`items, this`pending, this`q, this`run
      ensures Valid() && old(run) <= run
      ensures q == Enqueued(old(q), additions)
    {
      ReflectMore(failed, q.failed, ever, q.completed, items, additions);
      items := items + additions;
      pending := pending + additions;
      Outside(Enqueued(q, additions));
    }

    /** True means the items are queued behind everything else; refused items change nothing. The
        flags are not locked, so a cancel may come between the test and the appending. */
    method Enqueue(additions: seq<Item>) returns (accepted: bool)
      requires Valid()
      modifies this`items, this`pending, this`cancel, this`stop, this`q, this`run
      ensures Valid() && old(run) <= run
      ensures accepted <==> additions == [] || old(!cancel && !stop && !done && alive)
      ensures q == (if accepted && additions != [] then Enqueued(old(q), additions) else old(q)).(cancel := cancel, stop := stop)
    {
      if additions == [] {
        return true;
      }
      accepted := MayEnqueue();
      if !accepted {
        return;
      }
      var cancelling: bool := *;
      if cancelling {
        CancelAll();
      }
      Append(additions);
    }

    method CancelAll()
      requires Valid()
      modifies this`cancel, this`stop, this`q, this`run
      ensures Valid() && old(run) <= run
      ensures q == old(q).(cancel := true, stop := true)
    {
      cancel := true;
      Outside(q.(cancel := true));
      StopAfterCurrent();
    }

    method StopAfterCurrent()
      requires Valid()
      modifies this`stop, this`q, this`run
      ensures Valid() && old(run) <= run
      ensures q == old(q).(stop := true)
    {
      stop := true;
      Outside(q.(stop := true));
    }

    /** One act of another thread: a cancel, a stop, or the appending of an enqueue within the
        quota, whose test may have been passed long before. */
    method OneCall()
      requires Valid()
      modifies this`items, this`pending, this`cancel, this`stop, this`quota, this`q, this`run
      ensures Valid() && old(run) <= run
      ensures Effort() <= old(Effort()) && OnlyOutside(old(q), q)
    {
      var act: nat := *;
      if act == 0 {
        CancelAll();
      } else if act == 1 {
        StopAfterCurrent();
      } else {
        var additions: seq<Item> := *;
        if |additions| <= quota {
          Append(additions);
          quota := quota - |additions|;
        }
      }
    }

    /** What other threads may do between two steps of the loop. */
    method Interfere()
      requires Valid()
      modifies this`items, this`pending, this`cancel, this`stop, this`quota, this`q, this`run
      ensures Valid() && old(run) <= run
      ensures Effort() <= old(Effort()) && OnlyOutside(old(q), q)
    {
      var calls: nat := *;
      while calls > 0
        invariant Valid() && old(run) <= run
        invariant Effort() <= old(Effort()) && OnlyOutside(old(q), q)
        decreases calls
      {
        calls := calls - 1;
        OneCall();
      }
    }

    // ----- The loop ----------------------------------------------------------------------------

    /** Records a step of the loop or of a worker, which is progress unless it closes an empty
        round. */
    ghost method Inside(q': Queue)
      requires parallelLimit >= 1 && IsRun(parallelLimit, run) && run[|run| - 1] == q
      requires Internal(parallelLimit, q, q')
      modifies this`q, this`run
      ensures q == q' && run == old(run) + [q'] && IsRun(parallelLimit, run)
      ensures Measure(q) < Measure(old(q)) || EmptyRound(old(q))
    {
      EveryInterleavingIsSafe(parallelLimit, run, |run| - 1);
      StepMakesProgress(parallelLimit, q, q');
      ExtendRun(parallelLimit, run, q');
      q, run := q', run + [q'];
    }

    /** Takes the next item off the pending list, if it is there. */
    method StartItem(item: Item, ghost phase: Phase)
      requires Valid() && q.next < |q.items| && item == q.items[q.next]
      requires Internal(parallelLimit, q, Started(q).(phase := phase)) && !phase.Done? && !q.phase.Done? && !EmptyRound(q)
      modifies this`pending, this`q, this`run
      ensures Valid() && q == Started(old(q)).(phase := phase) && old(run) <= run
      ensures Measure(q) < Measure(old(q))
    {
      pending := RemoveFirst(pending, item);
      Inside(Started(q).(phase := phase));
    }

    lemma BookedFine(item: Item, i: nat)
      requires Reflects() && historyLimit >= 1 && i < |items| && items[i] == item
      ensures LastOf(before + (ever + [item]), historyLimit) == LastOf(completed + [item], historyLimit)
      ensures EverReflects(ever + [item], q.completed + [i], items)
    {
      assert before + (ever + [item]) == (before + ever) + [item];
      ReflectEnd(failed, q.failed, ever, q.completed, items, i, "");
    }

    lemma BookedError(item: Item, i: nat, message: string)
      requires Reflects() && i < |items| && items[i] == item
      ensures FailedReflect(failed + [(item, message)], q.failed + [(i, message)], items)
    {
      ReflectEnd(failed, q.failed, ever, q.completed, items, i, message);
    }

    method Complete(i: nat, item: Item, ghost q': Queue)
      requires Valid() && i < |items| && items[i] == item
      requires q' == Finished(q, i, Fine).(phase := q'.phase) && !q'.phase.Done? && !q.phase.Done?
      requires Internal(parallelLimit, q, q') && i in q.running
      modifies this`completed, this`ever, this`q, this`run
      ensures Valid() && q == q' && old(run) <= run
      ensures Measure(q) < Measure(old(q))
      ensures completed != [] && completed[|completed| - 1] == item && |completed| <= historyLimit
    {
      BookedFine(item, i);
      NewestLast(completed, item, historyLimit);
      completed := LastOf(completed + [item], historyLimit);
      ever := ever + [item];
      Inside(q');
    }

    method Fail(i: nat, item: Item, message: string, cancelling: bool, ghost q': Queue)
      requires Valid() && i < |items| && items[i] == item
      requires q' == Finished(q, i, Error(message)).(phase := q'.phase, cancel := q.cancel || cancelling)
      requires Internal(parallelLimit, q, q') && !q'.phase.Done? && !q.phase.Done? && i in q.running
      modifies this`failed, this`cancel, this`q, this`run
      ensures Valid() && q == q' && old(run) <= run
      ensures Measure(q) < Measure(old(q))
      ensures failed == old(failed) + [(item, message)]
    {
      BookedError(item, i, message);
      failed := failed + [(item, message)];
      if cancelling {
        cancel := true;
      }
      Inside(q');
    }

    /** Books the end of item `i`; a transfer that was cancelled cancels the queue. */
    method FinishItem(i: nat, item: Item, outcome: Outcome, inBatch: bool, ghost q': Queue)
      requires Valid() && i < |items| && items[i] == item
      requires q' == Finished(q, i, outcome).(phase := q'.phase, cancel := q'.cancel)
      requires Internal(parallelLimit, q, q') && !q'.phase.Done? && !q.phase.Done? && i in q.running
      requires q'.cancel == (cancel || (inBatch && outcome == Error(CANCELLED)))
      modifies this`completed, this`failed, this`ever, this`cancel, this`q, this`run
      ensures Valid() && q == q' && old(run) <= run
      ensures Measure(q) < Measure(old(q))
      ensures outcome.Error? ==> failed == old(failed) + [(item, outcome.message)]
      ensures outcome.Fine? ==> completed != [] && completed[|completed| - 1] == item && |completed| <= historyLimit
    {
      match outcome
      case Fine => Complete(i, item, q');
      case Error(message) => Fail(i, item, message, inBatch && message == CANCELLED, q');
    }

    /** Runs an item that is not a transfer, with nothing beside it. */
    method RunAlone(nextIndex: nat) returns (cancelled: bool)
      requires Valid() && q.phase.Top? && q.next == nextIndex < |items|
      requires !cancel && !IsTransfer(items[nextIndex])
      modifies this`items, this`pending, this`failed, this`completed, this`cancel, this`stop, this`quota, this`ever, this`q, this`run
      ensures Valid() && old(run) <= run
      ensures q.next == nextIndex + 1 && q.phase == if cancelled then Leaving else Top
      ensures cancelled ==> Cancelled()
      ensures Effort() < old(Effort())
    {
      var item := items[nextIndex];
      StartItem(item, Single(nextIndex));
      Interfere();
      var outcome: Outcome := *;
      SingleEnds(parallelLimit, q, outcome);
      FinishItem(nextIndex, item, outcome, false,
                 Finished(q, nextIndex, outcome).(phase := if outcome == Error(CANCELLED) then Leaving else Top));
      cancelled := outcome == Error(CANCELLED);
      if cancelled {
        assert failed[|failed| - 1].1 == CANCELLED;
      }
    }

    /** Adds the next transfer to the batch. */
    method TakeOne(first: nat, nextIndex: nat)
      requires Valid() && q.phase == Filling(first) && first <= nextIndex == q.next < |items|
      requires q.next - first < BatchLimit(parallelLimit, items, first) && !stop && IsTransfer(items[q.next])
      modifies this`items, this`pending, this`cancel, this`stop, this`quota, this`q, this`run
      ensures Valid() && old(run) <= run && old(items) <= items
      ensures q.phase == Filling(first) && q.next == old(q.next) + 1 && q.running == old(q.running) + {old(q.next)}
      ensures Effort() < old(Effort())
    {
      StartItem(items[nextIndex], Filling(first));
      Interfere();
    }

    /** Collects a batch of transfers; the first one after a delete is a batch of its own. */
    method CollectBatch(first: nat) returns (nextIndex: nat, batch: set<nat>)
      requires Valid() && q.phase == Filling(first) && q.next == first < |items| && q.running == {}
      requires IsTransfer(items[first])
      modifies this`items, this`pending, this`cancel, this`stop, this`quota, this`q, this`run
      ensures Valid() && old(run) <= run && Effort() <= old(Effort())
      ensures q.phase == Filling(first) && first <= q.next == nextIndex && q.running == batch
      ensures old(items) <= items && (nextIndex == first ==> stop)
      ensures nextIndex <= |items|
      ensures || nextIndex == |items| || stop || items[nextIndex].op !in {Upload, Download}
              || nextIndex - first == if first > 0 && items[first - 1].op in {Delete, DeleteLocal} then 1 else parallelLimit
      ensures Internal(parallelLimit, q, q.(phase := Draining(first)))
    {
      nextIndex, batch := first, {};
      var taken := 0;
      var forceSingle := nextIndex > 0 && IsDelete(items[nextIndex - 1]);
      while nextIndex < |items| && taken < (if forceSingle then 1 else parallelLimit) && !stop && IsTransfer(items[nextIndex])
        invariant Valid() && old(run) <= run
        invariant old(items) <= items
        invariant q.phase == Filling(first) && q.next == nextIndex == first + taken && q.running == batch
        invariant nextIndex <= |items| && taken <= if forceSingle then 1 else parallelLimit
        invariant Effort() <= old(Effort())
        decreases Effort()
      {
        batch := batch + {nextIndex};
        TakeOne(first, nextIndex);
        nextIndex, taken := nextIndex + 1, taken + 1;
      }
    }

    /** Starts the batch whose first item is the transfer `first`. */
    method FillBatch(first: nat) returns (nextIndex: nat, batch: set<nat>)
      requires Valid() && q.phase.Top? && q.next == first < |items|
      requires !cancel && IsTransfer(items[first])
      modifies this`items, this`pending, this`cancel, this`stop, this`quota, this`q, this`run
      ensures Valid() && old(run) <= run
      ensures q.phase == Draining(first) && first <= q.next == nextIndex && q.running == batch
      ensures Effort() + 2 <= old(Effort())
      ensures nextIndex == first ==> stop && first < |items| && IsTransfer(items[first])
    {
      EveryInterleavingIsSafe(parallelLimit, run, |run| - 1);
      Inside(q.(phase := Filling(first)));
      nextIndex, batch := CollectBatch(first);
      Inside(q.(phase := Draining(first)));
    }

    /** Waits until some item of the batch has ended. */
    method AwaitOne(first: nat, futures: set<nat>) returns (left: set<nat>)
      requires Valid() && q.phase == Draining(first) && q.running == futures != {}
      modifies this`items, this`pending, this`failed, this`completed, this`cancel, this`stop, this`quota, this`ever, this`q, this`run
      ensures Valid() && old(run) <= run
      ensures old(items) <= items && (old(stop) ==> stop)
      ensures q.phase == Draining(first) && q.running == left < futures && q.next == old(q.next)
      ensures Effort() < old(Effort())
    {
      Interfere();
      left := EndOne(first, futures);
    }

    method EndOne(first: nat, futures: set<nat>) returns (left: set<nat>)
      requires Valid() && q.phase == Draining(first) && q.running == futures != {}
      modifies this`failed, this`completed, this`cancel, this`ever, this`q, this`run
      ensures Valid() && old(run) <= run
      ensures old(items) <= items && (old(stop) ==> stop)
      ensures q.phase == Draining(first) && q.running == left < futures && q.next == old(q.next)
      ensures Effort() < old(Effort())
    {
      var i :| i in futures;
      left := futures - {i};
      RunningIsItem(parallelLimit, run, i);
      var outcome: Outcome := *;
      DrainEnds(parallelLimit, q, i, outcome);
      FinishItem(i, items[i], outcome, true,
                 Finished(q, i, outcome).(cancel := q.cancel || outcome == Error(CANCELLED)));
    }

    /** Waits for a batch: its items end in any order, and all of them end even after a cancel. A
        batch without items is no progress. */
    method DrainBatch(first: nat, batch: set<nat>)
      requires Valid() && q.phase == Draining(first) && first <= q.next && q.running == batch
      modifies this`items, this`pending, this`failed, this`completed, this`cancel, this`stop, this`quota, this`ever, this`q, this`run
      ensures Valid() && old(run) <= run && old(items) <= items && (old(stop) ==> stop)
      ensures q.phase == (if cancel then Leaving else Top) && q.next == old(q.next)
      ensures Effort() < old(Effort()) + if q.next > first then 0 else 3
    {
      var futures := batch;
      while futures != {}
        invariant Valid() && old(run) <= run && old(items) <= items && (old(stop) ==> stop)
        invariant q.phase == Draining(first) && q.running == futures && q.next == old(q.next)
        invariant Effort() <= old(Effort())
        decreases futures
      {
        futures := AwaitOne(first, futures);
      }
      Interfere();
      Inside(q.(phase := if q.cancel then Leaving else Top));
    }

    /** The end of a run, which may still see other threads act. */
    method Leave()
      requires Valid() && q.phase.Leaving?
      modifies this`items, this`pending, this`cancel, this`stop, this`quota, this`q, this`run, this`done
      ensures Valid() && done && old(run) <= run && q.next == old(q.next) && (old(cancel) ==> cancel)
    {
      Interfere();
      done := true;
      Inside(q.(phase := Done));
      Interfere();
    }

    /** One round of the loop: a single item or a batch. A round that takes nothing is one that
        was stopped with a transfer next. */
    method Round(first: nat) returns (nextIndex: nat, stopped: bool)
      requires Valid() && q.phase.Top? && q.next == first < |items| && !cancel
      modifies this`items, this`pending, this`failed, this`completed, this`cancel, this`stop, this`quota, this`ever, this`q, this`run
      ensures Valid() && old(run) <= run
      ensures first <= q.next == nextIndex && q.phase == if stopped then Leaving else Top
      ensures stopped ==> Cancelled()
      ensures Effort() < old(Effort()) + if nextIndex > first then 0 else 1
      ensures nextIndex == first ==> stop && first < |items| && IsTransfer(items[first])
    {
      if !IsTransfer(items[first]) {
        stopped := RunAlone(first);
        nextIndex := first + 1;
      } else {
        var batch;
        nextIndex, batch := FillBatch(first);
        DrainBatch(first, batch);
        stopped := cancel;
      }
    }

    /** Stopped at the top of a round with a transfer next, and not cancelled. */
    ghost predicate Stuck()
      reads this`items, this`stop, this`cancel, this`q
    {
      q.phase.Top? && stop && !cancel && q.next < |items| && IsTransfer(items[q.next])
    }

    /** All rounds, up to a cancel or the end of the queue. A round that takes nothing would be
        followed by others like it until somebody cancels: either somebody does, or the loop is
        left as stuck. */
    method Loop() returns (stuck: bool)
      requires Valid() && q.phase.Top? && q.next == 0
      modifies this`items, this`pending, this`failed, this`completed, this`cancel, this`stop, this`quota, this`ever, this`q, this`run
      ensures Valid() && old(run) <= run
      ensures if stuck then Stuck() else q.phase.Leaving? && (Cancelled() || q.next >= |items|)
    {
      var nextIndex := 0;
      while nextIndex < |items|
        invariant Valid() && old(run) <= run && q.phase.Top? && q.next == nextIndex
        decreases Effort(), if cancel then 0 else 1
      {
        if cancel {
          break;
        }
        var first, stopped := nextIndex, false;
        nextIndex, stopped := Round(first);
        if stopped {
          return false;
        }
        Interfere();
        if nextIndex == first && !cancel {
          return true;
        }
      }
      Inside(q.(phase := Leaving));
      stuck := false;
    }

    /** What a run that has ended without a cancel has worked off. */
    lemma WorkedOff()
      requires Valid() && done && !Cancelled()
      ensures exists j :: 0 <= j < |run| - 1 && LastLookAt(run, j)
    {
      SameReports(failed, q.failed, items);
      LastLookExists(parallelLimit, run);
    }

    /** The end of a run whose loop has gone past the first `given` items. */
    method Finish(ghost given: nat)
      requires Valid() && q.phase.Leaving? && given <= |items| && (Cancelled() || given <= q.next)
      modifies this`items, this`pending, this`cancel, this`stop, this`quota, this`q, this`run, this`done
      ensures Valid() && old(run) <= run && done && Safe(parallelLimit, q)
      ensures Cancelled() || forall j :: 0 <= j < given ==> HasEnded(q, j)
    {
      Leave();
      EveryInterleavingIsSafe(parallelLimit, run, |run| - 1);
      AllBeforeEnded(q, q.next);
    }

    /** Runs the queue. It ends, with nothing running, unless it is stopped without a cancel while
        a transfer is to come. Unless it was cancelled, every item it was given at the start has
        then completed or failed, and of those enqueued since exactly those that were in the queue
        at the loop's last look. */
    method Run() returns (ended: bool)
      requires Valid() && Initial(q) && alive
      modifies this
      ensures Valid() && old(run) <= run && Safe(parallelLimit, q)
      ensures if ended then done && (Cancelled() || forall j :: 0 <= j < |old(items)| ==> HasEnded(q, j)) else Stuck()
      ensures ended && !Cancelled() ==> exists j :: 0 <= j < |run| - 1 && LastLookAt(run, j)
    {
      var stuck := Loop();
      GivenItems(parallelLimit, run, |old(run)| - 1);
      ended := !stuck;
      if ended {
        Finish(|old(items)|);
        if !Cancelled() {
          WorkedOff();
        }
      }
    }

    /** Puts what failed at the head of what is still pending. */
    method TakeBackFailed() returns (count: nat)
      requires Valid() && Inv(parallelLimit, q)
      modifies this`failed, this`pending, this`items
      ensures count == |old(failed)| && failed == [] && items == pending == Retry(q).items
      ensures |items| == count + |old(pending)| && items[count..] == old(pending)
      ensures forall k :: 0 <= k < count ==> items[k] == old(failed)[k].0
    {
      var ended := failed;
      count := |ended|;
      var restored := seq(|ended|, k requires 0 <= k < |ended| => ended[k].0);
      assert restored == Restored(q);
      failed := [];
      pending := restored + pending;
      items := pending;
    }

    /** Clears the flags; the run that follows starts from `q'`. */
    method StartAgain(ghost q': Queue)
      requires parallelLimit >= 1 && historyLimit >= 1 && Initial(q') && !q'.cancel && !q'.stop
      requires items == pending == q'.items && failed == [] && completed == LastOf(before + ever, historyLimit)
      modifies this`cancel, this`stop, this`done, this`before, this`ever, this`q, this`run
      ensures Valid() && q == q' && !cancel && !stop && !done
    {
      cancel, stop, done := false, false, false;
      before, ever := before + ever, [];
      assert before + ever == before;
      q := q';
      run := [q'];
    }

    /** Between runs: what failed goes to the head of what is still pending, and the queue is
        ready to start again. What completed stays completed. */
    method RetryFailed() returns (count: nat)
      requires Valid() && q.running == {}
      modifies this`failed, this`pending, this`items, this`cancel, this`stop, this`done, this`before, this`ever, this`q, this`run
      ensures Valid() && q == Retry(old(q)) && Initial(q) && !cancel && !stop && !done
      ensures count == |old(failed)| && failed == [] && completed == old(completed)
      ensures |items| == count + |old(pending)| && items[count..] == old(pending)
      ensures forall k :: 0 <= k < count ==> items[k] == old(failed)[k].0
    {
      EveryInterleavingIsSafe(parallelLimit, run, |run| - 1);
      count := TakeBackFailed();
      StartAgain(Retry(q));
    }
  }
}
