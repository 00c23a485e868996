/** The AppImage updater: copy beside, swap, start, and put back on any failure. */
module AppImageUpdate {
  import opened Wrappers
  import opened Utf8

  function Max(a: int, b: int): int { if a > b then a else b }
  function Min(a: int, b: int): int { if a < b then a else b }

  /** Reports to a callback, which here is the list of the values it was given. */
  class ProgressGuard {
    var last: int
    var reported: seq<int>

    ghost predicate Valid()
      reads this
    {
      && 0 <= last <= 100
      && (forall k :: 0 <= k < |reported| ==> 0 <= reported[k] <= last)
      && (forall j, k :: 0 <= j < k < |reported| ==> reported[j] <= reported[k])
    }

    constructor ()
      ensures Valid() && reported == []
    {
      last, reported := 0, [];
    }

    /** None is passed through to the callback without a value. */
    method Call(value: Option<int>)
      requires Valid()
      modifies this
      ensures Valid() && old(reported) <= reported
      ensures value.None? ==> reported == old(reported) && last == old(last)
      ensures value.Some? ==> reported == old(reported) + [last] && last == Max(old(last), Min(100, value.value))
      ensures last >= old(last)
      ensures value.Some? ==> (if value.value <= 100 then last == old(last) >= value.value || last == value.value else last == 100)
    {
      if value.Some? {
        last := Max(last, Min(100, value.value));
        reported := reported + [last];
      }
    }
  }

  /** What is seen of the started program for a while: it runs on, or it ends with an exit code. */
  predicate Healthy(exit: Option<int>)
  {
    exit == None || exit == Some(0)
  }

  /** `Refused` before anything was touched; the other failures before or after a leftover backup
      was out of the way. */
  datatype Outcome = Installed | Refused | FailedEarly | FailedLate

  lemma AtTheEnd(start: nat, end: nat, done: nat, total: nat)
    requires start <= end && 0 < done <= total
    ensures done == total ==> start + (end - start) * done / total == end
  {
    Undivided(end - start, total);
  }

  lemma Undivided(a: nat, b: nat)
    requires b > 0
    ensures a * b / b == a
  {
    var p := a * b;
    DivisionOf(p, b);
    Between(a, p / b, b, p % b);
  }

  lemma DivisionOf(p: nat, b: nat)
    requires b > 0
    ensures p == p / b * b + p % b && 0 <= p % b < b
  {
  }

  lemma Between(a: int, q: int, b: int, rest: int)
    requires a * b == q * b + rest && 0 <= rest < b
    ensures a == q
  {
    if a > q {
      Times(a, q + 1, b);
    } else if a < q {
      Times(q, a + 1, b);
    }
  }

  lemma Times(x: int, y: int, b: int)
    requires x >= y && b > 0
    ensures x * b >= y * b
  {
  }

  class Installation {
    var target: Option<seq<byte>>
    var staged: Option<seq<byte>>
    var backup: Option<seq<byte>>
    const progress: ProgressGuard
    ghost var failures: nat  // how many operations have failed

    constructor (target: Option<seq<byte>>, backup: Option<seq<byte>>)
      ensures this.target == target && this.backup == backup && progress.Valid() && fresh(progress)
    {
      this.target, this.staged, this.backup := target, None, backup;
      this.progress := new ProgressGuard();
      this.failures := 0;
    }

    /** Whether the next operation succeeds. */
    method Works() returns (ok: bool)
      modifies this`failures
      ensures failures == old(failures) + if ok then 0 else 1
    {
      ok := *;
      if !ok {
        failures := failures + 1;
      }
    }

    /** Copies the package in pieces; a failure leaves some of it. */
    method CopyFile(package: seq<byte>, start: nat, end: nat) returns (ok: bool)
      requires staged.None? && start <= end && progress.Valid()
      modifies this`staged, this`failures, progress
      ensures progress.Valid() && old(progress.reported) <= progress.reported
      ensures ok ==> staged == Some(package)
      ensures ok <==> failures == old(failures)
      ensures ok && package != [] && end <= 100 ==> progress.last >= end
    {
      ok := Works();
      if !ok { return; }
      var total := if |package| == 0 then 1 else |package|;
      staged := Some([]);
      var done := 0;
      assert package[..0] == [];
      while done < |package|
        invariant done <= |package| && staged == Some(package[..done])
        invariant progress.Valid() && old(progress.reported) <= progress.reported
        invariant failures == old(failures)
        invariant 0 < done == |package| && end <= 100 ==> progress.last >= end
      {
        ok := Works();
        if !ok { return; }
        var n :| 1 <= n <= |package| - done;
        assert package[..done] + package[done..done + n] == package[..done + n];
        staged := Some(staged.value + package[done..done + n]);
        done := done + n;
        AtTheEnd(start, end, done, |package|);
        progress.Call(Some(start + (end - start) * done / total));
      }
      assert package[..done] == package;
      ok := Works();
    }

    /** Everything up to the health check, any step of which may fail; `exit` is what the check sees
        if it comes to that. */
    method Swap(package: seq<byte>, exit: Option<int>) returns (outcome: Outcome)
      requires target.Some? && staged.None? && progress.Valid()
      modifies this`target, this`staged, this`backup, this`failures, progress
      ensures progress.Valid() && old(progress.reported) <= progress.reported
      ensures outcome.Installed? ==> target == Some(package) && staged == None && backup == old(target)
      ensures outcome.FailedEarly? ==> target == old(target) && backup == old(backup)
      ensures outcome.FailedLate? ==> backup == old(target) || (backup == None && target == old(target))
      ensures outcome.Installed? <==> failures == old(failures) && (exit == None || exit == Some(0))
      ensures !outcome.Refused?
    {
      var ok := CopyFile(package, 25, 90);
      if !ok { return FailedEarly; }
      ok := Works();  // permissions
      if !ok { return FailedEarly; }
      ok := Works();  // a leftover backup goes
      if !ok { return FailedEarly; }
      backup := None;
      ok := Works();
      if !ok { return FailedLate; }
      backup, target := target, None;
      ok := Works();
      if !ok { return FailedLate; }
      target, staged := staged, None;
      progress.Call(Some(95));
      ok := Works();  // starting it
      return if ok && Healthy(exit) then Installed else FailedLate;
    }

    /** A success leaves exactly the package and no backup. A failure leaves the old file, with
        one exception: if it strikes while the backup of some earlier update is still there, that
        backup takes the place of the target. */
    method InstallAppImage(package: seq<byte>, writable: bool, exit: Option<int>) returns (outcome: Outcome)
      requires progress.Valid()
      modifies this`target, this`staged, this`backup, this`failures, progress
      ensures progress.Valid() && old(progress.reported) <= progress.reported
      ensures match outcome
              case Installed => target == Some(package) && backup == None && staged == None
              case Refused => target == old(target) && backup == old(backup)
              case FailedEarly => target == (if old(backup).Some? then old(backup) else old(target)) && backup == None && staged == None
              case FailedLate => target == old(target) && backup == None && staged == None
      ensures !outcome.Installed? ==>
                (target == old(target) <==> !outcome.FailedEarly? || old(backup).None? || old(backup) == old(target))
      ensures !outcome.Installed? && (old(backup).None? || old(backup) == old(target)) ==> target == old(target)
      ensures outcome.Installed? <==>
                old(target).Some? && writable && failures == old(failures) && (exit == None || exit == Some(0))
      ensures outcome.Installed? ==> progress.reported != [] && progress.last == 100
    {
      if target.None? || !writable {
        return Refused;
      }
      var unlinked := Works();
      if !unlinked {
        return Refused;
      }
      staged := None;
      progress.Call(Some(15));
      outcome := Swap(package, exit);
      if outcome.Installed? {
        var ok := Works();
        if ok {
          backup := None;
          progress.Call(Some(100));
          return;
        }
        outcome := FailedLate;
      }
      progress.Call(Some(95));
      staged := None;
      if backup.Some? {
        target := None;
        target, backup := backup, None;
      }
    }
  }
}
