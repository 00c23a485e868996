/** Uploads over FTP. This backend writes even the label through its resuming upload, so that the
    label may come out as a mixture of the old one and the new one. When that is harmless, and
    what holds of runs as long as it is. */
module FtpLabels {
  import opened Wrappers
  import opened Utf8
  import opened Seqs
  import opened Resume
  import opened TransferProtocol

  /** Labelling with `id` on top of `meta` leaves the text of some other identity: `meta` is not
      longer than `id`, no beginning of it, and continued with the rest of `id` an identity. */
  predicate Confuses(meta: Option<string>, id: string)
  {
    && meta.Some? && |meta.value| <= |id| && !(meta.value <= id)
    && IdentityText(meta.value + id[|meta.value|..])
  }

  /** The label ends up right exactly when the old one is absent, longer, or the same. */
  lemma FtpLabelExact(meta: Option<string>, id: string)
    requires IdentityText(id) && (meta.Some? ==> IdentityText(meta.value))
    ensures ResumeOutcome(meta, id) == id
      <==> meta.None? || |meta.value| > |id| || meta.value == id
  {
    ResumeExact(meta, id);
    if meta.Some? && meta.value <= id {
      ClosingIsUnique(meta.value, id, false);
    }
  }

  /** A wrong label is harmful exactly when it is an identity all the same. */
  lemma FtpLabelConfuses(meta: Option<string>, id: string)
    requires IdentityText(id)
    ensures IdentityText(ResumeOutcome(meta, id)) && ResumeOutcome(meta, id) != id <==> Confuses(meta, id)
  {
    ResumeExact(meta, id);
    if meta.Some? {
      Whole(meta.value);
      if |meta.value| == |id| {
        assert id[|meta.value|..] == "";
      }
    }
  }

  /** The text begins with an identity, as every label does whose writing was not cut short. */
  ghost predicate Completed(t: string)
  {
    exists k :: 0 <= k <= |t| && IdentityText(t[..k])
  }

  /** On top of a label that was written in full, confusion means an identity of equal length. */
  lemma FullLabelConfuses(old_: string, id: string)
    requires IdentityText(id) && Completed(old_)
    ensures Confuses(Some(old_), id) <==> IdentityText(old_) && |old_| == |id| && old_ != id
  {
    var k :| 0 <= k <= |old_| && IdentityText(old_[..k]);
    var text := if |old_| <= |id| then old_ + id[|old_|..] else old_;
    if IdentityText(text) {
      assert text[..k] == old_[..k];
      ClosingIsUnique(old_[..k], text, false);
    }
    if |old_| == |id| {
      Whole(old_);
      assert id[|old_|..] == "";
      assert old_ <= id ==> old_ == id;
    }
  }

  /** In particular on top of another identity. */
  lemma IdentityConfuses(old_: string, id: string)
    requires IdentityText(old_) && IdentityText(id)
    ensures IdentityText(ResumeOutcome(Some(old_), id)) && ResumeOutcome(Some(old_), id) != id
       <==> |old_| == |id| && old_ != id
  {
    Whole(old_);
    assert Completed(old_);
    FullLabelConfuses(old_, id);
    FtpLabelConfuses(Some(old_), id);
  }

  // ----- Runs ----------------------------------------------------------------------------------

  /** Writing the label: it is overwritten if the old size cannot be read, else resumed by size.
      If it is cut short, some of the text has arrived. */
  ghost predicate Labelled(s: State, s': State)
    requires s.stage.Labelling?
  {
    var d, id := s.disk, s.stage.a.id;
    var size := SizeOf(d.meta);
    || (s'.stage == Sending(s.stage.a) && s'.disk == d.(meta := Some(id)))
    || (s'.stage == Sending(s.stage.a) && s'.disk == d.(meta := Some(ResumeOutcome(d.meta, id))))
    || (s'.stage.Idle? && exists m :: 0 <= m <= |id| && s'.disk == d.(meta := Some(id[..m])))
    || (s'.stage.Idle? && 0 < size < |id| &&
        exists m :: size <= m <= |id| && s'.disk == d.(meta := Some(d.meta.value + id[size..m])))
  }

  ghost predicate FtpCanStep(content: Contents, s: State, s': State)
  {
    if s.stage.Labelling? && !(s'.stage.Idle? && s'.disk == s.disk) then Labelled(s, s') else CanStep(content, s, s')
  }

  /** The next thing is to write a label that will be another identity's. */
  predicate Clash(s: State)
  {
    s.stage.Labelling? && Confuses(s.disk.meta, s.stage.a.id)
  }

  /** Writing a label in full keeps the invariant exactly if it does not confuse. */
  lemma LabelledKeepsInv(content: Contents, s: State, s': State)
    requires Inv(content, s) && s.stage.Labelling?
    requires s'.stage == Sending(s.stage.a) && s'.disk == s.disk.(meta := Some(ResumeOutcome(s.disk.meta, s.stage.a.id)))
    ensures Inv(content, s') <==> !Clash(s)
  {
    var id := s.stage.a.id;
    FtpLabelConfuses(s.disk.meta, id);
    if s.disk.part.Some? && s.disk.meta.Some? {
      ResumeExact(s.disk.meta, id);
    }
  }

  /** A label that is cut short is one that belongs to no part, or a beginning of its own. */
  lemma TornKeepsInv(content: Contents, s: State, s': State, text: string)
    requires Inv(content, s) && s.stage.Labelling?
    requires s'.stage.Idle? && s'.disk == s.disk.(meta := Some(text))
    requires s.disk.part.Some? ==> text <= s.stage.a.id
    ensures Inv(content, s')
  {
    if s.disk.part.Some? && IdentityText(text) {
      ClosingIsUnique(text, s.stage.a.id, false);
    }
  }

  lemma FtpStepKeepsInv(content: Contents, s: State, s': State)
    requires Inv(content, s) && FtpCanStep(content, s, s') && !Clash(s)
    ensures Inv(content, s')
  {
    if !s.stage.Labelling? || (s'.stage.Idle? && s'.disk == s.disk) {
      StepKeepsInv(content, s, s');
      return;
    }
    var d, id := s.disk, s.stage.a.id;
    var size := SizeOf(d.meta);
    if m :| 0 <= m <= |id| && s'.stage.Idle? && s'.disk == d.(meta := Some(id[..m])) {
      TornKeepsInv(content, s, s', id[..m]);
    } else if m :| size <= m <= |id| && 0 < size < |id| && s'.stage.Idle? && s'.disk == d.(meta := Some(d.meta.value + id[size..m])) {
      TakeMore(id, size, m);
      assert d.meta.value <= id ==> d.meta.value == id[..size];
      TornKeepsInv(content, s, s', d.meta.value + id[size..m]);
    } else if s'.disk == d.(meta := Some(ResumeOutcome(d.meta, id))) {
      LabelledKeepsInv(content, s, s');
    }
  }

  ghost predicate FtpLinked(content: Contents, run: seq<State>, k: nat)
    requires k + 1 < |run|
  {
    FtpCanStep(content, run[k], run[k + 1])
  }

  ghost predicate IsFtpRun(content: Contents, run: seq<State>)
  {
    && run != []
    && forall k {:trigger FtpLinked(content, run, k)} :: 0 <= k < |run| - 1 ==> FtpLinked(content, run, k)
  }

  lemma FtpStepKeepsDest(content: Contents, s: State, s': State)
    requires Inv(content, s) && FtpCanStep(content, s, s') && s'.disk.dest != s.disk.dest
    ensures Publishes(content, s, s'.disk.dest)
  {
    if !s.stage.Labelling? {
      StepKeepsDest(content, s, s');
    }
  }

  /** Over FTP the same holds as elsewhere, of every run in which no label is written on top of one
      that it turns into another identity: a labelled part is a prefix of what its label names, and
      the destination is its first content or the complete content of some attempt. */
  lemma {:induction false} FtpNeverAMix(content: Contents, run: seq<State>, k: nat)
    requires IsFtpRun(content, run) && Inv(content, run[0]) && k < |run|
    requires forall j :: 0 <= j < k ==> !Clash(run[j])
    ensures Inv(content, run[k]) && PartMatchesLabel(content, run[k].disk)
    ensures run[k].disk.dest == run[0].disk.dest
         || exists j :: 0 <= j < k && Publishes(content, run[j], run[k].disk.dest)
  {
    if k > 0 {
      FtpNeverAMix(content, run, k - 1);
      assert FtpLinked(content, run, k - 1);
      FtpStepKeepsInv(content, run[k - 1], run[k]);
      if run[k].disk.dest != run[k - 1].disk.dest {
        FtpStepKeepsDest(content, run[k - 1], run[k]);
      }
    }
  }

  // ----- Labels written in full ----------------------------------------------------------------

  ghost predicate MetaCompleted(d: Disk)
  {
    d.meta.Some? ==> Completed(d.meta.value)
  }

  /** No label is cut short in this step. */
  predicate Untorn(s: State, s': State)
  {
    s.stage.Labelling? && s'.stage.Idle? ==> s'.disk == s.disk
  }

  lemma StaysCompleted(t: string, more: string)
    requires Completed(t)
    ensures Completed(t + more)
  {
    var k :| 0 <= k <= |t| && IdentityText(t[..k]);
    assert (t + more)[..k] == t[..k];
  }

  lemma UntornStep(content: Contents, s: State, s': State)
    requires Inv(content, s) && FtpCanStep(content, s, s') && MetaCompleted(s.disk) && Untorn(s, s')
    ensures MetaCompleted(s'.disk)
  {
    if s.stage.Labelling? && s'.stage.Sending? {
      var d, id := s.disk, s.stage.a.id;
      Whole(id);
      assert Completed(id);
      if d.meta.Some? && |d.meta.value| <= |id| {
        StaysCompleted(d.meta.value, id[|d.meta.value|..]);
      }
    }
  }

  /** If no label is ever cut short, the runs that are safe are those in which no label is written
      over a different identity of equal length. */
  lemma {:induction false} FtpClashIsEqualLength(content: Contents, run: seq<State>, k: nat)
    requires IsFtpRun(content, run) && Inv(content, run[0]) && MetaCompleted(run[0].disk) && k < |run|
    requires forall j :: 0 <= j < k ==> !Clash(run[j]) && Untorn(run[j], run[j + 1])
    ensures MetaCompleted(run[k].disk)
    ensures Clash(run[k]) <==>
      && run[k].stage.Labelling? && run[k].disk.meta.Some?
      && var old_, id := run[k].disk.meta.value, run[k].stage.a.id;
      IdentityText(old_) && |old_| == |id| && old_ != id
  {
    FtpNeverAMix(content, run, k);
    if k > 0 {
      FtpClashIsEqualLength(content, run, k - 1);
      FtpNeverAMix(content, run, k - 1);
      assert FtpLinked(content, run, k - 1);
      UntornStep(content, run[k - 1], run[k]);
    }
    if run[k].stage.Labelling? && run[k].disk.meta.Some? {
      FullLabelConfuses(run[k].disk.meta.value, run[k].stage.a.id);
    }
  }

  // ----- Clashes happen ------------------------------------------------------------------------

  lemma ThreeLinks(content: Contents, run: seq<State>)
    requires |run| == 4
    requires FtpCanStep(content, run[0], run[1]) && FtpCanStep(content, run[1], run[2]) && FtpCanStep(content, run[2], run[3])
    ensures IsFtpRun(content, run)
  {
    forall k | 0 <= k < |run| - 1 ensures FtpLinked(content, run, k) {
      assert k == 0 || k == 1 || k == 2;
    }
  }

  /** Every clash, also with a torn label, can break the promise at once: the label is written, the
      part started over and filled, and then it is not what its label names; unless the content
      of the one source is a beginning of that of the other. */
  lemma ClashBreaksPromise(content: Contents, s: State) returns (run: seq<State>)
    requires Inv(content, s) && Clash(s)
    requires !(content(s.stage.a.id) <= content(ResumeOutcome(s.disk.meta, s.stage.a.id)))
    ensures |run| == 4 && run[0] == s && IsFtpRun(content, run)
    ensures !PartMatchesLabel(content, run[3].disk)
  {
    var a, d := s.stage.a, s.disk;
    var kept, payload := ResumeOutcome(d.meta, a.id), content(a.id);
    FtpLabelConfuses(d.meta, a.id);
    var labelled := State(d.(meta := Some(kept)), Sending(a));
    var started := State(labelled.disk.(part := Some([])), Copying(a, 0));
    var filled := State(labelled.disk.(part := Some(payload)), Copying(a, |payload|));
    Whole(payload);
    assert [] + payload[0..|payload|] == payload;
    assert payload != [];
    run := [s, labelled, started, filled];
    ThreeLinks(content, run);
  }

  /** What a clash leads to. An attempt for `i` leaves its label; one for `j` with a label of the
      same length discards the part, keeps the label and is cut short after `n` bytes; then `i` is
      sent again, and what arrives is wrong whenever the two sources differ in those bytes. */
  lemma FtpLabelBreaksResume(content: Contents, i: string, j: string, n: nat)
    requires IdentityText(i) && IdentityText(j) && |i| == |j|
    requires 0 < n < |content(i)| && n <= |content(j)| && content(j)[..n] != content(i)[..n]
    ensures var kept, part := ResumeOutcome(Some(i), j), content(j)[..n];
            && kept == i && Confuses(Some(i), j)
            && !PartMatchesLabel(content, Disk(Some(part), Some(kept), None, None))
            && ResumeOutcome(Some(part), content(i)) != content(i)
  {
    var part := content(j)[..n];
    ResumeExact(Some(part), content(i));
    NotAPrefix(part, content(i));
    assert i != "" && j != "";
    FtpLabelConfuses(Some(i), j);
  }

  /** The labels of two versions of a file, of the size that their contents have. */
  lemma FtpSourcesExist(path: string) returns (content: Contents, i: string, j: string)
    ensures i == Identity(MtimeNs, 1, path, 2) && j == Identity(MtimeNs, 2, path, 2)
    ensures IdentityText(i) && IdentityText(j) && |i| == |j|
    ensures |content(i)| == 2 == |content(j)| && content(j)[..1] != content(i)[..1]
  {
    i, j := Identity(MtimeNs, 1, path, 2), Identity(MtimeNs, 2, path, 2);
    IdentityIsText(MtimeNs, 1, path, 2);
    IdentityIsText(MtimeNs, 2, path, 2);
    TwoClocks(MtimeNs, path, 2);
    var first := i;
    content := id => if id == first then [97, 98] else [120, 121];
    assert content(i) == [97, 98] && content(j) == [120, 121];
    assert content(j)[..1][0] != content(i)[..1][0];
  }

  lemma TwoClocks(clock: Clock, path: string, size: nat)
    ensures |Identity(clock, 1, path, size)| == |Identity(clock, 2, path, size)|
    ensures Identity(clock, 1, path, size) != Identity(clock, 2, path, size)
  {
    assert Decimal(1) == "1" && Decimal(2) == "2";
    IdentityShape(clock, 1, path, size);
    IdentityShape(clock, 2, path, size);
    OneDigitApart(BeforeClock(clock), AfterClock(path, size), '1', '2');
  }

  lemma OneDigitApart(head: string, tail: string, a: char, b: char)
    ensures |head + [a] + tail| == |head + [b] + tail|
    ensures a != b ==> head + [a] + tail != head + [b] + tail
  {
    assert (head + [a] + tail)[|head|] == a && (head + [b] + tail)[|head|] == b;
  }

  lemma TwoDigits()
    ensures Decimal(11) == "11" && Decimal(22) == "22" && Decimal(12) == "12"
  {
    assert Digits(1) == "1" && Digits(2) == "2";
  }

  lemma CutAndContinued(head: string, tail: string)
    ensures var torn, id := head + "1", head + "22" + tail;
            && torn <= head + "11" + tail && !(torn <= id) && 0 < |torn| < |id|
            && torn + id[|torn|..] == head + "12" + tail
  {
    var torn, id := head + "1", head + "22" + tail;
    assert id == (head + "2") + ("2" + tail);
    assert id[|torn|..] == "2" + tail;
    assert id[|head|] == '2' && torn[|head|] == '1';
  }

  /** A label that was cut short can clash where a full one does not: the label of time 11, cut in
      the middle of the time and continued as the label of time 22, is the label of time 12. */
  lemma TornLabelConfuses(clock: Clock, path: string, size: nat)
    ensures var torn, id := BeforeClock(clock) + "1", Identity(clock, 22, path, size);
            && torn <= Identity(clock, 11, path, size) && |torn| < |id|
            && ResumeOutcome(Some(torn), id) == Identity(clock, 12, path, size)
            && Confuses(Some(torn), id)
  {
    TwoDigits();
    CutAndContinued(BeforeClock(clock), AfterClock(path, size));
    IdentityShape(clock, 11, path, size);
    IdentityShape(clock, 22, path, size);
    IdentityShape(clock, 12, path, size);
    IdentityIsText(clock, 12, path, size);
  }
}
