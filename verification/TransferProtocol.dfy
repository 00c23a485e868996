/** Resumable transfers over `<name>.part` and `<name>.part.meta`, with a crash possible after
    every single change of a file. Uploads keep these files on the server, downloads beside the
    local destination; the steps are the same up to how the finished part is published. */
module TransferProtocol {
  import opened Wrappers
  import opened Utf8
  import opened Lines
  import opened Resume
  import opened Seqs
  import Stream

  /** Binary transfers rename the part onto the destination; an ASCII download converts it into
      `<name>.tmp` first. (An ASCII upload converts before it starts: its payload is converted.) */
  datatype Publish = Rename | Convert(newline: string)

  datatype Attempt = Attempt(id: string, publish: Publish)

  datatype Disk = Disk(part: Option<seq<byte>>, meta: Option<string>, tmp: Option<seq<byte>>, dest: Option<seq<byte>>)

  /** Where an attempt is; `Idle` also after a crash or an exception. */
  datatype Stage =
    | Idle
    | Checking(a: Attempt)
    | Discarding(a: Attempt)
    | Labelling(a: Attempt)
    | Sending(a: Attempt)
    | Copying(a: Attempt, sent: nat)
    | Publishing(a: Attempt)
    | Converting(a: Attempt)
    | Converted(a: Attempt)
    | Dropping(a: Attempt)
    | Cleaning(a: Attempt)

  datatype State = State(disk: Disk, stage: Stage)

  /** What a source with a given identity contains. */
  type Contents = string -> seq<byte>

  /** What an attempt is to leave at the destination; None if the conversion refuses it. */
  function Rendered(content: Contents, a: Attempt): Option<seq<byte>>
  {
    match a.publish
    case Rename => Some(content(a.id))
    case Convert(newline) =>
      match BytesForLocal(content(a.id), newline)
      case Ok(d) => Some(d)
      case Err => None
  }

  // ----- One step ------------------------------------------------------------------------------

  ghost predicate CanStep(content: Contents, s: State, s': State)
  {
    var d, d' := s.disk, s'.disk;
    // Crash, or an exception whose handlers remove at most the conversion's temporary file.
    || (s'.stage.Idle? && (d' == d || d' == d.(tmp := None)))
    || match s.stage
       case Idle =>
         s'.stage.Checking? && IdentityText(s'.stage.a.id) && d' == d
       case Checking(a) =>
         // Reading the label may fail, and then counts as a mismatch.
         && d' == d
         && (|| (s'.stage == Labelling(a) && (d.part.None? || d.meta == Some(a.id)))
             || (s'.stage == Discarding(a) && d.part.Some?))
       case Discarding(a) =>
         s'.stage == Labelling(a) && d' == d.(part := None)
       case Labelling(a) =>
         || (s'.stage == Labelling(a) && exists j :: 0 <= j <= |a.id| && d' == d.(meta := Some(a.id[..j])))
         || (s'.stage == Sending(a) && d' == d.(meta := Some(a.id)))
       case Sending(a) =>
         // Reading the size may fail, and then counts as 0.
         var size, total := SizeOf(d.part), |content(a.id)|;
         || (s'.stage == Copying(a, 0) && d' == d.(part := Some([])))
         || (size == total > 0 && s'.stage == Publishing(a) && d' == d)
         || (0 < size < total && s'.stage == Copying(a, size) && d' == d)
       case Copying(a, sent) =>
         if sent < |content(a.id)| then
           && s'.stage.Copying? && s'.stage.a == a && sent < s'.stage.sent <= |content(a.id)|
           && d.part.Some?
           && d' == d.(part := Some(d.part.value + content(a.id)[sent..s'.stage.sent]))
         else
           s'.stage == Publishing(a) && d' == d
       case Publishing(a) =>
         if a.publish.Rename? then
           s'.stage == Cleaning(a) && d' == d.(dest := d.part, part := None)
         else
           s'.stage == Converting(a) && d'.tmp.Some? && d' == d.(tmp := d'.tmp)
       case Converting(a) =>
         || (s'.stage == Converting(a) && d'.tmp.Some? && d' == d.(tmp := d'.tmp))
         || (&& s'.stage == Converted(a) && a.publish.Convert? && d.part.Some?
             && BytesForLocal(d.part.value, a.publish.newline).Ok?
             && d' == d.(tmp := Some(BytesForLocal(d.part.value, a.publish.newline).value)))
       case Converted(a) =>
         s'.stage == Dropping(a) && d' == d.(dest := d.tmp, tmp := None)
       case Dropping(a) =>
         // A part that cannot be removed is left behind.
         s'.stage == Cleaning(a) && (d' == d || d' == d.(part := None))
       case Cleaning(a) =>
         s'.stage == Idle && d' == d.(meta := None)
  }

  // ----- What every step keeps -----------------------------------------------------------------

  /** A part whose label is an identity is a prefix of that identity's content. */
  ghost predicate PartMatchesLabel(content: Contents, d: Disk)
  {
    d.part.Some? && d.meta.Some? && IdentityText(d.meta.value) ==> d.part.value <= content(d.meta.value)
  }

  /** The label is this identity, or at least no identity at all. */
  predicate LabelOk(meta: Option<string>, id: string)
  {
    meta == Some(id) || (meta.Some? && !IdentityText(meta.value))
  }

  ghost predicate Inv(content: Contents, s: State)
  {
    var d := s.disk;
    && PartMatchesLabel(content, d)
    && (!s.stage.Idle? ==> IdentityText(s.stage.a.id))
    && match s.stage
       case Idle => true
       case Checking(_) => true
       case Discarding(_) => true
       case Labelling(a) => d.part.Some? ==> d.part.value <= content(a.id) && d.meta.Some? && d.meta.value <= a.id
       case Sending(a) => LabelOk(d.meta, a.id) && (d.part.Some? ==> d.part.value <= content(a.id))
       case Copying(a, sent) => LabelOk(d.meta, a.id) && sent <= |content(a.id)| && d.part == Some(content(a.id)[..sent])
       case Publishing(a) => LabelOk(d.meta, a.id) && d.part == Some(content(a.id))
       case Converting(a) => LabelOk(d.meta, a.id) && d.part == Some(content(a.id))
       case Converted(a) => LabelOk(d.meta, a.id) && d.part == Some(content(a.id)) && d.tmp.Some? && d.tmp == Rendered(content, a)
       case Dropping(a) => LabelOk(d.meta, a.id) && d.part == Some(content(a.id))
       case Cleaning(_) => true
  }

  lemma StepKeepsInv(content: Contents, s: State, s': State)
    requires Inv(content, s) && CanStep(content, s, s')
    ensures Inv(content, s')
  {
    if s.stage.Labelling? && s'.stage.Labelling? && s'.disk.part.Some? && IdentityText(s'.disk.meta.value) {
      ClosingIsUnique(s'.disk.meta.value, s.stage.a.id, false);
    }
    if !s.stage.Idle? {
      var p := content(s.stage.a.id);
      assert p[..|p|] == p;
      if s.stage.Copying? && s'.stage.Copying? {
        assert p[..s.stage.sent] + p[s.stage.sent..s'.stage.sent] == p[..s'.stage.sent];
      }
      if s.stage.Sending? && s.disk.part.Some? {
        assert s.disk.part.value == p[..|s.disk.part.value|];
      }
    }
  }

  /** The destination changes only when an attempt publishes, and then to all of its content. */
  lemma StepKeepsDest(content: Contents, s: State, s': State)
    requires Inv(content, s) && CanStep(content, s, s') && s'.disk.dest != s.disk.dest
    ensures s.stage.Publishing? || s.stage.Converted?
    ensures s'.disk.dest.Some? && s'.disk.dest == Rendered(content, s.stage.a)
  {
  }

  ghost predicate IsRun(content: Contents, run: seq<State>)
  {
    && run != []
    && forall k {:trigger Linked(content, run, k)} :: 0 <= k < |run| - 1 ==> Linked(content, run, k)
  }

  ghost predicate Linked(content: Contents, run: seq<State>, k: nat)
    requires k + 1 < |run|
  {
    CanStep(content, run[k], run[k + 1])
  }

  lemma ExtendRun(content: Contents, run: seq<State>, s: State)
    requires IsRun(content, run) && CanStep(content, run[|run| - 1], s)
    ensures IsRun(content, run + [s])
  {
    var longer := run + [s];
    forall k | 0 <= k < |longer| - 1 ensures Linked(content, longer, k) {
      if k < |run| - 1 {
        assert Linked(content, run, k);
      }
    }
  }

  /** An attempt that is in progress in state `s` publishes `d`. */
  ghost predicate Publishes(content: Contents, s: State, d: Option<seq<byte>>)
  {
    && (s.stage.Publishing? || s.stage.Converted?)
    && d.Some? && d == Rendered(content, s.stage.a)
  }

  /** Over any number of attempts, crashes and changes of the source between attempts: at every
      step a labelled part is a prefix of what the label names, and the destination holds its
      first content or the complete content of some attempt, never a mix. */
  lemma {:induction false} NeverAMix(content: Contents, run: seq<State>, k: nat)
    requires IsRun(content, run) && Inv(content, run[0]) && k < |run|
    ensures Inv(content, run[k]) && PartMatchesLabel(content, run[k].disk)
    ensures run[k].disk.dest == run[0].disk.dest
         || exists j :: 0 <= j < k && Publishes(content, run[j], run[k].disk.dest)
  {
    if k > 0 {
      NeverAMix(content, run, k - 1);
      var s, s' := run[k - 1], run[k];
      assert Linked(content, run, k - 1);
      StepKeepsInv(content, s, s');
      if s'.disk.dest != s.disk.dest {
        StepKeepsDest(content, s, s');
        assert Publishes(content, run[k - 1], run[k].disk.dest);
      }
    }
  }

  // ----- Where the guarantee ends --------------------------------------------------------------

  /** The identity leaves the transfer mode out, so a binary leftover is continued by an ASCII
      retry of the same file: the part of "a\r\nb" continued with the converted "a\nb". In
      general the retry is exact only under the condition of `ResumeExact`. */
  lemma ModeIsNotInTheIdentity()
    ensures var binary := Encode("a\r\nb");
            var ascii := Encode("a\nb");
            && BytesForRemote(binary) == Ok(ascii)
            && ResumeOutcome(Some(binary[..2]), ascii) == Encode("a\rb")
            && Encode("a\rb") != ascii && Encode("a\rb") != binary
  {
    Literals();
    LiteralLines();
    NormalizedIsOnePass("a\r\nb");
    DecodeEncoded("a\r\nb");
  }

  lemma LiteralLines()
    ensures OnePass("a\r\nb", "\n") == "a\nb"
  {
    assert "a\r\nb"[1..] == "\r\nb";
    assert "\r\nb"[2..] == "b";
    assert OnePass("b", "\n") == "b";
  }

  lemma Literals()
    ensures Encode("a\r\nb") == [97, 13, 10, 98]
    ensures Encode("a\nb") == [97, 10, 98]
    ensures Encode("a\rb") == [97, 13, 98]
  {
    assert Encode("b") == [98] by { assert "b"[1..] == ""; }
    assert "a\r\nb"[1..] == "\r\nb" && "\r\nb"[1..] == "\nb" && "\nb"[1..] == "b";
    assert "a\nb"[1..] == "\nb" && "a\rb"[1..] == "\rb" && "\rb"[1..] == "b";
  }

  // ----- The procedures ------------------------------------------------------------------------

  /** One destination and the files beside it. `run` records every state the files go through. */
  class Site {
    var part: Option<seq<byte>>
    var meta: Option<string>
    var tmp: Option<seq<byte>>
    var dest: Option<seq<byte>>
    ghost const content: Contents
    ghost var run: seq<State>
    ghost var failures: nat  // how many file operations (or mode choices) have ended an attempt

    ghost function Now(): Disk
      reads this
    {
      Disk(part, meta, tmp, dest)
    }

    ghost function At(): Stage
      reads this
      requires run != []
    {
      run[|run| - 1].stage
    }

    ghost predicate Valid()
      reads this
    {
      && IsRun(content, run)
      && run[|run| - 1].disk == Now()
      && Inv(content, run[0])
    }

    constructor (content: Contents, dest: Option<seq<byte>>)
      ensures Valid() && At().Idle?
      ensures this.content == content && part == None && meta == None && this.dest == dest
    {
      this.part, this.meta, this.tmp, this.dest := None, None, None, dest;
      this.content := content;
      this.run := [State(Disk(None, None, None, dest), Idle)];
      this.failures := 0;
    }

    /** Records that the files have changed as one step allows. */
    ghost method Step(stage: Stage)
      requires IsRun(content, run) && Inv(content, run[0])
      requires CanStep(content, run[|run| - 1], State(Now(), stage))
      modifies this`run
      ensures Valid() && At() == stage && old(run) <= run
    {
      ExtendRun(content, run, State(Now(), stage));
      run := run + [State(Now(), stage)];
    }

    /** Whether the next operation fails, or the program dies before it. */
    method Fails() returns (failed: bool)
      requires Valid()
      modifies this`run, this`failures
      ensures Valid() && old(run) <= run
      ensures if failed then At().Idle? else run == old(run)
      ensures failures == old(failures) + if failed then 1 else 0
    {
      failed := *;
      if failed {
        failures := failures + 1;
        Step(Idle);
      }
    }

    /** Reading the label may fail, and then counts as no label. */
    method ReadLabel() returns (saved: Option<string>)
      ensures saved == None || saved == meta
    {
      var readable: bool := *;
      saved := if readable then meta else None;
    }

    /** The same for an operation on local files, which leaves no trace in the run. */
    method LocalFails() returns (failed: bool)
      modifies this`failures
      ensures failures == old(failures) + if failed then 1 else 0
    {
      failed := *;
      if failed {
        failures := failures + 1;
      }
    }

    /** Keeps the leftover part exactly if its label, as read, is this identity. */
    method KeepOrDiscard(a: Attempt, saved: Option<string>) returns (ok: bool)
      requires Valid() && At() == Checking(a) && (saved == None || saved == meta)
      modifies this`part, this`run, this`failures
      ensures Valid() && old(run) <= run
      ensures if ok then At() == Labelling(a) else At().Idle?
      ensures part == if ok && saved != Some(a.id) then None else old(part)
      ensures ok <==> failures == old(failures)
    {
      if part.None? || saved == Some(a.id) {
        Step(Labelling(a));
        return true;
      }
      Step(Discarding(a));
      var failed := Fails();
      if failed { return false; }
      part := None;
      Step(Labelling(a));
      ok := true;
    }

    /** Writes the label, which may be torn on the way. */
    method WriteLabel(a: Attempt) returns (ok: bool)
      requires Valid() && At() == Labelling(a)
      modifies this`meta, this`run, this`failures
      ensures Valid() && old(run) <= run
      ensures if ok then At() == Sending(a) else At().Idle?
      ensures ok <==> failures == old(failures)
    {
      var written :| 0 <= written <= |a.id|;
      meta := Some(a.id[..written]);
      Step(Labelling(a));
      var failed := Fails();
      if failed { return false; }
      meta := Some(a.id);
      Step(Sending(a));
      ok := true;
    }

    /** Reading the size of the part may fail, and then counts as 0. */
    method LookUpSize() returns (size: nat)
      ensures size == 0 || size == SizeOf(part)
    {
      var readable: bool := *;
      size := if readable then SizeOf(part) else 0;
    }

    /** The backend's decision by size: nothing to send, continue, or start over. Each is right,
        because the part is a prefix of the payload. */
    method StartSending(a: Attempt, payload: seq<byte>, size: nat) returns (sent: nat, finished: bool)
      requires Valid() && At() == Sending(a) && payload == content(a.id)
      requires size == 0 || size == SizeOf(part)
      modifies this`part, this`run
      ensures Valid() && old(run) <= run
      ensures ResumeOutcome(old(part), payload) == payload
      ensures finished <==> size == |payload| > 0
      ensures sent == (if 0 < size <= |payload| then size else 0)
      ensures part == (if sent > 0 then old(part) else Some([])) == Some(payload[..sent])
      ensures At() == if finished then Publishing(a) else Copying(a, sent)
    {
      NeverAMix(content, run, |run| - 1);
      ResumeExact(part, payload);
      if part.Some? && |part.value| <= |payload| {
        assert part.value == payload[..|part.value|];
      }
      Whole(payload);
      sent, finished := size, false;
      if size == |payload| && |payload| > 0 {
        Step(Publishing(a));
        finished := true;
      } else if 0 < size < |payload| {
        Step(Copying(a, sent));
      } else {
        part := Some([]);
        sent := 0;
        Step(Copying(a, 0));
      }
    }

    method SendChunk(a: Attempt, payload: seq<byte>, sent: nat) returns (now: nat)
      requires Valid() && At() == Copying(a, sent) && payload == content(a.id)
      requires sent < |payload| && part == Some(payload[..sent])
      modifies this`part, this`run
      ensures Valid() && old(run) <= run
      ensures sent < now <= |payload| && At() == Copying(a, now) && part == Some(payload[..now])
    {
      var n :| 1 <= n <= |payload| - sent;
      now := sent + n;
      TakeMore(payload, sent, now);
      part := Some(part.value + payload[sent..now]);
      Step(Copying(a, now));
    }

    /** The backend's size-based resume: skip, continue, or overwrite, in chunks of any size. */
    method Send(a: Attempt, payload: seq<byte>) returns (ok: bool)
      requires Valid() && At() == Sending(a) && payload == content(a.id)
      modifies this`part, this`run, this`failures
      ensures Valid() && old(run) <= run
      ensures if ok then At() == Publishing(a) else At().Idle?
      ensures ok ==> part == Some(payload) == Some(ResumeOutcome(old(part), payload))
      ensures ok <==> failures == old(failures)
    {
      var failed := Fails();
      if failed { return false; }
      var size := LookUpSize();
      var sent, finished := StartSending(a, payload, size);
      Whole(payload);
      if finished { return true; }
      while sent < |payload|
        invariant Valid() && old(run) <= run
        invariant failures == old(failures)
        invariant sent <= |payload| && At() == Copying(a, sent) && part == Some(payload[..sent])
      {
        failed := Fails();
        if failed { return false; }
        sent := SendChunk(a, payload, sent);
      }
      Whole(payload);
      Step(Publishing(a));
      ok := true;
    }

    /** The common part of both directions: check the leftover, label it, send or fetch the rest. */
    method FillPart(a: Attempt, payload: seq<byte>) returns (ok: bool)
      requires Valid() && At().Idle? && IdentityText(a.id) && payload == content(a.id)
      modifies this`part, this`meta, this`run, this`failures
      ensures Valid() && old(run) <= run
      ensures if ok then At() == Publishing(a) && part == Some(payload) else At().Idle?
      ensures ok <==> failures == old(failures)
    {
      Step(Checking(a));
      var saved := ReadLabel();
      ok := KeepOrDiscard(a, saved);
      if !ok { return; }
      ok := WriteLabel(a);
      if !ok { return; }
      ok := Send(a, payload);
    }

    /** Renames the part onto the destination. */
    method Replace(a: Attempt) returns (ok: bool)
      requires Valid() && At() == Publishing(a) && a.publish.Rename?
      modifies this
      ensures Valid() && old(run) <= run
      ensures if ok then At() == Cleaning(a) && dest == old(part) && part == None
              else At().Idle? && dest == old(dest)
      ensures ok <==> failures == old(failures)
    {
      var failed := Fails();
      if failed { return false; }
      dest, part := part, None;
      Step(Cleaning(a));
      ok := true;
    }

    /** The temporary file holds some of the converted text. */
    method StartConversion(a: Attempt) returns (ok: bool)
      requires Valid() && At() == Publishing(a) && a.publish.Convert?
      modifies this
      ensures Valid() && old(run) <= run && dest == old(dest) && part == old(part)
      ensures if ok then At() == Converting(a) else At().Idle?
      ensures ok <==> failures == old(failures)
    {
      var failed := Fails();
      if failed { return false; }
      var partial: seq<byte> := *;
      tmp := Some(partial);
      Step(Converting(a));
      failed := Fails();
      ok := !failed;
    }

    /** Converts the part into the temporary file, unless its bytes are not valid UTF-8. */
    method ConvertPart(a: Attempt) returns (ok: bool)
      requires Valid() && At() == Publishing(a) && a.publish.Convert? && part.Some?
      modifies this
      ensures Valid() && old(run) <= run && dest == old(dest) && part == old(part)
      ensures ok ==> At() == Converted(a) && tmp.Some? && BytesForLocal(part.value, a.publish.newline) == Ok(tmp.value)
      ensures !ok ==> At().Idle?
      ensures ok <==> failures == old(failures) && Utf8Octets(old(part).value)
    {
      ok := StartConversion(a);
      if !ok { return; }
      var chunks := Stream.ReadChunks(part.value);
      var valid, converted := Stream.StreamUtf8Lines(chunks, a.publish.newline);
      if !valid {
        DropTemporary();
        return false;
      }
      tmp := Some(converted);
      Step(Converted(a));
      ok := true;
    }

    /** The end of an attempt whose conversion failed: its temporary file goes, if it can. */
    method DropTemporary()
      requires Valid()
      modifies this`tmp, this`run
      ensures Valid() && old(run) <= run && At().Idle?
    {
      var removable: bool := *;
      if removable {
        tmp := None;
      }
      Step(Idle);
    }

    /** Moves the converted file onto the destination and drops the part, if it can. */
    method ReplaceByConverted(a: Attempt) returns (ok: bool)
      requires Valid() && At() == Converted(a)
      modifies this
      ensures Valid() && old(run) <= run
      ensures dest == if ok then old(tmp) else old(dest)
      ensures part == old(part) || (ok && part == None)
      ensures if ok then At() == Cleaning(a) else At().Idle?
      ensures ok <==> failures == old(failures)
    {
      var failed: bool := *;
      if failed {
        failures := failures + 1;
        DropTemporary();
        return false;
      }
      dest, tmp := tmp, None;
      Step(Dropping(a));
      var removable: bool := *;
      if removable {
        part := None;
      }
      Step(Cleaning(a));
      ok := true;
    }

    /** Removes the label, the last step of a successful transfer. */
    method Clean(a: Attempt) returns (ok: bool)
      requires Valid() && At() == Cleaning(a)
      modifies this
      ensures Valid() && At().Idle? && old(run) <= run
      ensures dest == old(dest) && part == old(part) && (ok ==> meta == None)
      ensures ok <==> failures == old(failures)
    {
      var failed := Fails();
      if failed { return false; }
      meta := None;
      Step(Idle);
      ok := true;
    }

    /** Uploads to the part and renames it once. Success means the whole payload is at the
        destination and nothing is left over; anything else is a run of the protocol, so
        `NeverAMix` covers every state on the way. */
    method UploadRemote(id: string, payload: seq<byte>) returns (ok: bool)
      requires Valid() && At().Idle? && IdentityText(id) && payload == content(id)
      modifies this
      ensures Valid() && At().Idle? && old(run) <= run
      ensures ok ==> dest == Some(payload) && part == None && meta == None
      ensures dest == old(dest) || dest == Some(payload)
      ensures ok <==> failures == old(failures)
    {
      var a := Attempt(id, Rename);
      ok := FillPart(a, payload);
      if !ok { return; }
      ok := Replace(a);
      if !ok { return; }
      ok := Clean(a);
    }

    /** An ASCII upload converts the local file first. Bytes that are not valid UTF-8 are refused
        before anything is touched on the server. */
    method UploadWithMode(id: string, file: seq<byte>, ascii: bool) returns (ok: bool)
      requires Valid() && At().Idle? && IdentityText(id)
      requires var payload := if ascii then BytesForRemote(file) else Ok(file);
               payload.Ok? ==> content(id) == payload.value
      modifies this
      ensures Valid() && At().Idle? && old(run) <= run
      ensures ok ==> part == None && meta == None
      ensures ok ==> dest.Some? && (if ascii then BytesForRemote(file) else Ok(file)) == Ok(dest.value)
      ensures dest == old(dest) || (dest.Some? && (if ascii then BytesForRemote(file) else Ok(file)) == Ok(dest.value))
      ensures ascii && !Utf8Octets(file) ==> !ok && run == old(run) && dest == old(dest)
      ensures ok <==> failures == old(failures) && (ascii ==> Utf8Octets(file))
    {
      // Reading the sample and choosing the mode may refuse the file.
      var failed := LocalFails();
      if failed { return false; }
      if !ascii {
        ok := UploadRemote(id, file);
        return;
      }
      // The temporary file for the converted text.
      failed := LocalFails();
      if failed { return false; }
      var chunks := Stream.ReadChunks(file);
      var valid, payload := Stream.StreamUtf8Lines(chunks, "\n");
      LocalAsOnePass(file, "\n");
      if !valid { return false; }
      ok := UploadRemote(id, payload);
    }

    /** Downloads to the part, then renames it, or converts it when `newline` is given. An ASCII
        download of something that is not valid UTF-8 fails and leaves the destination alone. */
    method DownloadWithMode(id: string, remote: seq<byte>, newline: Option<string>) returns (ok: bool)
      requires Valid() && At().Idle? && IdentityText(id) && remote == content(id)
      modifies this
      ensures Valid() && At().Idle? && old(run) <= run
      ensures ok ==> meta == None && (part == None || (newline.Some? && part == Some(remote)))
      ensures ok && newline.None? ==> dest == Some(remote)
      ensures ok && newline.Some? ==> dest.Some? && BytesForLocal(remote, newline.value) == Ok(dest.value)
      ensures dest == old(dest) ||
                (dest.Some? && (if newline.Some? then BytesForLocal(remote, newline.value) else Ok(remote)) == Ok(dest.value))
      ensures newline.Some? && !Utf8Octets(remote) ==> !ok && dest == old(dest)
      ensures ok <==> failures == old(failures) && (newline.Some? ==> Utf8Octets(remote))
    {
      var a := Attempt(id, if newline.Some? then Convert(newline.value) else Rename);
      DecodesExactlyTheGrammar(remote);
      ok := FillPart(a, remote);
      if !ok { return; }
      // Choosing the mode may refuse the sample, too.
      var failed := Fails();
      if failed { return false; }
      if newline.Some? {
        ok := ConvertPart(a);
        if !ok { return; }
        ok := ReplaceByConverted(a);
      } else {
        ok := Replace(a);
      }
      if !ok { return; }
      ok := Clean(a);
    }
  }
}
