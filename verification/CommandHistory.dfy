/** The command history: a bounded list in memory over an append-only file. */
module CommandHistory {
  import opened Blanks
  import opened Seqs

  /** Python's `s[-n:]`, for which 0 means the whole list. */
  function LastItems<T>(s: seq<T>, n: nat): seq<T>
  {
    if n == 0 || |s| <= n then s else s[|s| - n..]
  }

  /** The end of the list, as long as asked for if the list is; 0 asks for all. */
  lemma LastItemsMeans<T>(s: seq<T>, n: nat)
    ensures LastItems(s, n) == s[|s| - |LastItems(s, n)|..]
    ensures |LastItems(s, n)| == if n == 0 || |s| <= n then |s| else n
  {
  }

  predicate NoEqualNeighbours(s: seq<string>)
  {
    forall k :: 0 < k < |s| ==> s[k - 1] != s[k]
  }

  /** Every entry is a command that `Add` would write. */
  ghost predicate Entries(log: seq<string>)
  {
    forall k :: 0 <= k < |log| ==> log[k] != "" && Strip(log[k]) == log[k]
  }

  /** What was added since the history was last cleared, but for blank and secret commands and
      immediate repeats: the journal that the file is meant to be. */
  datatype Op = Add(cmd: string) | Clear

  function Journal(ops: seq<Op>, sensitive: string -> bool): seq<string>
  {
    if ops == [] then []
    else
      var before := Journal(ops[..|ops| - 1], sensitive);
      match ops[|ops| - 1]
      case Clear => []
      case Add(raw) =>
        var cmd := Strip(raw);
        if cmd == "" || sensitive(cmd) || (before != [] && before[|before| - 1] == cmd) then before
        else before + [cmd]
  }

  /** The commands a file holds, without blank ones. */
  function Commands(log: seq<string>): seq<string>
  {
    if log == [] then []
    else
      var cmd := Strip(log[|log| - 1]);
      Commands(log[..|log| - 1]) + if cmd == "" then [] else [cmd]
  }

  /** `s` without immediate repeats. */
  function Squeezed(s: seq<string>): seq<string>
  {
    if |s| <= 1 then s
    else Squeezed(s[..|s| - 1]) + if s[|s| - 1] == s[|s| - 2] then [] else [s[|s| - 1]]
  }

  lemma {:induction false} SqueezedLast(s: seq<string>)
    ensures s == [] <==> Squeezed(s) == []
    ensures s != [] ==> Squeezed(s)[|Squeezed(s)| - 1] == s[|s| - 1]
  {
    if |s| > 1 && s[|s| - 1] == s[|s| - 2] {
      SqueezedLast(s[..|s| - 1]);
    }
  }

  lemma {:induction false} SqueezedHasNone(s: seq<string>)
    ensures NoEqualNeighbours(Squeezed(s))
  {
    if |s| > 1 {
      var init := s[..|s| - 1];
      SqueezedHasNone(init);
      SqueezedLast(init);
      assert init[|init| - 1] == s[|s| - 2];
    }
  }

  lemma {:induction false} SqueezedSame(s: seq<string>)
    requires NoEqualNeighbours(s)
    ensures Squeezed(s) == s
  {
    if |s| > 1 {
      SqueezedSame(s[..|s| - 1]);
      TakeOneMore(s, |s| - 1);
      Whole(s);
    }
  }

  lemma SqueezedEnd(s: seq<string>)
    ensures NoEqualNeighbours(Squeezed(s)) && (s == [] <==> Squeezed(s) == [])
    ensures s != [] ==> Squeezed(s)[|Squeezed(s)| - 1] == s[|s| - 1]
    ensures NoEqualNeighbours(s) ==> Squeezed(s) == s
  {
    SqueezedLast(s);
    SqueezedHasNone(s);
    if NoEqualNeighbours(s) {
      SqueezedSame(s);
    }
  }

  /** The first of equal neighbours. */
  predicate Turns(s: seq<string>, i: nat)
    requires i < |s|
  {
    i == 0 || s[i] != s[i - 1]
  }

  lemma TurnsBefore(s: seq<string>, n: nat, i: nat)
    requires i < n <= |s|
    ensures Turns(s[..n], i) <==> Turns(s, i)
  {
  }

  /** `kept` is what stands at the places `at` of `s`: exactly the first of equal neighbours. */
  ghost predicate KeptAt(s: seq<string>, kept: seq<string>, at: seq<nat>)
  {
    && |at| == |kept| && (forall j, k :: 0 <= j < k < |at| ==> at[j] < at[k])
    && (forall k :: 0 <= k < |at| ==> at[k] < |s| && kept[k] == s[at[k]])
    && (forall i :: 0 <= i < |s| ==> (i in at <==> Turns(s, i)))
  }

  lemma KeptMore(s: seq<string>, n: nat, kept: seq<string>, at: seq<nat>)
    requires |s| == n + 1 && KeptAt(s[..n], kept, at)
    ensures KeptAt(s, kept + if Turns(s, n) then [s[n]] else [], at + if Turns(s, n) then [n] else [])
  {
    var places := at + if Turns(s, n) then [n] else [];
    assert n !in at;
    forall i: nat | i < |s| ensures i in places <==> Turns(s, i) {
      if i < n {
        TurnsBefore(s, n, i);
        assert i in places <==> i in at;
      }
    }
  }

  /** Dropping immediate repeats keeps just those, in their order. */
  lemma {:induction false} SqueezedPlaces(s: seq<string>) returns (at: seq<nat>)
    ensures KeptAt(s, Squeezed(s), at)
  {
    if |s| <= 1 {
      at := if s == [] then [] else [0];
    } else {
      var n := |s| - 1;
      at := SqueezedPlaces(s[..n]);
      KeptMore(s, n, Squeezed(s[..n]), at);
      at := at + if Turns(s, n) then [n] else [];
    }
  }

  lemma {:induction false} CommandsOfEntries(log: seq<string>)
    requires Entries(log)
    ensures Commands(log) == log
  {
    if log != [] {
      var n := |log| - 1;
      CommandsOfEntries(log[..n]);
      TakeOneMore(log, n);
      Whole(log);
    }
  }

  lemma NextCommand(log: seq<string>, i: nat)
    requires i < |log|
    ensures Commands(log[..i + 1]) == Commands(log[..i]) + if Strip(log[i]) == "" then [] else [Strip(log[i])]
  {
    assert log[..i + 1][..i] == log[..i];
  }

  lemma NextSqueezed(s: seq<string>, k: nat)
    requires k < |s|
    ensures var before := Squeezed(s[..k]);
            Squeezed(s[..k + 1]) == before + if before == [] || before[|before| - 1] != s[k] then [s[k]] else []
  {
    SqueezedEnd(s[..k]);
    assert s[..k + 1][..k] == s[..k];
  }

  lemma WellFormedLog(log: seq<string>, n: nat)
    ensures Entries(log) && NoEqualNeighbours(log) ==> Squeezed(LastItems(Commands(log), n)) == LastItems(log, n)
  {
    if Entries(log) {
      CommandsOfEntries(log);
      SqueezedEnd(LastItems(log, n));
    }
  }

  method ReadCommands(log: seq<string>) returns (commands: seq<string>)
    ensures commands == Commands(log)
  {
    commands := [];
    var i := 0;
    while i < |log|
      invariant 0 <= i <= |log| && commands == Commands(log[..i])
    {
      NextCommand(log, i);
      var cmd := Strip(log[i]);
      if cmd != "" {
        commands := commands + [cmd];
      }
      i := i + 1;
    }
    Whole(log);
  }

  method DropRepeats(recent: seq<string>) returns (items: seq<string>)
    ensures items == Squeezed(recent)
  {
    items := [];
    var k := 0;
    while k < |recent|
      invariant 0 <= k <= |recent| && items == Squeezed(recent[..k])
    {
      NextSqueezed(recent, k);
      if items == [] || items[|items| - 1] != recent[k] {
        items := items + [recent[k]];
      }
      k := k + 1;
    }
    Whole(recent);
  }

  /** Reads the file: stripped commands, the last `maxItems` of them, no immediate repeats. */
  method LoadFromDisk(log: seq<string>, maxItems: nat) returns (items: seq<string>)
    ensures items == Squeezed(LastItems(Commands(log), maxItems)) && NoEqualNeighbours(items)
    ensures Entries(log) && NoEqualNeighbours(log) ==> items == LastItems(log, maxItems)
  {
    var commands := ReadCommands(log);
    items := DropRepeats(LastItems(commands, maxItems));
    SqueezedEnd(LastItems(commands, maxItems));
    WellFormedLog(log, maxItems);
  }

  function Trimmed(s: seq<string>, n: nat): seq<string>
  {
    if |s| > n then LastItems(s, n) else s
  }

  /** Trimming as the list grows keeps it the recent end of the log. */
  lemma TrimmedIsRecent(log: seq<string>, cmd: string, n: nat)
    ensures Trimmed(LastItems(log, n) + [cmd], n) == LastItems(log + [cmd], n)
  {
  }

  lemma RecentEnd(log: seq<string>, n: nat)
    ensures log == [] <==> LastItems(log, n) == []
    ensures log != [] ==> LastItems(log, n)[|LastItems(log, n)| - 1] == log[|log| - 1]
  {
  }

  lemma JournalAdds(ops: seq<Op>, raw: string, sensitive: string -> bool)
    ensures var before := Journal(ops, sensitive);
            var cmd := Strip(raw);
            Journal(ops + [Add(raw)], sensitive)
            == if cmd == "" || sensitive(cmd) || (before != [] && before[|before| - 1] == cmd) then before
               else before + [cmd]
  {
    TakeAppend(ops, [Add(raw)]);
    assert (ops + [Add(raw)])[|ops|] == Add(raw);
  }

  /** The commands that count since the last clear, repeats and all. */
  function Accepted(ops: seq<Op>, sensitive: string -> bool): seq<string>
  {
    if ops == [] then []
    else
      match ops[|ops| - 1]
      case Clear => []
      case Add(raw) =>
        var cmd := Strip(raw);
        Accepted(ops[..|ops| - 1], sensitive) + if cmd == "" || sensitive(cmd) then [] else [cmd]
  }

  lemma SqueezedMore(s: seq<string>, cmd: string)
    ensures Squeezed(s + [cmd]) == Squeezed(s) + if s != [] && s[|s| - 1] == cmd then [] else [cmd]
  {
    TakeAppend(s, [cmd]);
    assert (s + [cmd])[..|s| + 1 - 1] == s;
  }

  lemma SqueezedStep(all: seq<string>, cmd: string, counts: bool)
    ensures var before := Squeezed(all);
            Squeezed(all + if counts then [cmd] else [])
            == if !counts || (before != [] && before[|before| - 1] == cmd) then before else before + [cmd]
  {
    SqueezedEnd(all);
    SqueezedMore(all, cmd);
    Whole(all);
  }

  /** Refusing a repeat at once leaves what dropping the repeats of the whole log at the end would
      leave. */
  lemma {:induction false} JournalIsSqueezed(ops: seq<Op>, sensitive: string -> bool)
    ensures Journal(ops, sensitive) == Squeezed(Accepted(ops, sensitive))
  {
    if ops != [] && ops[|ops| - 1].Add? {
      var init, cmd := ops[..|ops| - 1], Strip(ops[|ops| - 1].cmd);
      JournalIsSqueezed(init, sensitive);
      SqueezedStep(Accepted(init, sensitive), cmd, cmd != "" && !sensitive(cmd));
    }
  }

  lemma EntryAppended(log: seq<string>, cmd: string)
    requires NoEqualNeighbours(log) && Entries(log)
    requires cmd != "" && Strip(cmd) == cmd && (log != [] ==> log[|log| - 1] != cmd)
    ensures NoEqualNeighbours(log + [cmd]) && Entries(log + [cmd])
  {
  }

  lemma OneMore(journal: seq<string>, items: seq<string>, cmd: string, n: nat, longer: seq<string>)
    requires longer == journal + [cmd]
    requires items == LastItems(journal, n) && NoEqualNeighbours(journal) && Entries(journal)
    requires cmd != "" && Strip(cmd) == cmd && (items != [] ==> items[|items| - 1] != cmd)
    ensures Trimmed(items + [cmd], n) == LastItems(longer, n)
    ensures NoEqualNeighbours(longer) && Entries(longer)
  {
    RecentEnd(journal, n);
    EntryAppended(journal, cmd);
    TrimmedIsRecent(journal, cmd, n);
  }

  /** A command that is not added to a list. */
  predicate Skips(cmd: string, items: seq<string>, sensitive: string -> bool)
  {
    cmd == "" || sensitive(cmd) || (items != [] && items[|items| - 1] == cmd)
  }

  /** The end of the list in memory decides as the end of the journal would. */
  lemma SkipsAlike(ops: seq<Op>, raw: string, sensitive: string -> bool, items: seq<string>, n: nat, after: seq<Op>)
    requires after == ops + [Add(raw)] && items == LastItems(Journal(ops, sensitive), n)
    ensures Skips(Strip(raw), items, sensitive) ==> Journal(after, sensitive) == Journal(ops, sensitive)
    ensures !Skips(Strip(raw), items, sensitive) ==> Journal(after, sensitive) == Journal(ops, sensitive) + [Strip(raw)]
    ensures Strip(Strip(raw)) == Strip(raw)
  {
    JournalAdds(ops, raw, sensitive);
    RecentEnd(Journal(ops, sensitive), n);
    StripTwice(raw);
  }

  lemma EntryMore(log: seq<string>, cmd: string)
    requires Entries(log) && cmd != "" && Strip(cmd) == cmd
    ensures Entries(log + [cmd])
  {
  }

  lemma LoadedIsRecent(log: seq<string>, n: nat)
    requires Entries(log)
    ensures Squeezed(LastItems(Commands(log), n)) == Squeezed(LastItems(log, n))
  {
    CommandsOfEntries(log);
  }

  /** The file operations may fail without anybody being told; `synced` is whether the file is
      still what it is meant to be. */
  class Store {
    var items: seq<string>
    var log: seq<string>      // the entries of the file
    const maxItems: nat
    const sensitive: string -> bool
    ghost var ops: seq<Op>    // everything called so far
    ghost var synced: bool

    /** Memory is the recent end of the journal of the calls, and so is the file if no operation
        on it has failed since it was last removed. */
    ghost predicate Valid()
      reads this
    {
      && items == LastItems(Journal(ops, sensitive), maxItems)
      && NoEqualNeighbours(Journal(ops, sensitive)) && Entries(Journal(ops, sensitive))
      && Entries(log) && (synced ==> log == Journal(ops, sensitive))
    }

    constructor (maxItems: nat, sensitive: string -> bool)
      ensures Valid() && ops == [] && synced && this.maxItems == maxItems && this.sensitive == sensitive
    {
      this.maxItems, this.sensitive := maxItems, sensitive;
      items, log, ops, synced := [], [], [], true;
    }

    method WriteLine(cmd: string) returns (written: bool)
      requires Entries(log) && cmd != "" && Strip(cmd) == cmd
      modifies this`log
      ensures log == (if written then old(log) + [cmd] else old(log)) && Entries(log)
    {
      EntryMore(log, cmd);
      written := *;
      if written {
        log := log + [cmd];
      }
    }

    /** Appends a command to the list, and to the file if that can be written. */
    method Append(cmd: string, ghost after: seq<Op>) returns (written: bool)
      requires Valid()
      requires Strip(cmd) == cmd && !Skips(cmd, items, sensitive)
      requires Journal(after, sensitive) == Journal(ops, sensitive) + [cmd]
      modifies this
      ensures Valid() && ops == after && synced == (old(synced) && written)
      ensures log == if written then old(log) + [cmd] else old(log)
    {
      OneMore(Journal(ops, sensitive), items, cmd, maxItems, Journal(after, sensitive));
      items := Trimmed(items + [cmd], maxItems);
      written := WriteLine(cmd);
      synced := synced && written;
      ops := after;
    }

    ghost method Skip(after: seq<Op>)
      requires Valid() && Journal(after, sensitive) == Journal(ops, sensitive)
      modifies this`ops
      ensures Valid() && ops == after
    {
      ops := after;
    }

    method AddCommand(raw: string) returns (written: bool)
      requires Valid()
      modifies this
      ensures Valid() && ops == old(ops) + [Add(raw)] && synced == (old(synced) && written)
      ensures log == old(log) || (written && log == old(log) + [Strip(raw)])
      ensures maxItems > 0 ==> |items| <= maxItems
    {
      LastItemsMeans(Journal(ops + [Add(raw)], sensitive), maxItems);
      ghost var after := ops + [Add(raw)];
      var cmd := Strip(raw);
      SkipsAlike(ops, raw, sensitive, items, maxItems, after);
      if Skips(cmd, items, sensitive) {
        Skip(after);
        return true;
      }
      written := Append(cmd, after);
    }

    /** Memory is cleared in any case; a file that cannot be removed keeps its entries. */
    method ClearDisk() returns (removed: bool)
      requires Valid()
      modifies this
      ensures Valid() && ops == old(ops) + [Clear] && items == []
      ensures log == (if removed then [] else old(log)) && (synced <==> log == [])
    {
      removed := *;
      if removed {
        log := [];
      }
      ops := ops + [Clear];
      items := [];
      synced := log == [];
    }

    /** A new store on the same file loads the recent end of what is in it, without repeats; that
        is the list in memory if no operation on the file has failed. */
    method Reopen() returns (fresh_: seq<string>)
      requires Valid()
      ensures fresh_ == Squeezed(LastItems(log, maxItems)) && NoEqualNeighbours(fresh_)
      ensures synced ==> fresh_ == items
    {
      fresh_ := LoadFromDisk(log, maxItems);
      LoadedIsRecent(log, maxItems);
    }
  }
}
